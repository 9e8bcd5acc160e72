/** The index transformation of SeqLoader: per-letter indices become
    higher-order codes by a valid-mode convolution with the filter
    [A^0, ..., A^(order-1)], and codes below the int8 minimum are clamped. */
module Encoding {
  import opened Common
  import opened Digits

  const Int8Min: int := -128

  /** The base-a number whose digits are d, most significant first. */
  function Value(d: seq<int>, a: int): int
  {
    if |d| == 0 then 0 else d[0] * Pow(a, |d| - 1) + Value(d[1..], a)
  }

  /** The higher-order code of every window of `order` consecutive letters. */
  function Windows(ind: seq<int>, a: int, order: nat): (r: seq<int>)
    requires order <= |ind|
  {
    seq(|ind| - order + 1, j requires 0 <= j <= |ind| - order => Value(ind[j..j + order], a))
  }

  /** The convolution filter [a^0, a^1, ..., a^(order-1)]. */
  function Filter(a: int, order: nat): (f: seq<int>)
    ensures |f| == order
    ensures forall k :: 0 <= k < order ==> f[k] == Pow(a, k)
  {
    if order == 0 then [] else Filter(a, order - 1) + [Pow(a, order - 1)]
  }

  /** The sum over k < m of y[k] * x[i + |y| - 1 - k]: the first m terms of the
      valid-mode convolution of x and y at output position i. */
  function DotRev(x: seq<int>, y: seq<int>, i: nat, m: nat): int
    requires m <= |y| && i + |y| <= |x|
  {
    if m == 0 then 0 else DotRev(x, y, i, m - 1) + y[m - 1] * x[i + |y| - m]
  }

  /** numpy.convolve(u, v, mode='valid'): the longer argument slides under the
      shorter one, so the output has max - min + 1 positions. */
  function ConvolveValid(u: seq<int>, v: seq<int>): seq<int>
    requires |u| > 0 && |v| > 0
  {
    if |u| >= |v| then
      seq(|u| - |v| + 1, i requires 0 <= i <= |u| - |v| => DotRev(u, v, i, |v|))
    else
      seq(|v| - |u| + 1, i requires 0 <= i <= |v| - |u| => DotRev(v, u, i, |u|))
  }

  /** `x[x < int8.min] = int8.min` */
  function ClampInt8(s: seq<int>): seq<int>
  {
    seq(|s|, i requires 0 <= i < |s| => if s[i] < Int8Min then Int8Min else s[i])
  }

  /** The codes SeqLoader stores for one sequence with letter indices `ind`
      over an alphabet of a letters. None where numpy raises ValueError:
      convolving an empty array. */
  function Encode(ind: seq<int>, a: int, order: nat): (r: Option<seq<int>>)
    ensures r.None? <==> order > 1 && |ind| == 0
    ensures r.Some? && order > 1 ==> forall i :: 0 <= i < |r.value| ==> r.value[i] >= Int8Min
  {
    if order > 1 then
      if |ind| == 0 then None else Some(ClampInt8(ConvolveValid(ind, Filter(a, order))))
    else
      Some(ind)
  }

  // ---------------------------------------------------------------------
  // The base-a code of a window

  lemma {:induction false} ValueAppend(s: seq<int>, t: seq<int>, a: int)
    ensures Value(s + t, a) == Value(s, a) * Pow(a, |t|) + Value(t, a)
  {
    if |s| > 0 {
      assert (s + t)[1..] == s[1..] + t;
      ValueAppend(s[1..], t, a);
      PowAdd(a, |s| - 1, |t|);
      calc {
        Value(s + t, a);
        s[0] * Pow(a, |s| + |t| - 1) + Value(s[1..] + t, a);
        s[0] * (Pow(a, |s| - 1) * Pow(a, |t|)) + Value(s[1..], a) * Pow(a, |t|) + Value(t, a);
        { MulDistR(s[0] * Pow(a, |s| - 1), Value(s[1..], a), Pow(a, |t|));
          MulAssoc(s[0], Pow(a, |s| - 1), Pow(a, |t|)); }
        (s[0] * Pow(a, |s| - 1) + Value(s[1..], a)) * Pow(a, |t|) + Value(t, a);
      }
    } else {
      assert s + t == t;
    }
  }

  lemma ValueSnoc(s: seq<int>, x: int, a: int)
    ensures Value(s + [x], a) == Value(s, a) * a + x
  {
    ValueAppend(s, [x], a);
    assert [x][1..] == [];
  }

  /** A window of digits below a has a code below a^|d|. */
  lemma {:induction false} ValueBelow(d: seq<int>, a: int)
    requires a >= 1
    requires forall i :: 0 <= i < |d| ==> d[i] < a
    ensures Value(d, a) < Pow(a, |d|)
  {
    if |d| > 0 {
      ValueBelow(d[1..], a);
      var P := Pow(a, |d| - 1);
      PowPositive(a, |d| - 1);
      MulLeMul(d[0], a - 1, P);
      MulDistR(a - 1, 1, P);
      assert Pow(a, |d|) == a * P;
    }
  }

  /** A window of non-negative digits has a non-negative code. */
  lemma {:induction false} ValueNonneg(d: seq<int>, a: int)
    requires a >= 1
    requires forall i :: 0 <= i < |d| ==> 0 <= d[i]
    ensures Value(d, a) >= 0
  {
    if |d| > 0 {
      ValueNonneg(d[1..], a);
      PowPositive(a, |d| - 1);
      MulLeMul(0, d[0], Pow(a, |d| - 1));
    }
  }

  /** Digit o of the code of a window of letter indices in [0, a) is the letter
      index o places from the end of the window. */
  lemma ValueDigit(d: seq<int>, a: int, o: nat)
    requires a >= 1 && o < |d|
    requires forall i :: 0 <= i < |d| ==> 0 <= d[i] < a
    ensures Digit(Value(d, a), a, o) == d[|d| - 1 - o]
  {
    var n := |d|;
    var h, x, l := d[..n - 1 - o], d[n - 1 - o], d[n - o..];
    assert d == (h + [x]) + l;
    assert |l| == o;
    ValueAppend(h + [x], l, a);
    ValueSnoc(h, x, a);
    ValueBelow(l, a);
    ValueNonneg(l, a);
    PowPositive(a, o);
    DivModUnique(Value(d, a), Pow(a, o), Value(h, a) * a + x, Value(l, a));
    DivModUnique(Value(h, a) * a + x, a, Value(h, a), x);
  }

  /** Changing one letter index changes the code by the difference times its place value. */
  lemma {:induction false} ValueUpdate(d: seq<int>, a: int, p: nat, x: int)
    requires p < |d|
    ensures Value(d[p := x], a) == Value(d, a) + (x - d[p]) * Pow(a, |d| - 1 - p)
  {
    if p == 0 {
      assert d[p := x][1..] == d[1..];
      MulDistR(x, -d[0], Pow(a, |d| - 1));
    } else {
      assert d[p := x][1..] == d[1..][p - 1 := x];
      ValueUpdate(d[1..], a, p - 1, x);
    }
  }

  // ---------------------------------------------------------------------
  // What Encode computes

  /** The filter sum over the last m letters of the window at i is the code of those letters. */
  lemma {:induction false} DotRevFilter(x: seq<int>, a: int, order: nat, i: nat, m: nat)
    requires m <= order && i + order <= |x|
    ensures DotRev(x, Filter(a, order), i, m) == Value(x[i + order - m..i + order], a)
  {
    if m > 0 {
      DotRevFilter(x, a, order, i, m - 1);
      var w := x[i + order - m..i + order];
      assert w[1..] == x[i + order - (m - 1)..i + order];
      assert w[0] == x[i + order - m];
    }
  }

  /** With the sequence shorter than the filter, the sum over the first m
      letters is a^(i + |x| - m) times the code of those letters. */
  lemma {:induction false} DotRevShort(x: seq<int>, a: int, order: nat, i: nat, m: nat)
    requires m <= |x| && i + |x| <= order
    ensures DotRev(Filter(a, order), x, i, m) == Pow(a, i + |x| - m) * Value(x[..m], a)
  {
    if m > 0 {
      DotRevShort(x, a, order, i, m - 1);
      assert x[..m] == x[..m - 1] + [x[m - 1]];
      ValueSnoc(x[..m - 1], x[m - 1], a);
      var P := Pow(a, i + |x| - m);
      var X := Value(x[..m - 1], a);
      assert Pow(a, i + |x| - (m - 1)) == a * P;
      assert Filter(a, order)[i + |x| - m] == P;
      assert DotRev(Filter(a, order), x, i, m) == (a * P) * X + x[m - 1] * P;
      ShiftDigit(a, P, X, x[m - 1]);
    }
  }

  /** (a*P)*X + y*P == P*(X*a + y): one more digit under a place value. */
  lemma ShiftDigit(a: int, P: int, X: int, y: int)
    ensures (a * P) * X + y * P == P * (X * a + y)
  {
    MulAssoc(P, a, X);
    assert (a * P) * X == P * (a * X);
    assert a * X == X * a;
  }

  /** The higher-order codes: for order > 1 and a sequence no shorter than the
      order, n - order + 1 codes, code i being the base-a number
      sum_{k<order} a^k * ind[i+order-1-k] clamped at the int8 minimum; with a
      shorter non-empty sequence, order - n + 1 codes, code i being a^i times
      the code of the whole sequence, clamped; for order <= 1, the indices. */
  lemma EncodeSpec(ind: seq<int>, a: int, order: nat)
    ensures order <= 1 ==> Encode(ind, a, order) == Some(ind)
    ensures order > 1 && |ind| >= order ==>
      var r := Encode(ind, a, order);
      && r.Some? && |r.value| == |ind| - order + 1
      && forall i :: 0 <= i < |r.value| ==> r.value[i] == Max(Value(ind[i..i + order], a), Int8Min)
    ensures order > 1 && 0 < |ind| < order ==>
      var r := Encode(ind, a, order);
      && r.Some? && |r.value| == order - |ind| + 1
      && forall i: nat :: i < |r.value| ==> r.value[i] == Max(Pow(a, i) * Value(ind, a), Int8Min)
  {
    if order > 1 && |ind| >= order {
      forall i | 0 <= i <= |ind| - order
        ensures DotRev(ind, Filter(a, order), i, order) == Value(ind[i..i + order], a)
      {
        DotRevFilter(ind, a, order, i, order);
      }
    }
    if order > 1 && 0 < |ind| < order {
      forall i: nat | i <= order - |ind|
        ensures DotRev(Filter(a, order), ind, i, |ind|) == Pow(a, i) * Value(ind, a)
      {
        DotRevShort(ind, a, order, i, |ind|);
        assert ind[..|ind|] == ind;
      }
    }
  }

  /** For letter indices in [0, a) nothing is clamped: the codes are exactly
      the window codes, for every order >= 1. */
  lemma EncodeDigits(ind: seq<int>, a: int, order: nat)
    requires a >= 1 && 1 <= order <= |ind|
    requires forall i :: 0 <= i < |ind| ==> 0 <= ind[i] < a
    ensures Encode(ind, a, order) == Some(Windows(ind, a, order))
  {
    if order == 1 {
      WindowsOrderOne(ind, a);
    } else {
      var w := Windows(ind, a, order);
      var conv := ConvolveValid(ind, Filter(a, order));
      assert |conv| == |w|;
      forall j | 0 <= j < |w|
        ensures conv[j] == w[j] && conv[j] >= 0
      {
        var d := ind[j..j + order];
        DotRevFilter(ind, a, order, j, order);
        assert forall i :: 0 <= i < |d| ==> 0 <= d[i];
        ValueNonneg(d, a);
      }
      assert conv == w;
      ClampNothing(conv);
    }
  }

  /** Clamping codes that are all at least the int8 minimum changes nothing. */
  lemma ClampNothing(s: seq<int>)
    requires forall i :: 0 <= i < |s| ==> s[i] >= 0
    ensures ClampInt8(s) == s
  {
  }

  lemma WindowsOrderOne(ind: seq<int>, a: int)
    requires |ind| >= 1
    ensures Windows(ind, a, 1) == ind
  {
    var w := Windows(ind, a, 1);
    forall j | 0 <= j < |ind|
      ensures w[j] == ind[j]
    {
      var d := ind[j..j + 1];
      assert d[1..] == [];
      assert Value(d, a) == d[0] * Pow(a, 0) + Value(d[1..], a);
    }
  }
}
