/** Base-A digits of an integer code, and the arithmetic that the variant
    substitution relies on. Python's `//` and `%` with a positive divisor agree
    with Dafny's Euclidean `/` and `%`, so digits are read with those. */
module Digits {
  import opened Common

  /** Digit o of v in base a: `(v // a**o) % a`. */
  function Digit(v: int, a: int, o: nat): int
    requires a >= 1
  {
    PowPositive(a, o);
    (v / Pow(a, o)) % a
  }

  /** Euclidean division is determined by any quotient and remainder in range. */
  lemma DivModUnique(v: int, m: int, q: int, r: int)
    requires m > 0 && v == q * m + r && 0 <= r < m
    ensures v / m == q && v % m == r
  {
    var q0, r0 := v / m, v % m;
    var d := q - q0;
    assert d * m == r0 - r by {
      assert q * m == (q0 + d) * m == q0 * m + d * m;
    }
    if d >= 1 {
      MulAtLeast(d, m);
    } else if d <= -1 {
      MulAtLeast(-d, m);
    }
  }

  lemma MulAtLeast(x: int, m: int)
    requires x >= 1 && m > 0
    ensures x * m >= m
  {
    var y := x - 1;
    assert x * m == y * m + m;
    assert y * m >= 0;
  }

  /** Dividing by a*b is dividing by a, then by b. */
  lemma DivDiv(v: int, a: int, b: int)
    requires a > 0 && b > 0
    ensures v / (a * b) == (v / a) / b
  {
    var q1, r1 := v / a, v % a;
    var q2, r2 := q1 / b, q1 % b;
    assert v == q2 * (a * b) + (r2 * a + r1) by {
      assert v == q1 * a + r1;
      assert q1 == q2 * b + r2;
      MulDistR(q2 * b, r2, a);
      MulAssoc(q2, b, a);
      assert b * a == a * b;
    }
    assert 0 <= r2 * a + r1 < a * b by {
      MulLeMul(0, r2, a);
      MulLeMul(r2, b - 1, a);
      MulDistR(b, -1, a);
      assert b * a == a * b;
    }
    DivModUnique(v, a * b, q2, r2 * a + r1);
  }

  /** Adding a multiple of m moves the quotient and leaves the remainder. */
  lemma DivAddMultiple(v: int, m: int, k: int)
    requires m > 0
    ensures (v + k * m) / m == v / m + k
    ensures (v + k * m) % m == v % m
  {
    assert v + k * m == (v / m + k) * m + v % m;
    DivModUnique(v + k * m, m, v / m + k, v % m);
  }

  /** The digits of v at and above position o, and the part below. */
  lemma Split(v: int, a: int, o: nat)
    requires a >= 1
    ensures Pow(a, o) >= 1
    ensures v == ((v / Pow(a, o + 1)) * a + Digit(v, a, o)) * Pow(a, o) + v % Pow(a, o)
    ensures 0 <= v % Pow(a, o) < Pow(a, o)
  {
    PowPositive(a, o);
    var p := Pow(a, o);
    assert Pow(a, o + 1) == a * p;
    DivDiv(v, p, a);
    var q := v / p;
    assert q == (q / a) * a + q % a;
    assert v == q * p + v % p;
  }

  /** Setting digit o of v from d to e by adding (e - d) * a**o changes digit o
      to e and no other digit, whatever the sign of v. */
  lemma ReplaceDigit(v: int, a: int, o: nat, d: int, e: int)
    requires a >= 1
    requires Digit(v, a, o) == d
    requires 0 <= e < a
    ensures Digit(v + (e - d) * Pow(a, o), a, o) == e
    ensures forall p: nat :: p != o ==> Digit(v + (e - d) * Pow(a, o), a, p) == Digit(v, a, p)
  {
    ReplaceDigitAt(v, a, o, d, e);
    forall p: nat | p != o
      ensures Digit(v + (e - d) * Pow(a, o), a, p) == Digit(v, a, p)
    {
      if p < o {
        ReplaceDigitBelow(v, a, o, d, e, p);
      } else {
        ReplaceDigitAbove(v, a, o, d, e, p);
      }
    }
  }

  lemma ReplaceDigitAt(v: int, a: int, o: nat, d: int, e: int)
    requires a >= 1
    requires Digit(v, a, o) == d
    requires 0 <= e < a
    ensures Pow(a, o) >= 1
    ensures Digit(v + (e - d) * Pow(a, o), a, o) == e
    ensures (v + (e - d) * Pow(a, o)) / Pow(a, o + 1) == v / Pow(a, o + 1)
  {
    PowPositive(a, o);
    var P := Pow(a, o);
    Split(v, a, o);
    assert Pow(a, o + 1) == a * P;
    ReplaceArith(v, a, P, v / Pow(a, o + 1), d, e, v % P);
  }

  /** The arithmetic core of ReplaceDigitAt, with a**o abstracted to P. */
  lemma ReplaceArith(v: int, a: int, P: int, s: int, d: int, e: int, low: int)
    requires a >= 1 && P >= 1
    requires v == (s * a + d) * P + low && 0 <= low < P
    requires 0 <= d < a && 0 <= e < a
    ensures (v + (e - d) * P) / P == s * a + e
    ensures ((v + (e - d) * P) / P) % a == e
    ensures (v + (e - d) * P) / (a * P) == s
  {
    var w := v + (e - d) * P;
    MulDistR(s * a + d, e - d, P);
    assert w == (s * a + e) * P + low;
    DivModUnique(w, P, s * a + e, low);
    DivModUnique(s * a + e, a, s, e);
    MulLeMul(e, a - 1, P);
    MulDistR(a - 1, 1, P);
    MulDistR(s * a, e, P);
    MulAssoc(s, a, P);
    assert w == s * (a * P) + (e * P + low);
    DivModUnique(w, a * P, s, e * P + low);
  }

  lemma MulDistR(x: int, y: int, z: int)
    ensures (x + y) * z == x * z + y * z
  {
  }

  lemma MulAssoc(x: int, y: int, z: int)
    ensures (x * y) * z == x * (y * z)
  {
  }

  lemma MulLeMul(x: int, y: int, z: int)
    requires x <= y && z >= 0
    ensures x * z <= y * z
  {
    MulDistR(y - x, x, z);
    assert (y - x) * z >= 0;
  }

  lemma ReplaceDigitBelow(v: int, a: int, o: nat, d: int, e: int, p: nat)
    requires a >= 1 && p < o
    ensures Digit(v + (e - d) * Pow(a, o), a, p) == Digit(v, a, p)
  {
    PowPositive(a, p);
    var k: nat := o - p;
    var t := (e - d) * Pow(a, k - 1);
    var Pp := Pow(a, p);
    PowAdd(a, p, k);
    assert Pow(a, k) == a * Pow(a, k - 1);
    assert Pow(a, o) == (a * Pow(a, k - 1)) * Pp;
    assert (e - d) * Pow(a, o) == (t * a) * Pp by {
      MulAssoc(e - d, a * Pow(a, k - 1), Pp);
      MulAssoc(e - d, Pow(a, k - 1), a);
      assert a * Pow(a, k - 1) == Pow(a, k - 1) * a;
    }
    DivAddMultiple(v, Pp, t * a);
    DivAddMultiple(v / Pp, a, t);
  }

  lemma ReplaceDigitAbove(v: int, a: int, o: nat, d: int, e: int, p: nat)
    requires a >= 1 && p > o
    requires Digit(v, a, o) == d
    requires 0 <= e < a
    ensures Digit(v + (e - d) * Pow(a, o), a, p) == Digit(v, a, p)
  {
    var w := v + (e - d) * Pow(a, o);
    ReplaceDigitAt(v, a, o, d, e);
    var k: nat := p - (o + 1);
    PowAdd(a, o + 1, k);
    PowPositive(a, o + 1);
    PowPositive(a, k);
    DivDiv(w, Pow(a, o + 1), Pow(a, k));
    DivDiv(v, Pow(a, o + 1), Pow(a, k));
  }
}
