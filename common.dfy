/** Values shared by the whole model: error results, genomic intervals,
    sequence records, integer powers and Python's indexing rules. */
module Common {

  datatype Option<T> = None | Some(value: T)

  /** The Python exceptions the modelled code raises. */
  datatype Error = ValueError | AssertionError | KeyError | IndexError | UnboundLocalError

  datatype Result<T> = Ok(value: T) | Err(error: Error)

  /** Success, or the exception that ended a state-changing operation. */
  datatype Outcome = Pass | Fail(error: Error)

  /** A half-open genomic interval [start, end) on a chromosome, with a strand flag. */
  datatype Interval = Interval(chrom: string, start: int, end: int, strand: char)
  {
    /** The interval length as pybedtools reports it. */
    function Length(): int { end - start }
  }

  /** A sequence record: its identifier, its letters (`seq`) and the letters of its alphabet. */
  datatype SeqRecord = SeqRecord(id: string, bases: string, alphabet: string)

  function Min(a: int, b: int): int { if a < b then a else b }

  function Max(a: int, b: int): int { if a < b then b else a }

  function Pow(b: int, e: nat): int
  {
    if e == 0 then 1 else b * Pow(b, e - 1)
  }

  lemma {:induction false} PowPositive(b: int, e: nat)
    requires b >= 1
    ensures Pow(b, e) >= 1
  {
    if e > 0 {
      PowPositive(b, e - 1);
      assert b * Pow(b, e - 1) >= Pow(b, e - 1) by {
        assert (b - 1) * Pow(b, e - 1) >= 0;
      }
    }
  }

  lemma {:induction false} PowAdd(b: int, e1: nat, e2: nat)
    ensures Pow(b, e1 + e2) == Pow(b, e1) * Pow(b, e2)
  {
    if e1 > 0 {
      PowAdd(b, e1 - 1, e2);
      calc {
        Pow(b, e1 + e2);
        b * Pow(b, e1 - 1 + e2);
        b * (Pow(b, e1 - 1) * Pow(b, e2));
        (b * Pow(b, e1 - 1)) * Pow(b, e2);
      }
    }
  }

  /** Python's `x * k` on a one-element list or string: k copies, none when k <= 0. */
  function Repeat<T>(x: T, k: int): (r: seq<T>)
    ensures |r| == Max(k, 0)
    ensures forall i :: 0 <= i < |r| ==> r[i] == x
    decreases k
  {
    if k <= 0 then [] else [x] + Repeat(x, k - 1)
  }

  /** Python's normalisation of one slice bound against a length n. */
  function SliceBound(n: nat, b: int): (r: nat)
    ensures r <= n
  {
    if b < 0 then (if b + n < 0 then 0 else b + n) else if b > n then n else b
  }

  /** Python's `s[a:b]` with step 1: negative bounds count from the end, and
      bounds that cross give the empty slice. */
  function PySlice<T>(s: seq<T>, a: int, b: int): seq<T>
  {
    var lo := SliceBound(|s|, a);
    var hi := SliceBound(|s|, b);
    if lo < hi then s[lo..hi] else []
  }

  /** Python's `s[j]` for a list of length n: the position it reads, or None
      where Python raises IndexError. */
  function PyIndex(n: nat, j: int): (r: Option<nat>)
    ensures r.Some? <==> -(n as int) <= j < n
    ensures r.Some? ==> r.value < n && (r.value == j || r.value == j + n)
  {
    if 0 <= j < n then Some(j) else if -(n as int) <= j < 0 then Some(j + n) else None
  }

  /** `str.upper()` on ASCII letters. */
  function UpperChar(c: char): char
  {
    if 'a' <= c <= 'z' then (c as int - 32) as char else c
  }

  function Upper(s: string): (r: string)
    ensures |r| == |s|
    ensures forall i :: 0 <= i < |s| ==> r[i] == UpperChar(s[i])
  {
    if s == [] then [] else [UpperChar(s[0])] + Upper(s[1..])
  }

  /** Upper-casing twice is upper-casing once. */
  lemma UpperTwice(s: string)
    ensures Upper(Upper(s)) == Upper(s)
  {
    var u := Upper(s);
    assert forall i :: 0 <= i < |s| ==> Upper(u)[i] == UpperChar(UpperChar(s[i])) == u[i];
  }

  /** A loop that appends one value per element and stops at the first
      exception: the values, or the error of the first failing element. */
  function Collect<T>(rs: seq<Result<T>>): Result<seq<T>>
  {
    if |rs| == 0 then Ok([])
    else
      match Collect(rs[..|rs| - 1])
      case Err(e) => Err(e)
      case Ok(vs) => if rs[|rs| - 1].Err? then Err(rs[|rs| - 1].error) else Ok(vs + [rs[|rs| - 1].value])
  }

  /** Collecting succeeds exactly when every element does, and then gives
      their values in order; a failure is the error of the first failing element. */
  lemma {:induction false} CollectSpec<T>(rs: seq<Result<T>>)
    ensures Collect(rs).Ok? <==> forall i :: 0 <= i < |rs| ==> rs[i].Ok?
    ensures Collect(rs).Ok? ==>
              |Collect(rs).value| == |rs| && forall i :: 0 <= i < |rs| ==> rs[i] == Ok(Collect(rs).value[i])
    ensures Collect(rs).Err? ==>
              exists i :: 0 <= i < |rs| && rs[i] == Err(Collect(rs).error) && forall j :: 0 <= j < i ==> rs[j].Ok?
  {
    if |rs| > 0 {
      var n := |rs|;
      var pre := rs[..n - 1];
      CollectSpec(pre);
      assert forall i :: 0 <= i < n - 1 ==> pre[i] == rs[i];
      var c := Collect(pre);
      if c.Err? {
        var i :| 0 <= i < n - 1 && pre[i] == Err(c.error) && forall j :: 0 <= j < i ==> pre[j].Ok?;
        assert rs[i] == Err(Collect(rs).error);
      } else if rs[n - 1].Err? {
        assert forall j :: 0 <= j < n - 1 ==> rs[j].Ok?;
      }
    }
  }

  /** One element more after a successful prefix. */
  lemma CollectNext<T>(rs: seq<Result<T>>, k: nat, prev: seq<T>)
    requires k < |rs| && Collect(rs[..k]) == Ok(prev)
    ensures Collect(rs[..k + 1]) == if rs[k].Err? then Err(rs[k].error) else Ok(prev + [rs[k].value])
  {
    assert rs[..k + 1][..k] == rs[..k];
  }

  /** Once a prefix fails, the whole list fails the same way. */
  lemma {:induction false} CollectPrefixError<T>(rs: seq<Result<T>>, k: nat)
    requires k <= |rs| && Collect(rs[..k]).Err?
    ensures Collect(rs) == Collect(rs[..k])
    decreases |rs| - k
  {
    if k < |rs| {
      assert rs[..k + 1][..k] == rs[..k];
      CollectPrefixError(rs, k + 1);
    } else {
      assert rs[..k] == rs;
    }
  }
}
