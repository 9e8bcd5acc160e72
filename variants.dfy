/** VariantStreamer: for every admissible single-nucleotide variant, the
    higher-order codes of the reference context window and of the same window
    with the variant letter substituted, streamed in batches. One-hot
    expansion (`as_onehot`) is outside the model, so the rows are the codes it
    is applied to. */
module Variants {
  import opened Common
  import opened Digits
  import opened Encoding

  /** A VCF record: chromosome, 1-based position, optional id, reference
      allele and optional alternative alleles. */
  datatype VcfRecord = VcfRecord(chrom: string, pos: int, id: Option<string>, ref: string,
                                 alts: Option<seq<string>>)

  /** The streamer's inputs: NMAP, the reference Bioseq reduced to its lookup
      of a forward-strand interval, its alphabet size and order, the context
      size and the batch size. */
  datatype Streamer = Streamer(nmap: map<string, int>, store: Interval -> seq<int>, a: int,
                               order: nat, binsize: int, batchSize: int)

  /** is_compatible: exactly one alternative allele, of one letter, and both
      alleles (upper-cased) known to NMAP. */
  predicate IsCompatible(rec: VcfRecord, nmap: map<string, int>)
  {
    && rec.alts.Some? && |rec.alts.value| == 1 && |rec.alts.value[0]| == 1
    && Upper(rec.alts.value[0]) in nmap && Upper(rec.ref) in nmap
  }

  /** With NMAP's keys all single letters, as the nucleotide map's are, a
      compatible record is a single-nucleotide variant. */
  lemma CompatibleIsSnv(rec: VcfRecord, nmap: map<string, int>)
    requires forall k :: k in nmap ==> |k| == 1
    ensures IsCompatible(rec, nmap) ==>
              |rec.ref| == 1 && rec.alts.Some? && |rec.alts.value| == 1 && |rec.alts.value[0]| == 1
  {
    if IsCompatible(rec, nmap) {
      assert |Upper(rec.ref)| == |rec.ref|;
    }
  }

  /** The record with its alleles upper-cased. */
  function UpperAlleles(rec: VcfRecord): (r: VcfRecord)
    ensures r.chrom == rec.chrom && r.pos == rec.pos && r.id == rec.id
  {
    rec.(ref := Upper(rec.ref),
         alts := if rec.alts.None? then None
                 else Some(seq(|rec.alts.value|, i requires 0 <= i < |rec.alts.value| => Upper(rec.alts.value[i]))))
  }

  /** Compatibility ignores the case of the alleles. */
  lemma CompatibleIgnoresCase(rec: VcfRecord, nmap: map<string, int>)
    ensures IsCompatible(UpperAlleles(rec), nmap) <==> IsCompatible(rec, nmap)
  {
    UpperTwice(rec.ref);
    if rec.alts.Some? && |rec.alts.value| == 1 {
      UpperTwice(rec.alts.value[0]);
    }
  }

  // ---------------------------------------------------------------------
  // The context window

  /** The window's 0-based start: the variant's 0-based position sits
      (binsize-1)//2 places into it. */
  function WindowStart(pos: int, binsize: int): (r: int)
    ensures r == pos - 1 - (binsize - 1) / 2
  {
    pos - binsize / 2 + (if binsize % 2 == 0 then 1 else 0) - 1
  }

  /** The window's end: binsize places after its start. */
  function WindowEnd(pos: int, binsize: int): (r: int)
    ensures r - WindowStart(pos, binsize) == binsize
  {
    pos + binsize / 2
  }

  /** The window is binsize long and the variant's 0-based position sits
      (binsize-1)//2 places into it. */
  lemma WindowSpec(pos: int, binsize: int)
    ensures WindowEnd(pos, binsize) - WindowStart(pos, binsize) == binsize
    ensures pos - 1 - WindowStart(pos, binsize) == (binsize - 1) / 2
    ensures binsize >= 1 ==> WindowStart(pos, binsize) <= pos - 1 < WindowEnd(pos, binsize)
  {
  }

  /** A record the streamer uses: compatible, with a window that does not
      start before the chromosome. */
  predicate Admitted(vs: Streamer, rec: VcfRecord)
  {
    IsCompatible(rec, vs.nmap) && WindowStart(rec.pos, vs.binsize) >= 0
  }

  /** The admitted records in file order. */
  function AdmittedRecords(vs: Streamer, recs: seq<VcfRecord>): (r: seq<VcfRecord>)
    ensures |r| <= |recs|
    ensures forall i :: 0 <= i < |r| ==> Admitted(vs, r[i])
    ensures |recs| == 1 ==> r == if Admitted(vs, recs[0]) then recs else []
  {
    if |recs| == 0 then []
    else AdmittedRecords(vs, recs[..|recs| - 1])
         + (if Admitted(vs, recs[|recs| - 1]) then [recs[|recs| - 1]] else [])
  }

  /** The admitted records are exactly the admissible records of the file. */
  lemma {:induction false} AdmittedRecordsMembers(vs: Streamer, recs: seq<VcfRecord>)
    ensures forall rec :: rec in AdmittedRecords(vs, recs) <==> rec in recs && Admitted(vs, rec)
  {
    if |recs| > 0 {
      var pre := recs[..|recs| - 1];
      AdmittedRecordsMembers(vs, pre);
      assert recs == pre + [recs[|recs| - 1]];
    }
  }

  /** Filtering keeps the file order: the admitted records of two stretches
      of the file one after the other are those of the first, then those of
      the second. */
  lemma {:induction false} AdmittedRecordsAppend(vs: Streamer, r1: seq<VcfRecord>, r2: seq<VcfRecord>)
    ensures AdmittedRecords(vs, r1 + r2) == AdmittedRecords(vs, r1) + AdmittedRecords(vs, r2)
    decreases |r2|
  {
    if |r2| == 0 {
      assert r1 + r2 == r1;
    } else {
      var pre := r2[..|r2| - 1];
      AdmittedRecordsAppend(vs, r1, pre);
      assert (r1 + r2)[..|r1 + r2| - 1] == r1 + pre;
    }
  }

  /** get_variant_count */
  method GetVariantCount(vs: Streamer, recs: seq<VcfRecord>) returns (ncounts: nat)
    ensures ncounts == |AdmittedRecords(vs, recs)|
  {
    ncounts := 0;
    for i := 0 to |recs|
      invariant ncounts == |AdmittedRecords(vs, recs[..i])|
    {
      assert recs[..i + 1][..i] == recs[..i];
      var rec := recs[i];
      var start := WindowStart(rec.pos, vs.binsize);
      if start < 0 {
        continue;
      }
      if IsCompatible(rec, vs.nmap) {
        ncounts := ncounts + 1;
      }
    }
    assert recs[..|recs|] == recs;
  }

  // ---------------------------------------------------------------------
  // The substitution

  /** The code the loop reads for digit o is at SubstBase + o. */
  function SubstBase(binsize: int, order: nat): int
  {
    binsize / 2 - order + (if binsize % 2 == 0 then 0 else 1)
  }

  /** Step o of the loop: at iref[j], if digit o is the reference letter,
      move it to the alternative letter; None where Python raises IndexError. */
  function SubstStep(iref: seq<int>, a: int, refIdx: int, altIdx: int, j: int, o: nat): (r: Option<seq<int>>)
    requires a >= 1
    ensures r.Some? ==> |r.value| == |iref|
  {
    match PyIndex(|iref|, j)
    case None => None
    case Some(p) =>
      if refIdx != Digit(iref[p], a, o) then Some(iref)
      else Some(iref[p := iref[p] + (altIdx - refIdx) * Pow(a, o)])
  }

  /** The codes after steps 0 .. k-1. */
  function Substituted(iref: seq<int>, a: int, refIdx: int, altIdx: int, base: int, k: nat): (r: Option<seq<int>>)
    requires a >= 1
    ensures r.Some? ==> |r.value| == |iref|
  {
    if k == 0 then Some(iref)
    else
      match Substituted(iref, a, refIdx, altIdx, base, k - 1)
      case None => None
      case Some(s) => SubstStep(s, a, refIdx, altIdx, base + k - 1, k - 1)
  }

  /** One step touches one code: a matching digit o becomes the alternative
      letter and every other digit of that code stays; a digit that does not
      match leaves the codes as they are. */
  lemma SubstStepSpec(iref: seq<int>, a: int, refIdx: int, altIdx: int, j: int, o: nat)
    requires a >= 1 && 0 <= altIdx < a
    ensures PyIndex(|iref|, j).None? <==> SubstStep(iref, a, refIdx, altIdx, j, o).None?
    ensures PyIndex(|iref|, j).Some? ==>
              var p := PyIndex(|iref|, j).value;
              var r := SubstStep(iref, a, refIdx, altIdx, j, o).value;
              && |r| == |iref|
              && (forall q :: 0 <= q < |iref| && q != p ==> r[q] == iref[q])
              && (Digit(iref[p], a, o) != refIdx ==> r == iref)
              && (Digit(iref[p], a, o) == refIdx ==>
                    && Digit(r[p], a, o) == altIdx
                    && forall o': nat :: o' != o ==> Digit(r[p], a, o') == Digit(iref[p], a, o'))
  {
    if PyIndex(|iref|, j).Some? {
      var p := PyIndex(|iref|, j).value;
      if Digit(iref[p], a, o) == refIdx {
        ReplaceDigit(iref[p], a, o, refIdx, altIdx);
      }
    }
  }

  lemma {:induction false} SubstitutedNonePersists(iref: seq<int>, a: int, refIdx: int, altIdx: int,
                                                   base: int, k: nat, n: nat)
    requires a >= 1 && k <= n && Substituted(iref, a, refIdx, altIdx, base, k).None?
    ensures Substituted(iref, a, refIdx, altIdx, base, n).None?
    decreases n - k
  {
    if k < n {
      SubstitutedNonePersists(iref, a, refIdx, altIdx, base, k + 1, n);
    }
  }

  /** The substitution loop of flow, rewriting iref in place. */
  method SubstituteInPlace(iref: array<int>, a: int, refIdx: int, altIdx: int, base: int, order: nat)
    returns (ok: bool)
    requires a >= 1
    modifies iref
    ensures ok == Substituted(old(iref[..]), a, refIdx, altIdx, base, order).Some?
    ensures ok ==> iref[..] == Substituted(old(iref[..]), a, refIdx, altIdx, base, order).value
  {
    for o := 0 to order
      invariant Substituted(old(iref[..]), a, refIdx, altIdx, base, o) == Some(iref[..])
    {
      var p := PyIndex(iref.Length, base + o);
      if p.None? {
        SubstitutedNonePersists(old(iref[..]), a, refIdx, altIdx, base, o + 1, order);
        return false;
      }
      PowPositive(a, o);
      var irefbase := iref[p.value];
      irefbase := irefbase / Pow(a, o);
      irefbase := irefbase % a;
      if refIdx == irefbase {
        var replacement := (altIdx - refIdx) * Pow(a, o);
        iref[p.value] := iref[p.value] + replacement;
      }
    }
    ok := true;
  }

  // ---------------------------------------------------------------------
  // The substitution re-encodes the window

  /** The variant's place in the window of letter indices. */
  function Centre(binsize: int): int
  {
    (binsize - 1) / 2
  }

  lemma SubstBaseCentre(binsize: int, order: nat)
    ensures SubstBase(binsize, order) + order - 1 == Centre(binsize)
  {
  }

  /** Changing letter c changes only the windows that contain it. */
  lemma WindowOfUpdate(ind: seq<int>, c: nat, x: int, j: nat, order: nat)
    requires c < |ind| && j + order <= |ind|
    ensures j <= c < j + order ==> ind[c := x][j..j + order] == ind[j..j + order][c - j := x]
    ensures !(j <= c < j + order) ==> ind[c := x][j..j + order] == ind[j..j + order]
  {
  }

  /** The codes after k substitution steps, from the reference codes w and
      the codes w2 of the substituted letters: the codes at base .. base+k-1
      are taken from w2 when the reference letter matched. */
  function MixedOf(w: seq<int>, w2: seq<int>, hit: bool, base: int, k: nat): (r: seq<int>)
    requires |w2| == |w|
    ensures |r| == |w|
  {
    seq(|w|, j requires 0 <= j < |w| => if hit && base <= j < base + k then w2[j] else w[j])
  }

  /** One step more takes one code more from w2. */
  lemma MixedOfNext(w: seq<int>, w2: seq<int>, hit: bool, base: int, o: nat)
    requires |w2| == |w| && 0 <= base + o < |w|
    ensures MixedOf(w, w2, hit, base, o + 1)
            == MixedOf(w, w2, hit, base, o)[base + o := if hit then w2[base + o] else w[base + o]]
  {
  }

  /** The substitution loop follows any sequence of codes whose every step is a substitution step. */
  lemma {:induction false} SubstitutedSteps(w: seq<int>, w2: seq<int>, a: int, refIdx: int, altIdx: int,
                                            hit: bool, base: int, k: nat)
    requires a >= 1 && |w2| == |w|
    requires forall o: nat :: o < k ==>
               SubstStep(MixedOf(w, w2, hit, base, o), a, refIdx, altIdx, base + o, o)
               == Some(MixedOf(w, w2, hit, base, o + 1))
    ensures Substituted(w, a, refIdx, altIdx, base, k) == Some(MixedOf(w, w2, hit, base, k))
  {
    if k == 0 {
      assert MixedOf(w, w2, hit, base, 0) == w;
    } else {
      SubstitutedSteps(w, w2, a, refIdx, altIdx, hit, base, k - 1);
      assert SubstStep(MixedOf(w, w2, hit, base, k - 1), a, refIdx, altIdx, base + (k - 1), k - 1)
             == Some(MixedOf(w, w2, hit, base, k));
    }
  }

  /** Step o of the loop on the window codes turns the codes after o steps
      into the codes after o + 1. */
  lemma MixedStep(ind: seq<int>, a: int, order: nat, binsize: int, refIdx: int, altIdx: int, o: nat)
    requires a >= 1 && |ind| == binsize && 1 <= order <= Centre(binsize) + 1 && o < order
    requires forall i :: 0 <= i < |ind| ==> 0 <= ind[i] < a
    ensures var c, base := Centre(binsize), SubstBase(binsize, order);
            var w, w2 := Windows(ind, a, order), Windows(ind[c := altIdx], a, order);
            var hit := ind[c] == refIdx;
            SubstStep(MixedOf(w, w2, hit, base, o), a, refIdx, altIdx, base + o, o)
            == Some(MixedOf(w, w2, hit, base, o + 1))
  {
    var c, base := Centre(binsize), SubstBase(binsize, order);
    SubstBaseCentre(binsize, order);
    var w, w2 := Windows(ind, a, order), Windows(ind[c := altIdx], a, order);
    var hit := ind[c] == refIdx;
    var p := base + o;
    assert 0 <= p < |w|;
    assert w[p] == Value(ind[p..p + order], a) && w2[p] == Value(ind[c := altIdx][p..p + order], a);
    CodeAtCentre(ind, a, order, c, p, o, altIdx);
    MixedOfStep(w, w2, a, refIdx, altIdx, hit, base, o);
  }

  /** A step whose code has digit o equal to the reference letter exactly on
      a hit, and whose substituted code differs by the letter difference times
      a^o, takes that code from w2. */
  lemma MixedOfStep(w: seq<int>, w2: seq<int>, a: int, refIdx: int, altIdx: int, hit: bool, base: int, o: nat)
    requires a >= 1 && |w2| == |w| && 0 <= base + o < |w|
    requires (Digit(w[base + o], a, o) == refIdx) == hit
    requires hit ==> w2[base + o] == w[base + o] + (altIdx - refIdx) * Pow(a, o)
    ensures SubstStep(MixedOf(w, w2, hit, base, o), a, refIdx, altIdx, base + o, o)
            == Some(MixedOf(w, w2, hit, base, o + 1))
  {
    var s := MixedOf(w, w2, hit, base, o);
    MixedOfNext(w, w2, hit, base, o);
    assert s[base + o] == w[base + o];
    assert PyIndex(|s|, base + o) == Some(base + o);
    if hit {
      assert s[base + o := s[base + o] + (altIdx - refIdx) * Pow(a, o)] == s[base + o := w2[base + o]];
    } else {
      assert s[base + o := w[base + o]] == s;
    }
  }

  /** The code of a window holding letter c, o places from the window's end:
      its digit o is that letter, and substituting the letter adds the
      difference times a^o. */
  lemma CodeAtCentre(ind: seq<int>, a: int, order: nat, c: nat, p: nat, o: nat, x: int)
    requires a >= 1 && o < order && p + order <= |ind| && c == p + order - 1 - o
    requires forall i :: 0 <= i < |ind| ==> 0 <= ind[i] < a
    ensures Digit(Value(ind[p..p + order], a), a, o) == ind[c]
    ensures Value(ind[c := x][p..p + order], a) == Value(ind[p..p + order], a) + (x - ind[c]) * Pow(a, o)
  {
    var d := ind[p..p + order];
    assert d[order - 1 - o] == ind[c];
    ValueDigit(d, a, o);
    WindowOfUpdate(ind, c, x, p, order);
    ValueUpdate(d, a, order - 1 - o, x);
  }

  /** On the window codes of letter indices in [0, a), with the order at most
      (binsize-1)//2 + 1 so that every code read lies inside the window, the
      substitution loop yields exactly the window codes of the letters with
      the variant letter substituted when the reference letter matches, and
      the reference codes otherwise. */
  lemma SubstitutionReencodes(ind: seq<int>, a: int, order: nat, binsize: int, refIdx: int, altIdx: int)
    requires a >= 1 && |ind| == binsize && 1 <= order <= Centre(binsize) + 1
    requires forall i :: 0 <= i < |ind| ==> 0 <= ind[i] < a
    ensures Substituted(Windows(ind, a, order), a, refIdx, altIdx, SubstBase(binsize, order), order)
            == Some(if ind[Centre(binsize)] == refIdx then Windows(ind[Centre(binsize) := altIdx], a, order)
                    else Windows(ind, a, order))
  {
    var c, base := Centre(binsize), SubstBase(binsize, order);
    var w, w2 := Windows(ind, a, order), Windows(ind[c := altIdx], a, order);
    var hit := ind[c] == refIdx;
    forall o: nat | o < order
      ensures SubstStep(MixedOf(w, w2, hit, base, o), a, refIdx, altIdx, base + o, o)
              == Some(MixedOf(w, w2, hit, base, o + 1))
    {
      MixedStep(ind, a, order, binsize, refIdx, altIdx, o);
    }
    SubstitutedSteps(w, w2, a, refIdx, altIdx, hit, base, order);
    SubstBaseCentre(binsize, order);
    var m := MixedOf(w, w2, hit, base, order);
    if hit {
      forall j | 0 <= j < |w|
        ensures m[j] == w2[j]
      {
        WindowOfUpdate(ind, c, altIdx, j, order);
      }
      assert m == w2;
    } else {
      assert m == w;
    }
  }

  // ---------------------------------------------------------------------
  // Entries and batches

  /** What flow yields per admitted record: the id (or ''), the chromosome,
      the 0-based position, both alleles upper-cased, and the reference and
      alternative code rows. */
  datatype Entry = Entry(name: string, chrom: string, pos: int, refAllele: string, altAllele: string,
                         ref: seq<int>, alt: seq<int>)

  /** One yielded tuple: `names, chroms, poss, rallele, aallele, refs, alts`. */
  datatype Batch = Batch(names: seq<string>, chroms: seq<string>, poss: seq<int>,
                         rallele: seq<string>, aallele: seq<string>,
                         refs: seq<seq<int>>, alts: seq<seq<int>>)

  /** The columns of a list of entries. */
  function BatchOf(es: seq<Entry>): Batch
  {
    if |es| == 0 then Batch([], [], [], [], [], [], [])
    else
      var b := BatchOf(es[..|es| - 1]);
      var e := es[|es| - 1];
      Batch(b.names + [e.name], b.chroms + [e.chrom], b.poss + [e.pos], b.rallele + [e.refAllele],
            b.aallele + [e.altAllele], b.refs + [e.ref], b.alts + [e.alt])
  }

  /** Column j of a batch lists field j of its entries, in order. */
  lemma {:induction false} BatchOfSpec(es: seq<Entry>)
    ensures var b := BatchOf(es);
            && |b.names| == |b.chroms| == |b.poss| == |b.rallele| == |b.aallele| == |b.refs| == |b.alts| == |es|
            && forall i :: 0 <= i < |es| ==>
                 && b.names[i] == es[i].name && b.chroms[i] == es[i].chrom && b.poss[i] == es[i].pos
                 && b.rallele[i] == es[i].refAllele && b.aallele[i] == es[i].altAllele
                 && b.refs[i] == es[i].ref && b.alts[i] == es[i].alt
  {
    if |es| > 0 {
      BatchOfSpec(es[..|es| - 1]);
    }
  }

  /** A row assigned into the batch buffer: a one-letter row spreads over the width. */
  function Fill(x: seq<int>, w: int): seq<int>
  {
    if |x| == 1 then Repeat(x[0], w) else x
  }

  /** The entry for an admitted record, or the exception its processing
      raises: a looked-up row that fits neither the buffer width nor numpy's
      broadcast (ValueError), or a substitution index outside the row (IndexError). */
  function EntryFor(vs: Streamer, rec: VcfRecord): (r: Result<Entry>)
    requires vs.a >= 1 && IsCompatible(rec, vs.nmap)
    ensures r.Ok? ==> && r.value.name == (if rec.id.Some? then rec.id.value else "")
                      && r.value.chrom == rec.chrom && r.value.pos == rec.pos - 1
                      && r.value.refAllele == Upper(rec.ref) && r.value.altAllele == Upper(rec.alts.value[0])
    ensures r.Ok? && vs.binsize - vs.order + 1 >= 0 ==>
              |r.value.ref| == |r.value.alt| == vs.binsize - vs.order + 1
    ensures r.Err? ==> r.error == ValueError || r.error == IndexError
    ensures var iref := vs.store(Interval(rec.chrom, WindowStart(rec.pos, vs.binsize),
                                          WindowEnd(rec.pos, vs.binsize), '.'));
            |iref| != vs.binsize - vs.order + 1 && |iref| != 1 ==> r == Err(ValueError)
  {
    var w := vs.binsize - vs.order + 1;
    var iv := Interval(rec.chrom, WindowStart(rec.pos, vs.binsize), WindowEnd(rec.pos, vs.binsize), '.');
    var iref := vs.store(iv);
    var refIdx, altIdx := vs.nmap[Upper(rec.ref)], vs.nmap[Upper(rec.alts.value[0])];
    if |iref| != w && |iref| != 1 then Err(ValueError)
    else
      match Substituted(iref, vs.a, refIdx, altIdx, SubstBase(vs.binsize, vs.order), vs.order)
      case None => Err(IndexError)
      case Some(s) =>
        Ok(Entry(if rec.id.Some? then rec.id.value else "", rec.chrom, rec.pos - 1,
                 Upper(rec.ref), Upper(rec.alts.value[0]), Fill(iref, w), Fill(s, w)))
  }

  /** When the reference lookup of the window is the window code of its letter
      indices, the entry's reference row is that code and its alternative row
      is the code of the letters with the variant letter substituted, or the
      reference code again when the VCF reference letter does not match. */
  lemma EntryReencodes(vs: Streamer, rec: VcfRecord, ind: seq<int>)
    requires vs.a >= 1 && IsCompatible(rec, vs.nmap)
    requires |ind| == vs.binsize && 1 <= vs.order <= Centre(vs.binsize) + 1
    requires forall i :: 0 <= i < |ind| ==> 0 <= ind[i] < vs.a
    requires 0 <= vs.nmap[Upper(rec.alts.value[0])] < vs.a
    requires vs.store(Interval(rec.chrom, WindowStart(rec.pos, vs.binsize), WindowEnd(rec.pos, vs.binsize), '.'))
             == Windows(ind, vs.a, vs.order)
    ensures EntryFor(vs, rec).Ok?
    ensures var e := EntryFor(vs, rec).value;
            var c := Centre(vs.binsize);
            && e.pos == rec.pos - 1 && e.chrom == rec.chrom
            && e.ref == Windows(ind, vs.a, vs.order)
            && e.alt == if ind[c] == vs.nmap[Upper(rec.ref)]
                        then Windows(ind[c := vs.nmap[Upper(rec.alts.value[0])]], vs.a, vs.order)
                        else Windows(ind, vs.a, vs.order)
  {
    var w := vs.binsize - vs.order + 1;
    var refIdx, altIdx := vs.nmap[Upper(rec.ref)], vs.nmap[Upper(rec.alts.value[0])];
    var iref := Windows(ind, vs.a, vs.order);
    SubstitutionReencodes(ind, vs.a, vs.order, vs.binsize, refIdx, altIdx);
    var c := Centre(vs.binsize);
    var r := if ind[c] == refIdx then Windows(ind[c := altIdx], vs.a, vs.order) else iref;
    assert |r| == w && |iref| == w;
    assert Substituted(iref, vs.a, refIdx, altIdx, SubstBase(vs.binsize, vs.order), vs.order) == Some(r);
    FillSame(r, w);
    FillSame(iref, w);
  }

  /** A row of the full width is not broadcast. */
  lemma FillSame(x: seq<int>, w: int)
    requires |x| == w
    ensures Fill(x, w) == x
  {
    if |x| == 1 {
      assert Repeat(x[0], w)[0] == x[0];
    }
  }

  /** The entries flow produces from the records in order, up to the first
      exception, which ends the stream. */
  function Scan(vs: Streamer, recs: seq<VcfRecord>): (r: (seq<Entry>, Option<Error>))
    requires vs.a >= 1
    ensures |r.0| <= |AdmittedRecords(vs, recs)|
  {
    if |recs| == 0 then ([], None) else ScanStep(vs, Scan(vs, recs[..|recs| - 1]), recs[|recs| - 1])
  }

  /** One record more: skipped when not admitted, otherwise its entry or its exception. */
  function ScanStep(vs: Streamer, acc: (seq<Entry>, Option<Error>), rec: VcfRecord): (seq<Entry>, Option<Error>)
    requires vs.a >= 1
  {
    if acc.1.Some? || !Admitted(vs, rec) then acc
    else
      match EntryFor(vs, rec)
      case Err(e) => (acc.0, Some(e))
      case Ok(entry) => (acc.0 + [entry], None)
  }

  lemma ScanNext(vs: Streamer, recs: seq<VcfRecord>, k: nat)
    requires vs.a >= 1 && k < |recs|
    ensures Scan(vs, recs[..k + 1]) == ScanStep(vs, Scan(vs, recs[..k]), recs[k])
  {
    assert recs[..k + 1][..k] == recs[..k];
  }

  /** A record that is not admitted leaves the scan as it was. */
  lemma ScanSkip(vs: Streamer, recs: seq<VcfRecord>, k: nat)
    requires vs.a >= 1 && k < |recs| && !Admitted(vs, recs[k])
    ensures Scan(vs, recs[..k + 1]) == Scan(vs, recs[..k])
  {
    ScanNext(vs, recs, k);
  }

  /** An admitted record after a clean scan adds its entry, or ends it with its exception. */
  lemma ScanTake(vs: Streamer, recs: seq<VcfRecord>, k: nat)
    requires vs.a >= 1 && k < |recs| && Admitted(vs, recs[k]) && Scan(vs, recs[..k]).1.None?
    ensures EntryFor(vs, recs[k]).Ok? ==>
      Scan(vs, recs[..k + 1]) == (Scan(vs, recs[..k]).0 + [EntryFor(vs, recs[k]).value], None)
    ensures EntryFor(vs, recs[k]).Err? ==>
      Scan(vs, recs[..k + 1]) == (Scan(vs, recs[..k]).0, Some(EntryFor(vs, recs[k]).error))
  {
    ScanNext(vs, recs, k);
  }

  /** Entry i belongs to admitted record i; the stream ends cleanly after all
      of them, or with the exception of the first admitted record that fails. */
  lemma {:induction false} ScanAdmitted(vs: Streamer, recs: seq<VcfRecord>)
    requires vs.a >= 1
    ensures var (es, err) := Scan(vs, recs);
            var adm := AdmittedRecords(vs, recs);
            && |es| <= |adm|
            && (forall i :: 0 <= i < |es| ==> EntryFor(vs, adm[i]) == Ok(es[i]))
            && (err.None? ==> |es| == |adm|)
            && (err.Some? ==> |es| < |adm| && EntryFor(vs, adm[|es|]) == Err(err.value))
  {
    if |recs| > 0 {
      var pre := recs[..|recs| - 1];
      ScanAdmitted(vs, pre);
      var adm0 := AdmittedRecords(vs, pre);
      var adm := AdmittedRecords(vs, recs);
      assert adm[..|adm0|] == adm0;
      assert forall i :: 0 <= i < |adm0| ==> adm[i] == adm0[i];
    }
  }

  lemma {:induction false} ScanErrorPersists(vs: Streamer, recs: seq<VcfRecord>, k: nat)
    requires vs.a >= 1 && k <= |recs| && Scan(vs, recs[..k]).1.Some?
    ensures Scan(vs, recs) == Scan(vs, recs[..k])
    decreases |recs| - k
  {
    if k < |recs| {
      assert recs[..k + 1][..k] == recs[..k];
      ScanErrorPersists(vs, recs, k + 1);
    } else {
      assert recs[..k] == recs;
    }
  }

  /** The full batches of es, in order. */
  function Chunks(es: seq<Entry>, bs: nat): seq<seq<Entry>>
    requires bs >= 1
    decreases |es|
  {
    if |es| < bs then [] else [es[..bs]] + Chunks(es[bs..], bs)
  }

  /** What is left of es after its full batches. */
  function Remainder(es: seq<Entry>, bs: nat): seq<Entry>
    requires bs >= 1
    decreases |es|
  {
    if |es| < bs then es else Remainder(es[bs..], bs)
  }

  function Flatten(cs: seq<seq<Entry>>): seq<Entry>
  {
    if |cs| == 0 then [] else cs[0] + Flatten(cs[1..])
  }

  /** The full batches and the remainder are es cut in order: every full batch
      holds bs entries and the remainder fewer. */
  lemma ChunksPartition(es: seq<Entry>, bs: nat)
    requires bs >= 1
    ensures Flatten(Chunks(es, bs)) + Remainder(es, bs) == es
    ensures forall i :: 0 <= i < |Chunks(es, bs)| ==> |Chunks(es, bs)[i]| == bs
    ensures |Remainder(es, bs)| < bs
  {
    ChunksFlatten(es, bs);
    ChunksFull(es, bs);
    RemainderShort(es, bs);
  }

  lemma {:induction false} ChunksFlatten(es: seq<Entry>, bs: nat)
    requires bs >= 1
    ensures Flatten(Chunks(es, bs)) + Remainder(es, bs) == es
    decreases |es|
  {
    if |es| >= bs {
      var rest := es[bs..];
      ChunksFlatten(rest, bs);
      var cs := Chunks(es, bs);
      assert cs == [es[..bs]] + Chunks(rest, bs);
      assert cs[0] == es[..bs] && cs[1..] == Chunks(rest, bs);
      assert Flatten(cs) == es[..bs] + Flatten(Chunks(rest, bs));
      assert Flatten(cs) + Remainder(es, bs) == es[..bs] + (Flatten(Chunks(rest, bs)) + Remainder(rest, bs));
      assert es == es[..bs] + rest;
    }
  }

  lemma {:induction false} ChunksFull(es: seq<Entry>, bs: nat)
    requires bs >= 1
    ensures forall i :: 0 <= i < |Chunks(es, bs)| ==> |Chunks(es, bs)[i]| == bs
    decreases |es|
  {
    if |es| >= bs {
      ChunksFull(es[bs..], bs);
      assert Chunks(es, bs) == [es[..bs]] + Chunks(es[bs..], bs);
    }
  }

  lemma {:induction false} RemainderShort(es: seq<Entry>, bs: nat)
    requires bs >= 1
    ensures |Remainder(es, bs)| < bs
    decreases |es|
  {
    if |es| >= bs {
      RemainderShort(es[bs..], bs);
    }
  }

  /** Appending at most one batch worth of entries to an exact number of full
      batches: a full batch more, or a remainder. */
  lemma {:induction false} ChunksAppend(es: seq<Entry>, cur: seq<Entry>, bs: nat)
    requires bs >= 1 && Remainder(es, bs) == [] && |cur| <= bs
    ensures Chunks(es + cur, bs) == Chunks(es, bs) + (if |cur| == bs then [cur] else [])
    ensures Remainder(es + cur, bs) == if |cur| == bs then [] else cur
    decreases |es|
  {
    if |es| < bs {
      assert es + cur == cur;
      if |cur| == bs {
        assert cur[..bs] == cur && cur[bs..] == [];
      }
    } else {
      ChunksAppend(es[bs..], cur, bs);
      assert (es + cur)[..bs] == es[..bs];
      assert (es + cur)[bs..] == es[bs..] + cur;
    }
  }

  function Batches(cs: seq<seq<Entry>>): seq<Batch>
  {
    seq(|cs|, i requires 0 <= i < |cs| => BatchOf(cs[i]))
  }

  /** The number of records in a list of batches. */
  function TotalSize(bs: seq<Batch>): nat
  {
    if |bs| == 0 then 0 else |bs[0].names| + TotalSize(bs[1..])
  }

  /** What flow yields, consumed to the end: with a negative batch size or
      width numpy raises ValueError before the first batch; otherwise the full
      batches, then either the final (possibly empty) batch or the exception
      that ended the stream. */
  function FlowSpec(vs: Streamer, recs: seq<VcfRecord>): (r: (seq<Batch>, Option<Error>))
    requires vs.a >= 1 && vs.batchSize != 0
    ensures vs.batchSize < 0 || vs.binsize - vs.order + 1 < 0 ==> r == ([], Some(ValueError))
    ensures r.1.None? ==> |r.0| >= 1
  {
    if vs.batchSize < 0 || vs.binsize - vs.order + 1 < 0 then ([], Some(ValueError))
    else
      var (es, err) := Scan(vs, recs);
      var bs: nat := vs.batchSize;
      if err.Some? then (Batches(Chunks(es, bs)), err)
      else (Batches(Chunks(es, bs)) + [BatchOf(Remainder(es, bs))], None)
  }

  lemma {:induction false} TotalSizeBatches(cs: seq<seq<Entry>>)
    ensures TotalSize(Batches(cs)) == |Flatten(cs)|
  {
    if |cs| > 0 {
      TotalSizeBatches(cs[1..]);
      BatchOfSpec(cs[0]);
      assert Batches(cs)[1..] == Batches(cs[1..]);
    }
  }

  lemma {:induction false} TotalSizeAppend(bs: seq<Batch>, b: Batch)
    ensures TotalSize(bs + [b]) == TotalSize(bs) + |b.names|
  {
    if |bs| > 0 {
      assert (bs + [b])[1..] == bs[1..] + [b];
      TotalSizeAppend(bs[1..], b);
    } else {
      assert ([b])[1..] == [];
    }
  }

  /** A stream that ends cleanly yields full batches of batch_size records, then
      one smaller final batch, and as many records in all as get_variant_count
      counts. */
  lemma FlowBatching(vs: Streamer, recs: seq<VcfRecord>)
    requires vs.a >= 1 && vs.batchSize != 0 && FlowSpec(vs, recs).1.None?
    ensures var batches := FlowSpec(vs, recs).0;
            && |batches| >= 1
            && (forall i :: 0 <= i < |batches| - 1 ==> |batches[i].names| == vs.batchSize)
            && |batches[|batches| - 1].names| < vs.batchSize
            && TotalSize(batches) == |AdmittedRecords(vs, recs)|
  {
    var (es, err) := Scan(vs, recs);
    var bs: nat := vs.batchSize;
    ChunksPartition(es, bs);
    ScanAdmitted(vs, recs);
    TotalSizeBatches(Chunks(es, bs));
    TotalSizeAppend(Batches(Chunks(es, bs)), BatchOf(Remainder(es, bs)));
    BatchOfSpec(Remainder(es, bs));
    var batches := FlowSpec(vs, recs).0;
    forall i | 0 <= i < |batches| - 1
      ensures |batches[i].names| == vs.batchSize
    {
      BatchOfSpec(Chunks(es, bs)[i]);
    }
  }

  lemma BatchOfSnoc(es: seq<Entry>, e: Entry)
    ensures var b := BatchOf(es);
            BatchOf(es + [e])
            == Batch(b.names + [e.name], b.chroms + [e.chrom], b.poss + [e.pos], b.rallele + [e.refAllele],
                     b.aallele + [e.altAllele], b.refs + [e.ref], b.alts + [e.alt])
  {
    assert (es + [e])[..|es|] == es;
  }

  /** The body of flow's inner loop for an admitted record: look up the
      window, store its row in `refs[ibatch]`, substitute the variant in place
      and store the result in `alts[ibatch]`. */
  method LoadEntry(vs: Streamer, rec: VcfRecord, start: int, end: int,
                   refs: array<seq<int>>, alts: array<seq<int>>, ibatch: nat)
    returns (r: Result<Entry>)
    requires vs.a >= 1 && IsCompatible(rec, vs.nmap) && ibatch < refs.Length == alts.Length
    requires refs != alts
    requires start == WindowStart(rec.pos, vs.binsize) && end == WindowEnd(rec.pos, vs.binsize)
    modifies refs, alts
    ensures r == EntryFor(vs, rec)
    ensures r.Ok? ==> r.value.name == (if rec.id.Some? then rec.id.value else "") && r.value.chrom == rec.chrom
                      && r.value.pos == rec.pos - 1 && r.value.refAllele == Upper(rec.ref)
                      && r.value.altAllele == Upper(rec.alts.value[0])
    ensures r.Ok? ==> refs[..] == old(refs[..])[ibatch := r.value.ref]
                      && alts[..] == old(alts[..])[ibatch := r.value.alt]
  {
    var w := vs.binsize - vs.order + 1;
    var fetched := vs.store(Interval(rec.chrom, start, end, '.'));
    if |fetched| != w && |fetched| != 1 {
      return Err(ValueError);
    }
    var iref := new int[|fetched|](i requires 0 <= i < |fetched| => fetched[i]);
    assert iref[..] == fetched;
    refs[ibatch] := Fill(iref[..], w);
    var refIdx, altIdx := vs.nmap[Upper(rec.ref)], vs.nmap[Upper(rec.alts.value[0])];
    var ok := SubstituteInPlace(iref, vs.a, refIdx, altIdx, SubstBase(vs.binsize, vs.order), vs.order);
    if !ok {
      return Err(IndexError);
    }
    alts[ibatch] := Fill(iref[..], w);
    r := EntryFor(vs, rec);
  }

  /** The columns of the batch being filled, with the buffers refs and alts,
      hold the entries read so far. */
  ghost predicate Columns(names: seq<string>, chroms: seq<string>, poss: seq<int>, rallele: seq<string>,
                          aallele: seq<string>, refs: seq<seq<int>>, alts: seq<seq<int>>, cur: seq<Entry>)
  {
    |cur| <= |refs| && |cur| <= |alts|
    && Batch(names, chroms, poss, rallele, aallele, refs[..|cur|], alts[..|cur|]) == BatchOf(cur)
  }

  /** Appending an entry's fields to the columns and storing its rows in the
      next buffer slots keeps the columns in step with the entries. */
  lemma ColumnsSnoc(names: seq<string>, chroms: seq<string>, poss: seq<int>, rallele: seq<string>,
                    aallele: seq<string>, refs: seq<seq<int>>, alts: seq<seq<int>>, cur: seq<Entry>, e: Entry)
    requires Columns(names, chroms, poss, rallele, aallele, refs, alts, cur)
    requires |cur| < |refs| && |cur| < |alts|
    ensures Columns(names + [e.name], chroms + [e.chrom], poss + [e.pos], rallele + [e.refAllele],
                    aallele + [e.altAllele], refs[|cur| := e.ref], alts[|cur| := e.alt], cur + [e])
  {
    BatchOfSnoc(cur, e);
    assert refs[|cur| := e.ref][..|cur| + 1] == refs[..|cur|] + [e.ref];
    assert alts[|cur| := e.alt][..|cur| + 1] == alts[..|cur|] + [e.alt];
  }

  /** One iteration of flow's inner loop on record k: skip it, or append its
      fields to the columns and its rows to `refs[ibatch]` and `alts[ibatch]`,
      or raise. */
  method ReadRecord(vs: Streamer, recs: seq<VcfRecord>, k: nat, refs: array<seq<int>>, alts: array<seq<int>>,
                    ibatch: nat, names: seq<string>, chroms: seq<string>, poss: seq<int>,
                    rallele: seq<string>, aallele: seq<string>, ghost es: seq<Entry>, ghost cur: seq<Entry>)
    returns (names': seq<string>, chroms': seq<string>, poss': seq<int>, rallele': seq<string>,
             aallele': seq<string>, taken: bool, err: Option<Error>, ghost cur': seq<Entry>)
    requires vs.a >= 1 && k < |recs| && ibatch == |cur| < refs.Length == alts.Length && refs != alts
    requires Scan(vs, recs[..k]) == (es + cur, None)
    requires Columns(names, chroms, poss, rallele, aallele, refs[..], alts[..], cur)
    modifies refs, alts
    ensures err.Some? ==> Scan(vs, recs) == (es + cur, err) && cur' == cur
    ensures err.None? ==> Scan(vs, recs[..k + 1]) == (es + cur', None)
                          && Columns(names', chroms', poss', rallele', aallele', refs[..], alts[..], cur')
    ensures err.None? && taken ==> |cur'| == |cur| + 1 && cur' == cur + [cur'[|cur|]]
    ensures err.None? && !taken ==> cur' == cur
  {
    names', chroms', poss', rallele', aallele', taken, err, cur' := names, chroms, poss, rallele, aallele, false, None, cur;
    var rec := recs[k];
    if !IsCompatible(rec, vs.nmap) {
      ScanSkip(vs, recs, k);
      return;
    }
    var start := WindowStart(rec.pos, vs.binsize);
    var end := WindowEnd(rec.pos, vs.binsize);
    if start < 0 {
      ScanSkip(vs, recs, k);
      return;
    }
    ScanTake(vs, recs, k);
    var entry;
    names', chroms', poss', rallele', aallele', entry :=
      TakeRecord(vs, rec, start, end, refs, alts, ibatch, names, chroms, poss, rallele, aallele, cur);
    if entry.Err? {
      ScanErrorPersists(vs, recs, k + 1);
      return names', chroms', poss', rallele', aallele', true, Some(entry.error), cur;
    }
    assert (es + cur) + [entry.value] == es + (cur + [entry.value]);
    taken, cur' := true, cur + [entry.value];
  }

  /** An admitted record: its fields appended to the columns, its rows
      stored in `refs[ibatch]` and `alts[ibatch]`, or its exception. */
  method TakeRecord(vs: Streamer, rec: VcfRecord, start: int, end: int, refs: array<seq<int>>,
                    alts: array<seq<int>>, ibatch: nat, names: seq<string>, chroms: seq<string>, poss: seq<int>,
                    rallele: seq<string>, aallele: seq<string>, ghost cur: seq<Entry>)
    returns (names': seq<string>, chroms': seq<string>, poss': seq<int>, rallele': seq<string>,
             aallele': seq<string>, entry: Result<Entry>)
    requires vs.a >= 1 && IsCompatible(rec, vs.nmap) && ibatch == |cur| < refs.Length == alts.Length && refs != alts
    requires start == WindowStart(rec.pos, vs.binsize) && end == WindowEnd(rec.pos, vs.binsize)
    requires Columns(names, chroms, poss, rallele, aallele, refs[..], alts[..], cur)
    modifies refs, alts
    ensures entry == EntryFor(vs, rec)
    ensures entry.Ok? ==> Columns(names', chroms', poss', rallele', aallele', refs[..], alts[..], cur + [entry.value])
  {
    names' := names + [if rec.id.Some? then rec.id.value else ""];
    chroms' := chroms + [rec.chrom];
    poss' := poss + [rec.pos - 1];
    rallele' := rallele + [Upper(rec.ref)];
    aallele' := aallele + [Upper(rec.alts.value[0])];
    entry := LoadEntry(vs, rec, start, end, refs, alts, ibatch);
    if entry.Ok? {
      ColumnsSnoc(names, chroms, poss, rallele, aallele, old(refs[..]), old(alts[..]), cur, entry.value);
    }
  }

  /** One pass of flow's inner loop from record k0: reads records until
      batch_size entries are in the buffers, the records run out
      (StopIteration) or a record raises; the batch holds the entries read. */
  method NextBatch(vs: Streamer, recs: seq<VcfRecord>, k0: nat, refs: array<seq<int>>,
                   alts: array<seq<int>>, ghost es: seq<Entry>)
    returns (b: Batch, ibatch: nat, k: nat, err: Option<Error>, ghost cur: seq<Entry>)
    requires vs.a >= 1 && 1 <= vs.batchSize && k0 <= |recs|
    requires refs.Length == alts.Length == vs.batchSize && refs != alts
    requires Scan(vs, recs[..k0]) == (es, None)
    modifies refs, alts
    ensures k0 <= k <= |recs| && ibatch == |cur| <= vs.batchSize
    ensures err.None? ==> Scan(vs, recs[..k]) == (es + cur, None) && b == BatchOf(cur)
    ensures err.None? && ibatch == vs.batchSize ==> k > k0
    ensures err.None? && ibatch < vs.batchSize ==> k == |recs|
    ensures err.Some? ==> ibatch < vs.batchSize && Scan(vs, recs) == (es + cur, err)
  {
    var names, chroms, poss, rallele, aallele := [], [], [], [], [];
    var bs := vs.batchSize;
    ibatch, k, cur := 0, k0, [];
    assert es + cur == es;
    while ibatch < bs
      invariant k0 <= k <= |recs| && ibatch <= k - k0
      invariant 0 <= ibatch <= bs && |cur| == ibatch
      invariant Scan(vs, recs[..k]) == (es + cur, None)
      invariant Columns(names, chroms, poss, rallele, aallele, refs[..], alts[..], cur)
      decreases |recs| - k
    {
      if k == |recs| {
        // StopIteration
        return Batch(names, chroms, poss, rallele, aallele, refs[..ibatch], alts[..ibatch]), ibatch, k, None, cur;
      }
      var taken;
      names, chroms, poss, rallele, aallele, taken, err, cur :=
        ReadRecord(vs, recs, k, refs, alts, ibatch, names, chroms, poss, rallele, aallele, es, cur);
      k := k + 1;
      if err.Some? {
        return Batch(names, chroms, poss, rallele, aallele, refs[..ibatch], alts[..ibatch]), ibatch, k, err, cur;
      }
      if taken {
        ibatch := ibatch + 1;
      }
    }
    assert refs[..] == refs[..bs] && alts[..] == alts[..bs];
    b, err := Batch(names, chroms, poss, rallele, aallele, refs[..], alts[..]), None;
  }

  /** VariantStreamer.flow, consumed to the end: the batches it yields and the
      exception that ended it, if any. */
  method Flow(vs: Streamer, recs: seq<VcfRecord>) returns (batches: seq<Batch>, err: Option<Error>)
    requires vs.a >= 1 && vs.batchSize != 0
    ensures (batches, err) == FlowSpec(vs, recs)
  {
    var w := vs.binsize - vs.order + 1;
    if vs.batchSize < 0 || w < 0 {
      return [], Some(ValueError);
    }
    var bs: nat := vs.batchSize;
    var refs := new seq<int>[bs](_ => []);
    var alts := new seq<int>[bs](_ => []);
    batches := [];
    ghost var es: seq<Entry> := [];
    ghost var chunks: seq<seq<Entry>> := [];
    var k := 0;
    while true
      invariant 0 <= k <= |recs|
      invariant Scan(vs, recs[..k]) == (es, None)
      invariant Chunks(es, bs) == chunks && Remainder(es, bs) == []
      invariant batches == Batches(chunks)
      decreases |recs| - k
    {
      var b, ibatch, k', e, cur := NextBatch(vs, recs, k, refs, alts, es);
      ChunksAppend(es, cur, bs);
      if e.Some? {
        assert Chunks(es + cur, bs) == chunks;
        return batches, e;
      }
      if ibatch < bs {
        assert recs[..k'] == recs;
        assert Scan(vs, recs) == (es + cur, None);
        assert Chunks(es + cur, bs) == chunks && Remainder(es + cur, bs) == cur;
        return batches + [b], None;
      }
      assert Batches(chunks + [cur]) == Batches(chunks) + [BatchOf(cur)];
      batches := batches + [b];
      chunks := chunks + [cur];
      es := es + cur;
      k := k';
    }
  }
}
