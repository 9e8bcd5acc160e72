/** GenomicSizeLazyLoader: loads the reference sequences on first use, cuts the
    regions of interest out of them with 'N' padding, and memoises the genome
    size description and the sequences it produced. */
module LazyLoading {
  import opened Common

  /** What `gsize` resolves to: the regions of interest themselves, or the
      chromosome-length table handed to GenomicIndexer.create_from_genomesize. */
  datatype GenomeSize = Regions(regions: seq<Interval>) | WholeGenome(sizes: SizeTable)

  /** The items of an `OrderedDict` from chromosome name to length, in insertion order. */
  type SizeTable = seq<(string, nat)>

  /** `OrderedDict((seq.id, seq) for seq in seqs)`: every id is a key, and
      each key holds a record with that id. */
  function RefMap(seqs: seq<SeqRecord>): (m: map<string, SeqRecord>)
    ensures m.Keys == set r | r in seqs :: r.id
    ensures forall k :: k in m ==> m[k] in seqs && m[k].id == k
  {
    if seqs == [] then map[]
    else
      var init, last := seqs[..|seqs| - 1], seqs[|seqs| - 1];
      assert seqs == init + [last];
      RefMap(init)[last.id := last]
  }

  /** A later record with the same id replaces an earlier one: an id holds
      its last record. */
  lemma {:induction false} RefMapLastWins(seqs: seq<SeqRecord>, i: nat)
    requires i < |seqs|
    requires forall j :: i < j < |seqs| ==> seqs[j].id != seqs[i].id
    ensures RefMap(seqs)[seqs[i].id] == seqs[i]
  {
    var init, last := seqs[..|seqs| - 1], seqs[|seqs| - 1];
    if i < |seqs| - 1 {
      RefMapLastWins(init, i);
    }
  }

  /** `d[k] = v` on the items of an OrderedDict: a key already present keeps
      its place and takes the new value; a new key goes last. */
  function Assign(t: SizeTable, k: string, v: nat): SizeTable
  {
    if |t| == 0 then [(k, v)]
    else if t[0].0 == k then [(k, v)] + t[1..]
    else [t[0]] + Assign(t[1..], k, v)
  }

  predicate HasKey(t: SizeTable, k: string)
  {
    exists i :: 0 <= i < |t| && t[i].0 == k
  }

  predicate UniqueKeys(t: SizeTable)
  {
    forall i, j :: 0 <= i < j < |t| ==> t[i].0 != t[j].0
  }

  lemma UniqueTail(t: SizeTable)
    requires |t| > 0 && UniqueKeys(t)
    ensures UniqueKeys(t[1..])
  {
    var rest := t[1..];
    forall i, j | 0 <= i < j < |rest| ensures rest[i].0 != rest[j].0 {
      assert rest[i] == t[i + 1] && rest[j] == t[j + 1];
    }
  }

  /** Assigning a key that is missing appends it. */
  lemma {:induction false} AssignAbsent(t: SizeTable, k: string, v: nat)
    requires !HasKey(t, k)
    ensures Assign(t, k, v) == t + [(k, v)]
  {
    if |t| > 0 {
      var rest := t[1..];
      assert !HasKey(rest, k) by {
        forall i | 0 <= i < |rest| ensures rest[i].0 != k {
          assert rest[i] == t[i + 1];
        }
      }
      AssignAbsent(rest, k, v);
      assert t == [t[0]] + rest;
    }
  }

  /** Assigning a key that is present replaces its one entry in place. */
  lemma {:induction false} AssignPresent(t: SizeTable, k: string, v: nat)
    requires UniqueKeys(t) && HasKey(t, k)
    ensures |Assign(t, k, v)| == |t|
    ensures forall i :: 0 <= i < |t| ==> Assign(t, k, v)[i] == if t[i].0 == k then (k, v) else t[i]
  {
    var r := Assign(t, k, v);
    if t[0].0 == k {
      forall i | 1 <= i < |t| ensures t[i].0 != k {
        assert t[0].0 != t[i].0;
      }
    } else {
      var rest := t[1..];
      UniqueTail(t);
      var j :| 0 <= j < |t| && t[j].0 == k;
      assert rest[j - 1].0 == k;
      AssignPresent(rest, k, v);
      assert r == [t[0]] + Assign(rest, k, v);
      forall i | 1 <= i < |t| ensures r[i] == if t[i].0 == k then (k, v) else t[i] {
        assert rest[i - 1] == t[i];
      }
    }
  }

  /** Assigning to a present key replaces its entry in place; assigning a new
      key appends it; the keys stay unique. */
  lemma AssignSpec(t: SizeTable, k: string, v: nat)
    requires UniqueKeys(t)
    ensures UniqueKeys(Assign(t, k, v))
    ensures HasKey(t, k) ==>
              |Assign(t, k, v)| == |t|
              && forall i :: 0 <= i < |t| ==> Assign(t, k, v)[i] == if t[i].0 == k then (k, v) else t[i]
    ensures !HasKey(t, k) ==> Assign(t, k, v) == t + [(k, v)]
  {
    var r := Assign(t, k, v);
    if HasKey(t, k) {
      AssignPresent(t, k, v);
      assert forall i :: 0 <= i < |t| ==> r[i].0 == t[i].0;
    } else {
      AssignAbsent(t, k, v);
      assert forall i :: 0 <= i < |t| ==> r[i] == t[i];
    }
  }

  /** `OrderedDict((seq.id, len(seq)) for seq in seqs)`: one entry per id, in
      the order the ids first occur, holding the length of the last record
      with that id. */
  function SizesOf(seqs: seq<SeqRecord>): SizeTable
  {
    if seqs == [] then []
    else Assign(SizesOf(seqs[..|seqs| - 1]), seqs[|seqs| - 1].id, |seqs[|seqs| - 1].bases|)
  }

  /** The size table has unique keys, an entry for every record's id, and for
      each id the length of the record the reference dictionary keeps for it
      (the last one). */
  lemma SizesOfSpec(seqs: seq<SeqRecord>)
    ensures var t := SizesOf(seqs);
            && UniqueKeys(t)
            && (forall j :: 0 <= j < |seqs| ==> HasKey(t, seqs[j].id))
            && forall i :: 0 <= i < |t| ==> t[i].0 in RefMap(seqs) && t[i].1 == |RefMap(seqs)[t[i].0].bases|
  {
    SizesOfUnique(seqs);
    SizesOfCovers(seqs);
    SizesOfLengths(seqs);
  }

  lemma {:induction false} SizesOfUnique(seqs: seq<SeqRecord>)
    ensures UniqueKeys(SizesOf(seqs))
  {
    if seqs != [] {
      SizesOfUnique(seqs[..|seqs| - 1]);
      AssignSpec(SizesOf(seqs[..|seqs| - 1]), seqs[|seqs| - 1].id, |seqs[|seqs| - 1].bases|);
    }
  }

  lemma {:induction false} SizesOfCovers(seqs: seq<SeqRecord>)
    ensures forall j :: 0 <= j < |seqs| ==> HasKey(SizesOf(seqs), seqs[j].id)
  {
    if seqs != [] {
      var init, last := seqs[..|seqs| - 1], seqs[|seqs| - 1];
      SizesOfCovers(init);
      SizesOfUnique(init);
      var t0 := SizesOf(init);
      AssignSpec(t0, last.id, |last.bases|);
      var t := SizesOf(seqs);
      assert t == Assign(t0, last.id, |last.bases|);
      forall j | 0 <= j < |seqs| ensures HasKey(t, seqs[j].id) {
        if j == |seqs| - 1 {
          var i := AssignHasKey(t0, last.id, |last.bases|);
          assert t[i].0 == seqs[j].id;
        } else {
          assert seqs[j] == init[j];
          assert HasKey(t0, init[j].id);
          var i :| 0 <= i < |t0| && t0[i].0 == init[j].id;
          AssignKeepsKey(t0, last.id, |last.bases|, i);
          assert t[i].0 == seqs[j].id;
        }
      }
    }
  }

  lemma AssignHasKey(t: SizeTable, k: string, v: nat) returns (i: nat)
    requires UniqueKeys(t)
    ensures i < |Assign(t, k, v)| && Assign(t, k, v)[i].0 == k
  {
    AssignSpec(t, k, v);
    if exists j :: 0 <= j < |t| && t[j].0 == k {
      i :| 0 <= i < |t| && t[i].0 == k;
    } else {
      i := |t|;
    }
  }

  lemma AssignKeepsKey(t: SizeTable, k: string, v: nat, i: nat)
    requires UniqueKeys(t) && i < |t|
    ensures i < |Assign(t, k, v)| && Assign(t, k, v)[i].0 == t[i].0
  {
    AssignSpec(t, k, v);
    if forall j :: 0 <= j < |t| ==> t[j].0 != k {
      assert (t + [(k, v)])[i] == t[i];
    }
  }

  lemma {:induction false} SizesOfLengths(seqs: seq<SeqRecord>)
    ensures forall i :: 0 <= i < |SizesOf(seqs)| ==>
              SizesOf(seqs)[i].0 in RefMap(seqs) && SizesOf(seqs)[i].1 == |RefMap(seqs)[SizesOf(seqs)[i].0].bases|
  {
    if seqs != [] {
      var init, last := seqs[..|seqs| - 1], seqs[|seqs| - 1];
      SizesOfLengths(init);
      SizesOfUnique(init);
      var t0 := SizesOf(init);
      AssignSpec(t0, last.id, |last.bases|);
      var t := SizesOf(seqs);
      var m := RefMap(seqs);
      assert m == RefMap(init)[last.id := last];
      forall i | 0 <= i < |t| ensures t[i].0 in m && t[i].1 == |m[t[i].0].bases| {
        if i < |t0| && t0[i].0 != last.id {
          assert t[i] == t0[i];
        }
      }
    }
  }

  /** With distinct ids, entry i of the size table is record i's id and length,
      so the table's order is the records' order. */
  lemma {:induction false} SizesOfDistinct(seqs: seq<SeqRecord>)
    requires forall i, j :: 0 <= i < j < |seqs| ==> seqs[i].id != seqs[j].id
    ensures |SizesOf(seqs)| == |seqs|
    ensures forall i :: 0 <= i < |seqs| ==> SizesOf(seqs)[i] == (seqs[i].id, |seqs[i].bases|)
  {
    if seqs != [] {
      var init, last := seqs[..|seqs| - 1], seqs[|seqs| - 1];
      assert forall i :: 0 <= i < |init| ==> init[i] == seqs[i];
      SizesOfDistinct(init);
      SizesOfUnique(init);
      var t0 := SizesOf(init);
      assert forall i :: 0 <= i < |t0| ==> t0[i].0 != last.id;
      AssignSpec(t0, last.id, |last.bases|);
      assert SizesOf(seqs) == t0 + [(last.id, |last.bases|)];
    }
  }

  /** One region cut from a chromosome: the slice
      `chrom[max(start, 0):min(end, len(chrom))]`, preceded by -start 'N's when
      start < 0, then filled with 'N' up to the interval length. */
  function ExtractRegion(chrom: string, iv: Interval): (r: string)
    ensures |r| >= iv.Length()
    ensures iv.start < 0 ==> |r| >= -iv.start && r[..-iv.start] == Repeat('N', -iv.start)
  {
    var mid := PySlice(chrom, Max(iv.start, 0), Min(iv.end, |chrom|));
    var padded := if iv.start < 0 then Repeat('N', -iv.start) + mid else mid;
    if |padded| < iv.Length() then padded + Repeat('N', iv.Length() - |padded|) else padded
  }

  /** For an interval that does not end left of the chromosome, the region is
      exactly as long as the interval: max(-start, 0) 'N's, the part of the
      chromosome the interval covers, and 'N's for the rest. */
  lemma ExtractRegionLayout(chrom: string, iv: Interval)
    requires 0 <= iv.end && iv.start <= iv.end
    ensures var lo := Min(Max(iv.start, 0), |chrom|);
            var hi := Max(lo, Min(iv.end, |chrom|));
            var left := Max(-iv.start, 0);
            && left + (hi - lo) <= iv.Length()
            && ExtractRegion(chrom, iv)
               == Repeat('N', left) + chrom[lo..hi] + Repeat('N', iv.Length() - left - (hi - lo))
            && |ExtractRegion(chrom, iv)| == iv.Length()
  {
    var lo := Min(Max(iv.start, 0), |chrom|);
    var hi := Max(lo, Min(iv.end, |chrom|));
    var left := Max(-iv.start, 0);
    var mid := PySlice(chrom, Max(iv.start, 0), Min(iv.end, |chrom|));
    assert mid == chrom[lo..hi];
    if iv.start >= 0 {
      assert Repeat('N', left) == [];
    }
  }

  /** The record for one region: a KeyError when its chromosome is not loaded;
      otherwise the cut region, named by `_iv_to_str(chrom, start, end)`. */
  function ExtractOne(rgen: map<string, SeqRecord>, iv: Interval,
                      ivToStr: (string, int, int) -> string): Result<SeqRecord>
  {
    if iv.chrom !in rgen then Err(KeyError)
    else
      var name := ivToStr(iv.chrom, iv.start, iv.end);
      Ok(SeqRecord(name, ExtractRegion(rgen[iv.chrom].bases, iv), rgen[iv.chrom].alphabet))
  }

  /** The record or the KeyError for each region. */
  function Extracted(rgen: map<string, SeqRecord>, ivs: seq<Interval>,
                     ivToStr: (string, int, int) -> string): seq<Result<SeqRecord>>
  {
    seq(|ivs|, i requires 0 <= i < |ivs| => ExtractOne(rgen, ivs[i], ivToStr))
  }

  /** The records for regions ivs, in order, or the first KeyError. */
  function Subseqs(rgen: map<string, SeqRecord>, ivs: seq<Interval>,
                   ivToStr: (string, int, int) -> string): Result<seq<SeqRecord>>
  {
    Collect(Extracted(rgen, ivs, ivToStr))
  }

  /** Subseqs succeeds exactly when every region's chromosome is loaded, and
      then gives one record per region, record i cut from region i. */
  lemma SubseqsSpec(rgen: map<string, SeqRecord>, ivs: seq<Interval>, ivToStr: (string, int, int) -> string)
    ensures Subseqs(rgen, ivs, ivToStr).Ok? <==> forall i :: 0 <= i < |ivs| ==> ivs[i].chrom in rgen
    ensures Subseqs(rgen, ivs, ivToStr).Err? ==> Subseqs(rgen, ivs, ivToStr).error == KeyError
    ensures Subseqs(rgen, ivs, ivToStr).Ok? ==>
              var out := Subseqs(rgen, ivs, ivToStr).value;
              && |out| == |ivs|
              && forall i :: 0 <= i < |ivs| ==>
                   out[i] == SeqRecord(ivToStr(ivs[i].chrom, ivs[i].start, ivs[i].end),
                                       ExtractRegion(rgen[ivs[i].chrom].bases, ivs[i]),
                                       rgen[ivs[i].chrom].alphabet)
  {
    var ex := Extracted(rgen, ivs, ivToStr);
    CollectSpec(ex);
    assert forall i :: 0 <= i < |ivs| ==> ex[i] == ExtractOne(rgen, ivs[i], ivToStr);
    if Subseqs(rgen, ivs, ivToStr).Err? {
      var i :| 0 <= i < |ex| && ex[i] == Err(Subseqs(rgen, ivs, ivToStr).error) && forall j :: 0 <= j < i ==> ex[j].Ok?;
      assert ex[i] == ExtractOne(rgen, ivs[i], ivToStr);
    }
  }

  /** The loop of load_sequence over the regions of interest. */
  method ExtractSubseqs(rgen: map<string, SeqRecord>, ivs: seq<Interval>,
                        ivToStr: (string, int, int) -> string)
    returns (r: Result<seq<SeqRecord>>)
    ensures r == Subseqs(rgen, ivs, ivToStr)
  {
    ghost var ex := Extracted(rgen, ivs, ivToStr);
    var subseqs: seq<SeqRecord> := [];
    var k := 0;
    while k < |ivs|
      invariant 0 <= k <= |ivs|
      invariant Collect(ex[..k]) == Ok(subseqs)
    {
      CollectNext(ex, k, subseqs);
      var giv := ivs[k];
      assert ex[k] == ExtractOne(rgen, giv, ivToStr);
      if giv.chrom !in rgen {
        CollectPrefixError(ex, k + 1);
        return Err(KeyError);
      }
      var subseq := ExtractRegion(rgen[giv.chrom].bases, giv);
      var name := ivToStr(giv.chrom, giv.start, giv.end);
      subseqs := subseqs + [SeqRecord(name, subseq, rgen[giv.chrom].alphabet)];
      k := k + 1;
    }
    assert ex[..k] == ex;
    r := Ok(subseqs);
  }

  /** What load_sequence computes from its inputs: the regions of interest and
      their records; or, when the whole genome is stored, the chromosome
      lengths and the records as given. With neither a region list nor the
      whole genome, `gsize` is never bound and Python raises UnboundLocalError. */
  function LoadSpec(fastafile: seq<SeqRecord>, storeWholeGenome: bool,
                    gindexer: Option<seq<Interval>>,
                    ivToStr: (string, int, int) -> string): (r: Result<(GenomeSize, seq<SeqRecord>)>)
    ensures r.Ok? && r.value.0.Regions? ==>
              !storeWholeGenome && gindexer == Some(r.value.0.regions) && |r.value.1| == |r.value.0.regions|
    ensures r.Ok? && r.value.0.WholeGenome? ==>
              storeWholeGenome && r.value.0.sizes == SizesOf(fastafile) && r.value.1 == fastafile
  {
    if !storeWholeGenome && gindexer.Some? then
      SubseqsSpec(RefMap(fastafile), gindexer.value, ivToStr);
      match Subseqs(RefMap(fastafile), gindexer.value, ivToStr)
      case Err(e) => Err(e)
      case Ok(sub) => Ok((Regions(gindexer.value), sub))
    else if storeWholeGenome then
      Ok((WholeGenome(SizesOf(fastafile)), fastafile))
    else
      Err(UnboundLocalError)
  }

  /** The load fails exactly in the two ways the source can fail. */
  lemma LoadSpecErrors(fastafile: seq<SeqRecord>, storeWholeGenome: bool,
                       gindexer: Option<seq<Interval>>, ivToStr: (string, int, int) -> string)
    ensures LoadSpec(fastafile, storeWholeGenome, gindexer, ivToStr).Err? <==>
              (!storeWholeGenome && gindexer.None?) ||
              (!storeWholeGenome && gindexer.Some? &&
               exists i :: 0 <= i < |gindexer.value| && gindexer.value[i].chrom !in RefMap(fastafile))
    ensures storeWholeGenome ==>
              LoadSpec(fastafile, storeWholeGenome, gindexer, ivToStr)
              == Ok((WholeGenome(SizesOf(fastafile)), fastafile))
  {
    if !storeWholeGenome && gindexer.Some? {
      SubseqsSpec(RefMap(fastafile), gindexer.value, ivToStr);
    }
  }

  class GenomicSizeLazyLoader {
    /** The reference records (a FASTA file already read into records). */
    const fastafile: seq<SeqRecord>
    const storeWholeGenome: bool
    const gindexer: Option<seq<Interval>>
    /** `_iv_to_str`, which names a region record. */
    const ivToStr: (string, int, int) -> string
    var seqs_: Option<seq<SeqRecord>>
    var gsize_: Option<GenomeSize>

    function Load(): Result<(GenomeSize, seq<SeqRecord>)>
    {
      LoadSpec(fastafile, storeWholeGenome, gindexer, ivToStr)
    }

    /** Both memo fields are empty, or both hold what loading computes. */
    ghost predicate Valid()
      reads this
    {
      (gsize_.None? && seqs_.None?) ||
      (Load().Ok? && gsize_ == Some(Load().value.0) && seqs_ == Some(Load().value.1))
    }

    constructor (fastafile: seq<SeqRecord>, storeWholeGenome: bool,
                 gindexer: Option<seq<Interval>>, ivToStr: (string, int, int) -> string)
      ensures Valid()
      ensures this.fastafile == fastafile && this.storeWholeGenome == storeWholeGenome
      ensures this.gindexer == gindexer && this.ivToStr == ivToStr
      ensures gsize_ == None && seqs_ == None
    {
      this.fastafile := fastafile;
      this.storeWholeGenome := storeWholeGenome;
      this.gindexer := gindexer;
      this.ivToStr := ivToStr;
      seqs_ := None;
      gsize_ := None;
    }

    /** load_sequence: on success both memo fields hold the loaded values; on
        an exception neither field is touched. */
    method LoadSequence() returns (o: Outcome)
      requires Valid()
      modifies this
      ensures Valid()
      ensures Load().Ok? ==> o == Pass && gsize_ == Some(Load().value.0) && seqs_ == Some(Load().value.1)
      ensures Load().Err? ==> o == Fail(Load().error) && unchanged(this)
    {
      var seqs := fastafile;
      var gsize: Option<GenomeSize> := None;
      if !storeWholeGenome && gindexer.Some? {
        var rgen := RefMap(seqs);
        var sub := ExtractSubseqs(rgen, gindexer.value, ivToStr);
        if sub.Err? {
          return Fail(sub.error);
        }
        seqs := sub.value;
        gsize := Some(Regions(gindexer.value));
      }
      if storeWholeGenome {
        gsize := Some(WholeGenome(SizesOf(seqs)));
      }
      if gsize.None? {
        return Fail(UnboundLocalError);
      }
      gsize_ := gsize;
      seqs_ := Some(seqs);
      o := Pass;
    }

    /** The `gsize` property: loads on first use, and afterwards returns the
        memoised value without loading again. */
    method Gsize() returns (g: Result<GenomeSize>)
      requires Valid()
      modifies this
      ensures Valid()
      ensures g == if Load().Ok? then Ok(Load().value.0) else Err(Load().error)
      ensures old(gsize_).Some? ==> unchanged(this)
      ensures Load().Ok? ==> gsize_.Some?
    {
      if gsize_.None? {
        var o := LoadSequence();
        if o.Fail? {
          return Err(o.error);
        }
      }
      g := Ok(gsize_.value);
    }

    /** The `seqs` property, memoised in the same way. */
    method Seqs() returns (s: Result<seq<SeqRecord>>)
      requires Valid()
      modifies this
      ensures Valid()
      ensures s == if Load().Ok? then Ok(Load().value.1) else Err(Load().error)
      ensures old(seqs_).Some? ==> unchanged(this)
      ensures Load().Ok? ==> seqs_.Some?
    {
      if seqs_.None? {
        var o := LoadSequence();
        if o.Fail? {
          return Err(o.error);
        }
      }
      s := Ok(seqs_.value);
    }
  }
}
