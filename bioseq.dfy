/** The Bioseq dataset: its two constructors, the strand-aware lookup of one
    region, the fixed-width index buffer filled for a batch of regions, the
    shape it reports and the normalisation of the indices `[]` accepts.
    One-hot expansion (`as_onehot`) is outside the model, so lookups end at
    the index rows it is applied to. */
module Bioseqs {
  import opened Common
  import opened Encoding
  import opened LazyLoading
  import opened SeqLoading

  /** The parts of a GenomicIndexer the dataset uses: the bin size, the flank
      and the regions in index order. */
  datatype Indexer = Indexer(binsize: int, flank: int, regions: seq<Interval>)

  /** A Bioseq with the attributes its lookups read; `fullGenomeStored` is the
      genomic array's `_full_genome_stored` flag. */
  datatype Bioseq = Bioseq(order: nat, typecode: Dtype, fullGenomeStored: bool,
                           gindexer: Option<Indexer>, alphabet: string, channelLast: bool)

  predicate StorageKnown(storage: string)
  {
    storage == "ndarray" || storage == "hdf5"
  }

  // ---------------------------------------------------------------------
  // create_from_seq

  predicate Distinct<T(==)>(s: seq<T>)
  {
    forall i, j :: 0 <= i < j < |s| ==> s[i] != s[j]
  }

  function Elements<T(==)>(s: seq<T>): set<T>
  {
    set x | x in s
  }

  /** `len(set(s)) == len(s)` holds exactly when no element repeats. */
  lemma {:induction false} CardElements<T>(s: seq<T>)
    ensures |Elements(s)| <= |s|
    ensures |Elements(s)| == |s| <==> Distinct(s)
  {
    if |s| > 0 {
      var t, x := s[..|s| - 1], s[|s| - 1];
      CardElements(t);
      assert s == t + [x];
      assert Elements(s) == Elements(t) + {x};
      if x in Elements(t) {
        var i :| 0 <= i < |t| && t[i] == x;
        assert s[i] == s[|s| - 1];
      } else {
        if Distinct(s) {
          forall i, j | 0 <= i < j < |t|
            ensures t[i] != t[j]
          {
            assert t[i] == s[i] && t[j] == s[j];
          }
        }
        if Distinct(t) {
          forall i, j | 0 <= i < j < |s|
            ensures s[i] != s[j]
          {
            if j == |s| - 1 {
              assert s[i] == t[i] && t[i] in Elements(t);
            } else {
              assert s[i] == t[i] && s[j] == t[j];
            }
          }
        }
      }
    }
  }

  function Lens(records: seq<SeqRecord>): seq<int>
  {
    seq(|records|, i requires 0 <= i < |records| => |records[i].bases|)
  }

  function Ids(records: seq<SeqRecord>): seq<string>
  {
    seq(|records|, i requires 0 <= i < |records| => records[i].id)
  }

  /** `lens == [len(seqs[0])] * len(seqs)` holds exactly when all sequences
      are as long as the first. */
  lemma LensCheck(records: seq<SeqRecord>)
    requires |records| > 0
    ensures Lens(records) == Repeat(|records[0].bases|, |records|)
            <==> forall i :: 0 <= i < |records| ==> |records[i].bases| == |records[0].bases|
  {
    var r := Repeat(|records[0].bases|, |records|);
    if forall i :: 0 <= i < |records| ==> |records[i].bases| == |records[0].bases| {
      assert forall i :: 0 <= i < |records| ==> Lens(records)[i] == r[i];
    } else {
      var i :| 0 <= i < |records| && |records[i].bases| != |records[0].bases|;
      assert Lens(records)[i] != r[i];
    }
  }

  /** The checks of create_from_seq, in source order, and on success the
      indexer it builds: bin size reglen, no flank, and one interval
      [0, reglen) on strand '.' per record id. */
  function FromSeqIndexer(storage: string, records: seq<SeqRecord>): (r: Result<Indexer>)
    ensures r.Ok? ==> |records| > 0 && r.value.binsize == |records[0].bases| && r.value.flank == 0
                      && |r.value.regions| == |records|
    ensures r.Err? ==> r.error in {ValueError, IndexError, AssertionError}
  {
    if !StorageKnown(storage) then Err(ValueError)
    else if |records| == 0 then Err(IndexError)
    else if Lens(records) != Repeat(|records[0].bases|, |records|) then Err(AssertionError)
    else if |Elements(Ids(records))| != |records| then Err(AssertionError)
    else
      var reglen := |records[0].bases|;
      Ok(Indexer(reglen, 0, seq(|records|, i requires 0 <= i < |records| =>
                                  Interval(records[i].id, 0, reglen, '.'))))
  }

  /** create_from_seq rejects an unknown storage mode (ValueError), an empty
      record list (IndexError), sequences of unequal length and repeated ids
      (AssertionError), and nothing else; on success region i is [0, reglen)
      on record i's id, as long as record i's sequence. */
  lemma FromSeqIndexerSpec(storage: string, records: seq<SeqRecord>)
    ensures var r := FromSeqIndexer(storage, records);
            r.Err? <==> !StorageKnown(storage) || |records| == 0
                        || (exists i :: 0 <= i < |records| && |records[i].bases| != |records[0].bases|)
                        || !Distinct(Ids(records))
    ensures !StorageKnown(storage) ==> FromSeqIndexer(storage, records) == Err(ValueError)
    ensures StorageKnown(storage) && |records| == 0 ==> FromSeqIndexer(storage, records) == Err(IndexError)
    ensures StorageKnown(storage) && |records| > 0 && FromSeqIndexer(storage, records).Err? ==>
              FromSeqIndexer(storage, records).error == AssertionError
    ensures FromSeqIndexer(storage, records).Ok? ==>
              var ix := FromSeqIndexer(storage, records).value;
              && ix.binsize == |records[0].bases| && ix.flank == 0 && |ix.regions| == |records|
              && Distinct(ix.regions)
              && forall i :: 0 <= i < |records| ==>
                   ix.regions[i] == Interval(records[i].id, 0, ix.binsize, '.')
                   && ix.regions[i].Length() == |records[i].bases|
  {
    CardElements(Ids(records));
    if StorageKnown(storage) && |records| > 0 {
      LensCheck(records);
      var r := FromSeqIndexer(storage, records);
      if r.Ok? {
        var ids := Ids(records);
        forall i, j | 0 <= i < j < |records|
          ensures r.value.regions[i] != r.value.regions[j]
        {
          assert ids[i] != ids[j];
        }
      }
    }
  }

  /** With the checks passed and every sequence encodable, the array
      create_from_seq loads holds record i's codes under region i. */
  lemma FromSeqStoresEach(storage: string, records: seq<SeqRecord>, order: nat,
                          seq2ind: string -> seq<int>, i: nat)
    requires FromSeqIndexer(storage, records).Ok? && i < |records|
    requires forall j :: 0 <= j < |records| ==>
               Encode(seq2ind(records[j].bases), |records[j].alphabet|, order).Some?
    ensures var regions := FromSeqIndexer(storage, records).value.regions;
            var (d, o) := StoreAll(map[], regions, records, order, seq2ind, |records|);
            && o.Pass? && d.Keys == (set r | r in regions) && regions[i] in d
            && Some(d[regions[i]]) == Encode(seq2ind(records[i].bases), |records[i].alphabet|, order)
  {
    FromSeqIndexerSpec(storage, records);
    var regions := FromSeqIndexer(storage, records).value.regions;
    StoreAllOutcome(map[], regions, records, order, seq2ind, |records|);
    StoreAllKeys(map[], regions, records, order, seq2ind, |records|);
    StoreAllValues(map[], regions, records, order, seq2ind, |records|, i);
    assert (set k | 0 <= k < |records| :: regions[k]) == set r | r in regions;
  }

  /** The records create_from_seq checks: with a fixed length given and a
      first record to read, what `pad` (sequence_padding, which truncates or
      pads every sequence to that length) makes of them, otherwise the
      records themselves. */
  function Padded(records: seq<SeqRecord>, fixedlen: Option<nat>,
                  pad: (seq<SeqRecord>, nat) -> seq<SeqRecord>): seq<SeqRecord>
  {
    if fixedlen.Some? && |records| > 0 then pad(records, fixedlen.value) else records
  }

  /** When padding leaves a non-empty list of sequences of the fixed length,
      the length check always passes: the records are accepted exactly when
      their ids are distinct, and the bin size is the fixed length. */
  lemma FixedLenEqualizes(storage: string, records: seq<SeqRecord>, n: nat,
                          pad: (seq<SeqRecord>, nat) -> seq<SeqRecord>)
    requires StorageKnown(storage) && |records| > 0 && |pad(records, n)| > 0
    requires forall i :: 0 <= i < |pad(records, n)| ==> |pad(records, n)[i].bases| == n
    ensures var ix := FromSeqIndexer(storage, Padded(records, Some(n), pad));
            && (ix.Ok? <==> Distinct(Ids(pad(records, n))))
            && (ix.Ok? ==> ix.value.binsize == n && |ix.value.regions| == |pad(records, n)|)
  {
    FromSeqIndexerSpec(storage, pad(records, n));
  }

  /** Bioseq.create_from_seq: validates the records, pads them when a fixed
      length is given, builds the indexer and loads the codes of every
      record into a new genomic array. */
  method CreateFromSeq(storage: string, records: seq<SeqRecord>, order: nat, fixedlen: Option<nat>,
                       pad: (seq<SeqRecord>, nat) -> seq<SeqRecord>, channelLast: bool,
                       seq2ind: string -> seq<int>)
    returns (r: Result<Bioseq>, garray: GenomicArray?)
    ensures var seqs := Padded(records, fixedlen, pad);
            FromSeqIndexer(storage, seqs).Err? ==>
              r == Err(FromSeqIndexer(storage, seqs).error) && garray == null
    ensures var seqs := Padded(records, fixedlen, pad);
            FromSeqIndexer(storage, seqs).Ok? ==>
              var ix := FromSeqIndexer(storage, seqs).value;
              var (d, o) := StoreAll(map[], ix.regions, seqs, order, seq2ind, |seqs|);
              && garray != null && fresh(garray) && garray.data == d
              && garray.order == order && garray.typecode == DtypeFor(order)
              && r == if o.Fail? then Err(o.error)
                      else Ok(Bioseq(order, DtypeFor(order), false, Some(ix), seqs[0].alphabet, channelLast))
  {
    var seqs := Padded(records, fixedlen, pad);
    var ix := FromSeqIndexer(storage, seqs);
    if ix.Err? {
      return Err(ix.error), null;
    }
    FromSeqIndexerSpec(storage, seqs);
    var o;
    garray, o := MakeGenomicArray(SeqLoader(Direct(ix.value.regions), seqs, order), seq2ind,
                                  sizes => []);
    if o.Fail? {
      r := Err(o.error);
    } else {
      r := Ok(Bioseq(order, DtypeFor(order), false, Some(ix.value), seqs[0].alphabet, channelLast));
    }
  }

  // ---------------------------------------------------------------------
  // create_from_refgenome

  function RegionList(roi: Option<Indexer>): Option<seq<Interval>>
  {
    if roi.Some? then Some(roi.value.regions) else None
  }

  /** Bioseq.create_from_refgenome: an unknown storage mode, or neither regions
      of interest nor the whole genome, is a ValueError; otherwise a lazy
      loader over the reference is made and its regions are loaded into a new
      genomic array, with alphabet ACGT. */
  method CreateFromRefgenome(storage: string, refgenome: seq<SeqRecord>, roi: Option<Indexer>,
                             storeWholeGenome: bool, order: nat, channelLast: bool,
                             seq2ind: string -> seq<int>, ivToStr: (string, int, int) -> string,
                             genomeRegions: SizeTable -> seq<Interval>)
    returns (r: Result<Bioseq>, garray: GenomicArray?)
    ensures !StorageKnown(storage) ==> r == Err(ValueError) && garray == null
    ensures StorageKnown(storage) && roi.None? && !storeWholeGenome ==> r == Err(ValueError) && garray == null
    ensures StorageKnown(storage) && (roi.Some? || storeWholeGenome) ==>
              var load := LoadSpec(refgenome, storeWholeGenome, RegionList(roi), ivToStr);
              && garray != null && fresh(garray)
              && garray.order == order && garray.typecode == DtypeFor(order)
              && (load.Err? ==> r == Err(load.error) && garray.data == map[])
              && (load.Ok? ==>
                    var regions := RegionsOf(load.value.0, genomeRegions);
                    var seqs := load.value.1;
                    var (d, o) := StoreAll(map[], regions, seqs, order, seq2ind, Min(|regions|, |seqs|));
                    && garray.data == d
                    && r == if o.Fail? then Err(o.error)
                            else Ok(Bioseq(order, DtypeFor(order), storeWholeGenome, roi, "ACGT", channelLast)))
  {
    if !StorageKnown(storage) {
      return Err(ValueError), null;
    }
    if !storeWholeGenome && roi.None? {
      return Err(ValueError), null;
    }
    var gsize := new GenomicSizeLazyLoader(refgenome, storeWholeGenome, RegionList(roi), ivToStr);
    var o;
    garray, o := MakeGenomicArray(SeqLoader(Lazy(gsize), [], order), seq2ind, genomeRegions);
    if o.Fail? {
      r := Err(o.error);
    } else {
      r := Ok(Bioseq(order, DtypeFor(order), storeWholeGenome, roi, "ACGT", channelLast));
    }
  }

  // ---------------------------------------------------------------------
  // _getsingleitem

  /** `[rcindex[val] if val >= 0 else val for val in v]`; a non-negative value
      past the end of the table is an IndexError. */
  function Complemented(v: seq<int>, rcindex: seq<int>): (r: Result<seq<int>>)
    ensures r.Ok? ==> |r.value| == |v|
  {
    if |v| == 0 then Ok([])
    else if v[0] >= |rcindex| then Err(IndexError)
    else
      match Complemented(v[1..], rcindex)
      case Err(e) => Err(e)
      case Ok(rest) => Ok([if v[0] >= 0 then rcindex[v[0]] else v[0]] + rest)
  }

  /** `s[::-1]` */
  function Reversed(s: seq<int>): (r: seq<int>)
    ensures |r| == |s|
    ensures forall j :: 0 <= j < |s| ==> r[j] == s[|s| - 1 - j]
  {
    if |s| == 0 then [] else Reversed(s[1..]) + [s[0]]
  }

  /** The values of one region as `[]` returns them: as stored on strand '.'
      or '+', otherwise complemented and reversed. */
  function SingleItem(v: seq<int>, strand: char, rcindex: seq<int>): (r: Result<seq<int>>)
    ensures r.Ok? ==> |r.value| == |v|
    ensures strand == '.' || strand == '+' ==> r == Ok(v)
  {
    if strand == '.' || strand == '+' then Ok(v)
    else
      match Complemented(v, rcindex)
      case Err(e) => Err(e)
      case Ok(c) => Ok(Reversed(c))
  }

  /** The complement of one stored value: through the table when non-negative. */
  function Comp(x: int, rcindex: seq<int>): int
    requires x < |rcindex|
  {
    if x >= 0 then rcindex[x] else x
  }

  predicate InTable(v: seq<int>, rcindex: seq<int>)
  {
    forall j :: 0 <= j < |v| ==> v[j] < |rcindex|
  }

  lemma {:induction false} ComplementedSpec(v: seq<int>, rcindex: seq<int>)
    ensures Complemented(v, rcindex).Ok? <==> InTable(v, rcindex)
    ensures Complemented(v, rcindex).Err? ==> Complemented(v, rcindex).error == IndexError
    ensures Complemented(v, rcindex).Ok? ==>
              var c := Complemented(v, rcindex).value;
              |c| == |v| && forall j :: 0 <= j < |v| ==> c[j] == Comp(v[j], rcindex)
  {
    if |v| > 0 {
      ComplementedSpec(v[1..], rcindex);
      if InTable(v, rcindex) {
        assert InTable(v[1..], rcindex);
      } else if v[0] < |rcindex| {
        var j :| 0 <= j < |v| && v[j] >= |rcindex|;
        assert v[1..][j - 1] == v[j];
      }
    }
  }

  /** Strand '.' and '+' give the stored values; any other strand gives,
      at position j, the complement of the value n-1-j places in, failing
      exactly when a non-negative value is past the complement table. */
  lemma SingleItemSpec(v: seq<int>, strand: char, rcindex: seq<int>)
    ensures strand == '.' || strand == '+' ==> SingleItem(v, strand, rcindex) == Ok(v)
    ensures strand != '.' && strand != '+' ==>
              var r := SingleItem(v, strand, rcindex);
              && (r.Ok? <==> InTable(v, rcindex))
              && (r.Err? ==> r.error == IndexError)
              && (r.Ok? ==> |r.value| == |v|
                            && forall j :: 0 <= j < |v| ==> r.value[j] == Comp(v[|v| - 1 - j], rcindex))
  {
    ComplementedSpec(v, rcindex);
  }

  /** A complement table that maps into itself and undoes itself. */
  predicate Involution(rcindex: seq<int>)
  {
    forall x :: 0 <= x < |rcindex| ==> 0 <= rcindex[x] < |rcindex| && rcindex[rcindex[x]] == x
  }

  /** With such a table, looking up the reverse strand twice gives the stored values back. */
  lemma ReverseStrandTwice(v: seq<int>, strand: char, rcindex: seq<int>)
    requires strand != '.' && strand != '+'
    requires Involution(rcindex) && InTable(v, rcindex)
    ensures SingleItem(v, strand, rcindex).Ok?
    ensures SingleItem(SingleItem(v, strand, rcindex).value, strand, rcindex) == Ok(v)
  {
    SingleItemSpec(v, strand, rcindex);
    var w := SingleItem(v, strand, rcindex).value;
    assert InTable(w, rcindex);
    SingleItemSpec(w, strand, rcindex);
    var u := SingleItem(w, strand, rcindex).value;
    forall j | 0 <= j < |v|
      ensures u[j] == v[j]
    {
      assert w[|v| - 1 - j] == Comp(v[j], rcindex);
    }
    assert u == v;
  }

  // ---------------------------------------------------------------------
  // iseq4idx

  /** `binsize + 2*flank - order + 1`: the codes one region yields. */
  function Width(ix: Indexer, order: nat): int
  {
    ix.binsize + 2 * ix.flank - order + 1
  }

  /** Row i of the buffer: the looked-up data, then NOLETTER up to the width.
      A single value assigned to an empty row slice is dropped. */
  function Row(dat: seq<int>, w: nat, noLetter: int): (r: seq<int>)
    requires |dat| <= w || |dat| == 1
    ensures |r| == w
  {
    dat[..Min(|dat|, w)] + Repeat(noLetter, w - |dat|)
  }

  lemma RowSpec(dat: seq<int>, w: nat, noLetter: int)
    requires |dat| <= w
    ensures Row(dat, w, noLetter)[..|dat|] == dat
    ensures forall k :: |dat| <= k < w ==> Row(dat, w, noLetter)[k] == noLetter
  {
    var r := Row(dat, w, noLetter);
    assert dat[..Min(|dat|, w)] == dat;
    assert r[..|dat|] == dat;
  }

  /** The row for index idx: the region's lookup, or the exception that aborts
      the batch; the gindexer's own `[]` is taken to be Python list indexing. */
  function RowFor(ix: Indexer, idx: int, store: Interval -> seq<int>, rcindex: seq<int>,
                  w: nat, noLetter: int): (r: Result<seq<int>>)
    ensures r.Ok? ==> |r.value| == w
  {
    match PyIndex(|ix.regions|, idx)
    case None => Err(IndexError)
    case Some(p) =>
      var iv := ix.regions[p];
      match SingleItem(store(iv), iv.strand, rcindex)
      case Err(e) => Err(e)
      case Ok(dat) =>
        if |dat| > w && |dat| != 1 then Err(ValueError) else Ok(Row(dat, w, noLetter))
  }

  /** The row or the exception for each index. */
  function RowResults(ix: Indexer, idxs: seq<int>, store: Interval -> seq<int>, rcindex: seq<int>,
                      w: nat, noLetter: int): seq<Result<seq<int>>>
  {
    seq(|idxs|, i requires 0 <= i < |idxs| => RowFor(ix, idxs[i], store, rcindex, w, noLetter))
  }

  /** The rows for a list of indices, stopping at the first failing index. */
  function RowsOf(ix: Indexer, idxs: seq<int>, store: Interval -> seq<int>, rcindex: seq<int>,
                  w: nat, noLetter: int): (r: Result<seq<seq<int>>>)
    ensures r.Ok? ==> |r.value| == |idxs| && forall i :: 0 <= i < |idxs| ==> |r.value[i]| == w
  {
    var rs := RowResults(ix, idxs, store, rcindex, w, noLetter);
    CollectSpec(rs);
    Collect(rs)
  }

  /** What iseq4idx returns: without an indexer, or with a negative width,
      numpy or the gindexer property raises ValueError. */
  function Rows(b: Bioseq, idxs: seq<int>, store: Interval -> seq<int>, rcindex: seq<int>,
                noLetter: int): (r: Result<seq<seq<int>>>)
    ensures r.Ok? ==> b.gindexer.Some? && |r.value| == |idxs|
  {
    if b.gindexer.None? then Err(ValueError)
    else if Width(b.gindexer.value, b.order) < 0 then Err(ValueError)
    else RowsOf(b.gindexer.value, idxs, store, rcindex, Width(b.gindexer.value, b.order), noLetter)
  }

  /** The rows are built exactly when every index yields a row; row i is then
      index i's row, and a failure is the first failing index's exception. */
  lemma RowsOfSpec(ix: Indexer, idxs: seq<int>, store: Interval -> seq<int>,
                   rcindex: seq<int>, w: nat, noLetter: int)
    ensures var r := RowsOf(ix, idxs, store, rcindex, w, noLetter);
            && (r.Ok? <==> forall i :: 0 <= i < |idxs| ==> RowFor(ix, idxs[i], store, rcindex, w, noLetter).Ok?)
            && (r.Ok? ==> forall i :: 0 <= i < |idxs| ==>
                            RowFor(ix, idxs[i], store, rcindex, w, noLetter) == Ok(r.value[i]))
            && (r.Err? ==> exists i :: 0 <= i < |idxs|
                             && RowFor(ix, idxs[i], store, rcindex, w, noLetter) == Err(r.error)
                             && forall j :: 0 <= j < i ==> RowFor(ix, idxs[j], store, rcindex, w, noLetter).Ok?)
  {
    var rs := RowResults(ix, idxs, store, rcindex, w, noLetter);
    CollectSpec(rs);
    assert forall i :: 0 <= i < |idxs| ==> rs[i] == RowFor(ix, idxs[i], store, rcindex, w, noLetter);
  }

  /** `iseq[i, :len(dat)] = dat`, then NOLETTER in the rest of row i when dat is shorter. */
  method FillRow(iseq: array2<int>, i: nat, d: seq<int>, noLetter: int)
    requires i < iseq.Length0 && (|d| <= iseq.Length1 || |d| == 1)
    modifies iseq
    ensures forall k :: 0 <= k < iseq.Length1 ==> iseq[i, k] == Row(d, iseq.Length1, noLetter)[k]
    ensures forall i', k :: 0 <= i' < iseq.Length0 && i' != i && 0 <= k < iseq.Length1 ==>
              iseq[i', k] == old(iseq[i', k])
  {
    var w := iseq.Length1;
    var m := Min(|d|, w);
    var k := 0;
    while k < m
      invariant 0 <= k <= m
      invariant forall i', k' :: 0 <= i' < iseq.Length0 && i' != i && 0 <= k' < w ==>
                  iseq[i', k'] == old(iseq[i', k'])
      invariant forall k' :: 0 <= k' < k ==> iseq[i, k'] == d[k']
    {
      iseq[i, k] := d[k];
      k := k + 1;
    }
    if |d| < w {
      k := |d|;
      while k < w
        invariant |d| <= k <= w
        invariant forall i', k' :: 0 <= i' < iseq.Length0 && i' != i && 0 <= k' < w ==>
                    iseq[i', k'] == old(iseq[i', k'])
        invariant forall k' :: 0 <= k' < |d| ==> iseq[i, k'] == d[k']
        invariant forall k' :: |d| <= k' < k ==> iseq[i, k'] == noLetter
      {
        iseq[i, k] := noLetter;
        k := k + 1;
      }
    }
    var row := Row(d, w, noLetter);
    if |d| <= w {
      RowSpec(d, w, noLetter);
      forall k' | 0 <= k' < |d|
        ensures row[k'] == d[k']
      {
        assert row[..|d|][k'] == row[k'];
      }
    }
  }

  /** The body of iseq4idx's loop for index idx: look the region up, fetch
      its data and write it into row i, or raise. */
  method FillIndex(iseq: array2<int>, i: nat, ix: Indexer, idx: int, store: Interval -> seq<int>,
                   rcindex: seq<int>, noLetter: int) returns (err: Option<Error>)
    requires i < iseq.Length0
    modifies iseq
    ensures var r := RowFor(ix, idx, store, rcindex, iseq.Length1, noLetter);
            && (err.None? <==> r.Ok?)
            && (err.Some? ==> r == Err(err.value))
            && (r.Ok? ==> forall k :: 0 <= k < iseq.Length1 ==> iseq[i, k] == r.value[k])
    ensures forall i', k :: 0 <= i' < iseq.Length0 && i' != i && 0 <= k < iseq.Length1 ==>
              iseq[i', k] == old(iseq[i', k])
  {
    var w := iseq.Length1;
    var p := PyIndex(|ix.regions|, idx);
    if p.None? {
      return Some(IndexError);
    }
    var interval := ix.regions[p.value];
    var dat := SingleItem(store(interval), interval.strand, rcindex);
    if dat.Err? {
      return Some(dat.error);
    }
    var d := dat.value;
    if |d| > w && |d| != 1 {
      return Some(ValueError);
    }
    FillRow(iseq, i, d, noLetter);
    err := None;
  }

  /** Bioseq.iseq4idx: a new len(idxs) x width buffer filled row by row with
      the looked-up data and NOLETTER padding. */
  method ISeq4Idx(b: Bioseq, idxs: seq<int>, store: Interval -> seq<int>, rcindex: seq<int>,
                  noLetter: int) returns (r: Result<array2<int>>)
    ensures Rows(b, idxs, store, rcindex, noLetter).Err? ==> r == Err(Rows(b, idxs, store, rcindex, noLetter).error)
    ensures Rows(b, idxs, store, rcindex, noLetter).Ok? ==>
              var rows := Rows(b, idxs, store, rcindex, noLetter).value;
              && r.Ok? && fresh(r.value)
              && r.value.Length0 == |idxs| && r.value.Length1 == Width(b.gindexer.value, b.order)
              && forall i, k :: 0 <= i < r.value.Length0 && 0 <= k < r.value.Length1 ==>
                   r.value[i, k] == rows[i][k]
  {
    if b.gindexer.None? {
      return Err(ValueError);
    }
    var ix := b.gindexer.value;
    if Width(ix, b.order) < 0 {
      return Err(ValueError);
    }
    var w: nat := Width(ix, b.order);
    var n := |idxs|;
    var iseq := new int[n, w];
    ghost var rs := RowResults(ix, idxs, store, rcindex, w, noLetter);
    ghost var rows: seq<seq<int>> := [];
    var i := 0;
    while i < n
      invariant 0 <= i <= n
      invariant Collect(rs[..i]) == Ok(rows)
      invariant |rows| == i && forall i' :: 0 <= i' < i ==> |rows[i']| == w
      invariant forall i', k :: 0 <= i' < i && 0 <= k < w ==> iseq[i', k] == rows[i'][k]
    {
      CollectNext(rs, i, rows);
      assert rs[i] == RowFor(ix, idxs[i], store, rcindex, w, noLetter);
      var e := FillIndex(iseq, i, ix, idxs[i], store, rcindex, noLetter);
      if e.Some? {
        CollectPrefixError(rs, i + 1);
        assert Rows(b, idxs, store, rcindex, noLetter) == Collect(rs);
        return Err(e.value);
      }
      rows := rows + [rs[i].value];
      i := i + 1;
    }
    assert rs[..n] == rs;
    assert Rows(b, idxs, store, rcindex, noLetter) == Collect(rs) == Ok(rows);
    return Ok(iseq);
  }

  // ---------------------------------------------------------------------
  // __len__ and shape

  function Len(b: Bioseq): (r: Result<nat>)
    ensures r.Ok? <==> b.gindexer.Some?
    ensures r.Ok? ==> r.value == |b.gindexer.value.regions|
  {
    if b.gindexer.None? then Err(ValueError) else Ok(|b.gindexer.value.regions|)
  }

  /** `shape`: (regions, width, 1, A^order) with channels last, otherwise
      (regions, A^order, width, 1). */
  function Shape(b: Bioseq): (r: Result<(int, int, int, int)>)
    ensures r.Ok? <==> b.gindexer.Some?
    ensures r.Ok? ==> r.value.0 == |b.gindexer.value.regions|
  {
    if b.gindexer.None? then Err(ValueError)
    else
      var n, w, c := |b.gindexer.value.regions|, Width(b.gindexer.value, b.order), Pow(|b.alphabet|, b.order);
      Ok(if b.channelLast then (n, w, 1, c) else (n, c, w, 1))
  }

  /** The buffer iseq4idx fills is as wide as the shape's sequence dimension,
      and the shape's first dimension is len(self). */
  lemma ShapeMatchesRows(b: Bioseq, idxs: seq<int>, store: Interval -> seq<int>, rcindex: seq<int>,
                         noLetter: int)
    requires Rows(b, idxs, store, rcindex, noLetter).Ok?
    ensures Shape(b).Ok? && Len(b).Ok? && Shape(b).value.0 == Len(b).value
    ensures var rows := Rows(b, idxs, store, rcindex, noLetter).value;
            var s := Shape(b).value;
            && |rows| == |idxs|
            && forall i :: 0 <= i < |rows| ==> |rows[i]| == (if b.channelLast then s.1 else s.2)
  {
  }

  /** Both layouts report the same four numbers, and the letter dimension has
      A^order entries, one per higher-order letter. */
  lemma ShapeLayouts(b: Bioseq)
    ensures Shape(b).Ok? <==> b.gindexer.Some?
    ensures Shape(b).Ok? ==>
              var s := Shape(b).value;
              var t := Shape(b.(channelLast := !b.channelLast)).value;
              && (b.channelLast ==> s == (t.0, t.2, t.3, t.1))
              && (!b.channelLast ==> s == (t.0, t.3, t.1, t.2))
              && (if b.channelLast then s.3 else s.1) == Pow(|b.alphabet|, b.order)
  {
  }

  // ---------------------------------------------------------------------
  // __getitem__

  /** The forms of index `[]` accepts. A tuple carries the number of its
      entries and the pybedtools Interval built from it. */
  datatype Index =
    | Position(i: int)
    | SliceOf(start: Option<int>, stop: Option<int>, step: Option<int>)
    | Positions(idxs: seq<int>)
    | TupleOf(arity: nat, asInterval: Interval)
    | IntervalOf(iv: Interval)
    | NotIterable

  /** Python's `range(start, stop, step)` for a non-zero step. */
  function PyRange(start: int, stop: int, step: int): (r: seq<int>)
    requires step != 0
    ensures forall k :: 0 <= k < |r| ==> r[k] == start + k * step
    ensures forall k :: 0 <= k < |r| ==> (if step > 0 then r[k] < stop else r[k] > stop)
    ensures if step > 0 then start + |r| * step >= stop else start + |r| * step <= stop
    decreases if step > 0 then stop - start else start - stop
  {
    if (step > 0 && start < stop) || (step < 0 && start > stop) then
      var rest := PyRange(start + step, stop, step);
      RangeShift(start, step, rest);
      [start] + rest
    else []
  }

  lemma RangeShift(start: int, step: int, rest: seq<int>)
    requires forall k :: 0 <= k < |rest| ==> rest[k] == (start + step) + k * step
    ensures forall k :: 0 <= k < |rest| + 1 ==> ([start] + rest)[k] == start + k * step
    ensures (start + step) + |rest| * step == start + (|rest| + 1) * step
  {
    forall k | 0 <= k < |rest| + 1
      ensures ([start] + rest)[k] == start + k * step
    {
      if k > 0 {
        Digits.MulDistR(k - 1, 1, step);
      }
    }
    Digits.MulDistR(|rest|, 1, step);
  }

  /** With step 1, range(start, stop) is start, start + 1, ..., stop - 1. */
  lemma RangeOne(start: int, stop: int)
    ensures |PyRange(start, stop, 1)| == Max(stop - start, 0)
    ensures forall k :: 0 <= k < |PyRange(start, stop, 1)| ==> PyRange(start, stop, 1)[k] == start + k
  {
    var r := PyRange(start, stop, 1);
    if |r| > 0 {
      assert r[|r| - 1] == start + (|r| - 1) * 1 < stop;
    }
    assert start + |r| * 1 >= stop;
  }

  /** `x if x else d`: None and 0 are false. */
  function OrElse(x: Option<int>, d: int): int
  {
    if x.Some? && x.value != 0 then x.value else d
  }

  /** The slice normalisation as the source writes it: a missing or zero
      start, stop or step takes 0, len(self) or 1, and the bounds go to range
      as they are, without counting negative ones from the end or clamping. */
  function SliceRangeAsWritten(start: Option<int>, stop: Option<int>, step: Option<int>, len: int): seq<int>
  {
    PyRange(OrElse(start, 0), OrElse(stop, len), OrElse(step, 1))
  }

  /** One bound of Python's `slice.indices(len)`: a missing bound is dflt,
      a negative one counts from the end, and the result is clamped to
      [lower, upper]. */
  function ClampBound(b: Option<int>, dflt: int, lower: int, upper: int, len: nat): (r: int)
    requires lower <= dflt <= upper
    ensures lower <= r <= upper
    ensures b.Some? && 0 <= b.value <= upper ==> r == Max(b.value, lower)
  {
    if b.None? then dflt
    else
      var v := if b.value < 0 then b.value + len else b.value;
      if v < lower then lower else if v > upper then upper else v
  }

  /** `slice(start, stop, step).indices(len)` for a non-zero step: bounds in
      [0, len] going forwards and in [-1, len - 1] going backwards, where a
      missing start is the first end in the step's direction. */
  function SliceIndices(start: Option<int>, stop: Option<int>, step: int, len: nat): (r: (int, int))
    requires step != 0
    ensures step > 0 ==> 0 <= r.0 <= len && 0 <= r.1 <= len
    ensures step < 0 ==> -1 <= r.0 <= len - 1 && -1 <= r.1 <= len - 1
  {
    var lower, upper := if step > 0 then 0 else -1, if step > 0 then len else len - 1;
    (ClampBound(start, if step > 0 then lower else upper, lower, upper, len),
     ClampBound(stop, if step > 0 then upper else lower, lower, upper, len))
  }

  /** The slice normalisation intended: the positions Python's own slicing of
      a sequence of length len selects, for a missing or non-zero step. */
  function SliceRange(start: Option<int>, stop: Option<int>, step: Option<int>, len: nat): seq<int>
    requires step != Some(0)
  {
    var s := if step.Some? then step.value else 1;
    var (a, e) := SliceIndices(start, stop, s, len);
    PyRange(a, e, s)
  }

  /** With step -1, range(start, stop, -1) is start, start - 1, ..., stop + 1. */
  lemma RangeDown(start: int, stop: int)
    ensures |PyRange(start, stop, -1)| == Max(start - stop, 0)
    ensures forall k :: 0 <= k < |PyRange(start, stop, -1)| ==> PyRange(start, stop, -1)[k] == start - k
  {
    var r := PyRange(start, stop, -1);
    if |r| > 0 {
      assert r[|r| - 1] == start + (|r| - 1) * -1 > stop;
    }
    assert start + |r| * -1 <= stop;
  }

  /** Every position a slice selects is a valid index of the sequence sliced. */
  lemma SliceRangeInBounds(start: Option<int>, stop: Option<int>, step: Option<int>, len: nat)
    requires step != Some(0)
    ensures forall k :: 0 <= k < |SliceRange(start, stop, step, len)| ==>
              0 <= SliceRange(start, stop, step, len)[k] < len
  {
    var s := if step.Some? then step.value else 1;
    var (a, e) := SliceIndices(start, stop, s, len);
    var r := PyRange(a, e, s);
    forall k | 0 <= k < |r|
      ensures 0 <= r[k] < len
    {
      assert r[k] == a + k * s;
      if s > 0 {
        Digits.MulLeMul(0, k, s);
      } else {
        Digits.MulLeMul(0, k, -s);
        assert k * -s == -(k * s);
      }
    }
  }

  /** With step 1 (or none), a slice selects the positions Python's slicing
      of 0, 1, ..., len-1 selects, negative and out-of-range bounds included. */
  lemma {:induction false} SliceRangeAgrees(start: Option<int>, stop: Option<int>, step: Option<int>, len: nat)
    requires step == None || step == Some(1)
    ensures SliceRange(start, stop, step, len)
            == PySlice(PyRange(0, len, 1), if start.Some? then start.value else 0,
                       if stop.Some? then stop.value else len)
  {
    var all := PyRange(0, len, 1);
    RangeOne(0, len);
    var sa, se := if start.Some? then start.value else 0, if stop.Some? then stop.value else len;
    ClampIsSliceBound(start, 0, len);
    ClampIsSliceBound(stop, len, len);
    var a, e := SliceBound(len, sa), SliceBound(len, se);
    SliceRangeForward(start, stop, step, len);
    RangeOne(a, e);
    CountingSlice(all, PyRange(a, e, 1), a, e);
    SliceBoundsKept(all, sa, se);
  }

  lemma SliceRangeForward(start: Option<int>, stop: Option<int>, step: Option<int>, len: nat)
    requires step == None || step == Some(1)
    ensures SliceRange(start, stop, step, len)
            == PyRange(ClampBound(start, 0, 0, len, len), ClampBound(stop, len, 0, len, len), 1)
  {
  }

  /** Slicing at normalised bounds is slicing at the bounds themselves. */
  lemma SliceBoundsKept(all: seq<int>, a: int, e: int)
    ensures PySlice(all, SliceBound(|all|, a), SliceBound(|all|, e)) == PySlice(all, a, e)
  {
  }

  /** For a forward step, a bound of `slice.indices` is the bound of Python's
      step-1 slicing. */
  lemma ClampIsSliceBound(b: Option<int>, d: int, len: nat)
    requires 0 <= d <= len
    ensures ClampBound(b, d, 0, len, len) == SliceBound(len, if b.Some? then b.value else d)
  {
  }

  /** `[::-1]` selects every position, last first. */
  lemma SliceReversed(len: nat)
    ensures SliceRange(None, None, Some(-1), len) == Reversed(PyRange(0, len, 1))
  {
    RangeOne(0, len);
    RangeDown(len - 1, -1);
    var r, q := SliceRange(None, None, Some(-1), len), Reversed(PyRange(0, len, 1));
    assert r == PyRange(len - 1, -1, -1);
    forall k | 0 <= k < len
      ensures r[k] == q[k]
    {
    }
  }

  /** Slicing 0, 1, ..., n-1 from a to s (0 <= a, 0 <= s <= n) gives a, ..., s-1. */
  lemma CountingSlice(all: seq<int>, r: seq<int>, a: int, s: int)
    requires forall k :: 0 <= k < |all| ==> all[k] == k
    requires 0 <= a && 0 <= s <= |all|
    requires |r| == Max(s - a, 0) && forall k :: 0 <= k < |r| ==> r[k] == a + k
    ensures r == PySlice(all, a, s)
  {
    if a < s {
      assert SliceBound(|all|, a) == a && SliceBound(|all|, s) == s;
      var p := all[a..s];
      forall k | 0 <= k < |r|
        ensures r[k] == p[k]
      {
        assert p[k] == all[a + k];
      }
    }
  }

  /** The source's normalisation and Python's agree on a forward slice whose
      bounds are non-negative and whose stop, when given, is non-zero and at
      most len. */
  lemma SliceAsWrittenAgrees(start: Option<int>, stop: Option<int>, step: Option<int>, len: nat)
    requires start.None? || 0 <= start.value
    requires stop.None? || 0 < stop.value <= len
    requires step.None? || 0 < step.value
    ensures SliceRangeAsWritten(start, stop, step, len) == SliceRange(start, stop, step, len)
  {
    var s := OrElse(step, 1);
    var (a, e) := SliceIndices(start, stop, s, len);
    assert e == OrElse(stop, len);
    if OrElse(start, 0) <= len {
      assert a == OrElse(start, 0);
    } else {
      assert PyRange(OrElse(start, 0), e, s) == [];
    }
  }

  /** `bioseq[:0]` selects every region, where a Python slice selects none. */
  lemma SliceStopZeroAsWritten()
    ensures SliceRangeAsWritten(None, Some(0), None, 3) == [0, 1, 2]
    ensures SliceRange(None, Some(0), None, 3) == []
  {
    var r := SliceRangeAsWritten(None, Some(0), None, 3);
    assert |r| == 3;
  }

  /** On three regions `bioseq[-2:]` selects five positions, two of them
      negative, where Python's slicing selects the last two regions. */
  lemma SliceNegativeStartAsWritten()
    ensures SliceRangeAsWritten(Some(-2), None, None, 3) == [-2, -1, 0, 1, 2]
    ensures SliceRange(Some(-2), None, None, 3) == [1, 2]
  {
    RangeOne(-2, 3);
    RangeOne(1, 3);
  }

  /** On three regions `bioseq[:5]` selects positions 3 and 4 past the end,
      where Python's slicing stops at the last region. */
  lemma SliceStopPastEndAsWritten()
    ensures SliceRangeAsWritten(None, Some(5), None, 3) == [0, 1, 2, 3, 4]
    ensures SliceRange(None, Some(5), None, 3) == [0, 1, 2]
  {
    RangeOne(0, 5);
    RangeOne(0, 3);
  }

  /** `bioseq[::-1]` selects nothing, where Python's slicing selects every
      region, last first. */
  lemma SliceNegativeStepAsWritten()
    ensures SliceRangeAsWritten(None, None, Some(-1), 3) == []
    ensures SliceRange(None, None, Some(-1), 3) == [2, 1, 0]
  {
    RangeDown(2, -1);
  }

  /** The rows `bioseq[iv]` gives for a genomic interval: only when the whole
      genome is stored; one row of length `iv.length - order + 1`, which
      numpy fills from the looked-up data or from its single value. */
  function IntervalItem(b: Bioseq, iv: Interval, store: Interval -> seq<int>, rcindex: seq<int>)
    : (r: Result<seq<seq<int>>>)
    ensures !b.fullGenomeStored ==> r == Err(ValueError)
    ensures r.Ok? ==> b.fullGenomeStored && |r.value| == 1 && |r.value[0]| == iv.Length() - b.order + 1
  {
    if !b.fullGenomeStored then Err(ValueError)
    else if iv.Length() - b.order + 1 < 0 then Err(ValueError)
    else
      var w := iv.Length() - b.order + 1;
      match SingleItem(store(iv), iv.strand, rcindex)
      case Err(e) => Err(e)
      case Ok(dat) =>
        if |dat| == w then Ok([dat])
        else if |dat| == 1 then Ok([Repeat(dat[0], w)])
        else Err(ValueError)
  }

  /** Bioseq.__getitem__ up to the one-hot expansion. A slice is normalised
      as the source writes it, and len(self) is only asked for when the stop
      is missing or zero. */
  function GetItem(b: Bioseq, index: Index, store: Interval -> seq<int>, rcindex: seq<int>,
                   noLetter: int): (r: Result<seq<seq<int>>>)
    ensures r.Ok? && (index.Position? || index.IntervalOf? || index.TupleOf?) ==> |r.value| == 1
    ensures r.Ok? && index.Positions? ==> |r.value| == |index.idxs|
    ensures r.Ok? && index.SliceOf? ==>
              b.gindexer.Some?
              && |r.value| == |SliceRangeAsWritten(index.start, index.stop, index.step, |b.gindexer.value.regions|)|
  {
    match index
    case TupleOf(arity, iv) =>
      if arity == 3 || arity == 4 then IntervalItem(b, iv, store, rcindex) else Err(ValueError)
    case IntervalOf(iv) => IntervalItem(b, iv, store, rcindex)
    case Position(i) => Rows(b, [i], store, rcindex, noLetter)
    case Positions(idxs) => Rows(b, idxs, store, rcindex, noLetter)
    case SliceOf(start, stop, step) =>
      if OrElse(stop, 0) == 0 && Len(b).Err? then Err(Len(b).error)
      else
        var len := if OrElse(stop, 0) == 0 then Len(b).value else 0;
        Rows(b, SliceRangeAsWritten(start, stop, step, len), store, rcindex, noLetter)
    case NotIterable => Err(IndexError)
  }

  /** What `[]` selects: an integer is one region, a slice the regions of its
      range, and any result holds one row per selected index, as wide as the
      shape's sequence dimension; a genomic interval gives one row of length
      `iv.length - order + 1` and needs the whole genome. */
  lemma GetItemSpec(b: Bioseq, index: Index, store: Interval -> seq<int>, rcindex: seq<int>,
                    noLetter: int)
    ensures index.Position? ==> GetItem(b, index, store, rcindex, noLetter) == Rows(b, [index.i], store, rcindex, noLetter)
    ensures index.SliceOf? && b.gindexer.Some? ==>
              GetItem(b, index, store, rcindex, noLetter)
              == Rows(b, SliceRangeAsWritten(index.start, index.stop, index.step, |b.gindexer.value.regions|),
                      store, rcindex, noLetter)
    ensures index.SliceOf? && b.gindexer.None? ==> GetItem(b, index, store, rcindex, noLetter).Err?
    ensures index.NotIterable? ==> GetItem(b, index, store, rcindex, noLetter) == Err(IndexError)
    ensures (index.Position? || index.Positions? || index.SliceOf?) && GetItem(b, index, store, rcindex, noLetter).Ok? ==>
              Shape(b).Ok?
              && forall i :: 0 <= i < |GetItem(b, index, store, rcindex, noLetter).value| ==>
                   |GetItem(b, index, store, rcindex, noLetter).value[i]|
                   == (if b.channelLast then Shape(b).value.1 else Shape(b).value.2)
    ensures (index.IntervalOf? || index.TupleOf?) && GetItem(b, index, store, rcindex, noLetter).Ok? ==>
              var iv := if index.IntervalOf? then index.iv else index.asInterval;
              var r := GetItem(b, index, store, rcindex, noLetter).value;
              b.fullGenomeStored && |r| == 1 && |r[0]| == iv.Length() - b.order + 1
  {
    var r := GetItem(b, index, store, rcindex, noLetter);
    if (index.Position? || index.Positions? || index.SliceOf?) && r.Ok? {
      var idxs := if index.Position? then [index.i] else if index.Positions? then index.idxs
                  else SliceRangeAsWritten(index.start, index.stop, index.step,
                                           if OrElse(index.stop, 0) == 0 then Len(b).value else 0);
      assert r == Rows(b, idxs, store, rcindex, noLetter);
      ShapeMatchesRows(b, idxs, store, rcindex, noLetter);
    }
  }

  /** `[]` with Python's own slicing: a slice is taken against len(self), so
      it needs an indexer, and a zero step is a ValueError; every other index
      is handled as GetItem handles it. */
  function GetItemIntended(b: Bioseq, index: Index, store: Interval -> seq<int>, rcindex: seq<int>,
                           noLetter: int): (r: Result<seq<seq<int>>>)
    ensures r.Ok? && index.SliceOf? ==>
              && b.gindexer.Some? && index.step != Some(0)
              && |r.value| == |SliceRange(index.start, index.stop, index.step, |b.gindexer.value.regions|)|
  {
    match index
    case SliceOf(start, stop, step) =>
      if Len(b).Err? then Err(Len(b).error)
      else if step == Some(0) then Err(ValueError)
      else Rows(b, SliceRange(start, stop, step, Len(b).value), store, rcindex, noLetter)
    case _ => GetItem(b, index, store, rcindex, noLetter)
  }

  /** With Python's slicing, a slice gives one row per position Python selects
      from the regions, each a valid region; a step of 1 or none gives the
      rows of Python's slice of 0, ..., len-1, and `[::-1]` the rows of every
      region, last first. */
  lemma GetItemIntendedSpec(b: Bioseq, index: Index, store: Interval -> seq<int>, rcindex: seq<int>,
                            noLetter: int)
    ensures !index.SliceOf? ==> GetItemIntended(b, index, store, rcindex, noLetter) == GetItem(b, index, store, rcindex, noLetter)
    ensures index.SliceOf? && (b.gindexer.None? || index.step == Some(0)) ==>
              GetItemIntended(b, index, store, rcindex, noLetter).Err?
    ensures index.SliceOf? && b.gindexer.Some? && index.step != Some(0) ==>
              var n := |b.gindexer.value.regions|;
              var idxs := SliceRange(index.start, index.stop, index.step, n);
              && GetItemIntended(b, index, store, rcindex, noLetter) == Rows(b, idxs, store, rcindex, noLetter)
              && (forall k :: 0 <= k < |idxs| ==> 0 <= idxs[k] < n)
              && (index.step == None || index.step == Some(1) ==>
                    idxs == PySlice(PyRange(0, n, 1), if index.start.Some? then index.start.value else 0,
                                    if index.stop.Some? then index.stop.value else n))
              && (index == SliceOf(None, None, Some(-1)) ==> idxs == Reversed(PyRange(0, n, 1)))
  {
    if index.SliceOf? && b.gindexer.Some? && index.step != Some(0) {
      var n := |b.gindexer.value.regions|;
      SliceRangeInBounds(index.start, index.stop, index.step, n);
      if index.step == None || index.step == Some(1) {
        SliceRangeAgrees(index.start, index.stop, index.step, n);
      }
      if index == SliceOf(None, None, Some(-1)) {
        SliceReversed(n);
      }
    }
  }

  /** `[]` as written and with Python's slicing agree on every index but a
      slice; on a slice they agree when it runs forwards from a non-negative
      start to a stop, if any, in 1..len(self). */
  lemma GetItemAgreesIntended(b: Bioseq, index: Index, store: Interval -> seq<int>, rcindex: seq<int>,
                              noLetter: int)
    requires index.SliceOf? ==>
               && b.gindexer.Some?
               && (index.start.None? || 0 <= index.start.value)
               && (index.stop.None? || 0 < index.stop.value <= |b.gindexer.value.regions|)
               && (index.step.None? || 0 < index.step.value)
    ensures GetItem(b, index, store, rcindex, noLetter) == GetItemIntended(b, index, store, rcindex, noLetter)
  {
    if index.SliceOf? {
      GetItemSpec(b, index, store, rcindex, noLetter);
      GetItemIntendedSpec(b, index, store, rcindex, noLetter);
      SliceAsWrittenAgrees(index.start, index.stop, index.step, |b.gindexer.value.regions|);
    }
  }
}
