/** SeqLoader and the genomic array it fills: for every region and its
    sequence, the letter indices are turned into higher-order codes and stored
    under that region. The storage type is chosen from the order. */
module SeqLoading {
  import opened Common
  import opened Encoding
  import opened LazyLoading

  /** The integer type the genomic array stores codes in (`typecode`). */
  datatype Dtype = Int16 | Int32

  function MinOf(t: Dtype): int
  {
    match t
    case Int16 => -0x8000
    case Int32 => -0x8000_0000
  }

  function MaxOf(t: Dtype): int
  {
    match t
    case Int16 => 0x7fff
    case Int32 => 0x7fff_ffff
  }

  /** Bioseq._make_genomic_array: int16 for orders above 3, int32 otherwise. */
  function DtypeFor(order: nat): (r: Dtype)
    ensures MinOf(r) <= -0x8000 && 0x7fff <= MaxOf(r)
    ensures order <= 3 ==> MinOf(r) == -0x8000_0000 && MaxOf(r) == 0x7fff_ffff
  {
    if order > 3 then Int16 else Int32
  }

  lemma {:induction false} PowMonotone(a: int, e1: nat, e2: nat)
    requires a >= 1 && e1 <= e2
    ensures Pow(a, e1) <= Pow(a, e2)
    decreases e2
  {
    if e1 < e2 {
      PowMonotone(a, e1, e2 - 1);
      PowPositive(a, e2 - 1);
      Digits.MulLeMul(1, a, Pow(a, e2 - 1));
    }
  }

  /** Every code SeqLoader produces fits the storage type chosen for its
      order, provided there are at most 2^15 distinct codes (a^order <= 32768),
      every letter index is below a, and, for order 1 where nothing is
      clamped, no index is below the int32 minimum. */
  lemma EncodedFitsDtype(ind: seq<int>, a: int, order: nat)
    requires a >= 1 && order >= 1 && Pow(a, order) <= 0x8000
    requires forall i :: 0 <= i < |ind| ==> -0x8000_0000 <= ind[i] < a
    ensures var r := Encode(ind, a, order);
            r.Some? ==> forall i :: 0 <= i < |r.value| ==>
              MinOf(DtypeFor(order)) <= r.value[i] <= MaxOf(DtypeFor(order))
  {
    if order == 1 {
      EncodeSpec(ind, a, order);
      assert Pow(a, 1) == a;
    } else if |ind| >= order {
      WindowCodesBelow(ind, a, order);
    } else if |ind| > 0 {
      ShortCodesBelow(ind, a, order);
    }
  }

  /** With at least `order` letters, every code is a window code below a^order. */
  lemma WindowCodesBelow(ind: seq<int>, a: int, order: nat)
    requires a >= 1 && 1 < order <= |ind|
    requires forall i :: 0 <= i < |ind| ==> ind[i] < a
    ensures forall i :: 0 <= i < |Encode(ind, a, order).value| ==> Encode(ind, a, order).value[i] < Pow(a, order)
  {
    EncodeSpec(ind, a, order);
    PowPositive(a, order);
    var r := Encode(ind, a, order).value;
    forall i | 0 <= i < |r|
      ensures r[i] < Pow(a, order)
    {
      ValueBelow(ind[i..i + order], a);
    }
  }

  /** With fewer letters than the order, code i is a^i times the sequence's code, below a^order. */
  lemma ShortCodesBelow(ind: seq<int>, a: int, order: nat)
    requires a >= 1 && 0 < |ind| < order
    requires forall i :: 0 <= i < |ind| ==> ind[i] < a
    ensures forall i :: 0 <= i < |Encode(ind, a, order).value| ==> Encode(ind, a, order).value[i] < Pow(a, order)
  {
    EncodeSpec(ind, a, order);
    PowPositive(a, order);
    var r := Encode(ind, a, order).value;
    forall i | 0 <= i < |r|
      ensures r[i] < Pow(a, order)
    {
      ShortCodeBelow(ind, a, order, i);
    }
  }

  lemma ShortCodeBelow(ind: seq<int>, a: int, order: nat, i: nat)
    requires a >= 1 && i + |ind| <= order
    requires forall k :: 0 <= k < |ind| ==> ind[k] < a
    ensures Pow(a, i) * Value(ind, a) < Pow(a, order)
  {
    var v, pi, pn := Value(ind, a), Pow(a, i), Pow(a, |ind|);
    ValueBelow(ind, a);
    PowPositive(a, i);
    Digits.MulLeMul(v, pn - 1, pi);
    Digits.MulDistR(pn, -1, pi);
    PowAdd(a, |ind|, i);
    PowMonotone(a, |ind| + i, order);
    assert pi * v == v * pi;
    assert pn * pi == Pow(a, |ind| + i);
  }

  /** The genomic array the loader writes into: codes by region. */
  class GenomicArray {
    var data: map<Interval, seq<int>>
    const order: nat
    const typecode: Dtype

    constructor (order: nat, typecode: Dtype)
      ensures data == map[] && this.order == order && this.typecode == typecode
    {
      data := map[];
      this.order := order;
      this.typecode := typecode;
    }
  }

  /** The codes of each sequence over its alphabet, or None where numpy
      raises ValueError. */
  function Codes(seqs: seq<SeqRecord>, order: nat, seq2ind: string -> seq<int>): seq<Option<seq<int>>>
  {
    seq(|seqs|, i requires 0 <= i < |seqs| => Encode(seq2ind(seqs[i].bases), |seqs[i].alphabet|, order))
  }

  /** The state after storing the first k (region, codes) pairs: each region
      gets its codes, until codes are missing (ValueError). */
  function StoreCodes(data: map<Interval, seq<int>>, regions: seq<Interval>, cs: seq<Option<seq<int>>>, k: nat)
    : (map<Interval, seq<int>>, Outcome)
    requires k <= |regions| && k <= |cs|
  {
    if k == 0 then (data, Pass)
    else
      var (d, o) := StoreCodes(data, regions, cs, k - 1);
      if o.Fail? then (d, o)
      else
        match cs[k - 1]
        case None => (d, Fail(ValueError))
        case Some(c) => (d[regions[k - 1] := c], Pass)
  }

  /** The state after storing the first k (region, sequence) pairs of the
      zipped lists: each region gets the codes of its sequence over its
      alphabet, until a sequence cannot be encoded (ValueError). */
  function StoreAll(data: map<Interval, seq<int>>, regions: seq<Interval>, seqs: seq<SeqRecord>,
                    order: nat, seq2ind: string -> seq<int>, k: nat): (map<Interval, seq<int>>, Outcome)
    requires k <= |regions| && k <= |seqs|
  {
    StoreCodes(data, regions, Codes(seqs, order, seq2ind), k)
  }

  lemma {:induction false} StoreCodesOutcome(data: map<Interval, seq<int>>, regions: seq<Interval>,
                                             cs: seq<Option<seq<int>>>, k: nat)
    requires k <= |regions| && k <= |cs|
    ensures var o := StoreCodes(data, regions, cs, k).1;
            && (o.Pass? <==> forall i :: 0 <= i < k ==> cs[i].Some?)
            && (o.Fail? ==> o.error == ValueError)
  {
    if k > 0 {
      StoreCodesOutcome(data, regions, cs, k - 1);
    }
  }

  /** Storing succeeds exactly when the order is at most 1 or no sequence
      of the first k has an empty index array; a failure is numpy's
      ValueError from convolving an empty array. */
  lemma StoreAllOutcome(data: map<Interval, seq<int>>, regions: seq<Interval>,
                        seqs: seq<SeqRecord>, order: nat, seq2ind: string -> seq<int>, k: nat)
    requires k <= |regions| && k <= |seqs|
    ensures var o := StoreAll(data, regions, seqs, order, seq2ind, k).1;
            && (o.Pass? <==> order <= 1 || forall i :: 0 <= i < k ==> |seq2ind(seqs[i].bases)| > 0)
            && (o.Fail? ==> o.error == ValueError)
  {
    var cs := Codes(seqs, order, seq2ind);
    StoreCodesOutcome(data, regions, cs, k);
    forall i | 0 <= i < k
      ensures cs[i].Some? <==> order <= 1 || |seq2ind(seqs[i].bases)| > 0
    {
      assert cs[i] == Encode(seq2ind(seqs[i].bases), |seqs[i].alphabet|, order);
    }
  }

  lemma {:induction false} StoreCodesKeys(data: map<Interval, seq<int>>, regions: seq<Interval>,
                                          cs: seq<Option<seq<int>>>, k: nat)
    requires k <= |regions| && k <= |cs| && StoreCodes(data, regions, cs, k).1.Pass?
    ensures StoreCodes(data, regions, cs, k).0.Keys == data.Keys + (set i | 0 <= i < k :: regions[i])
  {
    if k > 0 {
      StoreCodesKeys(data, regions, cs, k - 1);
      assert (set i | 0 <= i < k :: regions[i])
          == (set i | 0 <= i < k - 1 :: regions[i]) + {regions[k - 1]};
    }
  }

  /** After k pairs, the regions stored are the old keys and the first k regions. */
  lemma StoreAllKeys(data: map<Interval, seq<int>>, regions: seq<Interval>,
                     seqs: seq<SeqRecord>, order: nat, seq2ind: string -> seq<int>, k: nat)
    requires k <= |regions| && k <= |seqs|
    requires StoreAll(data, regions, seqs, order, seq2ind, k).1.Pass?
    ensures StoreAll(data, regions, seqs, order, seq2ind, k).0.Keys
            == data.Keys + (set i | 0 <= i < k :: regions[i])
  {
    StoreCodesKeys(data, regions, Codes(seqs, order, seq2ind), k);
  }

  lemma {:induction false} StoreCodesValues(data: map<Interval, seq<int>>, regions: seq<Interval>,
                                            cs: seq<Option<seq<int>>>, k: nat, i: nat)
    requires i < k <= |regions| && k <= |cs| && StoreCodes(data, regions, cs, k).1.Pass?
    requires forall j :: i < j < k ==> regions[j] != regions[i]
    ensures regions[i] in StoreCodes(data, regions, cs, k).0
    ensures Some(StoreCodes(data, regions, cs, k).0[regions[i]]) == cs[i]
  {
    if i < k - 1 {
      StoreCodesValues(data, regions, cs, k - 1, i);
    }
  }

  /** After storing successfully, every region holds the codes of the last
      sequence zipped with it. */
  lemma StoreAllValues(data: map<Interval, seq<int>>, regions: seq<Interval>,
                       seqs: seq<SeqRecord>, order: nat, seq2ind: string -> seq<int>, k: nat, i: nat)
    requires i < k <= |regions| && k <= |seqs|
    requires StoreAll(data, regions, seqs, order, seq2ind, k).1.Pass?
    requires forall j :: i < j < k ==> regions[j] != regions[i]
    ensures regions[i] in StoreAll(data, regions, seqs, order, seq2ind, k).0
    ensures Some(StoreAll(data, regions, seqs, order, seq2ind, k).0[regions[i]])
            == Encode(seq2ind(seqs[i].bases), |seqs[i].alphabet|, order)
  {
    StoreCodesValues(data, regions, Codes(seqs, order, seq2ind), k, i);
  }

  /** The loop of SeqLoader.__call__ over zip(gsize, seqs). */
  method LoadRegions(garray: GenomicArray, regions: seq<Interval>, seqs: seq<SeqRecord>,
                     seq2ind: string -> seq<int>) returns (o: Outcome)
    modifies garray
    ensures (garray.data, o)
            == StoreAll(old(garray.data), regions, seqs, garray.order, seq2ind, Min(|regions|, |seqs|))
  {
    var n := Min(|regions|, |seqs|);
    var order := garray.order;
    ghost var cs := Codes(seqs, order, seq2ind);
    var k := 0;
    while k < n
      invariant 0 <= k <= n
      invariant StoreCodes(old(garray.data), regions, cs, k) == (garray.data, Pass)
    {
      var region, s := regions[k], seqs[k];
      var indarray := seq2ind(s.bases);
      var codes := Encode(indarray, |s.alphabet|, order);
      assert codes == cs[k];
      if codes.None? {
        FailurePersists(old(garray.data), regions, cs, k + 1, n);
        return Fail(ValueError);
      }
      garray.data := garray.data[region := codes.value];
      k := k + 1;
    }
    o := Pass;
  }

  /** After a failing pair, storing more pairs changes nothing. */
  lemma {:induction false} FailurePersists(data: map<Interval, seq<int>>, regions: seq<Interval>,
                                           cs: seq<Option<seq<int>>>, k: nat, n: nat)
    requires k <= n <= |regions| && n <= |cs|
    requires StoreCodes(data, regions, cs, k).1.Fail?
    ensures StoreCodes(data, regions, cs, n) == StoreCodes(data, regions, cs, k)
    decreases n - k
  {
    if k < n {
      FailurePersists(data, regions, cs, k + 1, n);
    }
  }

  /** Where the loader gets its regions and sequences: given directly, or
      from a lazy loader that is asked for them when the loader runs. */
  datatype SizeSource = Direct(regions: seq<Interval>) | Lazy(lazy: GenomicSizeLazyLoader)

  datatype SeqLoader = SeqLoader(gsize: SizeSource, seqs: seq<SeqRecord>, order: nat)

  function LazyObjects(loader: SeqLoader): set<object>
  {
    if loader.gsize.Lazy? then {loader.gsize.lazy} else {}
  }

  /** The regions a genome size description stands for; for a whole genome
      they come from GenomicIndexer.create_from_genomesize, given here as
      genomeRegions. */
  function RegionsOf(g: GenomeSize, genomeRegions: SizeTable -> seq<Interval>): seq<Interval>
  {
    match g
    case Regions(r) => r
    case WholeGenome(sizes) => genomeRegions(sizes)
  }

  /** SeqLoader.__call__(garray): resolves the regions and sequences (loading
      them lazily when gsize is a lazy loader) and stores the codes of every
      zipped pair; a failing lazy load leaves the array untouched. */
  method Call(loader: SeqLoader, garray: GenomicArray, seq2ind: string -> seq<int>,
              genomeRegions: SizeTable -> seq<Interval>) returns (o: Outcome)
    requires loader.gsize.Lazy? ==> loader.gsize.lazy.Valid()
    requires garray.order == loader.order
    modifies garray, LazyObjects(loader)
    ensures loader.gsize.Direct? ==>
              var regions := loader.gsize.regions;
              (garray.data, o)
              == StoreAll(old(garray.data), regions, loader.seqs, loader.order, seq2ind,
                          Min(|regions|, |loader.seqs|))
    ensures loader.gsize.Lazy? ==>
              var lazy := loader.gsize.lazy;
              && lazy.Valid()
              && (lazy.Load().Err? ==> o == Fail(lazy.Load().error) && garray.data == old(garray.data))
              && (lazy.Load().Ok? ==>
                    var regions := RegionsOf(lazy.Load().value.0, genomeRegions);
                    var seqs := lazy.Load().value.1;
                    (garray.data, o)
                    == StoreAll(old(garray.data), regions, seqs, loader.order, seq2ind,
                                Min(|regions|, |seqs|)))
  {
    match loader.gsize
    case Direct(regions) =>
      o := LoadRegions(garray, regions, loader.seqs, seq2ind);
    case Lazy(lazy) =>
      var g := lazy.Gsize();
      if g.Err? {
        return Fail(g.error);
      }
      var s := lazy.Seqs();
      o := LoadRegions(garray, RegionsOf(g.value, genomeRegions), s.value, seq2ind);
  }

  /** Bioseq._make_genomic_array: a new genomic array whose storage type is
      chosen from the order, filled by the loader. */
  method MakeGenomicArray(loader: SeqLoader, seq2ind: string -> seq<int>,
                          genomeRegions: SizeTable -> seq<Interval>)
    returns (garray: GenomicArray, o: Outcome)
    requires loader.gsize.Lazy? ==> loader.gsize.lazy.Valid()
    modifies LazyObjects(loader)
    ensures fresh(garray)
    ensures garray.order == loader.order && garray.typecode == DtypeFor(loader.order)
    ensures loader.gsize.Direct? ==>
              var regions := loader.gsize.regions;
              (garray.data, o)
              == StoreAll(map[], regions, loader.seqs, loader.order, seq2ind,
                          Min(|regions|, |loader.seqs|))
    ensures loader.gsize.Lazy? ==>
              var lazy := loader.gsize.lazy;
              && lazy.Valid()
              && (lazy.Load().Err? ==> o == Fail(lazy.Load().error) && garray.data == map[])
              && (lazy.Load().Ok? ==>
                    var regions := RegionsOf(lazy.Load().value.0, genomeRegions);
                    var seqs := lazy.Load().value.1;
                    (garray.data, o)
                    == StoreAll(map[], regions, seqs, loader.order, seq2ind, Min(|regions|, |seqs|)))
  {
    garray := new GenomicArray(loader.order, DtypeFor(loader.order));
    o := Call(loader, garray, seq2ind, genomeRegions);
  }
}
