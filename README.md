# janggu DNA datasets: a verified model

This project models the core of janggu's `src/janggu/data/dna.py` in Dafny. That file turns nucleotide sequences into integer index arrays for deep-learning models of genomic data, and it contains four classes:

- `GenomicSizeLazyLoader` loads the reference sequences on first use. It cuts the regions of interest out of them, pads them with `'N'`, and memoises the genome size description and the sequences.
- `SeqLoader` encodes each sequence's letter indices into higher-order codes and stores them region by region in a genomic array. The encoding is a valid-mode convolution with the filter `[A^0, ..., A^(order-1)]`, and values below the int8 minimum are clamped.
- `Bioseq` is the dataset. The model covers:
  - its two constructors and their validation;
  - the storage type chosen from the order;
  - the strand-aware lookup of one region;
  - the fixed-width index buffer for a batch of regions, padded with NOLETTER;
  - `__len__` and `shape`;
  - the index normalisation of `[]`, as written and with Python's own slicing.
- `VariantStreamer`:
  - decides which VCF records are admissible;
  - computes the context window around each variant;
  - substitutes the alternative letter into the higher-order codes in place;
  - streams the reference and alternative rows in batches;
  - counts the admissible records.

Modules follow the source:

| Module | File | Contents |
|---|---|---|
| `Common` | `common.dfy` | Results and errors; intervals and sequence records; Python's indexing, slicing and repetition rules; a first-error collection loop |
| `Digits` | `digits.dfy` | Base-A digit arithmetic on Euclidean division |
| `Encoding` | `encoding.dfy` | The index transformation of `SeqLoader`, including numpy's argument swap in `convolve(..., mode='valid')` |
| `LazyLoading` | `lazy_loader.dfy` | The `GenomicSizeLazyLoader` class |
| `SeqLoading` | `seq_loader.dfy` | `SeqLoader`, the genomic array it fills, and the dtype choice |
| `Bioseqs` | `bioseq.dfy` | `Bioseq` |
| `Variants` | `variants.dfy` | `VariantStreamer` |

Imperative parts of the source are imperative in the model:

- the region loop of `load_sequence` and its memo fields, in a class with `gsize_`/`seqs_` fields;
- the store loop of `SeqLoader.__call__`, over a `GenomicArray` object;
- the row loop of `iseq4idx`, over an `array2`;
- the in-place `iref[...] += replacement`, over an `array`;
- `flow`'s reuse of the `refs`/`alts` buffers and its `ibatch` counter;
- the counter of `get_variant_count`.

Each such method is proved equal to a specification function. Lemmas then state what the source promises about those functions.

External pieces are parameters:

- `seq2ind` is a function from letters to indices.
- `_iv_to_str` is a naming function.
- `NMAP` is a map from allele to index.
- `NOLETTER` is an integer.
- The complement table `_rcindex` is a sequence of integers.
- The genomic array's read `garray[interval][:, 0, 0]` is a function from interval to codes.
- `GenomicIndexer.create_from_genomesize` is a function from chromosome lengths to regions.
- `sequence_padding` is a function from records and a fixed length to records.
- A FASTA file is the list of records it holds, and a VCF file is the list of its records.

## Model

| member | source | states |
|---|---|---|
| Common.Repeat | src/janggu/data/dna.py:67-69 | `'N' * k` has max(k, 0) elements, all equal to the repeated one |
| Common.PyIndex | src/janggu/data/dna.py:692-702 | Python list indexing reads position j or j+n exactly when -n <= j < n, and raises IndexError otherwise |
| Common.Upper | src/janggu/data/dna.py:618-620 | `upper()` keeps the length and upper-cases each letter |
| Common.UpperTwice | src/janggu/data/dna.py:619 | Upper-casing an upper-cased allele changes nothing |
| Common.CollectSpec | src/janggu/data/dna.py:64-73 | A loop that appends one value per element and stops at the first exception succeeds exactly when every element does. On success it gives every value in order; on failure it gives the exception of the first failing element |
| Common.CollectNext | src/janggu/data/dna.py:64-73 | After a successful prefix, one more element either appends its value or ends with its exception |
| Common.CollectPrefixError | src/janggu/data/dna.py:64-73 | Once a prefix fails, the whole loop fails with the same exception |
| Encoding.Filter | src/janggu/data/dna.py:142-143 | The filter has `order` entries, and entry k is A^k |
| Encoding.Encode | src/janggu/data/dna.py:138-147 | Encoding fails (numpy's ValueError on an empty array) exactly when order > 1 and the sequence is empty. For order > 1, every code is at least -128 |
| Encoding.EncodeSpec | src/janggu/data/dna.py:138-147 | For order <= 1 the indices pass through unchanged. For order > 1 and n >= order there are n-order+1 codes, code i being max(sum_k A^k·ind[i+order-1-k], -128). For 0 < n < order, numpy swaps the arguments: there are order-n+1 codes, code i being max(A^i·(code of the whole sequence), -128) |
| Encoding.EncodeDigits | src/janggu/data/dna.py:138-147 | With every index in [0, A) nothing is clamped: for every 1 <= order <= n the codes are exactly the base-A codes of the windows |
| Encoding.ValueDigit | src/janggu/data/dna.py:686-688 | Digit o of a window's code, `(v // A^o) % A`, is the letter o places from the window's end |
| Encoding.ValueUpdate | src/janggu/data/dna.py:696-702 | Changing one letter of a window changes its code by the letter difference times that letter's power of A |
| Digits.ReplaceDigit | src/janggu/data/dna.py:690-702 | Adding (e-d)·A^o to a value whose digit o is d makes digit o equal e, and leaves every other digit as it was, whatever the sign of the value |
| LazyLoading.RefMap | src/janggu/data/dna.py:62 | The dictionary has one key per record id, and each key holds a record with that id |
| LazyLoading.RefMapLastWins | src/janggu/data/dna.py:62 | An id that does not occur again later holds its own record, so a later duplicate replaces an earlier one |
| LazyLoading.ExtractRegion | src/janggu/data/dna.py:65-69 | A cut region is at least as long as its interval, and a negative start is padded by exactly -start 'N's in front |
| LazyLoading.ExtractRegionLayout | src/janggu/data/dna.py:65-69 | The region is max(-start, 0) 'N's, then the slice [max(start,0), min(end,len)) of the chromosome, then 'N's, and it is exactly as long as the interval |
| LazyLoading.SubseqsSpec | src/janggu/data/dna.py:62-74 | Cutting the regions succeeds exactly when every region's chromosome is loaded, and otherwise raises KeyError. On success, record i is region i cut from its chromosome, named by `_iv_to_str` |
| LazyLoading.ExtractSubseqs | src/janggu/data/dna.py:62-74 | The region loop computes exactly the records, or the KeyError, described by Subseqs |
| LazyLoading.AssignSpec | src/janggu/data/dna.py:78 | An OrderedDict assignment keeps the keys distinct. A present key keeps its place and takes the new value; a missing key is appended at the end |
| LazyLoading.SizesOfSpec | src/janggu/data/dna.py:78 | The size table lists each record id once, every id of the file occurs in it, and each id's length is that of the id's last record |
| LazyLoading.SizesOfDistinct | src/janggu/data/dna.py:78 | With distinct ids, entry i of the size table is record i's id and length, in file order |
| LazyLoading.LoadSpec | src/janggu/data/dna.py:57-82 | A region list gives one record per region; the whole genome gives the ordered size table and the records unchanged |
| LazyLoading.LoadSpecErrors | src/janggu/data/dna.py:57-82 | Loading fails in exactly two cases: neither regions nor the whole genome are given (UnboundLocalError), or some region's chromosome is missing. With the whole genome, loading gives the chromosome lengths and the records unchanged |
| LazyLoading.GenomicSizeLazyLoader.constructor | src/janggu/data/dna.py:38-44 | Stores the inputs, with both memo fields empty |
| LazyLoading.GenomicSizeLazyLoader.LoadSequence | src/janggu/data/dna.py:46-82 | On success both memo fields hold the loaded genome size and sequences. On failure it reports the exception and changes nothing |
| LazyLoading.GenomicSizeLazyLoader.Gsize | src/janggu/data/dna.py:84-88 | Returns the loaded genome size, or the load's exception. When a value is already memoised it changes nothing |
| LazyLoading.GenomicSizeLazyLoader.Seqs | src/janggu/data/dna.py:90-94 | Returns the loaded sequences, or the load's exception. When a value is already memoised it changes nothing |
| SeqLoading.EncodedFitsDtype | src/janggu/data/dna.py:218 | Every code fits the type chosen for its order: int16 above order 3, int32 otherwise |
| SeqLoading.DtypeFor | src/janggu/data/dna.py:218 | The chosen type always holds the int16 range, and the full int32 range for orders up to 3 |
| SeqLoading.WindowCodesBelow | src/janggu/data/dna.py:139-147 | With indices below A and at least `order` letters, every code is below A^order |
| SeqLoading.ShortCodesBelow | src/janggu/data/dna.py:139-147 | With indices below A and fewer letters than the order, every code is below A^order |
| SeqLoading.StoreAllOutcome | src/janggu/data/dna.py:136-149 | Storing succeeds exactly when order <= 1 or no sequence has an empty index array. A failure is a ValueError |
| SeqLoading.StoreAllKeys | src/janggu/data/dna.py:136-149 | After success the stored regions are the old ones plus every zipped region |
| SeqLoading.StoreAllValues | src/janggu/data/dna.py:136-149 | After success, each region holds the codes of the last sequence zipped with it |
| SeqLoading.LoadRegions | src/janggu/data/dna.py:136-149 | The store loop leaves the array and outcome described by StoreAll over zip(gsize, seqs) |
| SeqLoading.Call | src/janggu/data/dna.py:125-151 | `SeqLoader.__call__` stores the directly given regions and sequences. With a lazy loader it stores those the loader produces, and a failing lazy load leaves the array untouched |
| SeqLoading.MakeGenomicArray | src/janggu/data/dna.py:196-249 | A new array with the order's dtype, filled as Call fills it |
| Bioseqs.CardElements | src/janggu/data/dna.py:428-429 | `len(set(ids)) == len(ids)` holds exactly when no id repeats |
| Bioseqs.LensCheck | src/janggu/data/dna.py:422-425 | `lens == [len(seqs[0])] * len(seqs)` holds exactly when every sequence is as long as the first |
| Bioseqs.FromSeqIndexerSpec | src/janggu/data/dna.py:403-438 | create_from_seq fails in exactly these cases: an unknown storage mode (ValueError), no records (IndexError), unequal lengths or repeated ids (AssertionError). On success, region i is [0, reglen) on record i's id with strand '.', and the regions are distinct |
| Bioseqs.FromSeqStoresEach | src/janggu/data/dna.py:432-443 | With the checks passed and every sequence encodable, the array holds exactly the regions, and region i holds record i's codes |
| Bioseqs.FromSeqIndexer | src/janggu/data/dna.py:403-438 | An accepted record list is non-empty, and its indexer has bin size len(seqs[0]), flank 0 and one region per record. Every failure is a ValueError, IndexError or AssertionError |
| Bioseqs.FixedLenEqualizes | src/janggu/data/dna.py:419-429 | When padding to `fixedlen` leaves a non-empty list of sequences of that length, the records are accepted exactly when their ids are distinct, with bin size `fixedlen` |
| Bioseqs.CreateFromSeq | src/janggu/data/dna.py:356-447 | The records are padded when `fixedlen` is given. A validation error of the padded records comes back with no array. Otherwise it returns a new array filled with the padded records' codes, and the Bioseq or the store's error |
| Bioseqs.CreateFromRefgenome | src/janggu/data/dna.py:326-353 | An unknown storage mode, or neither a region list nor the whole genome, is a ValueError with no array. Otherwise a lazy loader's regions are stored in a new array, with the load's or the store's error when they fail and alphabet ACGT otherwise |
| Bioseqs.Reversed | src/janggu/data/dna.py:510-511 | `s[::-1]` keeps the length, and element j is element n-1-j |
| Bioseqs.Complemented | src/janggu/data/dna.py:510-511 | The complemented values are as many as the stored ones |
| Bioseqs.SingleItem | src/janggu/data/dna.py:503-511 | A lookup keeps the number of values, and strands '.' and '+' give the stored values unchanged |
| Bioseqs.SingleItemSpec | src/janggu/data/dna.py:503-511 | Strands '.' and '+' give the stored values. Any other strand gives at position j the complement of the value at n-1-j (negatives kept as they are). It fails exactly when a non-negative value lies outside the complement table, and then with IndexError |
| Bioseqs.ReverseStrandTwice | src/janggu/data/dna.py:503-511 | With a complement table that undoes itself, looking up the reverse strand twice gives the stored values back |
| Bioseqs.Row | src/janggu/data/dna.py:496-499 | A row is exactly the buffer width |
| Bioseqs.RowSpec | src/janggu/data/dna.py:496-499 | The row starts with the looked-up data, and every remaining cell is NOLETTER |
| Bioseqs.RowFor | src/janggu/data/dna.py:492-499 | The row for one index, when it exists, is exactly the buffer width |
| Bioseqs.RowsOf | src/janggu/data/dna.py:488-501 | The buffer has one row per index, each of the width |
| Bioseqs.RowsOfSpec | src/janggu/data/dna.py:488-501 | The rows are built exactly when every index yields its row, and row i is then index i's row. Otherwise the exception is that of the first failing index |
| Bioseqs.Rows | src/janggu/data/dna.py:468-501 | iseq4idx gives one row per index, and only with an indexer set |
| Bioseqs.FillRow | src/janggu/data/dna.py:496-499 | Row i of the buffer becomes the data followed by NOLETTER, and every other row is unchanged |
| Bioseqs.FillIndex | src/janggu/data/dna.py:492-499 | One iteration writes index idx's row into row i, or reports exactly the exception the lookup raises. Other rows are unchanged |
| Bioseqs.ISeq4Idx | src/janggu/data/dna.py:468-501 | A new len(idxs) × (binsize+2·flank-order+1) buffer whose cells are the rows, or the exception of the first failing index |
| Bioseqs.Len | src/janggu/data/dna.py:559-560 | `len(self)` exists exactly when an indexer is set, and is its number of regions |
| Bioseqs.Shape | src/janggu/data/dna.py:562-573 | A shape exists exactly when an indexer is set, and its first dimension is the number of regions |
| Bioseqs.ShapeMatchesRows | src/janggu/data/dna.py:559-573 | When iseq4idx succeeds, `shape[0]` is `len(self)`, and every row is as wide as the shape's sequence dimension |
| Bioseqs.ShapeLayouts | src/janggu/data/dna.py:562-573 | A shape exists exactly when an indexer is set. The two layouts are permutations of the same numbers, and the channel dimension is A^order |
| Bioseqs.PyRange | src/janggu/data/dna.py:525-528 | `range(start, stop, step)` lists start + k·step for as long as it stays on the near side of stop |
| Bioseqs.RangeOne | src/janggu/data/dna.py:525-528 | `range(a, s)` is a, a+1, ..., s-1 |
| Bioseqs.RangeDown | src/janggu/data/dna.py:525-528 | `range(a, s, -1)` is a, a-1, ..., s+1 |
| Bioseqs.ClampBound | src/janggu/data/dna.py:525-528 | A normalised slice bound lies between the lower and upper limit, and a non-negative bound below the upper limit is kept |
| Bioseqs.SliceIndices | src/janggu/data/dna.py:525-528 | `slice.indices(len)` gives bounds in [0, len] for a forward step and in [-1, len-1] for a backward one |
| Bioseqs.SliceRangeInBounds | src/janggu/data/dna.py:525-528 | Every position Python's slicing selects is a valid index in [0, len) |
| Bioseqs.SliceRangeAgrees | src/janggu/data/dna.py:525-528 | With step 1 or none, the intended normalisation selects exactly the positions Python's slicing of [0, len) selects, for any bounds, negative and out-of-range ones included |
| Bioseqs.SliceReversed | src/janggu/data/dna.py:525-528 | With Python's slicing, `[::-1]` selects every position, last first |
| Bioseqs.SliceAsWrittenAgrees | src/janggu/data/dna.py:525-528 | The source's normalisation selects what Python's slicing selects when the start is absent or non-negative, the stop absent or in 1..len, and the step absent or positive |
| Bioseqs.SliceStopZeroAsWritten | src/janggu/data/dna.py:525-528 | As written, `bioseq[:0]` over 3 regions selects 0, 1, 2, whereas Python's slicing selects nothing |
| Bioseqs.SliceNegativeStartAsWritten | src/janggu/data/dna.py:525-528 | As written, `bioseq[-2:]` over 3 regions selects -2, -1, 0, 1, 2, whereas Python's slicing selects 1, 2 |
| Bioseqs.SliceStopPastEndAsWritten | src/janggu/data/dna.py:525-528 | As written, `bioseq[:5]` over 3 regions selects 0 to 4, two past the end, whereas Python's slicing selects 0, 1, 2 |
| Bioseqs.SliceNegativeStepAsWritten | src/janggu/data/dna.py:525-528 | As written, `bioseq[::-1]` over 3 regions selects nothing, whereas Python's slicing selects 2, 1, 0 |
| Bioseqs.IntervalItem | src/janggu/data/dna.py:529-543 | An interval needs the whole genome stored (ValueError otherwise) and gives one row of length `length - order + 1` |
| Bioseqs.GetItem | src/janggu/data/dna.py:514-557 | An integer or an interval gives one row, a list one row per index, and a slice one row per position of its range as written, and only with an indexer set |
| Bioseqs.GetItemSpec | src/janggu/data/dna.py:514-557 | An integer selects one region and a slice the positions of its range as the source normalises it, and a value that is not iterable is an IndexError. Every integer, list or slice result has one row per index, as wide as the shape's sequence dimension. An interval needs the whole genome stored and gives one row of length `length - order + 1` |
| Bioseqs.GetItemIntended | src/janggu/data/dna.py:514-557 | With Python's slicing, a slice result needs an indexer and a non-zero step, and has one row per position Python selects |
| Bioseqs.GetItemIntendedSpec | src/janggu/data/dna.py:514-557 | With Python's slicing, every index but a slice is handled as the source handles it, a zero step or a missing indexer is an error, and a slice gives the rows of valid regions that Python's slicing selects. With step 1 these are the rows of Python's slice of 0, ..., len-1, and `[::-1]` gives every region, last first |
| Bioseqs.GetItemAgreesIntended | src/janggu/data/dna.py:514-557 | The source's `[]` and the one with Python's slicing give the same result, except on a slice without an indexer or with a negative start, a stop of 0 or past len(self), or a step of 0 or below |
| Variants.CompatibleIsSnv | src/janggu/data/dna.py:610-622 | With NMAP's keys single letters, a compatible record has a single one-letter alternative allele and a one-letter reference |
| Variants.CompatibleIgnoresCase | src/janggu/data/dna.py:610-622 | Compatibility is the same for a record and for the record with its alleles upper-cased |
| Variants.WindowStart | src/janggu/data/dna.py:628 | The window starts (binsize-1)//2 places before the variant's 0-based position |
| Variants.WindowEnd | src/janggu/data/dna.py:663 | The window ends binsize places after its start |
| Variants.WindowSpec | src/janggu/data/dna.py:662-663 | The window is binsize long, and the variant's 0-based position sits (binsize-1)//2 places into it |
| Variants.AdmittedRecords | src/janggu/data/dna.py:627-632 | No more records are admitted than the file holds, each of them compatible and with a window starting at or after 0. A single record is kept exactly when it is admissible |
| Variants.AdmittedRecordsMembers | src/janggu/data/dna.py:627-632 | A record is admitted exactly when it is in the file, compatible, and has a window starting at or after 0 |
| Variants.AdmittedRecordsAppend | src/janggu/data/dna.py:627-632 | Filtering keeps the file order: two stretches of the file give the admitted records of the first, then those of the second |
| Variants.GetVariantCount | src/janggu/data/dna.py:624-633 | The count is the number of admitted records |
| Variants.SubstStepSpec | src/janggu/data/dna.py:684-702 | One step touches at most one code. A matching digit o becomes the alternative letter with every other digit kept; a non-matching digit leaves every code as it was; an index outside the row is an IndexError |
| Variants.Substituted | src/janggu/data/dna.py:682-702 | The substitution loop keeps the number of codes |
| Variants.SubstituteInPlace | src/janggu/data/dna.py:682-702 | The in-place loop leaves the codes described by Substituted, or reports the IndexError |
| Variants.SubstitutionReencodes | src/janggu/data/dna.py:682-702 | On window codes of valid letters, the loop yields exactly the window codes with the variant letter substituted when the reference letter matches, and the reference codes otherwise |
| Variants.MixedStep | src/janggu/data/dna.py:684-702 | Step o reads the code at window o from the centre's end, and takes it from the substituted codes exactly on a match |
| Variants.CodeAtCentre | src/janggu/data/dna.py:684-702 | Digit o of the code read in step o is the centre letter, and substituting that letter adds the difference times A^o |
| Variants.BatchOfSpec | src/janggu/data/dna.py:668-711 | Each yielded column lists one field of the batch's entries, in order, and all columns are equally long |
| Variants.Scan | src/janggu/data/dna.py:655-710 | There are never more entries than admitted records |
| Variants.EntryFor | src/janggu/data/dna.py:655-708 | An entry carries the id or '', chrom, pos-1 and both upper-cased alleles, and its two rows are `binsize - order + 1` long. A lookup of the wrong length is a ValueError, and every failure is a ValueError or an IndexError |
| Variants.EntryReencodes | src/janggu/data/dna.py:662-708 | When the reference lookup gives the window's codes, the entry's position is pos-1 and its reference row is those codes. Its alternative row is the codes with the variant letter substituted, or the reference codes again when the VCF reference does not match |
| Variants.LoadEntry | src/janggu/data/dna.py:664-708 | One admitted record gives its entry, with the id or '', chrom, pos-1 and both upper-cased alleles. Its rows are written into `refs[ibatch]` and `alts[ibatch]` |
| Variants.ScanAdmitted | src/janggu/data/dna.py:655-710 | Entry i belongs to admitted record i. The stream ends cleanly after all of them, or with the exception of the first admitted record that fails |
| Variants.ChunksPartition | src/janggu/data/dna.py:645-717 | The full batches and the remainder cut the entries in order. Every full batch holds batch_size entries and the remainder fewer |
| Variants.ChunksAppend | src/janggu/data/dna.py:645-717 | Adding at most a batch of entries after full batches gives one more full batch, or the remainder |
| Variants.FlowSpec | src/janggu/data/dna.py:635-717 | A negative batch size or width is a ValueError before any batch; a stream that ends cleanly yields at least the final batch |
| Variants.FlowBatching | src/janggu/data/dna.py:635-717 | A clean stream yields full batches of batch_size, then one smaller (possibly empty) final batch, with as many records in all as get_variant_count counts |
| Variants.ReadRecord | src/janggu/data/dna.py:656-710 | One inner iteration skips the record, appends it to the batch, or ends the stream with its exception, as Scan does |
| Variants.TakeRecord | src/janggu/data/dna.py:668-710 | An admitted record's fields and rows are appended to the batch being filled |
| Variants.NextBatch | src/janggu/data/dna.py:645-717 | One pass of the inner loop: batch_size more entries, or the last ones before StopIteration, or the exception after the entries read |
| Variants.Flow | src/janggu/data/dna.py:635-717 | Consumed to the end, flow yields exactly the batches FlowSpec describes and ends with the exception, if any, that FlowSpec names |

## Left out

- FASTA, VCF and BED parsing (Biopython, pysam `VariantFile`, pybedtools) are outside the model: records, intervals and VCF entries are given as values, and a FASTA file name is stood for by its records.
- `seq2ind`, `as_onehot`, `sequence_padding` (given `fixedlen`), `_complement_index`, `_iv_to_str`, `NMAP` and `NOLETTER` live in `janggu.utils`, which is not part of this model. They are parameters, and lookups end at the index rows that `as_onehot` is applied to.
- `GenomicIndexer` is not part of this model. It is reduced to its bin size, flank and regions, and its `[]` is taken to be list indexing. `create_from_genomesize` is a parameter: it receives the size table in the OrderedDict's order, but the order of the regions it returns is its own.
- `create_genomic_array`, caching (`create_sha256_cache`), hdf5/ndarray storage and the `overwrite`/`datatags` warnings are outside the model. The genomic array is a map from region to codes, read through a function parameter.
- `_full_genome_stored` is taken to be the `store_whole_genome` flag the Bioseq was built with.
- The `print`, progress bar and logging calls are I/O and left out, and so are the `FutureWarning`s.
- The `conditions` list, `__repr__`, `ndim` and `tostr` build strings or tuples nothing in the core reads.
- The numpy transposes for `channel_last=False` are covered only through the shape tuple.
- The tuple-to-`Interval` conversion in `__getitem__` is an input: a tuple index carries its arity and the Interval pybedtools builds from it.
- The int16/int32 storage of codes and the integer `iref +=` are unbounded integers in the model. A store into a type the codes do not fit would wrap in numpy.
- SeqLoading.EncodedFitsDtype: proved only for alphabets and orders with A^order <= 32768 and letter indices below A. Codes for larger A^order do overflow int16, which the source does not guard against.
- Variants.SubstitutionReencodes and Variants.EntryReencodes: proved for orders 1 to (binsize-1)//2 + 1, where every code the loop reads lies in the window. For larger orders the loop's negative indices wrap around, which Substituted models but the lemma does not describe.
- LazyLoading.ExtractRegionLayout: stated for intervals with start <= end and end >= 0. With a negative end, Python's slice counts from the chromosome's end. ExtractRegion models that case, but the lemma does not describe it.
- Bioseqs.SliceRangeAgrees: compares the intended slicing with Python's only for step 1. For other steps SliceRange follows `slice.indices` and `range`, and apart from SliceReversed (`[::-1]`) no lemma compares it with a stepped slice.
- Bioseqs.GetItemIntended: a step of 0 is taken to raise ValueError as Python's slicing does, where the source takes it for step 1.
- An alphabet of size 0 is excluded (`a >= 1`): the source would raise ZeroDivisionError in `% alphabetsize`.
- Variants.Flow: requires batch_size != 0, because with batch size 0 the source generator yields empty batches forever. The model describes flow consumed to the end, not interleaved with its consumer.
- The reuse of the `refs`/`alts` buffers across yields is not modelled: a consumer that keeps an earlier yielded batch sees it overwritten by later rows. Each yielded batch in the model is a copy of the buffer rows.
- `upper()` is modelled on ASCII letters only.

## Findings

| source | as written | input that shows it | evidently intended | confidence | as-written member | corrected member |
|---|---|---|---|---|---|---|
| src/janggu/data/dna.py:527 | the slice stop is defaulted by truthiness (`idxs.stop if idxs.stop else len(self)`), so a stop of 0 counts as missing | `bioseq[:0]` on a dataset of 3 regions selects regions 0, 1, 2 | an empty selection, as Python slicing gives: only a missing stop means `len(self)` | not executed | Bioseqs.SliceStopZeroAsWritten | Bioseqs.SliceRangeAgrees |
| src/janggu/data/dna.py:525-528 | the slice bounds go to `range` without counting negative ones from the end | `bioseq[-2:]` on 3 regions selects positions -2, -1, 0, 1, 2, five rows, the first two resolved from the end | the last two regions, as Python slicing gives | not executed | Bioseqs.SliceNegativeStartAsWritten | Bioseqs.SliceRangeAgrees |
| src/janggu/data/dna.py:525-528 | the slice stop goes to `range` without clamping to `len(self)` | `bioseq[:5]` on 3 regions selects positions 3 and 4, which the indexer rejects with IndexError | all three regions, as Python slicing gives | not executed | Bioseqs.SliceStopPastEndAsWritten | Bioseqs.SliceRangeInBounds |
| src/janggu/data/dna.py:525-528 | a negative step keeps the forward defaults 0 and `len(self)` for a missing start and stop | `bioseq[::-1]` on 3 regions selects nothing | every region, last first, as Python slicing gives | not executed | Bioseqs.SliceNegativeStepAsWritten | Bioseqs.SliceReversed |
