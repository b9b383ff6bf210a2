# alntools: BAM alignments to equivalence classes

alntools turns the alignments in a BAM file into equivalence classes (ECs).
An EC is the set of targets (transcripts) that one read aligned to. Its key
is the distinct target ids of the read, sorted as strings and joined with
`,`. Each class is counted. Two pipelines do this.

- **Single-sample** (`alntools/bam_utils.py`):
  - plans chunks of the BAM file from BGZF virtual offsets;
  - runs an accumulator over each chunk (`process_piece`);
  - merges the per-worker results;
  - writes the version-1 binary EC file.
- **Multisample** (`alntools/bam_utils_multisample.py`):
  - counts every class per cell barcode (the `CR` field of the `|||`-separated read name) and keeps per-target start ranges (`process_convert_bam`);
  - merges the worker results;
  - filters cell barcodes by a minimum count;
  - builds the compressed-sparse-row "N" matrix (classes × cell barcodes);
  - writes the range file.

This project is a Dafny model of that bookkeeping. Alignment records, the
reference names of the BAM header and files are inputs given as values:

- a file is a byte sequence;
- Python 2 `str` is a byte sequence compared in byte order;
- Python dictionaries are insertion-ordered maps (`OrderedMaps.OMap`).

Loops that update state in the source are methods with loop invariants. Each is proved equal to a specification function, and the source's promises are lemmas about those functions.

Modules:

| file | module | models |
|---|---|---|
| `wrappers.dfy` | `Wrappers` | `Option` and `Result` |
| `bytestrings.dfy` | `ByteStrings` | `find`, `rfind`, `split`, `join`, `sorted`, `set`, `str(int)` on byte strings |
| `orderedmaps.dfy` | `OrderedMaps` | ordered dictionaries, counters, dense `ec_idx` indexes, `dict.update` |
| `bgzf.dfy` | `Bgzf` | `fix_bam`, `validate_bam` |
| `chunks.dfy` | `Chunks` | chunk count normalisation, `calculate_chunks` pairing, virtual offset → byte range |
| `targets.dfy` | `Targets` | reference-name split, main-target table, tid → main target map, haplotypes |
| `alignments.dfy` | `Alignments` | the alignment record, EC keys |
| `singlesample.dfy` | `SingleSample` | `process_piece` |
| `singlemerge.dfy` | `SingleMerge` | the result merge of the single-sample `convert` |
| `ecformat.dfy` | `EcFormat` | the version-1 EC file layout and a reader for it |
| `ecwriter.dfy` | `EcWriter` | the version-1 writer of the single-sample `convert` |
| `multisample.dfy` | `MultiSample` | `process_convert_bam`, `merge_two_dicts` |
| `multicombine.dfy` | `MultiCombine` | the result merge of the multisample `convert` |
| `multifilter.dfy` | `MultiFilter` | the minimum-count filter of cell barcodes |
| `csrmatrix.dfy` | `CountMatrix` | the CSR arrays `indptr`, `indices`, `data` |
| `rangefile.dfy` | `RangeFile` | the range file and its widths |
| `rangecombine.dfy` | `RangeCombine` | range widths after merging worker results |

## Model

| member | source | states |
|---|---|---|
| Bgzf.FixBamSpec | alntools/bam_utils.py:75-104 | `fix_bam` succeeds exactly on an existing file that starts with the 16-byte BGZF header and is at least 28 bytes long. A missing path is an error. A repaired file starts with every byte of the original and ends with the EOF block. It equals the original exactly when the original already ended with that block; otherwise it is the original with exactly the EOF block appended |
| Bgzf.FixBamIdempotent | alntools/bam_utils_multisample.py:113-142 | repairing a repaired file changes nothing |
| Bgzf.ValidateMatchesFix | alntools/bam_utils_multisample.py:113-165 | `validate_bam` succeeds exactly on the files `fix_bam` leaves unchanged. When `fix_bam` fails, `validate_bam` fails with the same error. It reports a bad EOF exactly when `fix_bam` would append the block. Every file `fix_bam` produced passes `validate_bam` |
| Bgzf.BamFile.Fix | alntools/bam_utils_multisample.py:113-142 | the in-place repair of a file object: it fails exactly when `fix_bam` fails, with its error, and then leaves the file untouched; on success the content becomes the repaired content |
| Bgzf.ReadAt | alntools/bam_utils.py:90 | `h.read(n)` returns at most `n` bytes, all copied from the file at the read position, and exactly `n` when the file holds them |
| Chunks.NormaliseChunks | alntools/bam_utils.py:458-463 | a count ≤ 0 becomes the processor count; a positive count stays positive, never exceeds the request or 1000, and is lowered only to 1000 |
| Chunks.NormaliseChunksIdempotent | alntools/bam_utils.py:458-463 | normalising a normalised count changes nothing |
| Chunks.Shift16 | alntools/bam_utils.py:505 | `v >> 16` is the floor of `v / 65536`, negative values included |
| Chunks.VirtualOffsetBlock | alntools/bam_utils.py:505-508 | shifting a virtual offset `coffset << 16 \| uoffset` right by 16 gives back the block offset `coffset` |
| Chunks.CalculateChunks | alntools/bam_utils.py:116-208 | one chunk or no offsets gives `[[0, -1]]`; otherwise there is one chunk per virtual offset, starting at that offset. Each chunk ends where the next starts, and the last ends at -1 |
| Chunks.ByteRange | alntools/bam_utils.py:505-510 | the start byte is the start's block offset. For an end > 0 the start plus the length is the end's block offset; otherwise the length is -1 |
| Chunks.PlanPieces | alntools/bam_utils.py:494-515 | planning fails with an index error exactly when more chunks are asked for than exist; otherwise piece `i` carries chunk `i`'s byte range |
| Chunks.PiecesTile | alntools/bam_utils.py:505-510 | the byte ranges of adjoining chunks tile the file: each range ends where the next begins, and the last is open (-1) |
| ByteStrings.RFind | alntools/bam_utils_multisample.py:410 | `rfind` gives the last index of the byte, or -1 when it is absent |
| ByteStrings.SplitJoinSep | alntools/bam_utils_multisample.py:274-276 | splitting a join gives back the parts when the separator's first byte occurs in none of them |
| ByteStrings.SortSorted | alntools/bam_utils.py:374 | `sorted` gives a non-decreasing permutation of its argument |
| ByteStrings.SortedSetSpec | alntools/bam_utils.py:419 | `sorted(list(set(xs)))` is strictly increasing and holds exactly the elements of `xs` |
| ByteStrings.DecimalRoundTrip | alntools/bam_utils.py:338 | `int(str(n)) == n` |
| ByteStrings.DecimalInjective | alntools/bam_utils.py:338 | distinct target ids have distinct decimal keys |
| OrderedMaps.BumpTotal | alntools/bam_utils.py:368-371 | `d[k] += delta` (or `d[k] = delta` for a new key) adds `delta` to that key's count and to the total, and to no other key |
| OrderedMaps.IndexesKeysAppend | alntools/bam_utils.py:376-380 | giving a new key the index `len(ec_idx)` keeps the index dense over the keys in order |
| OrderedMaps.IndexesKeysDense | alntools/bam_utils.py:376-380 | a dense index takes exactly the values 0..n-1 |
| OrderedMaps.AddCountsGet | alntools/bam_utils.py:565-569 | merging counters adds the counts key by key |
| OrderedMaps.AddCountsTotal | alntools/bam_utils.py:565-569 | merging counters adds their totals |
| OrderedMaps.AddCountsKeys | alntools/bam_utils.py:565-569 | merging counters keeps the old keys in their places and holds exactly the keys of both |
| OrderedMaps.UpdateSpec | alntools/bam_utils_multisample.py:325-328 | `z.update(y)` takes `y`'s value for every key of `y`, keeps `x`'s order and appends `y`'s new keys in `y`'s order |
| Targets.SplitNameJoin | alntools/bam_utils_multisample.py:409-416 | a name `target_haplotype` with a non-empty target and no `_` in the haplotype splits back into that target and haplotype |
| Targets.SplitNameNoSeparator | alntools/bam_utils_multisample.py:409-416 | a name with no `_` after its first byte is its own target, with the empty haplotype |
| Targets.PrefixSuffixJoin | alntools/bam_utils.py:339-340 | `name[:rfind('_')]` and `name[rfind('_')+1:]` split `target_haplotype` back into its parts |
| Targets.PrefixSuffixNoSeparator | alntools/bam_utils.py:246-247 | a name without `_` loses its last byte as main target and is whole as haplotype |
| Targets.GetTid | alntools/bam_utils_multisample.py:408 | `get_tid` gives the first index of the name among the references, or -1 when it is not one |
| Targets.HaplotypesOfIn | alntools/bam_utils_multisample.py:419 | the haplotypes collected are exactly those of the references |
| Targets.RegisterTarget | alntools/bam_utils_multisample.py:421-423 | registering a target keeps `main_targets` and `main_targets_list` equal to the distinct targets seen, in first-seen order, indexed 0..n-1 |
| Targets.TidStep | alntools/bam_utils_multisample.py:418 | after one more reference, the tid map sends every reference seen so far to its target and holds no other tid |
| Targets.BuildTargetTable | alntools/bam_utils_multisample.py:407-427 | `main_targets` holds the distinct targets in first-seen order with indices 0..n-1. The tid map sends each reference's tid to its target and holds nothing else. The haplotypes are strictly sorted and are exactly the references' haplotypes |
| Targets.BuildMainTargets | alntools/bam_utils.py:243-252 | with no target file, `main_targets` is the strictly sorted distinct prefixes `name[:rfind('_')]` of the references, indexed 0..n-1 in that order |
| Targets.SortedSetUnique | alntools/bam_utils.py:250 | two strictly sorted lists with the same elements are equal, so `sorted(set)` is determined by the set |
| Alignments.EcKeyWellFormed | alntools/bam_utils.py:374 | an EC key of distinct tids splits back at `,` into the sorted tids, each the decimal of a reference index |
| Alignments.EcKeyOrderFree | alntools/bam_utils.py:374 | the key does not depend on the order in which the tids were collected |
| Alignments.SortedUnique | alntools/bam_utils.py:374 | two sorted permutations of the same list are equal |
| Alignments.CountMappedBound | alntools/bam_utils.py:323-334 | a chunk never has more mapped records than records |
| Alignments.CountMappedAllBound | alntools/bam_utils.py:323-334 | all chunks together never have more mapped records than records, so valid alignments never exceed all alignments |
| SingleSample.FlushReadCounts | alntools/bam_utils.py:373-380 | closing a read adds one to the count of its class key and changes no other count |
| SingleSample.RecordReference | alntools/bam_utils.py:337-359 | a mapped record maps its tid to the prefix of its reference name and adds no other tid. It adds its reference's haplotype and no other |
| SingleSample.Advance | alntools/bam_utils.py:365-389 | on a new read name, the previous read's class is counted, the tid list restarts with this tid and the switch counter grows by one. On the same name, the tid is added when absent and the counts stay as they were |
| SingleSample.AdvanceCounts | alntools/bam_utils.py:373-389 | a record changes a class count only when it switches reads, and then adds one to the previous read's key |
| SingleSample.Step | alntools/bam_utils.py:320-389 | one record keeps the invariant: dense `ec_idx`, well-formed keys, tid map from reference prefixes, haplotypes of the references. It counts every record and every mapped record. It aborts only on a mapped record with an out-of-range reference. It exits only on a mapped record whose main target the target file lacks, and names that target |
| SingleSample.EndChunk | alntools/bam_utils.py:401-412 | the end of a chunk counts the open read's class once (one flush). It fails exactly when no mapped record was seen yet, and then changes nothing |
| SingleSample.EndChunkCounts | alntools/bam_utils.py:401-412 | the flush adds one to the open read's key and changes no other count |
| SingleSample.StepRecord | alntools/bam_utils.py:320-389 | the loop body (computed by `Step`) keeps the invariant and keeps `unique_tids` and `unique_reads` totals equal to the mapped-record count. It counts every record and every mapped record. It aborts exactly on a mapped record outside the header, exits only on a main target the target file lacks, and goes on exactly when the record is neither |
| SingleSample.FirstStopSpec | alntools/bam_utils.py:320-389 | no record before the first stopping position ends the chunk, and the record at it does |
| SingleSample.FirstStopNext | alntools/bam_utils.py:320-389 | reading on from a record at or before the first stop, the record ends the chunk exactly when it is the first stop |
| SingleSample.ReadRecords | alntools/bam_utils.py:320-389 | the record loop goes through every record exactly when none ends the chunk, adding the record and mapped counts. It aborts exactly when the first record that ends the chunk is a mapped record outside the header, and otherwise exits naming that record's missing main target |
| SingleSample.ProcessChunk | alntools/bam_utils.py:315-412 | a chunk read without failure adds its record count and mapped count and one flush. The first record that ends the chunk decides: a mapped record outside the header aborts, any other exits naming its main target. A chunk with no such record never exits, and aborts only before any mapped record was counted |
| SingleSample.ProgressDone | alntools/bam_utils.py:294-417 | after every chunk was read through, all records were counted and none was a mapped record outside the header |
| SingleSample.RunChunks | alntools/bam_utils.py:294-417 | over all chunks: one flush per chunk, all and valid alignment counts equal to the records' and mapped records', no bad record, and the invariant at the end. An abort after a valid alignment points at a bad record; an exit names an offending record's target |
| SingleSample.ProcessPiece | alntools/bam_utils.py:214-437 | an empty target file is the only failure before reading. Without a target file the main targets are the sorted prefixes, indexed densely. The EC total is read switches plus flushes, and `ec_idx` is dense. Haplotypes are strictly sorted and come from the references. Valid ≤ all alignments. Without an abort the counts match the input and no record is a mapped record outside the header; an abort after a valid alignment means there is one |
| SingleMerge.FirstWins | alntools/bam_utils.py:560-562 | the merged tid map has the keys of both maps, keeps every value already present and takes the other's value only for new keys |
| SingleMerge.MergeCounts | alntools/bam_utils.py:547-552 | the merge loop of one worker's counts is the key-by-key addition with new keys indexed at `len(ec_idx)` |
| SingleMerge.MergeReads | alntools/bam_utils.py:565-569 | the `unique_reads` merge loop adds the other worker's counts |
| SingleMerge.MergeTargets | alntools/bam_utils.py:560-562 | the tid-map merge loop is first-writer-wins |
| SingleMerge.CombineResults | alntools/bam_utils.py:541-569 | the merge loop over all results equals the fold `Combined` whose properties follow |
| SingleMerge.CombinedEcCount | alntools/bam_utils.py:547-552 | every class's merged count is the sum of the workers' counts of it |
| SingleMerge.CombinedReadCount | alntools/bam_utils.py:565-569 | every read's merged count is the sum of the workers' counts of it |
| SingleMerge.CombinedTotal | alntools/bam_utils.py:547-552 | the merged EC total is the sum of the workers' totals |
| SingleMerge.CombinedIndex | alntools/bam_utils.py:547-552 | `ec_idx` stays dense over the merged keys, and the first worker's classes keep their positions |
| SingleMerge.CombinedHaplotype | alntools/bam_utils.py:555-557 | a haplotype is merged exactly when some worker has it |
| SingleMerge.CombinedHaplotypesSorted | alntools/bam_utils.py:555-557 | the merged haplotypes are strictly sorted |
| SingleMerge.CombinedTargetsKeys | alntools/bam_utils.py:560-562 | a tid is in the merged map exactly when some worker has it |
| SingleMerge.CombinedTargetsFirst | alntools/bam_utils.py:560-562 | every merged tid maps to the target given by the first worker that has it |
| SingleMerge.CombinedFirst | alntools/bam_utils.py:541-544 | the merged main targets and `unique_tids` are the first worker's |
| EcFormat.ReadInt32At | alntools/bam_utils.py:646 | `pack('<i', x)` read back with `unpack` gives `x` |
| EcFormat.Int32Injective | alntools/bam_utils.py:646 | distinct 32-bit values pack to distinct bytes |
| EcFormat.ParseSerialize | alntools/bam_utils.py:640-716 | every file the layout can represent reads back as itself: version 1, the length-prefixed targets and haplotypes, the counts, the mapping triples |
| EcFormat.SerializeInjective | alntools/bam_utils.py:640-716 | files with different contents have different bytes |
| EcWriter.ClassTargets | alntools/bam_utils.py:677-683 | the main targets of a class are found exactly when every tid of its key is mapped. They repeat nothing and are exactly the targets of its tids |
| EcWriter.FlagsMeaning | alntools/bam_utils.py:701-709 | haplotype bit `i` is set exactly when the reference `main_target_hap[i]` is in the class |
| EcWriter.MappingCountTriples | alntools/bam_utils.py:676-688 | the mapping count written equals the number of (class, target, flags) triples that follow |
| EcWriter.EncodeV1Layout | alntools/bam_utils.py:640-716 | a successful write is the layout of version 1, the main targets, the haplotypes, one count per class and the triples |
| EcWriter.ParseEncodeV1 | alntools/bam_utils.py:640-716 | the bytes written read back as that layout |
| EcWriter.WriteNamesImage | alntools/bam_utils.py:650-663 | the names are written exactly when each length fits in 32 bits, as length-prefixed bytes |
| EcWriter.WriteV1 | alntools/bam_utils.py:640-716 | the writer loops produce exactly the version-1 encoding, or the first error it meets: a value out of 32-bit range, an unmapped tid, a target or class missing from its index |
| MultiSample.ReadName | alntools/bam_utils_multisample.py:261-266 | the read name is the query name up to its first space at a position > 0, or the whole name |
| MultiSample.ReadNameIdempotent | alntools/bam_utils_multisample.py:284-287 | cutting a read name twice is cutting it once |
| MultiSample.CellBarcodeOfFields | alntools/bam_utils_multisample.py:274-276 | the cell barcode of a name built from `|||`-free fields is field 2, and the name is refused when it has fewer than 3 fields |
| MultiSample.Widen | alntools/bam_utils_multisample.py:253-257 | taking a start into a range yields the least range containing both |
| MultiSample.AddCellCells | alntools/bam_utils_multisample.py:289-296 | `ec[key][cr] += 1` adds to that one cell and to no other |
| MultiSample.AddCellTotals | alntools/bam_utils_multisample.py:289-296 | the same adds to its class's row total and to the grand total |
| MultiSample.Step | alntools/bam_utils_multisample.py:218-301 | an unmapped record, or a paired record that is read 2, not a proper pair, has its mate on another reference or a negative mate start, only counts as an alignment. A kept record fails exactly when the name of the read in progress (its own cut name for the first kept record) has fewer than 3 `|||` fields. Otherwise it counts as valid, enters the distinct tid list and widens its tid's range when ranges are tracked, keeping the invariant: grand total = read switches, `unique_reads` total = valid ≤ all, no duplicate tids |
| MultiSample.Run | alntools/bam_utils_multisample.py:218-301 | after all records: all alignments = record count, valid = kept records, the invariant holds; the only failure is a missing cell barcode |
| MultiSample.RunStops | alntools/bam_utils_multisample.py:274-276 | once a record fails, later records change nothing |
| MultiSample.RunLoop | alntools/bam_utils_multisample.py:218-301 | the `while True` loop computes `Run` |
| MultiSample.StepSwitches | alntools/bam_utils_multisample.py:262-296 | a kept record that does not match the held read name adds one switch and holds its own uncut name; the first kept record holds its cut name; nothing else changes the held name or the switch count |
| MultiSample.RunSwitches | alntools/bam_utils_multisample.py:262-296 | after all records the held name is `HeldName` and the switch count is `Switches`, the number of kept records that differ from the held name |
| MultiSample.SwitchesBound | alntools/bam_utils_multisample.py:262-296 | a name is held exactly when some record was kept, and then the switches are fewer than the kept records: the open read group is never one of them |
| MultiSample.RunRanges | alntools/bam_utils_multisample.py:253-257 | with ranges tracked, every kept tid's range holds the least and greatest start of its kept records; otherwise no range is kept |
| MultiSample.ProcessConvertBam | alntools/bam_utils_multisample.py:175-322 | a file `validate_bam` refuses is the bad-BAM error, and only it. On success the class counts sum to the read switches, which are `Switches(records)`, so the read group still open at the end is never counted. All alignments = records, valid = kept records ≤ all, the `unique_reads` total = valid, and ranges are ordered |
| MultiSample.MergeTwoDicts | alntools/bam_utils_multisample.py:325-328 | the merge holds `y`'s value for every key of `y` and `x`'s for the rest, in `x`'s order then `y`'s new keys |
| MultiCombine.CombineSpec | alntools/bam_utils_multisample.py:494-553 | after combining, every cell is the sum of the results' counts of it. Each class's row total is the sum over the results and equals its `ec_totals` entry. Each barcode's `cr_totals` entry is the sum over the results. Grand total = sum of `cr_totals` = sum of `ec_totals`. `ec_idx` is dense, alignment counts are summed, and `CRS` numbers the distinct barcodes 0.. in first-seen order |
| MultiCombine.CombineResults | alntools/bam_utils_multisample.py:494-563 | the combining loop computes `CombineAll`, with the guarded `CRS` numbering (the corrected line 525; see Findings) |
| MultiCombine.AddResult | alntools/bam_utils_multisample.py:519-563 | one later result adds its entries, barcodes (numbered by the guarded, corrected rule), totals and alignment counts, and merges its ranges when a range file is wanted |
| MultiCombine.TakeFirst | alntools/bam_utils_multisample.py:494-517 | the first result is taken whole, with its classes numbered, its barcodes registered and its counts in the totals |
| MultiCombine.FoldClassesCell | alntools/bam_utils_multisample.py:540-547 | adding entries adds to each cell exactly the entries' count for that class and barcode |
| MultiCombine.FoldClassesIndex | alntools/bam_utils_multisample.py:545-547 | a new class gets `len(ec_idx)`, which keeps the index dense |
| MultiCombine.FoldTotalsSums | alntools/bam_utils_multisample.py:530-538 | each entry adds its count to both `cr_totals` and `ec_totals`, so their sums stay equal |
| MultiCombine.TotalsGrand | alntools/bam_utils_multisample.py:494-538 | the sums of `cr_totals` and of `ec_totals` both equal the sum of all results' counts |
| MultiCombine.CrsKeys | alntools/bam_utils_multisample.py:500-505 | with the guarded numbering applied to every result, `CRS` numbers the distinct barcodes densely in first-seen order |
| MultiCombine.MarkedCrsKeys | alntools/bam_utils_multisample.py:523-528 | as written, `CRS` still lists every distinct barcode once, but its values are dense only for a single result |
| MultiCombine.CrsMarked | alntools/bam_utils_multisample.py:523-528 | as written, every barcode of a later result has `CRS` value 1 |
| MultiCombine.MarkedCrsCollides | alntools/bam_utils_multisample.py:523-528 | as written, two results sharing a barcode leave two barcodes with column 1, so `CRS` is not a dense index |
| MultiCombine.MergeRange | alntools/bam_utils_multisample.py:557-563 | merging two ranges takes the smaller start and the larger end |
| MultiCombine.MergeRangesLoop | alntools/bam_utils_multisample.py:555-563 | the range-merge loop computes `MergeRanges` |
| MultiCombine.MergeRangesOk | alntools/bam_utils_multisample.py:555-563 | merging keeps ranges ordered |
| MultiCombine.MergeRangesCommutes | alntools/bam_utils_multisample.py:555-563 | the order in which results merge their ranges does not matter |
| MultiCombine.MergeRangesAfter | alntools/bam_utils_multisample.py:253-257 | merging the ranges of two runs gives the ranges of one run over both record lists |
| MultiCombine.CombineRanges | alntools/bam_utils_multisample.py:555-563 | the merged ranges of the workers are the ranges of one run over all their records |
| MultiFilter.MaxIndex | alntools/bam_utils_multisample.py:577 | `max(ec_idx.values())` fails on an empty index and otherwise is a value of the index no smaller than any |
| MultiFilter.DenseMax | alntools/bam_utils_multisample.py:577 | over a dense index of n classes the maximum is n - 1 |
| MultiFilter.KeepCells | alntools/bam_utils_multisample.py:586-591 | the new `CRS` is exactly the barcodes whose total reaches the minimum, in `cr_totals` order, indexed 0.. |
| MultiFilter.FilterSpec | alntools/bam_utils_multisample.py:594-618 | the kept classes are exactly those with a surviving barcode, in their order, with a dense new `ec_idx`. Each count survives exactly when its barcode does |
| MultiFilter.FilterRows | alntools/bam_utils_multisample.py:601-614 | each kept class holds its row restricted to the surviving barcodes |
| MultiFilter.RestrictEmpty | alntools/bam_utils_multisample.py:610-613 | a class is dropped exactly when none of its barcodes survive |
| MultiFilter.FilterCells | alntools/bam_utils_multisample.py:583-618 | the filter's loops compute the new `CRS` and the restricted classes |
| CountMatrix.SortCellsSpec | alntools/bam_utils_multisample.py:720 | `sorted(v.keys(), key=CRS)` is a permutation of the row's barcodes in ascending column order |
| CountMatrix.CsrEnds | alntools/bam_utils_multisample.py:678-729 | `indptr` has one entry per class plus one, starts at 0 and ends at `len(indices) == len(data)` |
| CountMatrix.CsrSteps | alntools/bam_utils_multisample.py:678-729 | each row adds its number of barcodes to `indptr`, so `indptr` never decreases |
| CountMatrix.RowAscends | alntools/bam_utils_multisample.py:678-729 | within a row the column indices strictly ascend |
| CountMatrix.RowCounts | alntools/bam_utils_multisample.py:678-729 | each stored value is the class's count of the barcode its column names |
| CountMatrix.RowComplete | alntools/bam_utils_multisample.py:678-729 | every barcode of a class is stored in its row |
| CountMatrix.CsrFails | alntools/bam_utils_multisample.py:720-722 | the build fails (a `KeyError` on `CRS`) exactly when some class holds a barcode `CRS` lacks, and names one |
| CountMatrix.BuildCountMatrix | alntools/bam_utils_multisample.py:684-729 | the row loop computes the CSR arrays of the specification |
| CountMatrix.FilteredBuilds | alntools/bam_utils_multisample.py:583-729 | after the filter every class's barcodes are in `CRS`, so the build succeeds |
| RangeFile.TranscriptNameSplits | alntools/bam_utils_multisample.py:640-644 | the name `main_target_haplotype` built for the range file splits back into its main target and haplotype |
| RangeFile.WriteRangeFile | alntools/bam_utils_multisample.py:627-658 | the writer's loops produce the header line of haplotypes and one line of widths per main target |
| RangeFile.DecimalZero | alntools/bam_utils_multisample.py:650-655 | a width is written `0` only for zero |
| RangeFile.WidthAtNonZero | alntools/bam_utils_multisample.py:646-655 | an ordered range of a tid gives `str(max - min + 1)`; a missing tid gives `0` |
| RangeFile.WidthAtZero | alntools/bam_utils_multisample.py:646-655 | a tid's width is `0` exactly when no kept record aligned to it |
| RangeFile.WidthAtWidth | alntools/bam_utils_multisample.py:646-655 | any other width is `max - min + 1` of the tid's ordered range |
| RangeFile.WidthAtCovers | alntools/bam_utils_multisample.py:646-655 | every kept start on that tid lies within that range |
| RangeCombine.CombinedWidth | alntools/bam_utils_multisample.py:555-563 | after merging the workers' ranges, a tid's width is `0` exactly when no worker saw a kept record on it |

## Left out

- I/O through pysam, Bio.bgzf and files: `AlignmentFile` iteration, `seek`/`tell`, `BgzfBlocks`, `gettid`/`getrname`, header reading, temporary files and directory checks. Alignment records, the header's reference names and the virtual offsets are inputs. `ReadAt` stands for `h.read`.
- The read-boundary adjustment in `calculate_chunks` (alntools/bam_utils.py:174-196): it steps a pysam reader, so the adjusted offsets are an input of `Chunks.CalculateChunks`. The `except` around it only logs.
- Multiprocessing pools and `wrapper` functions: the results are combined by a sequential fold over a list, in the order the workers were started.
- The helpers `partition`, `list_to_int`, `bytes_from_file`, `parse_targets` and `delete_file` are in a `utils` module that is not part of this model. `list_to_int` is a parameter of the writer (no bit order is fixed), and the target file is given parsed.
- scipy and numpy: `coo_matrix`, `tocsc`, the A matrix (`ec_arr`/`target_arr`), `main_target_lengths`, the `summat` weighting, and the APM `finalize`/`save`.
- The version-2 EC file of the multisample `convert` (alntools/bam_utils_multisample.py:809-967): it writes the scipy matrices with gzip. Only the "N" matrix's CSR arrays are modelled.
- gzip compression of output, logging, timing and `LOG.debug` counters such as `same_read_target_counter`.
- `convert2` (alntools/bam_utils_multisample.py:981-1635): it repeats `convert` with a different worker split and is not modelled separately.
- `split_bam` (alntools/bam_utils.py:724-): only its byte-range arithmetic, shared with `convert`, is modelled (`Chunks.ByteRange`). Its file copying is I/O.
- The command-line wrappers in alntools/cli.py are not part of this model; they only forward arguments.
- Integer widths: counts are unbounded integers. The version-1 writer refuses a value outside 32-bit range with `PackRange`, as `struct.pack('<i')` raises.
- Python 2 plain `dict` iteration order is unspecified. `ec` in `process_convert_bam` and `result.ec` are modelled as insertion-ordered, so the combined class and barcode orders assume that order.
- SingleSample.ProcessChunk: after an abort (the `except Exception` at alntools/bam_utils.py:416-417) the returned state is the one reached so far; its contents are stated only through the invariant.
- SingleSample.ProcessPiece: after `sys.exit` in a worker (an unexpected target) the statistics returned are not meaningful; only the error is stated.
- SingleSample.EndChunk: the `tid not in target_ids` branch at alntools/bam_utils.py:401-402 cannot be taken once a mapped record was seen, so only the other branch is modelled.
- MultiSample.ProcessConvertBam: `unique_reads` counts by the read group's first name and is not related to the class counts beyond its total.
- MultiCombine.CombineSpec: the combined state uses the intended `CRS` numbering (see Findings); the as-written numbering is `MultiCombine.MarkedCrsAfter`.
- MultiCombine.CombineResults: computes `CombineAll` with the guarded `CRS` numbering, not the unconditional `CRS[crkey] = 1` of alntools/bam_utils_multisample.py:525; the as-written numbering and its collision are `MultiCombine.MarkedCrsAfter` and `MultiCombine.MarkedCrsCollides`.
- MultiCombine.AddResult: registers a later result's barcodes with the same guarded numbering, so it too differs from line 525 as written.
- MultiCombine.CombineAll: the fold the loop computes, likewise over the guarded numbering.
- EcWriter.WriteV1: `temp_main_targets` (alntools/bam_utils.py:694-699) is a Python `set`, so the order of one class's triples in the file is unspecified. The model writes them in the order the class's tids first reach each target (`ClassTargets`), so the layout it proves is one of the orders the source can produce; which main targets and flags are written, and how many, does not depend on that order.
- EcWriter.WriteV1: on an exception the source logs it (alntools/bam_utils.py:719-720), returns normally and leaves a truncated file holding the writes made so far. The model returns the error without those bytes, so it does not describe the truncated file.

## Findings

| source | as written | input that shows it | evidently intended | confidence | as-written member | corrected member |
|---|---|---|---|---|---|---|
| alntools/bam_utils_multisample.py:523-528 | for every barcode of a later result, `CRS[crkey] = 1` runs before `if crkey not in CRS: CRS[crkey] = len(CRS)`, so the guarded numbering never fires and every later barcode gets column 1 | two results: the first has class `0` with barcodes `A`, `B`; the second has class `0` with `A`. Afterwards `CRS[A] == CRS[B] == 1`, so two barcodes share a column of the count matrix | number each new barcode `len(CRS)` and keep existing numbers, as for the first result (lines 503-504), so `CRS` stays a dense index of the distinct barcodes | not executed | MultiCombine.MarkedCrsCollides | MultiCombine.CrsKeys |
