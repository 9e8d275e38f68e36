# log-server core, modelled in Dafny

This project models three pieces of the log server and proves what each of them promises.

- **The long-buffer sort** (`LongByteBufferUtils`). It sorts an inclusive range `a[left..right]` of 64-bit keys.
  - Modules `LongMerge` (file `long_merge.dfy`) and `LongSort` (file `long_sort.dfy`).
  - The public entry point scans the range for natural runs. It reverses descending runs on the way. It gives up when a run of equal keys grows too long or when there are too many runs.
  - Otherwise it merges the runs pass by pass, ping-ponging between the buffer and a workspace. A precomputed parity makes the last pass write into the buffer.
  - Every other range goes to the private dual-pivot quicksort. That quicksort uses two insertion sorts on short ranges, a five-sample sorting network, a two-pivot partition, a center partition for large middle parts, and a three-way single-pivot partition.
  - The buffer is an `array<Long>`, where `Long` is Java's `long` (module `JavaTypes`, file `java_types.dfy`).
  - Every path of the entry point is proved to leave the range sorted. The range holds the same elements as before, and nothing outside it changes.
- **The stream splitter** (`InputStreamSplitter`). It cuts a byte stream into records that start at each occurrence of a delimiter.
  - Module `StreamSplitter`, file `stream_splitter.dfy`.
  - It is a class with the source's fields (`buf`, `pos`, `end`, `nextPos`, `last`, `hasNext`), plus two ghost fields: the whole stream and the stream offset of `buf[0]`.
  - The input stream is a queue of non-empty chunks (`ChunkedSource`).
  - Each `readNext` is proved to move to the record that the pure specification `Tokens` gives for the whole stream. A reader that calls it until it returns false gets exactly those records, however the source chunks its bytes, and they spell out the stream.
- **The variable-length codec** (`BufferUtils`). It writes an int in 1 to 5 bytes with a unary length prefix, and a string as its length followed by its bytes.
  - Module `VarCodec`, file `var_codec.dfy`.
  - A `ByteBuffer` class holds the backing array, `position` and `limit`.
  - `putInt`, `getInt`, `putString` and `getString` are methods over it. They are proved against the pure `EncodeInt`, `DecodeInt`, `EncodeString` and `DecodeString`, which are proved to round-trip.

Where the code and its documentation could be read differently, the model follows the code:

- A record of the splitter starts at the delimiter occurrence that ended the previous record. The delimiter is the first bytes of every record but the first.
- The equal-run abort of the sort fires after 33 equal adjacent pairs, that is, on 34 equal consecutive keys (`MAX_RUN_LENGTH + 1`).
- In the single-pivot partition, the right part is only "not below the pivot" when the loop ends. When every key from `k` to `great` is above the pivot, `great` scans down to a pivot key just before `k`. The exchange then leaves the pivot value at `k`, inside the right part.

## Model

| member | source | states |
|---|---|---|
| LongMerge.Sort | src/com/github/winmain/logserver/core/storage/LongByteBufferUtils.java:37-134 | on every path (quicksort below the threshold or after an abort, one run already sorted, merging) `a[left..right]` ends up sorted, is a permutation of its old contents, and `a` is unchanged outside it |
| LongMerge.DetectRuns | src/com/github/winmain/logserver/core/storage/LongByteBufferUtils.java:49-78 | the range is rearranged only within itself; without abort, `run[0..count]` bound `count < MAX_RUN_COUNT` ascending runs from `left` to `right` or `right + 1`; an abort with fewer than `MAX_RUN_COUNT` runs has met `MAX_RUN_LENGTH + 1` equal keys |
| LongMerge.ScanRun | src/com/github/winmain/logserver/core/storage/LongByteBufferUtils.java:54-68 | the run starting at `k0` is left ascending and is a permutation of what was there, or it is reported too long with `MAX_RUN_LENGTH + 1` equal keys |
| LongMerge.AscendingRun | src/com/github/winmain/logserver/core/storage/LongByteBufferUtils.java:54-55 | the returned end is maximal: `a[k0..k)` is ascending and `a[k]` (if in range) is below `a[k - 1]` |
| LongMerge.DescendingRun | src/com/github/winmain/logserver/core/storage/LongByteBufferUtils.java:56-57 | the returned end is maximal: `a[k0..k)` is non-increasing and `a[k]` (if in range) is above `a[k - 1]` |
| LongMerge.EqualRun | src/com/github/winmain/logserver/core/storage/LongByteBufferUtils.java:61-68 | the run of keys equal to `a[k0]` is maximal and shorter than `MAX_RUN_LENGTH + 1`, or the scan stops at `k0 + MAX_RUN_LENGTH` having seen that many equal neighbours |
| LongMerge.Reverse | src/com/github/winmain/logserver/core/storage/LongByteBufferUtils.java:58-60 | `a[lo0..hi0)` holds its old contents back to front, and nothing else changes |
| LongMerge.ReversedSorted | src/com/github/winmain/logserver/core/storage/LongByteBufferUtils.java:56-60 | a non-increasing run read back to front is ascending |
| LongMerge.RunsExtend | src/com/github/winmain/logserver/core/storage/LongByteBufferUtils.java:53-78 | recording the end of a newly scanned ascending run keeps all earlier runs ascending |
| LongMerge.MergeRuns | src/com/github/winmain/logserver/core/storage/LongByteBufferUtils.java:115-122 | the destination range holds the stable merge `Merge` of the two source runs, and nothing else in the destination changes |
| LongMerge.MergeLength | src/com/github/winmain/logserver/core/storage/LongByteBufferUtils.java:116-122 | a merge is as long as its two inputs together |
| LongMerge.MergeMultiset | src/com/github/winmain/logserver/core/storage/LongByteBufferUtils.java:116-122 | a merge holds exactly the elements of its two inputs |
| LongMerge.MergeSorted | src/com/github/winmain/logserver/core/storage/LongByteBufferUtils.java:116-122 | the merge of two ascending runs is ascending |
| LongMerge.CopyRun | src/com/github/winmain/logserver/core/storage/LongByteBufferUtils.java:126-128 | the destination range equals the source range, and nothing else in the destination changes |
| LongMerge.PassMultiset | src/com/github/winmain/logserver/core/storage/LongByteBufferUtils.java:113-130 | a merge pass (`Pass`) holds exactly the elements of the block it merges |
| LongMerge.PassRuns | src/com/github/winmain/logserver/core/storage/LongByteBufferUtils.java:113-130 | a pass over `count` ascending runs leaves `ceil(count / 2)` ascending runs at every other boundary, with the same elements |
| LongMerge.PassSorted | src/com/github/winmain/logserver/core/storage/LongByteBufferUtils.java:113-130 | each run a pass produces, a merged pair or the copied last run, is ascending |
| LongMerge.MergePair | src/com/github/winmain/logserver/core/storage/LongByteBufferUtils.java:114-124 | one step of the pass loop writes the next pair's merge after what the pass has written so far, and records its end as `run[last + 1]` |
| LongMerge.CopyLast | src/com/github/winmain/logserver/core/storage/LongByteBufferUtils.java:125-130 | with an odd run count the unpaired last run is copied, which completes the pass, and `run[last + 1]` becomes the end |
| LongMerge.MergePass | src/com/github/winmain/logserver/core/storage/LongByteBufferUtils.java:114-130 | the destination block is exactly `Pass` of the source block, nothing outside it changes, and `run[0..last]` are every other old boundary followed by the end |
| LongMerge.MergeRound | src/com/github/winmain/logserver/core/storage/LongByteBufferUtils.java:113-133 | after a pass the destination holds ascending runs at the new boundaries and the same elements as the source block |
| LongMerge.MergeAll | src/com/github/winmain/logserver/core/storage/LongByteBufferUtils.java:100-133 | swapping the buffer and workspace roles after each pass, the merging ends with one sorted run in `a`, a permutation of the block, with `a` unchanged outside the range |
| LongMerge.PassesStep | src/com/github/winmain/logserver/core/storage/LongByteBufferUtils.java:113-133 | each pass uses up one of the `Passes(count)` passes left, flipping their parity |
| LongMerge.PassesBetween | src/com/github/winmain/logserver/core/storage/LongByteBufferUtils.java:89-90 | between `2^(j-1)` and `2^j` runs take exactly `j` passes |
| LongMerge.AlternationBase | src/com/github/winmain/logserver/core/storage/LongByteBufferUtils.java:88-90 | `odd` is 0 or 1, and 0 exactly when an odd number of passes lies ahead |
| LongMerge.MergeDetected | src/com/github/winmain/logserver/core/storage/LongByteBufferUtils.java:88-133 | the caller's workspace is used when present and large enough and a new one otherwise; starting from the workspace exactly when `odd == 0`, the merged range lands in `a`, sorted and permuted |
| LongSort.QuickSort | src/com/github/winmain/logserver/core/storage/LongByteBufferUtils.java:144-472 | `a[left..right]` ends up sorted and a permutation of its old contents; a part that is not leftmost may rely on `a[left - 1]` not exceeding any of its keys |
| LongSort.InsertionSort | src/com/github/winmain/logserver/core/storage/LongByteBufferUtils.java:155-164 | the leftmost insertion sort leaves the range sorted and permuted |
| LongSort.InsertAt | src/com/github/winmain/logserver/core/storage/LongByteBufferUtils.java:156-163 | inserting `a[i + 1]` into the sorted `a[left..i]` makes `a[left..i + 1]` sorted and permuted |
| LongSort.ShiftLeftmost | src/com/github/winmain/logserver/core/storage/LongByteBufferUtils.java:157-162 | the keys above `x` move one place right, the scan stops at `left` or at a key not above `x`, and the hole is at `j + 1` |
| LongSort.PairInsertionSort | src/com/github/winmain/logserver/core/storage/LongByteBufferUtils.java:169-204 | with `a[left - 1]` as sentinel, the pair insertion sort leaves the range sorted and permuted |
| LongSort.SkipAscending | src/com/github/winmain/logserver/core/storage/LongByteBufferUtils.java:169-173 | either the whole range is ascending, or the returned `l` is the first descent |
| LongSort.InsertPairs | src/com/github/winmain/logserver/core/storage/LongByteBufferUtils.java:183-198 | the pairs are inserted until at most one key is left; the sorted prefix reaches `right` or `right + 1`, permuted, with the sentinel kept |
| LongSort.InsertPair | src/com/github/winmain/logserver/core/storage/LongByteBufferUtils.java:184-197 | inserting the pair `a[k0]`, `a[k0 + 1]` into the sorted `a[lo..k0)` leaves `a[lo..k0 + 1]` sorted and permuted |
| LongSort.PlaceGreater | src/com/github/winmain/logserver/core/storage/LongByteBufferUtils.java:184-192 | the greater key of the pair is placed, leaving a hole for the smaller one where every key right of it is not below it |
| LongSort.ShiftOver | src/com/github/winmain/logserver/core/storage/LongByteBufferUtils.java:189-196 | the keys above `x` move `w` places right, and the sentinel stops the scan without a range check |
| LongSort.Sink | src/com/github/winmain/logserver/core/storage/LongByteBufferUtils.java:199-204 | the last key sinks into the sorted range, which ends sorted and permuted |
| LongSort.SampleSpacing | src/com/github/winmain/logserver/core/storage/LongByteBufferUtils.java:209-223 | for ranges of at least `INSERTION_SORT_THRESHOLD` keys the five samples lie strictly inside the range, in increasing order |
| LongSort.SortFive | src/com/github/winmain/logserver/core/storage/LongByteBufferUtils.java:225-242 | the five samples end up in non-decreasing order, and the range is only permuted |
| LongSort.SortSample2 | src/com/github/winmain/logserver/core/storage/LongByteBufferUtils.java:226 | `a[e1] <= a[e2]`, only those two move |
| LongSort.SortSample3 | src/com/github/winmain/logserver/core/storage/LongByteBufferUtils.java:228-230 | the first three samples are ordered, only they move |
| LongSort.SortSample4 | src/com/github/winmain/logserver/core/storage/LongByteBufferUtils.java:231-235 | the first four samples are ordered, only they move |
| LongSort.SortSample5 | src/com/github/winmain/logserver/core/storage/LongByteBufferUtils.java:236-242 | all five samples are ordered |
| LongSort.Swap | src/com/github/winmain/logserver/core/storage/LongByteBufferUtils.java:226 | the two keys are exchanged and nothing else moves |
| LongSort.DualPivotSort | src/com/github/winmain/logserver/core/storage/LongByteBufferUtils.java:248-402 | with pairwise distinct samples, partitioning around the second and fourth and sorting the parts sorts and permutes the range |
| LongSort.DualPartition | src/com/github/winmain/logserver/core/storage/LongByteBufferUtils.java:254-326 | keys below pivot1 come first, then pivot1 at `less - 1`, keys between the pivots, pivot2 at `great + 1`, and keys above pivot2 |
| LongSort.SkipLess | src/com/github/winmain/logserver/core/storage/LongByteBufferUtils.java:269 | `less` stops at the first key not below pivot1, and everything it passed is below pivot1 |
| LongSort.SkipGreater | src/com/github/winmain/logserver/core/storage/LongByteBufferUtils.java:270 | `great` stops at the first key not above pivot2 |
| LongSort.DualLoop | src/com/github/winmain/logserver/core/storage/LongByteBufferUtils.java:291-322 | the partitioning loop keeps `(left, less) < pivot1 <= [less, k) <= pivot2 < (great, right)` and ends with `k == great + 1` |
| LongSort.DualStep | src/com/github/winmain/logserver/core/storage/LongByteBufferUtils.java:292-321 | one step on `a[k]` preserves the three-part invariant and advances `k`, or stops when `great` passed `k` |
| LongSort.StepGreater | src/com/github/winmain/logserver/core/storage/LongByteBufferUtils.java:302-321 | a key above pivot2 goes to the right part, keeping the invariant |
| LongSort.ScanGreater | src/com/github/winmain/logserver/core/storage/LongByteBufferUtils.java:303-307 | `great` moves down over keys above pivot2, or the labelled break fires when it passes `k` |
| LongSort.ExchangeGreater | src/com/github/winmain/logserver/core/storage/LongByteBufferUtils.java:308-320 | `a[great]` goes to the left part or to `k`, and `a[k]` to `great`, keeping the invariant |
| LongSort.DualSorted | src/com/github/winmain/logserver/core/storage/LongByteBufferUtils.java:328-402 | sorted outer and center parts around the two pivots make the whole range sorted |
| LongSort.DualSortLeft | src/com/github/winmain/logserver/core/storage/LongByteBufferUtils.java:329 | sorting the left part keeps the partition and sorts `a[left..less - 2]` |
| LongSort.DualSortRight | src/com/github/winmain/logserver/core/storage/LongByteBufferUtils.java:330 | sorting the right part keeps the partition and sorts `a[great + 2..right]` |
| LongSort.DualSortCenter | src/com/github/winmain/logserver/core/storage/LongByteBufferUtils.java:336-402 | after the center is sorted (with the center partition when it is large) the whole range is sorted and permuted |
| LongSort.SortCenter | src/com/github/winmain/logserver/core/storage/LongByteBufferUtils.java:336-402 | a center part between the pivots ends up sorted and permuted |
| LongSort.CenterPartition | src/com/github/winmain/logserver/core/storage/LongByteBufferUtils.java:336-398 | keys equal to pivot1 come first, keys strictly between the pivots next, keys equal to pivot2 last |
| LongSort.SkipPivot1 | src/com/github/winmain/logserver/core/storage/LongByteBufferUtils.java:340-342 | `less` stops at the first key other than pivot1 |
| LongSort.SkipPivot2 | src/com/github/winmain/logserver/core/storage/LongByteBufferUtils.java:344-346 | `great` moves down over the keys equal to pivot2 |
| LongSort.CenterLoop | src/com/github/winmain/logserver/core/storage/LongByteBufferUtils.java:367-398 | the loop keeps `(*, less) == pivot1 < [less, k) < pivot2 == (great, *)` until `k` passes `great` |
| LongSort.CenterStep | src/com/github/winmain/logserver/core/storage/LongByteBufferUtils.java:368-397 | one step on `a[k]` preserves the center invariant |
| LongSort.CenterGreater | src/com/github/winmain/logserver/core/storage/LongByteBufferUtils.java:374-396 | a key equal to pivot2 goes to the right end, keeping the invariant |
| LongSort.ScanEqual | src/com/github/winmain/logserver/core/storage/LongByteBufferUtils.java:375-379 | `great` moves down over keys equal to pivot2, or the break fires when it passes `k` |
| LongSort.CenterExchange | src/com/github/winmain/logserver/core/storage/LongByteBufferUtils.java:380-396 | `a[great]` goes to the left end (when it is pivot1) or to `k`, keeping the invariant |
| LongSort.CenterSorted | src/com/github/winmain/logserver/core/storage/LongByteBufferUtils.java:336-402 | pivot1 keys, a sorted middle strictly between the pivots, then pivot2 keys, are sorted |
| LongSort.SinglePivotSort | src/com/github/winmain/logserver/core/storage/LongByteBufferUtils.java:404-471 | three-way partitioning around the middle sample and sorting both outer parts sorts and permutes the range |
| LongSort.SinglePartition | src/com/github/winmain/logserver/core/storage/LongByteBufferUtils.java:409-462 | keys below the pivot come first, then keys equal to it, then keys not below it |
| LongSort.SingleLoop | src/com/github/winmain/logserver/core/storage/LongByteBufferUtils.java:431-462 | the Dutch-flag loop ends in the three-part layout, only permuting the range |
| LongSort.SingleStep | src/com/github/winmain/logserver/core/storage/LongByteBufferUtils.java:431-461 | one step on `a[k]` keeps `(left, less) < pivot == [less, k)` and `(great, right] > pivot` |
| LongSort.SingleSwapLess | src/com/github/winmain/logserver/core/storage/LongByteBufferUtils.java:436-439 | a key below the pivot is exchanged into the left part |
| LongSort.SingleGreater | src/com/github/winmain/logserver/core/storage/LongByteBufferUtils.java:440-461 | a key above the pivot goes to the right part, keeping the invariant |
| LongSort.ScanDown | src/com/github/winmain/logserver/core/storage/LongByteBufferUtils.java:441-443 | `great` moves down over keys above the pivot and stops at one not above it |
| LongSort.SingleExchange | src/com/github/winmain/logserver/core/storage/LongByteBufferUtils.java:444-460 | `a[great]` goes to the left part or to `k`, and `a[k]` to `great`, keeping the invariant |
| LongSort.SingleSorted | src/com/github/winmain/logserver/core/storage/LongByteBufferUtils.java:464-470 | sorted outer parts around keys equal to the pivot make the range sorted |
| LongSort.SingleSortLeft | src/com/github/winmain/logserver/core/storage/LongByteBufferUtils.java:469 | sorting the left part keeps the partition |
| LongSort.SingleSortRight | src/com/github/winmain/logserver/core/storage/LongByteBufferUtils.java:470 | sorting the right part keeps the partition and sorts it |
| StreamSplitter.IndexOf | src/utils/InputStreamSplitter.java:98-114 | 0 for an empty target; otherwise the least `i >= start` at which the target occurs wholly within `bytes[..end]`, or -1 when there is none |
| StreamSplitter.FindFrom | src/utils/InputStreamSplitter.java:98-114 | the first occurrence at or after `from`, or -1, with no occurrence before it |
| StreamSplitter.FindInWindow | src/utils/InputStreamSplitter.java:36 | a hit in the buffered window is the stream's next occurrence; a miss in a window reaching the end of the stream means there is none |
| StreamSplitter.ChunkedSource.Available | src/utils/InputStreamSplitter.java:90 | bytes are available exactly when the source has bytes left |
| StreamSplitter.ChunkedSource.Read | src/utils/InputStreamSplitter.java:92 | a read delivers between 1 and `len` of the next pending bytes into `b[off..]` and changes nothing else of `b` |
| StreamSplitter.InputStreamSplitter.constructor | src/utils/InputStreamSplitter.java:21-25 | an empty buffer, `end == nextPos == 0`, `hasNext`, the source holding the whole stream |
| StreamSplitter.InputStreamSplitter.WithDefaultStep | src/utils/InputStreamSplitter.java:27-29 | the same with a buffer step of 4096 |
| StreamSplitter.InputStreamSplitter.ReadNext | src/utils/InputStreamSplitter.java:31-52 | false, changing nothing, exactly when the source was exhausted and the last record had been returned; otherwise the new record starts where the previous one ended and ends at the stream's next delimiter occurrence from the old search position, with the search resuming just past that occurrence, or ends at the end of the stream when there is none; with an empty delimiter, true with an empty record at 0 |
| StreamSplitter.InputStreamSplitter.Search | src/utils/InputStreamSplitter.java:35-51 | the loop ends at the stream's next occurrence, wholly buffered, or with the source exhausted, `end == last` and `nextPos == -1` |
| StreamSplitter.InputStreamSplitter.Probe | src/utils/InputStreamSplitter.java:36 | one search of the filled buffer finds the stream's next occurrence, or -1 |
| StreamSplitter.InputStreamSplitter.Step | src/utils/InputStreamSplitter.java:44-46 | a loop turn keeps the buffer mirroring the stream and, while bytes remain, buffers more of them |
| StreamSplitter.InputStreamSplitter.Refill | src/utils/InputStreamSplitter.java:44-46 | making room when the buffer is full and reading keeps every stream offset and buffers at least one more byte unless the source is exhausted |
| StreamSplitter.InputStreamSplitter.Conclude | src/utils/InputStreamSplitter.java:37-49 | a found occurrence sets `nextPos = end + |startDelimiter|`; none found makes the record the rest of the buffer and `nextPos = -1` |
| StreamSplitter.InputStreamSplitter.GetBuf | src/utils/InputStreamSplitter.java:54-56 | the buffer's filled part is the stream from offset `base`, so the current record is its stream slice |
| StreamSplitter.InputStreamSplitter.GetStart | src/utils/InputStreamSplitter.java:58-60 | the record starts within the filled buffer |
| StreamSplitter.InputStreamSplitter.GetEnd | src/utils/InputStreamSplitter.java:62-64 | the record ends not before it starts and within the filled buffer |
| StreamSplitter.InputStreamSplitter.GetLength | src/utils/InputStreamSplitter.java:66-68 | the length is `getEnd() - getStart()` and not negative |
| StreamSplitter.InputStreamSplitter.GetMoreBuf | src/utils/InputStreamSplitter.java:72-85 | with `pos > 0`, `[pos, last)` moves to 0 and `last`, `nextPos`, `pos` drop by `pos`; otherwise a buffer `bufferStep` bytes larger keeps the content; either way every stream offset is kept and room is made |
| StreamSplitter.InputStreamSplitter.ReadStream | src/utils/InputStreamSplitter.java:87-96 | the buffer is filled from the source until full or nothing is available, stays a prefix of the stream, and the result tells whether bytes remain |
| StreamSplitter.TokensEnds | src/utils/InputStreamSplitter.java:37-42 | the first record starts at the start and the last ends with the stream |
| StreamSplitter.TokensTile | src/utils/InputStreamSplitter.java:34 | each record starts where the previous one ended |
| StreamSplitter.TokensDelimited | src/utils/InputStreamSplitter.java:34-49 | every record after the first begins with an occurrence of the delimiter |
| StreamSplitter.TokensOrdered | src/utils/InputStreamSplitter.java:34-49 | no record ends before it starts |
| StreamSplitter.ReadingStep | src/utils/InputStreamSplitter.java:31-52 | reading the next record keeps a reader's records equal to a prefix of `Tokens` |
| StreamSplitter.CurrentRecord | src/utils/InputStreamSplitter.java:54-68 | `getBuf()[getStart()..getEnd()]` is the record's slice of the stream |
| StreamSplitter.ReadRecord | src/utils/InputStreamSplitter.java:31-68 | one `readNext` plus reading `getBuf()[getStart()..getEnd()]` gives the stream slice from where the previous record ended to the next delimiter occurrence at or after the old search position, resuming the search just past it, or to the end of the stream when there is none |
| StreamSplitter.ReadAll | src/utils/InputStreamSplitter.java:31-68 | a reader calling `readNext` until false collects exactly the `Tokens` records, whose concatenation is the whole stream |
| VarCodec.EncodeInt | log-server-db/src/com/github/winmain/logserver/db/utils/BufferUtils.java:10-37 | 1 byte equal to `v` for `0 <= v < 0x80`; 2, 3, 4 bytes with prefixes `10`, `110`, `1110` for the next ranges; 5 bytes starting `0xFF` for negative values and values from `0x10000000` |
| VarCodec.DecodeInt | log-server-db/src/com/github/winmain/logserver/db/utils/BufferUtils.java:39-54 | a leading byte in `0xF0..0xFE` is an invalid prefix and an empty input underflows; a short form never decodes to a negative value |
| VarCodec.DecodeEncodeInt | log-server-db/src/com/github/winmain/logserver/db/utils/BufferUtils.java:10-54 | decoding what `putInt(v)` wrote returns `v` and consumes exactly those bytes, whatever follows |
| VarCodec.DecodeEncodeShort | log-server-db/src/com/github/winmain/logserver/db/utils/BufferUtils.java:11-29 | the round trip for the 1- to 4-byte forms |
| VarCodec.DecodeEncodeLong | log-server-db/src/com/github/winmain/logserver/db/utils/BufferUtils.java:31-52 | the round trip for the 5-byte form: the escape byte and the two's-complement bytes, most significant first |
| VarCodec.Bits | log-server-db/src/com/github/winmain/logserver/db/utils/BufferUtils.java:33-36 | the 32-bit two's-complement pattern agrees with `v` below bit 31 and has bit 31 set exactly for negative `v` |
| VarCodec.FromBits | log-server-db/src/com/github/winmain/logserver/db/utils/BufferUtils.java:52 | inverts `Bits` |
| VarCodec.EncodeString | log-server-db/src/com/github/winmain/logserver/db/utils/BufferUtils.java:56-60 | is 1 to 5 bytes (the length prefix) longer than the payload; `DecodeEncodeString` shows the payload follows the prefix unchanged |
| VarCodec.DecodeString | log-server-db/src/com/github/winmain/logserver/db/utils/BufferUtils.java:62-68 | the payload is as long as the decoded length and follows it; a failing length is reported as such |
| VarCodec.DecodeEncodeString | log-server-db/src/com/github/winmain/logserver/db/utils/BufferUtils.java:56-68 | decoding what `putString` wrote returns the payload and consumes exactly those bytes |
| VarCodec.ByteBuffer.Put | log-server-db/src/com/github/winmain/logserver/db/utils/BufferUtils.java:13 | writes at the cursor and advances, or fails at the limit leaving everything unchanged |
| VarCodec.ByteBuffer.Get | log-server-db/src/com/github/winmain/logserver/db/utils/BufferUtils.java:40 | reads at the cursor and advances, or underflows at the limit |
| VarCodec.PutBytes | log-server-db/src/com/github/winmain/logserver/db/utils/BufferUtils.java:13-36 | successive puts write the bytes in order, stopping at the limit |
| VarCodec.PutInt | log-server-db/src/com/github/winmain/logserver/db/utils/BufferUtils.java:10-37 | exactly `EncodeInt(v)` is written at the cursor, which moves past it, unless the limit is too close |
| VarCodec.GetBytes | log-server-db/src/com/github/winmain/logserver/db/utils/BufferUtils.java:44-52 | `n` successive gets return the next `n` remaining bytes, or underflow |
| VarCodec.GetInt | log-server-db/src/com/github/winmain/logserver/db/utils/BufferUtils.java:39-54 | returns what `DecodeInt` finds at the cursor and moves past it; a bad prefix consumes one byte, an underflow runs to the limit |
| VarCodec.PutString | log-server-db/src/com/github/winmain/logserver/db/utils/BufferUtils.java:56-60 | exactly `EncodeString(bytes)` is written at the cursor when it fits |
| VarCodec.GetString | log-server-db/src/com/github/winmain/logserver/db/utils/BufferUtils.java:62-68 | returns what `DecodeString` finds at the cursor and moves past it; a failure returns `DecodeString`'s error (bad prefix, underflow, negative length), leaving the cursor just past the length, or where `getInt` left it when the length itself fails |

## Left out

- The PHP client files (file logging, rotation, locking) are not part of this model: they are I/O and cross-process locking.
- `LongByteBuffer` and its storage (memory-mapped or not) are an `array<Long>`. Its bulk `copyTo` is the element-by-element `CopyRun`. A workspace that is missing or too small becomes a fresh array of `blen` keys.
- LongMerge.Sort: requires the workspace to be a different buffer from `a`. The source does not check this; a workspace that shares storage with `a` is not modelled.
- LongMerge.Sort: requires `workBase >= 0` when a workspace is passed. With a negative base the source fails with an index error.
- LongMerge.Sort: says nothing about the workspace's contents afterwards. The source treats the workspace as scratch.
- Java `int` overflow in index arithmetic (`workBase + blen`, `left + right`) is not modelled: indices are unbounded integers. `(left + right) >>> 1` equals `(left + right) / 2` on non-negative indices.
- LongSort.InsertionSort: its contract does not state that it reads nothing below `left`, because Dafny contracts cannot name the reads of a method. At `left == 0`, a read below `left` would fail Dafny's bounds check.
- Running time is not modelled: the thresholds 286, 67, 33 and 47 and the sample spacing are kept as constants, and only correctness is proved.
- `InputStream` is a `ChunkedSource`, a queue of non-empty chunks. `available()` is non-zero exactly while chunks remain, and `read` returns at most the next chunk's bytes. `IOException` is not modelled.
- StreamSplitter.InputStreamSplitter.constructor: requires `bufferStep > 0`. With a zero step and a full buffer at `pos == 0`, the source's `readNext` loops forever.
- An empty delimiter is modelled as in the code (`readNext` returns true forever with empty records at 0). The stream-level properties (`Tokens`, `ReadAll`) assume a non-empty delimiter.
- The UTF-8 conversions of `putString`/`getString` are left out: strings are their byte sequences. `getString` reads from a buffer made by `ByteBuffer.wrap`, whose array offset is 0.
- VarCodec.GetString: the model checks the payload against both the backing array and the limit, as the source does (`new String` over `buf.array()` and `buf.position(pos + length)`). The model returns an `Err` result where the source throws. This agrees with the source for every buffer whose array offset is 0.
- VarCodec.PutString: when the string does not fit, the source throws `BufferOverflowException`. The model returns false instead. On that path the contract states only that the bytes before the old cursor are unchanged, not how far the cursor moved or what was written.
