# ELSAR external sort — a Dafny model

ELSAR sorts a file of fixed-width 100-byte records (gensort format: a
10-byte key followed by 90 bytes of payload) by key. This project models
its core and proves what the sort promises.

- **Key conversion** (`_convert_key`, include/elsar/internal/utils.h):
  the first nine key bytes are read as a base-95 number, the
  "converted key" that an `Embedding` carries next to its record pointer.
  On printable ASCII (bytes 32 to 126) the encoding is order-preserving
  and injective on nine-byte prefixes. The tenth key byte never counts.
- **Embeddings** (include/elsar/internal/embedding.h): a class with a
  record pointer and a converted key, its constructors and its copy and
  move assignments. Its `operator<` compares the converted keys only.
- **The learned CDF model** (`TwoLayerRMI`, include/elsar/internal/rmi.h):
  - hyperparameters and how `train` validates them;
  - strided sampling of the input, sorted by the 10-byte key;
  - the root model fitted through the first and last sample keys;
  - routing of the root training points into leaf buckets;
  - the leaf loop, with its three cases for empty buckets and the
    fictive points it inserts;
  - `predict`, clamped to `[0, scale - 1]`.
- **The external sort** (`elsar::sort`, include/elsar/sort.h):
  - reader threads read their byte ranges in batches;
  - each record goes to the partition that the first two key bytes
    pick, and each partition's pointer list is flushed to a fragment
    file (`_flush_fragments`);
  - partition sizes are summed, and each partition is given the output
    slot that follows all earlier partitions;
  - each partition is gathered from its fragment files into embeddings
    (`_read_records_file_into_embeddings`), sorted in memory, coalesced
    in write batches and written into its own slot.

The main result is `ExternalSort.Sort`. An empty input returns no output.
Otherwise the output file has the input's size, and its records are the
input's records, each exactly as often, in key order.

## How the pieces fit

| file | module | models |
|---|---|---|
| globals.dfy | `Globals` | constants of globals.h, `Option` |
| keyorder.dfy | `KeyOrder` | `strncmp(a, b, KEY_SZ) < 0` and lexicographic order |
| keys.dfy | `Keys` | `_convert_key` |
| records.dfy | `Records` | byte sequences as sequences of 100-byte records; key order on records |
| arith.dfy | `CppArith` | C++ truncating casts and division, unsigned wrap-around |
| layout.dfy | `Layout` | the partition hash, the reader ranges, the output slots |
| embedding.dfy | `Embeddings` | `Embedding` |
| sorting.dfy | `Sorting` | the key comparator on embeddings; a reference sort |
| utils.dfy | `Utils` | `_read_records_file_into_embeddings`, `_flush_fragments` |
| blocks.dfy | `Blocks` | what each partition contributes to the output |
| rmi.dfy | `Rmi` | `TwoLayerRMI` |
| externalsort.dfy | `ExternalSort` | `elsar::sort` |

**Representation.**
- A file is a `seq<byte>`. The output file is an `array<byte>`, sized to
  the input by `_create_output_file`.
- A pointer into a record buffer is an index into that buffer;
  `nullptr` is the index -1.
- The fragment files of reader r form row r of a table of byte sequences.
- `double` values are `real`s. `converted_t` is a 64-bit unsigned
  integer, and unsigned subtraction wraps modulo 2^64.
- The OpenMP loops run one iteration after another. Every reader writes
  only its own row of the fragment tables, and every partition writes
  only its own output slot. `Layout.SlotsDisjoint` states that the slots
  do not overlap.

**Details of the source the model keeps.**
- An empty last bucket gets no fictive point (rmi.h:243-248), so
  `Rmi.BucketsEndWithCustodyPoint` excludes it: every other bucket is
  non-empty after the leaf loop.
- The three `converted_t` differences in the leaf fits (rmi.h:239, 257,
  289) are unsigned and are modelled modulo 2^64.

## Model

| member | source | states |
|---|---|---|
| KeyOrder.StrncmpLess | include/elsar/internal/rmi.h:162-164 | `strncmp(a, b, n) < 0`, stopping at the first difference or NUL and comparing bytes as unsigned; it holds only between keys whose first n bytes differ |
| KeyOrder.StrncmpIrreflexive | include/elsar/internal/rmi.h:162-164 | the sample comparator `strncmp(a, b, KEY_SZ) < 0` never holds between a key and itself |
| KeyOrder.StrncmpTransitive | include/elsar/internal/rmi.h:162-164 | the comparator is transitive |
| KeyOrder.StrncmpAsymmetric | include/elsar/internal/rmi.h:162-164 | the comparator is asymmetric |
| KeyOrder.StrncmpIsLex | include/elsar/internal/rmi.h:162-164 | when the first n bytes hold no NUL, `strncmp(a, b, n) < 0` holds exactly when a is lexicographically smaller than b on them |
| KeyOrder.LexTrichotomy | include/elsar/internal/rmi.h:162-164 | two different n-byte prefixes are ordered one way or the other, so the comparator is total on distinct keys |
| KeyOrder.LexLessAsymmetric | include/elsar/internal/rmi.h:162-164 | lexicographic order is asymmetric |
| KeyOrder.LexLessShorten | include/elsar/sort.h:98-105 | order on a longer prefix gives order or equality on a shorter prefix, which ties the 10-byte key order to the two-byte partition hash |
| KeyOrder.StrncmpLessPrefix | include/elsar/internal/rmi.h:162-164 | `strncmp` with bound n reads only the first n bytes of a record |
| Keys.PrintableHasNoNul | include/elsar/internal/utils.h:23-24 | bytes in [MIN_PRINTABLE_CHAR, MAX_PRINTABLE_CHAR] are never NUL, so `strncmp` compares all KEY_SZ bytes |
| Keys.PowPositive | include/elsar/internal/utils.h:37 | `Keys.Pow`, the exact integer power that stands for `pow(PRINTABLE_RANGE, num_chars_to_convert - i - 1)`, is positive for a positive base |
| Keys.PartialKey | include/elsar/internal/utils.h:33-38 | `value` after the first i passes of the loop, the `Keys.Pow`-weighted sum of the digits; on printable keys it is never negative, so the unsigned accumulation never wraps below zero |
| Keys.PartialKeyBounds | include/elsar/internal/utils.h:33-38 | every intermediate `value` of the loop fits in 64 bits, so `converted_t` never wraps; on printable ASCII it stays below 95^9 |
| Keys.PartialKeyGrowth | include/elsar/internal/utils.h:34-38 | the digits from position i0 to i add at most d * (95^(9-i0) - 95^(9-i)) / 94, and never less than 0, to `value` |
| Keys.Pow95Nine | include/elsar/internal/utils.h:32-37 | 95^9 is KEY_SPACE, the number of nine-digit base-95 keys, below which every ASCII converted key lies |
| Keys.EncodedKey | include/elsar/internal/utils.h:31-40 | the converted key of a printable-ASCII key is below 95^9 |
| Keys.ConvertKey | include/elsar/internal/utils.h:31-40 | the accumulation loop returns the base-95 value of the first nine key bytes, each less 32 |
| Keys.PartialKeyOfPrefix | include/elsar/internal/utils.h:34-38 | after i passes, `value` depends only on the first i key bytes |
| Keys.EncodedKeyIgnoresTail | include/elsar/internal/utils.h:32 | two keys that agree on their first nine bytes get the same converted key; the tenth byte never contributes |
| Keys.EncodedKeyStrictlyMonotone | include/elsar/internal/utils.h:31-40 | on printable ASCII, a lexicographically smaller nine-byte prefix gives a strictly smaller converted key |
| Keys.EncodedKeyOrderIff | include/elsar/internal/utils.h:31-40 | on printable ASCII, the converted keys compare `<` exactly when the nine-byte prefixes are lexicographically ordered, and are equal exactly when the prefixes are equal |
| Keys.DelByteBreaksOrder | include/elsar/internal/utils.h:23-29 | byte 127 passes the printable bounds but is a 96th base-95 digit, so two different, ordered keys get the same converted key |
| Records.RecordsOf | include/elsar/internal/globals.h:8 | a file of whole records splits into exactly \|file\| / BYTES_PER_REC records |
| Records.Flatten | include/elsar/internal/globals.h:8 | records written one after the other take BYTES_PER_REC bytes each |
| Records.RecordsOfIndex | include/elsar/internal/utils.h:53-57 | record i of a file is the 100 bytes at offset i * BYTES_PER_REC |
| Records.RecordsOfAppend | include/elsar/sort.h:85-116 | reading two runs of whole records one after the other reads the records of both runs, in order |
| Records.FlattenAppend | include/elsar/sort.h:180-193 | writing two runs of records one after the other writes the bytes of both runs, in order |
| Records.RecordsBetween | include/elsar/sort.h:86-91 | the records between two record boundaries number (to - from) / BYTES_PER_REC |
| Records.RecordsOfSplit | include/elsar/sort.h:85-116 | cutting a file at a record boundary splits its records there |
| Records.RecordsOfFlatten | include/elsar/internal/globals.h:8 | splitting records that were written out gives the same records back |
| Records.FlattenRecordsOf | include/elsar/internal/globals.h:8 | writing out the records of a file gives the same bytes back |
| Records.CopiedRecord | include/elsar/internal/utils.h:45-56 | after the bulk `fread` into the buffer at `start`, record i of the file lies at `start + i * BYTES_PER_REC` |
| Records.SortedConcat | include/elsar/sort.h:141-146 | two sorted runs, the second's keys all at least the first's, make a sorted run; this is why the partitions may be written in partition order |
| CppArith.Trunc | include/elsar/internal/rmi.h:97-98 | `static_cast` of a double to an integer truncates toward zero |
| CppArith.TruncMonotone | include/elsar/internal/rmi.h:95-98 | the truncating cast is monotone |
| CppArith.CDiv | include/elsar/internal/rmi.h:128 | `long` division truncates toward zero: the quotient's magnitude is the floor of \|a\| / \|b\|, a non-zero quotient is positive exactly when the operands have the same sign, and the remainder is smaller than the divisor in magnitude and shares the dividend's sign; on non-negative operands it is ordinary division |
| CppArith.Ratio | include/elsar/internal/rmi.h:289 | the quotient of a `double` by a key difference (also rmi.h:188, 239, 257), multiplied back by the difference, gives the numerator; a zero difference gives slope 0 |
| CppArith.USub | include/elsar/internal/rmi.h:239 | `converted_t` subtraction wraps modulo 2^64 when the subtrahend is larger |
| CppArith.FractionAtMostWhole | include/elsar/internal/rmi.h:146-147 | a rate in (0, 1] times a size lies between 0 and the size |
| CppArith.ClampedBin | include/elsar/sort.h:104-105 | `min(e / w, n - 1)` lies in [0, n); a value below n - 1 marks the width-w bin holding e, and n - 1 the open-ended last bin |
| Layout.AvgBytesPerReader | include/elsar/sort.h:37-38 | `avg_bytes_per_reader_th` is a whole number of records, and num_readers of them fit in the file |
| CppArith.SharesFit | include/elsar/sort.h:37-38 | i whole shares of `(num_recs / num_readers) * BYTES_PER_REC`, for i up to num_readers, fit in the file |
| CppArith.TruncQuotient | include/elsar/sort.h:104-105 | `static_cast<int>(emb / partition_width)` with a whole positive width is the integer quotient |
| Layout.MaxEmbeddingValue | include/elsar/internal/utils.h:26-29 | PRINTABLE_RANGE = 95 and MAX_EMBEDDING_VALUE = 95 * 95 + 95 = 9120 |
| Layout.SignedChar | include/elsar/sort.h:98-101 | `static_cast<int>` of a `char` byte: a value in [-128, 128) congruent to the byte modulo 256 |
| Layout.CoarseHash | include/elsar/sort.h:98-102 | `emb` of the first two key bytes, read as signed `char`s; for printable bytes it lies in [0, MAX_EMBEDDING_VALUE] |
| Layout.CoarseHashBounds | include/elsar/sort.h:98-102 | the two-byte hash `emb` of printable bytes lies in [0, MAX_EMBEDDING_VALUE], and below 95 * 95 for ASCII |
| Layout.CoarseHashMonotone | include/elsar/sort.h:98-102 | `emb` never decreases along the lexicographic order of the first two bytes |
| Layout.CoarseHashStrictlyMonotone | include/elsar/sort.h:98-102 | on ASCII bytes, `emb` is strictly monotone |
| Layout.DelByteCollides | include/elsar/sort.h:98-102 | byte 127 makes two ordered two-byte prefixes hash alike |
| Layout.NumPartitions | include/elsar/sort.h:30 | `num_partitions` is the number of whole AVG_PARTITION_RECS-record partitions in the input: np * AVG_PARTITION_RECS <= num_recs < (np + 1) * AVG_PARTITION_RECS |
| Layout.MemoryFeasible | include/elsar/sort.h:49-54 | the validation check passes: one read batch per reader and 1.4 average partition sorts fit in the available memory, which in whole bytes is 14 * avg_mem_for_partition_sorting < 10 * available_mem |
| Layout.NumSorters | include/elsar/sort.h:40-46 | `num_sorters` as written: at most num_proc, as many average partition sorts (`avg_mem_for_partition_sorting`, with sizeof(Embedding) = 16) as fit in both the file size and the available memory, and one more would not fit unless num_proc is reached |
| Layout.NoSorterForSmallInput | include/elsar/sort.h:40-54 | once the memory check passes, `num_sorters` is 0 exactly when the input file is smaller than one average partition sort |
| Layout.SorterlessInput | include/elsar/sort.h:28-54 | an input of AVG_PARTITION_RECS records on one thread with 3 GB of memory has a valid partition count and passes the memory check, yet gets no sorter thread, so the handle array of sort.h:128 is empty when sort.h:178 indexes it |
| Layout.SorterCount | include/elsar/sort.h:43-46 | the corrected sorter count: between 1 and num_proc, and equal to `num_sorters` whenever that is positive |
| Layout.SorterOf | include/elsar/sort.h:148-191 | `schedule(static, 1)` gives partition p to a thread whose number, used as the handle index at sort.h:178 and 191, is below the thread count, namely p itself for the first partitions |
| Layout.PartitionWidth | include/elsar/sort.h:32-33 | for 1 to 9120 partitions, `partition_width` is at least 1 |
| Layout.PartitionWidthBounds | include/elsar/sort.h:32-33 | num_partitions bins of width `partition_width` fit in MAX_EMBEDDING_VALUE, and bins one wider would not |
| Layout.PartitionIndex | include/elsar/sort.h:104-105 | `predicted_partition` always lies in [0, num_partitions) |
| Layout.PartitionIndexBin | include/elsar/sort.h:104-105 | partition p receives exactly the values of bin p; the last partition also receives everything above its bin |
| Layout.PartitionIndexMonotone | include/elsar/sort.h:104-105 | a larger hash never selects an earlier partition |
| Layout.PartitionOf | include/elsar/sort.h:97-105 | every record with a printable key is appended to a partition in [0, num_partitions) |
| Layout.PartitionOfMonotone | include/elsar/sort.h:97-105 | a record with a smaller key never goes to a later partition, so the partitioning is a range partitioning by key |
| Layout.CrossPartitionOrder | include/elsar/sort.h:97-105 | a record in a later partition is never smaller than one in an earlier partition |
| Layout.Select | include/elsar/sort.h:107-108 | a partition's list holds at most the records read |
| Layout.SelectMembership | include/elsar/sort.h:104-108 | a record is in partition p's list exactly when it was read and its hash selects p |
| Layout.SelectedRecords | include/elsar/sort.h:104-108 | every record in partition p's list has a printable key and belongs to p |
| Layout.SelectPrintable | include/elsar/sort.h:107-108 | partition lists hold only records with printable keys |
| Layout.SelectAppend | include/elsar/sort.h:85-116 | distributing one batch and then the next distributes both batches |
| Layout.SelectCount | include/elsar/sort.h:104-108 | partition p's list holds each record of p exactly as often as the input does, and no record of another partition |
| Layout.SelectAllCount | include/elsar/sort.h:104-108 | partitions 0 to m - 1 together hold each of their records exactly as often as the input does, and no other record |
| Layout.PartitionsArePermutation | include/elsar/sort.h:97-109 | all partitions together are a permutation of the input's records: every record is appended to exactly one list |
| Layout.ReaderFirst | include/elsar/sort.h:68 | reader i's first byte lies on a record boundary, and reader 0 starts at byte 0 |
| Layout.ReaderLast | include/elsar/sort.h:69-73 | computed as in the source, as reader i's first byte plus `avg_bytes_per_reader_th`: each reader but the last stops where the next reader starts; the last reader stops at the end of the file |
| Layout.ReaderRangesTile | include/elsar/sort.h:68-73 | reader 0 starts at byte 0 and the last reader stops at the end of the file; each reader stops where the next starts; ranges lie in the file and on record boundaries |
| Layout.ReadersEnd | include/elsar/sort.h:68-73 | readers stop on record boundaries inside the file, and the last one at its end |
| Layout.ReaderBounds | include/elsar/sort.h:68-73 | reader m - 1 reads the records from where reader m - 2 stops to where it stops itself |
| Layout.ReadersCoverFile | include/elsar/sort.h:67-116 | readers 0 to m - 1 together read the file's records up to reader m - 1's end: each record once, in file order |
| Layout.AllReadersCoverFile | include/elsar/sort.h:67-73 | all readers together read exactly the records of the file |
| Layout.PrefixSum | include/elsar/sort.h:141-146 | the record count of partitions 0 to i - 1, which is at least the size of the last of them |
| Layout.PrefixSumCovers | include/elsar/sort.h:141-146 | the record count of partitions 0 to i - 1 is at least the size of each of them |
| Layout.PrefixSumMonotone | include/elsar/sort.h:141-146 | write offsets never decrease with the partition index |
| Layout.SlotsDisjoint | include/elsar/sort.h:141-146 | partition i's slot ends at or before the offset of every later partition, so no two slots overlap |
| Embeddings.EmbeddingValue.Less | include/elsar/internal/embedding.h:46-48 | `operator<` compares converted keys only; no embedding is less than itself |
| Embeddings.Embedding.Less | include/elsar/internal/embedding.h:46-48 | `operator<` on the object reads both objects' fields; an embedding less than another differs from it in value |
| Embeddings.LessIsStrictWeakOrder | include/elsar/internal/embedding.h:46-48 | `operator<` is irreflexive, asymmetric and transitive; two embeddings are equivalent exactly when their converted keys are equal, and equivalence is transitive |
| Embeddings.Embedding.constructor | include/elsar/internal/embedding.h:11 | the default embedding holds `nullptr` and key 0 |
| Embeddings.Embedding.Of | include/elsar/internal/embedding.h:12-13 | the embedding holds the given record and key |
| Embeddings.Embedding.Copy | include/elsar/internal/embedding.h:14-15 | the copy holds the source's fields and the source is unchanged |
| Embeddings.Embedding.Move | include/elsar/internal/embedding.h:18-22 | the new embedding takes the source's fields, and the source is reset to (`nullptr`, 0) |
| Embeddings.Embedding.CopyAssign | include/elsar/internal/embedding.h:25-32 | returns `*this`, now holding the source's fields; the source is unchanged; self-assignment changes nothing |
| Embeddings.Embedding.MoveAssign | include/elsar/internal/embedding.h:35-44 | returns `*this`; self-assignment changes nothing; otherwise `this` takes the source's fields and the source is reset to (`nullptr`, 0) |
| Sorting.SortByKey | include/elsar/internal/rmi.h:162-164 | the reference sort keeps every embedding's key inside the buffer and the sequence's length |
| Sorting.SortByKeyPermutes | include/elsar/internal/rmi.h:162-164 | the reference sort is a permutation of its input |
| Sorting.SortByKeySorted | include/elsar/internal/rmi.h:162-164 | the reference sort is ordered by `strncmp(a.record, b.record, KEY_SZ) < 0` |
| Sorting.InMemorySort | include/elsar/sort.h:170-172 | `in_memory_sort` leaves the partition's embeddings as a permutation of themselves, sorted by the 10-byte keys they point to; the order is the reference sort's, which also fixes the order of equal keys |
| Utils.Gather | include/elsar/internal/utils.h:99-102 | a partition's pointer list names as many records as it has entries |
| Utils.ReadRecordsIntoEmbeddings | include/elsar/internal/utils.h:42-59 | succeeds exactly when the file holds the requested records. It then returns the requested count, copies the records into the buffer, and writes for each record i an embedding that points at the record's copy in the buffer and carries its converted key; nothing else changes |
| Utils.WriteRecords | include/elsar/internal/utils.h:99-102 | the fragment file receives, after its old contents, the records the pointer list names, in list order |
| Utils.FlushFragments | include/elsar/internal/utils.h:95-106 | every pointer list is empty afterwards; each fragment file has received its list's records in list order, and each fragment size has grown by the list's old length |
| Blocks.Deref | include/elsar/sort.h:185-189 | following every embedding's pointer gives one record per embedding |
| Blocks.DerefAt | include/elsar/sort.h:186-188 | the record the coalesce loop copies for embedding i is the 100 bytes at its pointer |
| Blocks.DerefAppend | include/elsar/sort.h:185-189 | coalescing two runs of embeddings coalesces each run in turn |
| Blocks.DerefPermutation | include/elsar/sort.h:170-189 | rearranging the embeddings rearranges the records they point to in the same way |
| Blocks.DerefSorted | include/elsar/sort.h:170-189 | embeddings sorted by the keys they point to give records in key order |
| Blocks.Embedded | include/elsar/sort.h:156-168 | a partition's records, gathered one after another, give one embedding each |
| Blocks.EmbeddedInFlatten | include/elsar/sort.h:156-168 | following the embeddings of gathered records gives back exactly those records |
| Blocks.PartitionBlock | include/elsar/sort.h:150-193 | the records one partition writes: its records gathered into a buffer, their embeddings put in the reference sort's order, and the records copied out in that order; as many records as the partition has (BlockMembers, PartitionBlockPermutes and PartitionBlockSorted state what they are) |
| Blocks.PartitionBlockPermutes | include/elsar/sort.h:150-193 | the bytes a partition writes hold each of its records exactly as often as its fragments do |
| Blocks.PartitionBlockSorted | include/elsar/sort.h:170-193 | the records a partition writes are in key order |
| Blocks.BlockMembers | include/elsar/sort.h:150-193 | a partition writes only its own records |
| Blocks.OutputHoldsPartitions | include/elsar/sort.h:141-199 | the first m partitions' slots hold exactly the records of those partitions |
| Blocks.OutputMembership | include/elsar/sort.h:141-199 | a record appears in the first m slots exactly when it is an input record of a partition below m |
| Blocks.EarlierPartitionsFirst | include/elsar/sort.h:97-105 | records of earlier partitions are never larger than records of a later one |
| Blocks.BlockFollowsOutput | include/elsar/sort.h:141-199 | no record of partition m - 1's slot is smaller than a record of an earlier slot |
| Blocks.OutputSorted | include/elsar/sort.h:141-199 | the slots laid out in partition order hold the records in key order |
| Blocks.OutputIsSortedPermutation | include/elsar/sort.h:22-199 | the whole output is every input record exactly once, in key order |
| Rmi.DefaultParams | include/elsar/internal/rmi.h:41-46 | `Params()` sets fanout 1000, sampling rate 0.1, threshold 100 and 1000 leaf models, which lie in the ranges `train` accepts |
| Rmi.CustomParams | include/elsar/internal/rmi.h:50-55 | the custom `Params` constructor sets rate, fanout and threshold as given and keeps the default leaf count |
| Rmi.Sanitize | include/elsar/internal/rmi.h:114-132 | each parameter is reset to its default exactly when its own condition fails, and is kept otherwise; the threshold is judged by `ThresholdAccepted` (rmi.h:127-128: positive, below the input size and below the truncated `input_sz / fanout`) against the already-validated fanout; afterwards the rate lies in (0, 1] and the threshold is positive |
| Rmi.ValidateParams | include/elsar/internal/rmi.h:114-132 | the three validation steps, applied in order, compute `Sanitize` |
| Rmi.SanitizeIdempotent | include/elsar/internal/rmi.h:114-132 | validating parameters that were already validated changes nothing |
| Rmi.DefaultsAreSanitized | include/elsar/internal/rmi.h:42-47 | the default hyperparameters pass validation unchanged for every input size |
| Rmi.SampleSize | include/elsar/internal/rmi.h:146-148 | SAMPLE_SZ lies in [1, INPUT_SZ], is at least the sampled fraction, is at least MIN_SORTING_SIZE unless it is the whole input, and is the whole input when that has at most MIN_SORTING_SIZE records |
| Rmi.StrideOffset | include/elsar/internal/rmi.h:154 | `offset` is at least 1; SAMPLE_SZ strides of length `offset` fit in the input, and SAMPLE_SZ strides of length `offset + 1` do not |
| Rmi.Strided | include/elsar/internal/rmi.h:155-159 | the sampling loop's picks, one every `offset` elements; a non-empty input's first pick is its first element |
| Rmi.StridedLength | include/elsar/internal/rmi.h:155-159 | the sampling loop picks one element per stride that starts inside the input |
| Rmi.StridedAt | include/elsar/internal/rmi.h:155-158 | the k-th pick is the input element at k * offset |
| Rmi.StridedElements | include/elsar/internal/rmi.h:155-158 | every pick is the input element at its index times offset |
| Rmi.StridedCoversSample | include/elsar/internal/rmi.h:154-159 | the sample holds at least SAMPLE_SZ picks, so `training_sample[i]` for i < SAMPLE_SZ is in bounds |
| Rmi.StridedIsSubset | include/elsar/internal/rmi.h:155-158 | every pick is an input element |
| Rmi.StridedSample | include/elsar/internal/rmi.h:155-159 | the sampling loop pushes exactly the strided picks, in input order |
| Rmi.TrainingSample | include/elsar/internal/rmi.h:151-164 | after sampling and `std::sort`, `training_sample` holds the earlier contents and the picks, sorted by key, with at least SAMPLE_SZ new entries |
| Rmi.RootPoints | include/elsar/internal/rmi.h:174-177 | the root training data pairs the first SAMPLE_SZ sample entries with strictly increasing CDF values in [0, 1), starting at 0 |
| Rmi.Rank | include/elsar/internal/rmi.h:176 | `1. * i / SAMPLE_SZ`: the point's CDF value, which times the sample size gives back its index |
| Rmi.RankBounds | include/elsar/internal/rmi.h:176 | `Rank` is 0 at i = 0, lies in [0, 1) and strictly increases with i |
| Rmi.RootTrainingData | include/elsar/internal/rmi.h:174-177 | the loop that builds `training_data[0][0]` computes `RootPoints` |
| Rmi.FitRoot | include/elsar/internal/rmi.h:184-193 | the root slope is non-negative; when the keys differ, the root model maps the smallest key to 0 and the largest to num_leaf_models - 1 |
| Rmi.LeafIndex | include/elsar/internal/rmi.h:198-203 | the routed rank is clamped to [0, num_leaf_models) |
| Rmi.LeafIndexMonotone | include/elsar/internal/rmi.h:198-203 | with a non-negative root slope, a larger key never goes to an earlier leaf |
| Rmi.Bucket | include/elsar/internal/rmi.h:196-207 | a leaf bucket holds at most the root training points |
| Rmi.Routed | include/elsar/internal/rmi.h:196-207 | routing yields one bucket per leaf model |
| Rmi.BucketMembership | include/elsar/internal/rmi.h:196-207 | a point is in leaf k's bucket exactly when it is a root training point whose rank is k |
| Rmi.RoutingIsPartition | include/elsar/internal/rmi.h:196-207 | the bucket sizes add up to the number of root training points: routing loses no point and duplicates none |
| Rmi.BucketHead | include/elsar/internal/rmi.h:196-207 | routing keeps input order: the first point heads its leaf's bucket |
| Rmi.Route | include/elsar/internal/rmi.h:196-207 | the routing loop appends each point to the bucket of its rank, which computes `Routed` |
| Rmi.FitAnchors | include/elsar/internal/rmi.h:288-291 | the line `Fit` builds, here and at rmi.h:238-241 and 256-259 (slope `Ratio(dy, x1 - x0)`, intercept through the anchor), evaluated by `LinearModel.Eval`, passes through its anchor point, and rises by dy up to the other key when that key is larger |
| Rmi.FirstLeafModel | include/elsar/internal/rmi.h:217-242 | cases 1 and 2: the zero model for fewer than two points, else the line that passes through the first point |
| Rmi.FirstLeafData | include/elsar/internal/rmi.h:217-242 | case 1 appends the fictive point to a first bucket of fewer than two points; the bucket is never empty afterwards and keeps its points as a prefix |
| Rmi.LastLeafModel | include/elsar/internal/rmi.h:243-260 | cases 3 and 4: for an empty last bucket the line predicts 1 at the previous bucket's last key; otherwise it passes through the previous bucket's last point |
| Rmi.InteriorLeafModel | include/elsar/internal/rmi.h:261-292 | cases 5 and 6: an intermediate leaf passes through the previous bucket's last point |
| Rmi.InteriorLeafData | include/elsar/internal/rmi.h:261-292 | case 5 gives an empty intermediate bucket the previous bucket's last point; the bucket is then never empty, a non-empty bucket is unchanged, and its last CDF value is the previous point's when it was empty |
| Rmi.FitLeaves | include/elsar/internal/rmi.h:210-294 | the leaf loop fits each leaf from its own bucket and the previous bucket's last point, inserting fictive points as in cases 1 and 5 |
| Rmi.BucketsEndWithCustodyPoint | include/elsar/internal/rmi.h:210-294 | after the leaf loop every bucket except an empty last one is non-empty, so every `back()` of the loop is defined. It ends with the last routed point of the nearest populated leaf at or before it, or leaf 0's last point |
| Rmi.LeafContinuity | include/elsar/internal/rmi.h:243-292 | every leaf after the first passes through the last point of the bucket before it; an empty intermediate leaf is the constant at that point's CDF value |
| Rmi.LeafReachesTarget | include/elsar/internal/rmi.h:250-291 | a non-empty leaf after the first reaches its own last point's CDF value at its last key, and the last leaf reaches 1 |
| Rmi.FirstLeafSpan | include/elsar/internal/rmi.h:231-242 | the first leaf, fitted as if its first CDF value were 0, passes through its first point and reaches first y + last y at its last key |
| Rmi.TwoLayerRMI.constructor | include/elsar/internal/rmi.h:67-73 | a new model is untrained, with default hyperparameters, duplicate detection on and one zero leaf model per default leaf |
| Rmi.TwoLayerRMI.WithParams | include/elsar/internal/rmi.h:75-80 | a new model with the given hyperparameters is untrained, with one zero leaf model per leaf |
| Rmi.TwoLayerRMI.PredictedLeaf | include/elsar/internal/rmi.h:95-98 | `predict` always consults a leaf model that exists |
| Rmi.TwoLayerRMI.Predict | include/elsar/internal/rmi.h:94-108 | for scale at least 1, the prediction lies in [0, scale - 1] whatever the model's weights; for a smaller scale it is 0 |
| Rmi.TwoLayerRMI.Train | include/elsar/internal/rmi.h:110-309 | returns true and leaves the model trained. The hyperparameters are the validated ones; the training sample is the sorted strided sample; the root model is fitted to the sample's CDF with a non-negative slope; the leaf models are those the leaf loop fits to the routed buckets |
| ExternalSort.RangeRecords | include/elsar/sort.h:85-116 | the records of a reader's byte range are records of the input |
| ExternalSort.RangeRecordsAppend | include/elsar/sort.h:115 | advancing `next_byte_to_read` past a batch extends the records read by that batch |
| ExternalSort.ReaderRange | include/elsar/sort.h:68-73 | reader i's records are those of its byte range, which lies on record boundaries inside the file |
| ExternalSort.SelectSnoc | include/elsar/sort.h:107-108 | one more record read is appended to the list of its own partition only |
| ExternalSort.PredictedPartition | include/elsar/sort.h:32-33 | `std::floor(1. * MAX_EMBEDDING_VALUE / num_partitions)` is the whole partition width, and the partition predicted in lines 104-105 of sort.h is `PartitionOf` |
| ExternalSort.DistributedSnoc | include/elsar/sort.h:97-109 | a pointer to one more record, appended to the list of its partition, keeps every list holding exactly its partition's records in read order |
| ExternalSort.PredictPartition | include/elsar/sort.h:98-105 | the hash and clamp of one record of the batch buffer compute the record's partition |
| ExternalSort.DistributeBatch | include/elsar/sort.h:97-109 | after the batch loop, each partition's list points, in read order, exactly to the batch records of that partition |
| ExternalSort.FilesAfter | include/elsar/sort.h:111-113 | distributing records keeps one fragment file per partition |
| ExternalSort.SizesAfter | include/elsar/sort.h:111-113 | distributing records keeps one fragment size per partition |
| ExternalSort.AfterAppend | include/elsar/sort.h:85-116 | distributing one batch and then the next leaves the fragments as distributing both at once |
| ExternalSort.RowsStep | include/elsar/sort.h:85-116 | one more pass of the read loop extends a reader's fragments by the records of that batch |
| ExternalSort.LoadBatch | include/elsar/sort.h:89-91 | the `fread` puts the batch's bytes of the input at the start of the buffer |
| ExternalSort.DistributeAndFlush | include/elsar/sort.h:97-113 | after distributing and flushing a batch, the lists are empty and each fragment file and size has grown by the batch's records of its partition |
| ExternalSort.ReadBatch | include/elsar/sort.h:86-113 | one pass of the read loop: the fragments grow by the batch's records, partition by partition |
| ExternalSort.Flushed | include/elsar/sort.h:111-113 | flushing lists that hold the batch's records partition by partition distributes the batch |
| ExternalSort.ReadRange | include/elsar/sort.h:85-116 | the read loop succeeds exactly when the range is empty or ends inside the input (otherwise the `fread` comes up short and the program exits). It then leaves each fragment file and size grown by the range's records of its partition, in file order |
| ExternalSort.AfterNothing | include/elsar/sort.h:85 | an empty range leaves the fragments as they were |
| ExternalSort.AllocateRows | include/elsar/sort.h:57-64 | every reader gets its own fresh row of num_partitions empty fragment files and zero sizes |
| ExternalSort.ReaderThread | include/elsar/sort.h:67-116 | a reader's fragment files and sizes hold, per partition, exactly the records of its byte range that fall in that partition, in file order |
| ExternalSort.ReadPhase | include/elsar/sort.h:56-119 | after the read phase every reader's row holds its range's records, partition by partition |
| ExternalSort.AggregateSizes | include/elsar/sort.h:133-139 | `total_partition_sizes[p]` is the sum of `fragment_sizes[r][p]` over the readers |
| ExternalSort.ComputeOffsets | include/elsar/sort.h:141-146 | `partition_write_offsets[i]` is BYTES_PER_REC times the number of records in partitions 0 to i - 1, and 0 for partition 0 |
| ExternalSort.ColumnFacts | include/elsar/sort.h:156-168 | a partition's fragment files together hold whole records with printable keys, as many as its fragment sizes add up to |
| ExternalSort.EmbeddedExtend | include/elsar/sort.h:160-167 | the embeddings of one more fragment, written at `write_head`, extend the partition's embeddings |
| ExternalSort.GatherFragment | include/elsar/sort.h:158-167 | reading one fragment file at `write_head` appends its records to the buffer and their embeddings to `partition_contents` |
| ExternalSort.GatherFragments | include/elsar/sort.h:156-168 | the reader loop fills `partition_contents` and `rec_buf` with all of the partition's fragments, reader by reader |
| ExternalSort.GatherStep | include/elsar/sort.h:156-168 | one pass of the reader loop advances `write_head` by the fragment size and appends that fragment |
| ExternalSort.GatherPartition | include/elsar/sort.h:150-168 | the gathered buffer is the partition's fragment files one after the other, and `partition_contents` holds one embedding per record of it, in order |
| ExternalSort.CopyRecord | include/elsar/sort.h:186-188 | the `memcpy` copies one record and changes nothing else |
| ExternalSort.AppendRecord | include/elsar/sort.h:185-189 | copying a record right after the coalesced prefix extends the prefix by that record |
| ExternalSort.Coalesce | include/elsar/sort.h:185-189 | the coalesce loop fills the batch buffer with the records of the next run of sorted embeddings, in order |
| ExternalSort.WrittenStep | include/elsar/sort.h:190-192 | one more batch written after the written part of the slot extends it by that batch |
| ExternalSort.WriteBatch | include/elsar/sort.h:190-191 | the `fwrite` of one batch extends the written part of the slot |
| ExternalSort.WriteStep | include/elsar/sort.h:181-192 | one pass of the write loop coalesces and writes the next batch of the partition's sorted records |
| ExternalSort.WritePartition | include/elsar/sort.h:176-193 | the write loop writes the partition's records, in sorted-embedding order, into its slot and changes nothing outside it |
| ExternalSort.ColumnHoldsPartition | include/elsar/sort.h:156-168 | a partition's fragment files from readers 0 to m - 1 are well formed, hold that partition's share of those readers' records in file order, and their sizes add up to that share |
| ExternalSort.FragmentWellFormed | include/elsar/sort.h:111-113 | a reader's flushed fragment holds whole records with printable keys, as many as its size |
| ExternalSort.ColumnConcat | include/elsar/sort.h:156-168 | a partition's fragment files, read reader by reader, hold its share of the readers' records in file order |
| ExternalSort.ColumnSizes | include/elsar/sort.h:133-139 | a partition's fragment sizes add up to the number of its records |
| ExternalSort.PartsConcat | include/elsar/sort.h:156-168 | files each holding one record sequence's share of a partition hold, one after the other, that partition's share of the sequences joined |
| ExternalSort.PartsSizes | include/elsar/sort.h:133-139 | the sizes of record sequences' shares of a partition add up to the share of the sequences joined |
| ExternalSort.ReadPhaseColumns | include/elsar/sort.h:133-168 | after the read phase, partition p's fragment files, read reader by reader, hold exactly the input's records of p, and its sizes add up to their number |
| ExternalSort.TotalsCount | include/elsar/sort.h:141-146 | the first m partition totals add up to the number of records in partitions 0 to m - 1 |
| ExternalSort.SortPartition | include/elsar/sort.h:150-198 | one partition's slot receives its records in key order, each exactly once; nothing else changes. An empty partition is skipped |
| ExternalSort.SortNonEmptyPartition | include/elsar/sort.h:151-197 | the gather, the in-memory sort and the write loop, together, write the partition's records in key order into its slot |
| ExternalSort.SortContents | include/elsar/sort.h:170-172 | after `in_memory_sort`, the embeddings point to the partition's records in key order |
| ExternalSort.NextSlot | include/elsar/sort.h:141-146 | the slot of partition p starts where the bytes of partitions 0 to p - 1 end |
| ExternalSort.BlockBytesOutput | include/elsar/sort.h:149-199 | the bytes of the first m partitions' slots, one after another, are the first m blocks of the output |
| ExternalSort.SortPartitions | include/elsar/sort.h:148-199 | the sort loop writes every partition's block into its slot, so the output file holds all blocks in partition order; the thread running partition p, `SorterOf(p, numSorters)`, names one of the numSorters output handles |
| ExternalSort.SortSlot | include/elsar/sort.h:149-198 | pass p of the sort loop writes partition p's block after the blocks of partitions 0 to p - 1 |
| ExternalSort.PartitionsReady | include/elsar/sort.h:133-168 | after the read phase and the aggregation, every partition's fragments and total describe exactly its records, and the totals add up to the input's size |
| ExternalSort.OutputBytesSorted | include/elsar/sort.h:148-199 | the output's bytes, split into records, are every input record exactly once, in key order |
| ExternalSort.Sort | include/elsar/sort.h:20-199 | an empty input returns at once, and an input the memory check refuses exits; neither writes anything. Otherwise the output file has the input's size; it is the partitions' blocks in partition order, and its records are the input's records, sorted by key, each exactly as often |
| ExternalSort.StaleReaderThread | include/elsar/sort.h:26-116 | a reader whose range is computed from a `num_recs` left over from an earlier call fails exactly when its range is non-empty and ends past the current input |
| ExternalSort.StaleCountShortRead | include/elsar/sort.h:26-38 | with A = AVG_PARTITION_RECS, a first input of 4 * A records and then one of 2 * A records with 4 readers: both inputs give a valid partition count, the second call keeps the stale `num_recs` and `num_partitions` (4, not 2), and reader 2 gets bytes [200 * A, 300 * A) of a file of 200 * A bytes, so its read comes up short |

## Left out

- File I/O is not modelled. This covers `fopen`, `fread`, `fwrite_unlocked`, `fseek`, `rewind`, the O_TMPFILE fragment files, `_create_output_file`, `_file_sz`, `_open_*_or_fail`, `_initialize_fragment_fids_for_th` and `_write_recs_to_output`. Files are byte sequences, and the output file is a byte array sized to the input.
- `_avail_mem` (sort.h:28) reads the memory the operating system reports; the model takes it as the parameter `availMem` of ExternalSort.Sort. The memory check of sort.h:49-54 is Layout.MemoryFeasible; its exit is modelled as ExternalSort.Sort returning None. The check compares against `1.4 * avg_mem_for_partition_sorting` as an exact real; the IEEE product differs from it by less than 1e-6, so for whole byte counts the check decides the same way.
- Layout.NumSorters: `num_sorters` depends on the input file's size as well as on memory. Once the memory check passes, it is 0 exactly when the file holds fewer than 1.48 * AVG_PARTITION_RECS records (Layout.NoSorterForSmallInput). On the window AVG_PARTITION_RECS <= num_recs < 1.48 * AVG_PARTITION_RECS the partition count is valid, but `out_fids_for_sorters` is `new FILE*[0]` (sort.h:128), `num_threads(0)` is passed to OpenMP (sort.h:148), and the sort loop indexes the empty array by thread number (sort.h:178, 191). The model runs ExternalSort.Sort with Layout.SorterCount threads instead; see "## Findings".
- OpenMP is not modelled (sort.h:66, 148). Reader threads and partition sorters run one after another. They touch disjoint rows and slots, which is what the parallel loops rely on.
- Error paths that print and call `exit` do not return an error code in the model. A short read in the read loop (sort.h:92-96) makes `ExternalSort.ReadRange` return `false`. The `fread` in `_read_records_file_into_embeddings` behaves the same way. `ExternalSort.Sort` requires an input of whole records with printable keys, so neither failure can occur there.
- ExternalSort.Sort: requires `1 <= num_partitions <= 9120`. For inputs with fewer than AVG_PARTITION_RECS records, sort.h:30 gives `num_partitions = 0`. Then `partition_width` is infinite and the predicted partition is -1. For more than 9120 partitions, `partition_width = floor(9120 / num_partitions)` is 0, so `emb / partition_width` at sort.h:105 is infinite or NaN and its cast to `int` is undefined. The model states both bounds as a precondition instead of reproducing them.
- ExternalSort.Sort: requires a file size that is a multiple of BYTES_PER_REC. Otherwise the read loop of sort.h:85-116 never terminates.
- ExternalSort.AllocateRows and ExternalSort.AggregateSizes: both loop to `num_readers`. The source loops to `num_readers + 1` (sort.h:60, 135), which writes and reads one row past arrays of `num_readers` rows. The model does not reproduce that out-of-bounds access.
- Rmi.TwoLayerRMI.Train: requires that the threshold validation does not divide by zero. That division faults when `fanout` is 0 after fanout validation (rmi.h:128). It also requires at least one input record; with none, `train` divides by SAMPLE_SZ = 0 (rmi.h:154).
- Floating point is modelled with exact reals. This covers slopes, intercepts, CDF values and `sampling_rate`. Rounding of IEEE doubles is not modelled, and no monotonicity of the fitted CDF under IEEE semantics is claimed.
- Rmi.FitRoot and Rmi.FitAnchors: when the two keys are equal, the slope is 0 rather than the infinity or NaN that IEEE division by zero gives (rmi.h:188, 239, 257, 289).
- Rmi.TwoLayerRMI.Predict and Rmi.LeafIndex: the cast of an out-of-range double to `int` or `long` is undefined in C++. It is modelled as truncation to an unbounded integer, followed by the source's clamp.
- Keys.Pow: `pow(PRINTABLE_RANGE, 8 - i)` in `_convert_key` is modelled as an exact integer power. All powers up to 95^8 are below 2^53, so the double result is exact.
- `in_memory_sort` (in_memory_sort.h) is not part of this model. What it promises is a sorted permutation of the partition's embeddings; the model takes that order to be `strncmp` on the 10 key bytes, the comparator `train` passes to `std::sort` (rmi.h:162-164), not `Embedding::operator<`, which compares only the converted key of the first nine bytes.
- Sorting.InMemorySort: stands for `in_memory_sort` by the reference sort `Sorting.SortByKey`, an insertion sort that keeps records with equal 10-byte keys in their gathered order. The source may put such records, which can differ in payload, in either order; the model fixes one. `std::sort` in `train` is modelled by the same reference sort, so `Rmi.TwoLayerRMI.Train` fixes the tie order of the training sample the same way.
- Blocks.PartitionBlock: a partition's block is the reference sort's order of its records, so it too fixes the order of records with equal keys. What holds for any tie order is stated by Blocks.PartitionBlockPermutes, Blocks.PartitionBlockSorted and Blocks.BlockMembers.
- ExternalSort.Sort: its ensures `output.value == Flatten(Output(...))` pins the byte-exact output, and so depends on the tie order the reference sort fixes. Its remaining ensures (same size, sorted, a multiset permutation of the input's records) hold whatever order records with equal keys come out in.
- ExternalSort.Sort: requires `numProc >= 1`. With `num_proc = 0`, sort.h:37-38 divides `num_recs` by `num_readers = 0`.
- Rmi.TwoLayerRMI.WithParams: requires `p.numLeafModels >= 0`. With a negative count, `leaf_models.resize` at rmi.h:78 is passed a huge `size_t` and throws.
- Rmi.TwoLayerRMI.Train: requires `Valid()`, so `numLeafModels >= 1`. With no leaf models, the routing loop clamps every rank to 0 and pushes into `training_data[1][0]` of an empty vector (rmi.h:200-206).
- `TwoLayerRMI::print` (rmi.h:83-91) and main.cc are not modelled: they only print or parse arguments.
- `enable_dups_detection` and `threshold` are stored and kept but never used by the modelled code, which matches the source.

## Findings

| source | as written | input that shows it | evidently intended | confidence | as-written member | corrected member |
|---|---|---|---|---|---|---|
| include/elsar/sort.h:26 | `num_recs` is a function-local `static const`, so it keeps the record count of the first call of `sort` in the process; `num_partitions` and the reader ranges (sort.h:30, 37-38), computed from it, are stale too | with A = AVG_PARTITION_RECS: `sort` on a file of 4 * A records, then `sort` on a file of 2 * A records with 4 readers. Both files give a valid partition count. The second call uses 4 partitions instead of 2, and its reader 2 reads bytes [200 * A, 300 * A) of a file of 200 * A bytes, so its `fread` comes up short and the program exits | `num_recs` recomputed from `input_file_sz` on every call | high for the arithmetic; not executed | ExternalSort.StaleReaderThread, ExternalSort.StaleCountShortRead | ExternalSort.ReaderThread |
| include/elsar/sort.h:43-46 | `num_sorters` is `min(num_proc, min(input_file_sz, available_mem) / avg_mem_for_partition_sorting)`, which is 0 for any file of fewer than 1.48 * AVG_PARTITION_RECS records; the sort loop then runs with `num_threads(0)` and indexes the empty `out_fids_for_sorters` (sort.h:128) by `omp_get_thread_num()` (sort.h:148, 178, 191) | with A = AVG_PARTITION_RECS: a file of A records, one thread and 3 GB of memory. The partition count is 1 and the memory check passes, but there are no output handles for the sorter thread to write through | at least one sorter thread, `max(1, num_sorters)` | medium; not executed | Layout.NumSorters, Layout.SorterlessInput | Layout.SorterCount |
