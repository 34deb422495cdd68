/**
 * `elsar::sort` (include/elsar/sort.h): the external sort itself.
 *
 * Read phase: each reader thread reads its byte range of the input in
 * batches, appends a pointer to every record of a batch to the fragment of
 * the partition its first two key bytes fall in, and flushes the fragments
 * to its own fragment file per partition. Sort phase: the fragment sizes
 * are summed per partition, each partition gets the output slot that starts
 * after all smaller partitions, and each partition is gathered from the
 * readers' fragment files, sorted in memory and written into its slot.
 *
 * Files are byte sequences: the input is a `seq<byte>`, the fragment files
 * of reader r are row r of a table of byte sequences, and the output file
 * is an array of bytes that `_create_output_file` sized to the input.
 * Threads run one after the other: every reader writes only its own row of
 * the fragment tables, and every partition only its own output slot.
 */
module ExternalSort {
  import opened Globals
  import opened KeyOrder
  import opened Keys
  import opened Embeddings
  import opened Sorting
  import opened Records
  import opened CppArith
  import opened Layout
  import opened Utils
  import opened Blocks

  // ------------------------------------------------------------------
  // Byte ranges of the input
  // ------------------------------------------------------------------

  /** The records of input bytes [a, b) are records of the input. */
  lemma {:induction false} SliceRecords(input: seq<byte>, a: nat, b: nat)
    requires |input| % 100 == 0 && a % 100 == 0 && b % 100 == 0
    requires a <= b <= |input|
    ensures |input[a..b]| % 100 == 0
    ensures forall rec | rec in RecordsOf(input[a..b]) :: rec in RecordsOf(input)
  {
    ModDiff(b, a);
    ModDiff(|input|, b);
    assert input == input[..a] + input[a..b] + input[b..];
    RecordsOfAppend(input[..a], input[a..b]);
    RecordsOfAppend(input[..a] + input[a..b], input[b..]);
  }

  /** The records of input bytes [first, last); none when the range is empty. */
  function RangeRecords(input: seq<byte>, first: nat, last: nat): (recs: seq<Record>)
    requires |input| % 100 == 0 && first % 100 == 0 && last % 100 == 0
    requires first < last ==> last <= |input|
    ensures forall rec | rec in recs :: rec in RecordsOf(input)
  {
    if first < last then
      SliceRecords(input, first, last);
      RecordsOf(input[first..last])
    else []
  }

  lemma {:induction false} RangePrintable(input: seq<byte>, first: nat, last: nat)
    requires FileKeysPrintable(input) && first % 100 == 0 && last % 100 == 0
    requires first < last ==> last <= |input|
    ensures AllKeysPrintable(RangeRecords(input, first, last))
  {
  }

  /** Reading [next, stop) after [first, next) reads [first, stop). */
  lemma {:induction false} RangeRecordsAppend(input: seq<byte>, first: nat, next: nat, stop: nat)
    requires |input| % 100 == 0
    requires first % 100 == 0 && next % 100 == 0 && stop % 100 == 0
    requires first <= next < stop <= |input|
    ensures |input[next..stop]| % 100 == 0
    ensures RangeRecords(input, first, stop) == RangeRecords(input, first, next) + RecordsOf(input[next..stop])
  {
    ModDiff(stop, next);
    if first < next {
      ModDiff(next, first);
      assert input[first..stop] == input[first..next] + input[next..stop];
      RecordsOfAppend(input[first..next], input[next..stop]);
    }
  }

  /** Reader i's records are the records of its byte range. */
  lemma {:induction false} ReaderRange(input: seq<byte>, numReaders: nat, i: nat)
    requires numReaders >= 1 && i < numReaders && |input| % 100 == 0
    ensures var numRecs := |input| / 100;
      var first, last := ReaderFirst(i, numRecs, numReaders), ReaderLast(i, numRecs, numReaders, |input|);
      first % 100 == 0 && last % 100 == 0 && first <= last <= |input| &&
      ReaderRecords(input, numReaders, i) == RangeRecords(input, first, last)
  {
    var numRecs := |input| / 100;
    DivExact(|input|, 100);
    ReaderRangesTile(|input|, numRecs, numReaders, i);
    var first, last := ReaderFirst(i, numRecs, numReaders), ReaderLast(i, numRecs, numReaders, |input|);
    if first == last {
      assert input[first..last] == [];
    }
  }

  lemma {:induction false} ReaderPrintable(input: seq<byte>, numReaders: nat, i: nat)
    requires numReaders >= 1 && i < numReaders && FileKeysPrintable(input)
    ensures AllKeysPrintable(ReaderRecords(input, numReaders, i))
  {
    ReaderRange(input, numReaders, i);
  }

  // ------------------------------------------------------------------
  // Read phase (sort.h:56-119)
  // ------------------------------------------------------------------

  /** Appending one record to the records selects it for its own partition only. */
  lemma {:induction false} SelectSnoc(recs: seq<Record>, rec: Record, np: int, p: int)
    requires ValidPartitionCount(np) && AllKeysPrintable(recs) && KeyPrintable(rec)
    ensures AllKeysPrintable(recs + [rec])
    ensures Select(recs + [rec], np, p) ==
      Select(recs, np, p) + (if PartitionOf(rec, np) == p then [rec] else [])
  {
    SelectAppend(recs, [rec], np, p);
    assert [rec][..0] == [];
  }

  /**
   * `partition_width` (sort.h:32-33) and `predicted_partition`
   * (sort.h:104-105) in the double arithmetic of the source agree with the
   * integer PartitionWidth and PartitionOf for a record with a printable key.
   */
  lemma {:induction false} PredictedPartition(rec: Record, np: int)
    requires ValidPartitionCount(np) && KeyPrintable(rec)
    ensures (MAX_EMBEDDING_VALUE as real / np as real).Floor == PartitionWidth(np)
    ensures Min(Trunc(CoarseHash(rec) as real / PartitionWidth(np) as real), np - 1) == PartitionOf(rec, np)
  {
    TruncQuotient(MAX_EMBEDDING_VALUE, np);
    CoarseHashBounds(rec);
    TruncQuotient(CoarseHash(rec), PartitionWidth(np));
  }

  /** Fragment p holds, in record order, pointers to exactly the records of recs that fall in partition p. */
  predicate Distributed(buf: seq<byte>, frags: seq<seq<nat>>, recs: seq<Record>, np: int)
    requires ValidPartitionCount(np) && AllKeysPrintable(recs)
  {
    |frags| == np &&
    forall p :: 0 <= p < np ==> InBuffer(buf, frags[p]) && Gather(buf, frags[p]) == Select(recs, np, p)
  }

  /** A pointer to one more record, appended to the fragment of its partition. */
  lemma {:induction false} DistributedSnoc(buf: seq<byte>, frags: seq<seq<nat>>, recs: seq<Record>, np: int, at: nat)
    requires ValidPartitionCount(np) && AllKeysPrintable(recs)
    requires Distributed(buf, frags, recs, np)
    requires at + 100 <= |buf| && KeyPrintable(RecordAt(buf, at))
    ensures AllKeysPrintable(recs + [RecordAt(buf, at)])
    ensures 0 <= PartitionOf(RecordAt(buf, at), np) < np
    ensures var q := PartitionOf(RecordAt(buf, at), np);
      Distributed(buf, frags[q := frags[q] + [at]], recs + [RecordAt(buf, at)], np)
  {
    var rec := RecordAt(buf, at);
    var q := PartitionOf(rec, np);
    var next := frags[q := frags[q] + [at]];
    forall p | 0 <= p < np
      ensures InBuffer(buf, next[p]) && Gather(buf, next[p]) == Select(recs + [rec], np, p)
    {
      SelectSnoc(recs, rec, np, p);
      if p == q {
        GatherSnoc(buf, frags[q], at);
      }
    }
  }

  /**
   * `embedding_value` and `predicted_partition` of sort.h:101-105 for the
   * record at byte at of recsBuf, in the double arithmetic of the source:
   * the coarse hash of the first two key bytes, divided by partitionWidth,
   * truncated and capped at the last partition. It is the record's
   * partition.
   */
  method PredictPartition(recsBuf: array<byte>, at: nat, np: int, partitionWidth: int) returns (predicted: int)
    requires ValidPartitionCount(np) && partitionWidth == PartitionWidth(np)
    requires at + 100 <= recsBuf.Length && KeyPrintable(RecordAt(recsBuf[..], at))
    ensures predicted == PartitionOf(RecordAt(recsBuf[..], at), np)
  {
    ghost var rec := RecordAt(recsBuf[..], at);
    assert rec[0] == recsBuf[at] && rec[1] == recsBuf[at + 1];
    var emb := (SignedChar(recsBuf[at]) - MIN_PRINTABLE_CHAR) * PRINTABLE_RANGE +
               (SignedChar(recsBuf[at + 1]) - MIN_PRINTABLE_CHAR);
    PredictedPartition(rec, np);
    predicted := Min(Trunc(emb as real / partitionWidth as real), np - 1);
  }

  /** The first i + 1 elements are the first i and then element i. */
  lemma {:induction false} TakeSnoc<T>(s: seq<T>, i: nat)
    requires i < |s|
    ensures s[..i + 1] == s[..i] + [s[i]]
  {
  }

  /**
   * The loop of sort.h:97-109 over one batch of n records in recsBuf: the
   * pointers appended to fragment p point, in batch order, at exactly the
   * batch's records whose partition is p.
   */
  method DistributeBatch(recsBuf: array<byte>, n: nat, np: int, frags: array<seq<nat>>)
    requires ValidPartitionCount(np) && frags.Length == np
    requires n * 100 <= recsBuf.Length
    requires FileKeysPrintable(recsBuf[..n * 100])
    requires forall p :: 0 <= p < np ==> frags[p] == []
    modifies frags
    ensures forall p :: 0 <= p < np ==>
      InBuffer(recsBuf[..], frags[p]) &&
      Gather(recsBuf[..], frags[p]) == Select(RecordsOf(recsBuf[..n * 100]), np, p)
  {
    ghost var buf := recsBuf[..];
    ghost var recs := RecordsOf(recsBuf[..n * 100]);
    var partitionWidth := (MAX_EMBEDDING_VALUE as real / np as real).Floor;
    TruncQuotient(MAX_EMBEDDING_VALUE, np);
    assert recs[..0] == [];
    for i := 0 to n
      invariant AllKeysPrintable(recs[..i])
      invariant Distributed(buf, frags[..], recs[..i], np)
    {
      var at: nat := i * 100;
      RecordsOfIndex(recsBuf[..n * 100], i);
      assert recs[i] == RecordAt(buf, at);
      assert recs[i] in recs;
      var predicted := PredictPartition(recsBuf, at, np, partitionWidth);
      DistributedSnoc(buf, frags[..], recs[..i], np, at);
      TakeSnoc(recs, i);
      frags[predicted] := frags[predicted] + [at];
    }
    assert recs[..n] == recs;
  }

  /** Each partition's fragment file with the records of recs that fall in that partition appended. */
  function FilesAfter(files: seq<seq<byte>>, recs: seq<Record>, np: int): (r: seq<seq<byte>>)
    requires ValidPartitionCount(np) && |files| == np
    ensures |r| == np
  {
    seq(np, p requires 0 <= p < np => files[p] + Flatten(Select(recs, np, p)))
  }

  /** Each partition's fragment size with the number of records of recs that fall in that partition added. */
  function SizesAfter(sizes: seq<nat>, recs: seq<Record>, np: int): (r: seq<nat>)
    requires ValidPartitionCount(np) && |sizes| == np
    ensures |r| == np
  {
    seq(np, p requires 0 <= p < np => sizes[p] + |Select(recs, np, p)|)
  }

  lemma {:induction false} AppendAssoc(a: seq<byte>, b: seq<byte>, c: seq<byte>)
    ensures (a + b) + c == a + (b + c)
  {
  }

  /** Distributing a, then b, to the fragments distributes a + b. */
  lemma {:induction false} AfterAppend(files: seq<seq<byte>>, sizes: seq<nat>, a: seq<Record>, b: seq<Record>, np: int)
    requires ValidPartitionCount(np) && AllKeysPrintable(a) && AllKeysPrintable(b)
    requires |files| == np && |sizes| == np
    ensures AllKeysPrintable(a + b)
    ensures FilesAfter(FilesAfter(files, a, np), b, np) == FilesAfter(files, a + b, np)
    ensures SizesAfter(SizesAfter(sizes, a, np), b, np) == SizesAfter(sizes, a + b, np)
  {
    SelectAppend(a, b, np, 0);
    forall p | 0 <= p < np
      ensures FilesAfter(FilesAfter(files, a, np), b, np)[p] == FilesAfter(files, a + b, np)[p]
      ensures SizesAfter(SizesAfter(sizes, a, np), b, np)[p] == SizesAfter(sizes, a + b, np)[p]
    {
      SelectAppend(a, b, np, p);
      FlattenAppend(Select(a, np, p), Select(b, np, p));
      AppendAssoc(files[p], Flatten(Select(a, np, p)), Flatten(Select(b, np, p)));
    }
  }

  /** The fragments after [first, next) and then [next, stop) hold what they hold after [first, stop). */
  lemma {:induction false} RowsStep(input: seq<byte>, first: nat, next: nat, stop: nat, np: int,
                 files0: seq<seq<byte>>, files1: seq<seq<byte>>, files2: seq<seq<byte>>,
                 sizes0: seq<nat>, sizes1: seq<nat>, sizes2: seq<nat>)
    requires FileKeysPrintable(input) && ValidPartitionCount(np)
    requires first % 100 == 0 && next % 100 == 0 && stop % 100 == 0
    requires first <= next < stop <= |input|
    requires |files0| == np && |sizes0| == np
    requires AllKeysPrintable(RangeRecords(input, first, next)) && FileKeysPrintable(input[next..stop])
    requires files1 == FilesAfter(files0, RangeRecords(input, first, next), np)
    requires sizes1 == SizesAfter(sizes0, RangeRecords(input, first, next), np)
    requires files2 == FilesAfter(files1, RecordsOf(input[next..stop]), np)
    requires sizes2 == SizesAfter(sizes1, RecordsOf(input[next..stop]), np)
    ensures AllKeysPrintable(RangeRecords(input, first, stop))
    ensures files2 == FilesAfter(files0, RangeRecords(input, first, stop), np)
    ensures sizes2 == SizesAfter(sizes0, RangeRecords(input, first, stop), np)
  {
    RangeRecordsAppend(input, first, next, stop);
    AfterAppend(files0, sizes0, RangeRecords(input, first, next), RecordsOf(input[next..stop]), np);
  }

  /** The `fread` of sort.h:90-91: the n records from byte next of the input land at the start of recsBuf. */
  method LoadBatch(input: seq<byte>, next: nat, n: nat, recsBuf: array<byte>)
    requires FileKeysPrintable(input)
    requires next % 100 == 0 && next + n * 100 <= |input|
    requires n * 100 <= recsBuf.Length
    modifies recsBuf
    ensures FileKeysPrintable(input[next .. next + n * 100])
    ensures recsBuf[..n * 100] == input[next .. next + n * 100]
  {
    var stop := next + n * 100;
    forall j | 0 <= j < n * 100 {
      recsBuf[j] := input[next + j];
    }
    assert recsBuf[..n * 100] == input[next..stop];
    ModDiff(stop, next);
    SliceRecords(input, next, stop);
  }

  /**
   * The partition loop of sort.h:97-109 and `_flush_fragments`
   * (sort.h:111-113) for the batch of n records at the start of recsBuf:
   * each partition's fragment file gains the batch's records of that
   * partition, in batch order, and its size their number.
   */
  method DistributeAndFlush(recsBuf: array<byte>, n: nat, np: int, frags: array<seq<nat>>,
                            fragFiles: array<seq<byte>>, fragSizes: array<nat>, ghost batch: seq<Record>)
    requires ValidPartitionCount(np) && n * 100 <= recsBuf.Length
    requires FileKeysPrintable(recsBuf[..n * 100]) && batch == RecordsOf(recsBuf[..n * 100])
    requires frags.Length == np && forall p :: 0 <= p < np ==> frags[p] == []
    requires np == fragFiles.Length == fragSizes.Length
    modifies frags, fragFiles, fragSizes
    ensures forall p :: 0 <= p < np ==> frags[p] == []
    ensures fragFiles[..] == FilesAfter(old(fragFiles[..]), batch, np)
    ensures fragSizes[..] == SizesAfter(old(fragSizes[..]), batch, np)
  {
    DistributeBatch(recsBuf, n, np, frags);
    ghost var parts := frags[..];
    ghost var buf := recsBuf[..];
    assert Distributed(buf, parts, batch, np);
    FlushFragments(frags, recsBuf, fragFiles, fragSizes, np);
    Flushed(old(fragFiles[..]), fragFiles[..], old(fragSizes[..]), fragSizes[..], buf, parts, batch, np);
  }

  /**
   * One pass of the read loop body (sort.h:86-115) once its read succeeded:
   * the n records from byte next of the input are read into recsBuf,
   * distributed to the fragments, and flushed to the reader's fragment
   * files and sizes.
   */
  method ReadBatch(input: seq<byte>, next: nat, n: nat, np: int,
                   frags: array<seq<nat>>, recsBuf: array<byte>,
                   fragFiles: array<seq<byte>>, fragSizes: array<nat>)
    requires FileKeysPrintable(input) && ValidPartitionCount(np)
    requires next % 100 == 0 && next + n * 100 <= |input|
    requires n * 100 <= recsBuf.Length
    requires frags.Length == np && forall p :: 0 <= p < np ==> frags[p] == []
    requires np == fragFiles.Length == fragSizes.Length
    modifies frags, recsBuf, fragFiles, fragSizes
    ensures FileKeysPrintable(input[next .. next + n * 100])
    ensures forall p :: 0 <= p < np ==> frags[p] == []
    ensures fragFiles[..] == FilesAfter(old(fragFiles[..]), RecordsOf(input[next .. next + n * 100]), np)
    ensures fragSizes[..] == SizesAfter(old(fragSizes[..]), RecordsOf(input[next .. next + n * 100]), np)
  {
    LoadBatch(input, next, n, recsBuf);
    DistributeAndFlush(recsBuf, n, np, frags, fragFiles, fragSizes, RecordsOf(input[next .. next + n * 100]));
  }

  /** Flushing fragments that hold the batch's records partition by partition distributes the batch. */
  lemma {:induction false} Flushed(files0: seq<seq<byte>>, files1: seq<seq<byte>>, sizes0: seq<nat>, sizes1: seq<nat>,
                buf: seq<byte>, parts: seq<seq<nat>>, batch: seq<Record>, np: int)
    requires ValidPartitionCount(np) && AllKeysPrintable(batch) && Distributed(buf, parts, batch, np)
    requires |files0| == |files1| == |sizes0| == |sizes1| == np
    requires forall p :: 0 <= p < np ==>
      files1[p] == files0[p] + Flatten(Gather(buf, parts[p])) && sizes1[p] == sizes0[p] + |parts[p]|
    ensures files1 == FilesAfter(files0, batch, np) && sizes1 == SizesAfter(sizes0, batch, np)
  {
    forall p | 0 <= p < np
      ensures files1[p] == FilesAfter(files0, batch, np)[p] && sizes1[p] == SizesAfter(sizes0, batch, np)[p]
    {
      assert |Gather(buf, parts[p])| == |parts[p]|;
    }
  }

  /**
   * One reader thread (sort.h:67-116) over bytes [first, last) of the
   * input: batches of at most READ_BATCH_RECS records are read, distributed
   * and flushed to the reader's fragment files and sizes. A short read,
   * which ends the program in the source, returns ok = false; it happens
   * exactly when the range is non-empty and runs past the end of the input.
   */
  method ReadRange(input: seq<byte>, first: nat, last: nat, np: int,
                   fragFiles: array<seq<byte>>, fragSizes: array<nat>)
    returns (ok: bool)
    requires FileKeysPrintable(input) && ValidPartitionCount(np)
    requires first % 100 == 0 && last % 100 == 0
    requires np == fragFiles.Length == fragSizes.Length
    modifies fragFiles, fragSizes
    ensures ok <==> last <= first || last <= |input|
    ensures ok ==> AllKeysPrintable(RangeRecords(input, first, last))
    ensures ok ==> fragFiles[..] == FilesAfter(old(fragFiles[..]), RangeRecords(input, first, last), np)
    ensures ok ==> fragSizes[..] == SizesAfter(old(fragSizes[..]), RangeRecords(input, first, last), np)
  {
    var frags := new seq<nat>[np](_ => []);
    var recsBuf := new byte[READ_BATCH_RECS * 100](_ => 0);
    var next := first;
    ghost var files0, sizes0 := fragFiles[..], fragSizes[..];
    RangePrintable(input, first, next);
    AfterNothing(files0, sizes0, np);
    while next < last
      invariant first <= next && next % 100 == 0
      invariant next > first ==> next <= last && next <= |input|
      invariant AllKeysPrintable(RangeRecords(input, first, next))
      invariant forall p :: 0 <= p < np ==> frags[p] == []
      invariant fragFiles[..] == FilesAfter(files0, RangeRecords(input, first, next), np)
      invariant fragSizes[..] == SizesAfter(sizes0, RangeRecords(input, first, next), np)
      decreases last - next
    {
      var remainingRecs := (last - next) / 100;
      var numRecsToRead := Min(READ_BATCH_RECS, remainingRecs);
      ModDiff(last, next);
      if |input| < next + numRecsToRead * 100 {
        return false;
      }
      var stop := next + numRecsToRead * 100;
      ghost var files, sizes := fragFiles[..], fragSizes[..];
      ReadBatch(input, next, numRecsToRead, np, frags, recsBuf, fragFiles, fragSizes);
      RowsStep(input, first, next, stop, np, files0, files, fragFiles[..], sizes0, sizes, fragSizes[..]);
      next := stop;
    }
    ok := true;
  }

  /** No records leave the fragments as they were. */
  lemma {:induction false} AfterNothing(files: seq<seq<byte>>, sizes: seq<nat>, np: int)
    requires ValidPartitionCount(np) && |files| == np && |sizes| == np
    ensures FilesAfter(files, [], np) == files && SizesAfter(sizes, [], np) == sizes
  {
    forall p | 0 <= p < np
      ensures FilesAfter(files, [], np)[p] == files[p] && SizesAfter(sizes, [], np)[p] == sizes[p]
    {
      assert Select([], np, p) == [];
      assert files[p] + [] == files[p];
    }
  }

  /** np empty fragment files. */
  function NoFiles(np: nat): (files: seq<seq<byte>>)
    ensures |files| == np
  {
    seq(np, _ => [])
  }

  /** np zero fragment sizes. */
  function NoSizes(np: nat): (sizes: seq<nat>)
    ensures |sizes| == np
  {
    seq(np, _ => 0)
  }

  /** Reader r's fragment files and sizes hold, per partition, the records of its range that fall in it. */
  predicate ReaderRow(input: seq<byte>, numReaders: nat, np: int, r: nat, files: seq<seq<byte>>, sizes: seq<nat>)
    requires FileKeysPrintable(input) && ValidPartitionCount(np) && numReaders >= 1 && r < numReaders
  {
    ReaderPrintable(input, numReaders, r);
    files == FilesAfter(NoFiles(np), ReaderRecords(input, numReaders, r), np) &&
    sizes == SizesAfter(NoSizes(np), ReaderRecords(input, numReaders, r), np)
  }

  /** A table of numRows rows of numCols entries each, every row an array of its own. */
  predicate Table<T>(t: seq<seq<T>>, numRows: nat, numCols: nat)
  {
    |t| == numRows && forall r :: 0 <= r < numRows ==> |t[r]| == numCols
  }

  /**
   * The allocation loop of sort.h:57-64 for numReaders readers: per reader,
   * a row of np fragment files, all empty, and a row of np fragment sizes,
   * all zero. Every row is an array of its own.
   */
  method AllocateRows(numReaders: nat, np: nat)
    returns (fileRows: seq<array<seq<byte>>>, sizeRows: seq<array<nat>>)
    ensures |fileRows| == |sizeRows| == numReaders
    ensures forall r :: 0 <= r < numReaders ==>
      fresh(fileRows[r]) && fresh(sizeRows[r]) && fileRows[r].Length == np && sizeRows[r].Length == np &&
      fileRows[r][..] == NoFiles(np) && sizeRows[r][..] == NoSizes(np)
    ensures forall r, s :: 0 <= r < s < numReaders ==> fileRows[r] != fileRows[s] && sizeRows[r] != sizeRows[s]
  {
    fileRows, sizeRows := [], [];
    for i := 0 to numReaders
      invariant |fileRows| == |sizeRows| == i
      invariant forall r :: 0 <= r < i ==>
        fresh(fileRows[r]) && fresh(sizeRows[r]) && fileRows[r].Length == np && sizeRows[r].Length == np &&
        fileRows[r][..] == NoFiles(np) && sizeRows[r][..] == NoSizes(np)
      invariant forall r, s :: 0 <= r < s < i ==> fileRows[r] != fileRows[s] && sizeRows[r] != sizeRows[s]
    {
      var files := new seq<byte>[np](_ => []);
      var sizes := new nat[np](_ => 0);
      assert files[..] == NoFiles(np) && sizes[..] == NoSizes(np);
      fileRows := fileRows + [files];
      sizeRows := sizeRows + [sizes];
    }
  }

  /**
   * Reader thread readerIdx of sort.h:67-116: its byte range as sort.h:68-73
   * computes it, read by ReadRange into its own, still empty, rows. The read
   * never comes up short, because the ranges tile the input.
   */
  method ReaderThread(input: seq<byte>, numReaders: nat, np: int, readerIdx: nat,
                      fragFiles: array<seq<byte>>, fragSizes: array<nat>)
    requires FileKeysPrintable(input) && numReaders >= 1 && readerIdx < numReaders && ValidPartitionCount(np)
    requires fragFiles.Length == fragSizes.Length == np
    requires fragFiles[..] == NoFiles(np) && fragSizes[..] == NoSizes(np)
    modifies fragFiles, fragSizes
    ensures ReaderRow(input, numReaders, np, readerIdx, fragFiles[..], fragSizes[..])
  {
    var numRecs := |input| / 100;
    var avgBytesPerReader := (numRecs / numReaders) * 100;
    var nextByteToRead := readerIdx * avgBytesPerReader;
    var lastByteToRead := nextByteToRead + avgBytesPerReader;
    if readerIdx == numReaders - 1 {
      lastByteToRead := |input|;
    }
    assert nextByteToRead == ReaderFirst(readerIdx, numRecs, numReaders);
    assert lastByteToRead == ReaderLast(readerIdx, numRecs, numReaders, |input|);
    ReaderRange(input, numReaders, readerIdx);
    var ok := ReadRange(input, nextByteToRead, lastByteToRead, np, fragFiles, fragSizes);
    assert ok;
    ReaderPrintable(input, numReaders, readerIdx);
  }

  /**
   * The read phase (sort.h:56-119): fresh rows for every reader, then every
   * reader thread, one after the other, each writing only its own rows.
   * The filled rows, which the rest of the sort only reads, are returned
   * as values: row r of each table is reader r's.
   */
  method ReadPhase(input: seq<byte>, numReaders: nat, np: int)
    returns (fragFiles: seq<seq<seq<byte>>>, fragSizes: seq<seq<nat>>)
    requires FileKeysPrintable(input) && numReaders >= 1 && ValidPartitionCount(np)
    ensures Table(fragFiles, numReaders, np) && Table(fragSizes, numReaders, np)
    ensures forall r :: 0 <= r < numReaders ==>
      ReaderRow(input, numReaders, np, r, fragFiles[r], fragSizes[r])
  {
    var fileRows, sizeRows := AllocateRows(numReaders, np);
    for readerIdx := 0 to numReaders
      invariant forall r :: 0 <= r < numReaders ==>
        fresh(fileRows[r]) && fresh(sizeRows[r]) && fileRows[r].Length == np && sizeRows[r].Length == np
      invariant forall r :: 0 <= r < readerIdx ==> ReaderRow(input, numReaders, np, r, fileRows[r][..], sizeRows[r][..])
      invariant forall r :: readerIdx <= r < numReaders ==>
        fileRows[r][..] == NoFiles(np) && sizeRows[r][..] == NoSizes(np)
    {
      label beforeRead:
      ReaderThread(input, numReaders, np, readerIdx, fileRows[readerIdx], sizeRows[readerIdx]);
      forall r | 0 <= r < numReaders && r != readerIdx
        ensures fileRows[r][..] == old@beforeRead(fileRows[r][..]) && sizeRows[r][..] == old@beforeRead(sizeRows[r][..])
      {
        assert fileRows[r] != fileRows[readerIdx] && sizeRows[r] != sizeRows[readerIdx];
      }
    }
    fragFiles := seq(numReaders, r requires 0 <= r < numReaders reads fileRows => fileRows[r][..]);
    fragSizes := seq(numReaders, r requires 0 <= r < numReaders reads sizeRows => sizeRows[r][..]);
  }

  // ------------------------------------------------------------------
  // Partition sizes and write offsets (sort.h:133-146)
  // ------------------------------------------------------------------

  /** Every row of the first m rows of the table has a column p. */
  predicate HasColumn<T>(t: seq<seq<T>>, p: nat, m: nat)
  {
    m <= |t| && forall r :: 0 <= r < m ==> p < |t[r]|
  }

  /** Entry p of each of the first m rows, in row order. */
  function Column<T>(t: seq<seq<T>>, p: nat, m: nat): (col: seq<T>)
    requires HasColumn(t, p, m)
    ensures |col| == m && forall r :: 0 <= r < m ==> col[r] == t[r][p]
  {
    if m == 0 then [] else Column(t, p, m - 1) + [t[m - 1][p]]
  }

  /**
   * `total_partition_sizes` (sort.h:133-139): partition p's total is the sum
   * of its fragment sizes over the readers.
   */
  method AggregateSizes(fragSizes: seq<seq<nat>>, numReaders: nat, np: nat) returns (totals: seq<nat>)
    requires Table(fragSizes, numReaders, np)
    ensures |totals| == np
    ensures forall p :: 0 <= p < np ==>
      HasColumn(fragSizes, p, numReaders) && totals[p] == PrefixSum(Column(fragSizes, p, numReaders), numReaders)
  {
    var sizes := new nat[np](_ => 0);
    for partitionIdx := 0 to np
      invariant forall p :: 0 <= p < partitionIdx ==> sizes[p] == PrefixSum(Column(fragSizes, p, numReaders), numReaders)
      invariant forall p :: partitionIdx <= p < np ==> sizes[p] == 0
    {
      ghost var col := Column(fragSizes, partitionIdx, numReaders);
      for readerIdx := 0 to numReaders
        invariant sizes[partitionIdx] == PrefixSum(col, readerIdx)
        invariant forall p :: 0 <= p < partitionIdx ==> sizes[p] == PrefixSum(Column(fragSizes, p, numReaders), numReaders)
        invariant forall p :: partitionIdx < p < np ==> sizes[p] == 0
      {
        sizes[partitionIdx] := sizes[partitionIdx] + fragSizes[readerIdx][partitionIdx];
      }
    }
    totals := sizes[..];
  }

  /**
   * `partition_write_offsets` (sort.h:141-146): partition i's records are
   * written from byte 100 * (the number of records in partitions
   * 0 .. i - 1).
   */
  method ComputeOffsets(sizes: seq<nat>) returns (offsets: seq<nat>)
    requires |sizes| >= 1
    ensures |offsets| == |sizes|
    ensures forall i :: 0 <= i < |sizes| ==> offsets[i] == PrefixSum(sizes, i) * 100
  {
    var writeOffsets := new nat[|sizes|](_ => 0);
    writeOffsets[0] := 0;
    for i := 1 to |sizes|
      invariant forall k {:trigger writeOffsets[k]} :: 0 <= k < i ==> writeOffsets[k] == PrefixSum(sizes, k) * 100
    {
      assert PrefixSum(sizes, i) * 100 == PrefixSum(sizes, i - 1) * 100 + sizes[i - 1] * 100;
      writeOffsets[i] := writeOffsets[i - 1] + sizes[i - 1] * 100;
    }
    offsets := writeOffsets[..];
  }

  // ------------------------------------------------------------------
  // Sort phase (sort.h:148-199)
  // ------------------------------------------------------------------

  /** The first m files, one after the other. */
  function Concat(files: seq<seq<byte>>, m: nat): seq<byte>
    requires m <= |files|
  {
    if m == 0 then [] else Concat(files, m - 1) + files[m - 1]
  }

  /** A fragment file holds whole records with printable keys, as many as its size says. */
  predicate WellFormedFragment(file: seq<byte>, size: nat)
  {
    FileKeysPrintable(file) && |file| == size * 100
  }

  /** Each of the first m files is a well-formed fragment of the size beside it. */
  predicate WellFormedColumn(files: seq<seq<byte>>, sizes: seq<nat>, m: nat)
  {
    m <= |files| && m <= |sizes| && forall r :: 0 <= r < m ==> WellFormedFragment(files[r], sizes[r])
  }

  /** The fragment files of a partition, together, hold as many records as its fragment sizes add up to. */
  lemma {:induction false} ColumnFacts(files: seq<seq<byte>>, sizes: seq<nat>, m: nat)
    requires WellFormedColumn(files, sizes, m)
    ensures WellFormedFragment(Concat(files, m), PrefixSum(sizes, m))
  {
    if m > 0 {
      ColumnFacts(files, sizes, m - 1);
      RecordsOfAppend(Concat(files, m - 1), files[m - 1]);
    }
  }

  /** The embeddings of more records, laid out after done, extend the embeddings of done. */
  lemma {:induction false} EmbeddedExtend(es: seq<EmbeddingValue>, done: seq<Record>, more: seq<Record>, writeHead: nat, n: nat)
    requires AllKeysPrintable(done) && AllKeysPrintable(more)
    requires |done| == writeHead && |more| == n && writeHead + n <= |es|
    requires es[..writeHead] == Embedded(done)
    requires forall i :: 0 <= i < n ==>
      KeyPrintable(more[i]) &&
      es[writeHead + i] == EmbeddingValue(writeHead * 100 + i * 100, EncodedKey(more[i]))
    ensures AllKeysPrintable(done + more)
    ensures es[..writeHead + n] == Embedded(done + more)
  {
    var all := done + more;
    assert forall rec | rec in all :: rec in done || rec in more;
    forall i | 0 <= i < writeHead + n
      ensures es[i] == Embedded(all)[i]
    {
      if i < writeHead {
        assert es[i] == es[..writeHead][i];
        assert all[i] == done[i];
      } else {
        assert all[i] == more[i - writeHead];
      }
    }
  }

  /**
   * The first writeHead records gathered so far, `done`, fill the record
   * buffer's first writeHead slots, and the embedding array's first
   * writeHead entries embed them.
   */
  predicate Gathered(es: seq<EmbeddingValue>, buf: seq<byte>, done: seq<byte>, writeHead: nat)
  {
    WellFormedFragment(done, writeHead) &&
    writeHead <= |es| && writeHead * 100 <= |buf| &&
    buf[..writeHead * 100] == done &&
    es[..writeHead] == Embedded(RecordsOf(done))
  }

  /**
   * One pass of the gather loop (sort.h:158-167): a fragment file read
   * behind the writeHead records already gathered.
   */
  method GatherFragment(file: seq<byte>, size: nat, contents: array<EmbeddingValue>, recBuf: array<byte>,
                        writeHead: nat, ghost done: seq<byte>)
    requires WellFormedFragment(file, size)
    requires writeHead + size <= contents.Length
    requires (writeHead + size) * 100 <= recBuf.Length
    requires Gathered(contents[..], recBuf[..], done, writeHead)
    modifies contents, recBuf
    ensures Gathered(contents[..], recBuf[..], done + file, writeHead + size)
  {
    ghost var before := contents[..];
    ghost var bufBefore := recBuf[..];
    var ok, numRecsRead := ReadRecordsIntoEmbeddings(file, size, contents, writeHead, recBuf, writeHead * 100);
    assert contents[..writeHead] == before[..writeHead];
    EmbeddedExtend(contents[..], RecordsOf(done), RecordsOf(file), writeHead, numRecsRead);
    RecordsOfAppend(done, file);
    assert recBuf[..writeHead * 100] == bufBefore[..writeHead * 100];
    assert recBuf[..(writeHead + size) * 100] ==
      recBuf[..writeHead * 100] + recBuf[writeHead * 100 .. writeHead * 100 + size * 100];
    assert contents[..][..writeHead + size] == contents[..writeHead + size];
    assert recBuf[..][..(writeHead + size) * 100] == recBuf[..(writeHead + size) * 100];
  }

  /**
   * The reader loop of sort.h:156-168 over partition p's column of the
   * fragment tables: the fragment files, reader by reader, are read one
   * after the other into the record buffer, and the embedding array
   * receives, for each record, its position in that buffer and its
   * converted key.
   */
  method GatherFragments(files: seq<seq<byte>>, sizes: seq<nat>, numReaders: nat,
                         contents: array<EmbeddingValue>, recBuf: array<byte>)
    requires WellFormedColumn(files, sizes, numReaders)
    requires contents.Length == PrefixSum(sizes, numReaders)
    requires recBuf.Length == contents.Length * 100
    modifies contents, recBuf
    ensures Gathered(contents[..], recBuf[..], Concat(files, numReaders), contents.Length)
  {
    var writeHead := 0;
    assert Gathered(contents[..], recBuf[..], Concat(files, 0), writeHead);
    for readerIdx := 0 to numReaders
      invariant writeHead == PrefixSum(sizes, readerIdx)
      invariant Gathered(contents[..], recBuf[..], Concat(files, readerIdx), writeHead)
    {
      writeHead := GatherStep(files, sizes, numReaders, readerIdx, contents, recBuf, writeHead);
    }
  }

  /** Pass readerIdx of the reader loop of sort.h:156-168: reader readerIdx's fragment file joins the gathered records. */
  method GatherStep(files: seq<seq<byte>>, sizes: seq<nat>, numReaders: nat, readerIdx: nat,
                    contents: array<EmbeddingValue>, recBuf: array<byte>, writeHead: nat)
    returns (newWriteHead: nat)
    requires WellFormedColumn(files, sizes, numReaders) && readerIdx < numReaders
    requires contents.Length == PrefixSum(sizes, numReaders)
    requires recBuf.Length == contents.Length * 100
    requires writeHead == PrefixSum(sizes, readerIdx)
    requires Gathered(contents[..], recBuf[..], Concat(files, readerIdx), writeHead)
    modifies contents, recBuf
    ensures newWriteHead == PrefixSum(sizes, readerIdx + 1)
    ensures Gathered(contents[..], recBuf[..], Concat(files, readerIdx + 1), newWriteHead)
  {
    PrefixSumMonotone(sizes, readerIdx + 1, numReaders);
    var file, size := files[readerIdx], sizes[readerIdx];
    MulMonotone(writeHead + size, contents.Length, 100);
    GatherFragment(file, size, contents, recBuf, writeHead, Concat(files, readerIdx));
    newWriteHead := writeHead + size;
  }

  /**
   * The gather step of sort.h:150-168 for a partition of partitionSize
   * records: fresh embedding and record buffers, filled from the
   * partition's fragment files.
   */
  method GatherPartition(files: seq<seq<byte>>, sizes: seq<nat>, numReaders: nat, partitionSize: nat)
    returns (contents: array<EmbeddingValue>, recBuf: array<byte>)
    requires WellFormedColumn(files, sizes, numReaders)
    requires partitionSize == PrefixSum(sizes, numReaders)
    ensures fresh(contents) && fresh(recBuf)
    ensures contents.Length == partitionSize
    ensures recBuf[..] == Concat(files, numReaders)
    ensures FileKeysPrintable(recBuf[..])
    ensures contents[..] == Embedded(RecordsOf(recBuf[..]))
  {
    contents := new EmbeddingValue[partitionSize](_ => EMPTY_EMBEDDING);
    recBuf := new byte[partitionSize * 100](_ => 0);
    GatherFragments(files, sizes, numReaders, contents, recBuf);
    assert contents[..] == contents[..][..partitionSize];
    assert recBuf[..] == recBuf[..][..partitionSize * 100];
  }

  /** `memcpy` of one record from byte from of src to byte at of dst. */
  method CopyRecord(dst: array<byte>, at: nat, src: array<byte>, from: nat)
    requires at + 100 <= dst.Length && from + 100 <= src.Length && dst != src
    modifies dst
    ensures dst[..at] == old(dst[..at])
    ensures dst[at .. at + 100] == src[from .. from + 100]
    ensures dst[at + 100 ..] == old(dst[at + 100 ..])
  {
    forall j | 0 <= j < 100 {
      dst[at + j] := src[from + j];
    }
  }

  /** The record copied right after the first at bytes of dst extends them by that record. */
  method AppendRecord(dst: array<byte>, at: nat, src: array<byte>, from: nat, ghost prefix: seq<byte>)
    requires at + 100 <= dst.Length && from + 100 <= src.Length && dst != src
    requires dst[..at] == prefix
    modifies dst
    ensures dst[..at + 100] == prefix + src[from .. from + 100]
  {
    CopyRecord(dst, at, src, from);
    assert dst[..at + 100] == dst[..at] + dst[at .. at + 100];
  }

  /**
   * The coalescing loop of sort.h:185-189: the n records that embeddings
   * from .. from + n - 1 point to are copied, in that order, to the start of
   * the batch buffer.
   */
  method Coalesce(contents: array<EmbeddingValue>, recBuf: array<byte>, from: nat, n: nat,
                  sortedBufBatch: array<byte>)
    requires RecordsInBuffer(recBuf[..], contents[..])
    requires from + n <= contents.Length && n * 100 <= sortedBufBatch.Length
    requires sortedBufBatch != recBuf
    modifies sortedBufBatch
    ensures sortedBufBatch[..n * 100] == Flatten(Deref(recBuf[..], contents[..])[from .. from + n])
  {
    ghost var buf, es := recBuf[..], contents[..];
    ghost var block := Deref(buf, es);
    ghost var done: seq<byte> := [];
    for recIdx := 0 to n
      invariant recBuf[..] == buf
      invariant sortedBufBatch[..recIdx * 100] == done
      invariant done == Flatten(block[from .. from + recIdx])
    {
      var src := contents[from + recIdx].record;
      assert es[from + recIdx] == contents[from + recIdx];
      DerefAt(buf, es, from + recIdx);
      ghost var rec := buf[src .. src + 100];
      assert block[from + recIdx] == rec;
      AppendRecord(sortedBufBatch, recIdx * 100, recBuf, src, done);
      FlattenSliceSnoc(block, from, recIdx);
      done := done + rec;
    }
  }

  /** A run of the block one record longer flattens to one more record. */
  lemma {:induction false} FlattenSliceSnoc(block: seq<Record>, from: nat, k: nat)
    requires from + k < |block|
    ensures Flatten(block[from .. from + (k + 1)]) == Flatten(block[from .. from + k]) + block[from + k]
  {
    assert block[from .. from + k + 1] == block[from .. from + k] + [block[from + k]];
    FlattenSnoc(block[from .. from + k], block[from + k]);
  }

  /**
   * The output's first writeHead records of the slot from writeOffset hold
   * the block's first writeHead records, and every other byte is as it was.
   */
  predicate SlotWritten(out: seq<byte>, original: seq<byte>, writeOffset: nat, block: seq<Record>, writeHead: nat)
  {
    writeHead <= |block| && writeOffset + |block| * 100 <= |out| == |original| &&
    out[..writeOffset] == original[..writeOffset] &&
    out[writeOffset .. writeOffset + writeHead * 100] == Flatten(block[..writeHead]) &&
    out[writeOffset + writeHead * 100 ..] == original[writeOffset + writeHead * 100 ..]
  }

  /** One more batch of the block, written right after the part of the slot already written. */
  lemma {:induction false} WrittenStep(before: seq<byte>, after: seq<byte>, original: seq<byte>, writeOffset: nat,
                    block: seq<Record>, writeHead: nat, n: nat)
    requires SlotWritten(before, original, writeOffset, block, writeHead) && writeHead + n <= |block|
    requires |after| == |before|
    requires var at := writeOffset + writeHead * 100;
      after[..at] == before[..at] &&
      after[at .. at + n * 100] == Flatten(block[writeHead .. writeHead + n]) &&
      after[at + n * 100 ..] == before[at + n * 100 ..]
    ensures SlotWritten(after, original, writeOffset, block, writeHead + n)
  {
    var at := writeOffset + writeHead * 100;
    var end := at + n * 100;
    assert block[..writeHead + n] == block[..writeHead] + block[writeHead .. writeHead + n];
    FlattenAppend(block[..writeHead], block[writeHead .. writeHead + n]);
    assert after[..writeOffset] == after[..at][..writeOffset];
    assert before[..writeOffset] == before[..at][..writeOffset];
    assert after[writeOffset .. at] == after[..at][writeOffset..];
    assert before[writeOffset .. at] == before[..at][writeOffset..];
    assert after[writeOffset .. end] == after[writeOffset .. at] + after[at .. end];
    assert before[end..] == before[at..][n * 100..];
    assert original[end..] == original[at..][n * 100..];
  }

  /**
   * `fwrite_unlocked` of the batch's first n records (sort.h:190-191) at
   * the output position reached so far: the batch holds the block's next n
   * records, so afterwards the slot holds n more records of the block.
   */
  method WriteBatch(output: array<byte>, writeOffset: nat, writeHead: nat, sortedBufBatch: array<byte>, n: nat,
                    ghost original: seq<byte>, ghost block: seq<Record>)
    requires SlotWritten(output[..], original, writeOffset, block, writeHead) && writeHead + n <= |block|
    requires n * 100 <= sortedBufBatch.Length && output != sortedBufBatch
    requires sortedBufBatch[..n * 100] == Flatten(block[writeHead .. writeHead + n])
    modifies output
    ensures SlotWritten(output[..], original, writeOffset, block, writeHead + n)
  {
    ghost var before := output[..];
    var at := writeOffset + writeHead * 100;
    MulMonotone(writeHead + n, |block|, 100);
    forall j | 0 <= j < n * 100 {
      output[at + j] := sortedBufBatch[j];
    }
    assert output[at .. at + n * 100] == sortedBufBatch[..n * 100];
    WrittenStep(before, output[..], original, writeOffset, block, writeHead, n);
  }

  /**
   * One pass of the write loop of sort.h:180-192: the next n records of the
   * block, in embedding order, go through the batch buffer to the output.
   */
  method WriteStep(contents: array<EmbeddingValue>, recBuf: array<byte>, output: array<byte>, writeOffset: nat,
                   sortedBufBatch: array<byte>, writeHead: nat, n: nat, ghost original: seq<byte>, ghost block: seq<Record>)
    requires RecordsInBuffer(recBuf[..], contents[..]) && block == Deref(recBuf[..], contents[..])
    requires writeHead + n <= contents.Length && n * 100 <= sortedBufBatch.Length
    requires sortedBufBatch != recBuf && output != sortedBufBatch && output != recBuf
    requires SlotWritten(output[..], original, writeOffset, block, writeHead)
    modifies output, sortedBufBatch
    ensures SlotWritten(output[..], original, writeOffset, block, writeHead + n)
  {
    Coalesce(contents, recBuf, writeHead, n, sortedBufBatch);
    WriteBatch(output, writeOffset, writeHead, sortedBufBatch, n, original, block);
  }

  /**
   * The write loop of sort.h:176-193: batches of at most WRITE_BATCH_SZ
   * records are coalesced, in embedding order, from the record buffer into
   * a batch buffer and written to the output from writeOffset on. The
   * bytes outside the partition's slot stay as they were.
   */
  method WritePartition(contents: array<EmbeddingValue>, partitionSize: nat, recBuf: array<byte>,
                        output: array<byte>, writeOffset: nat, ghost block: seq<Record>)
    requires contents.Length == partitionSize
    requires RecordsInBuffer(recBuf[..], contents[..]) && block == Deref(recBuf[..], contents[..])
    requires writeOffset + partitionSize * 100 <= output.Length
    requires output != recBuf
    modifies output
    ensures output[..writeOffset] == old(output[..writeOffset])
    ensures output[writeOffset .. writeOffset + partitionSize * 100] == Flatten(block)
    ensures output[writeOffset + partitionSize * 100 ..] ==
      old(output[writeOffset + partitionSize * 100 ..])
  {
    ghost var original := output[..];
    var sortedBufBatch := new byte[WRITE_BATCH_SZ * 100](_ => 0);
    var writeHead := 0;
    assert SlotWritten(output[..], original, writeOffset, block, writeHead);
    while writeHead < partitionSize
      invariant writeHead <= partitionSize
      invariant SlotWritten(output[..], original, writeOffset, block, writeHead)
    {
      var numRecsToWrite := Min(WRITE_BATCH_SZ, partitionSize - writeHead);
      WriteStep(contents, recBuf, output, writeOffset, sortedBufBatch, writeHead, numRecsToWrite, original, block);
      writeHead := writeHead + numRecsToWrite;
    }
    assert block[..writeHead] == block;
  }

  // ------------------------------------------------------------------
  // From the readers' rows to the partitions' columns
  // ------------------------------------------------------------------

  /** The records of readers 0 .. m - 1 have printable keys. */
  lemma {:induction false} ReadersPrintable(input: seq<byte>, numReaders: nat, m: nat)
    requires numReaders >= 1 && m <= numReaders && FileKeysPrintable(input)
    ensures AllKeysPrintable(ReadersRecords(input, numReaders, m))
  {
    if m > 0 {
      ReadersPrintable(input, numReaders, m - 1);
      ReaderPrintable(input, numReaders, m - 1);
      var a, b := ReadersRecords(input, numReaders, m - 1), ReaderRecords(input, numReaders, m - 1);
      ReadersRecordsStep(input, numReaders, m);
      assert forall rec | rec in a + b :: rec in a || rec in b;
    }
  }

  /** Reader r's fragment of partition p: the records of its range that fall in p, in file order. */
  function ReaderFragment(input: seq<byte>, numReaders: nat, np: int, r: nat, p: int): seq<Record>
    requires FileKeysPrintable(input) && ValidPartitionCount(np) && numReaders >= 1 && r < numReaders
  {
    ReaderPrintable(input, numReaders, r);
    Select(ReaderRecords(input, numReaders, r), np, p)
  }

  /**
   * Column p of the fragment tables holds, reader by reader, each reader's
   * fragment of partition p. Then the fragments are well formed, and
   * together hold partition p's records of readers 0 .. m - 1 in file order.
   */
  lemma {:induction false} ColumnHoldsPartition(input: seq<byte>, numReaders: nat, np: int, p: nat,
                                                files: seq<seq<byte>>, sizes: seq<nat>, m: nat)
    requires FileKeysPrintable(input) && ValidPartitionCount(np) && numReaders >= 1 && m <= numReaders
    requires m <= |files| && m <= |sizes|
    requires forall r :: 0 <= r < m ==>
      files[r] == Flatten(ReaderFragment(input, numReaders, np, r, p)) &&
      sizes[r] == |ReaderFragment(input, numReaders, np, r, p)|
    ensures AllKeysPrintable(ReadersRecords(input, numReaders, m))
    ensures WellFormedColumn(files, sizes, m)
    ensures Concat(files, m) == Flatten(Select(ReadersRecords(input, numReaders, m), np, p))
    ensures PrefixSum(sizes, m) == |Select(ReadersRecords(input, numReaders, m), np, p)|
  {
    ReadersPrintable(input, numReaders, m);
    forall r | 0 <= r < m ensures WellFormedFragment(files[r], sizes[r]) {
      FragmentWellFormed(input, numReaders, np, r, p);
    }
    ColumnConcat(input, numReaders, np, p, files, m);
    ColumnSizes(input, numReaders, np, p, sizes, m);
  }

  /** A reader's fragment, written out, is a well-formed fragment of the fragment's size. */
  lemma {:induction false} FragmentWellFormed(input: seq<byte>, numReaders: nat, np: int, r: nat, p: nat)
    requires FileKeysPrintable(input) && ValidPartitionCount(np) && numReaders >= 1 && r < numReaders
    ensures WellFormedFragment(Flatten(ReaderFragment(input, numReaders, np, r, p)), |ReaderFragment(input, numReaders, np, r, p)|)
  {
    ReaderPrintable(input, numReaders, r);
    SelectPrintable(ReaderRecords(input, numReaders, r), np, p);
    RecordsOfFlatten(ReaderFragment(input, numReaders, np, r, p));
  }

  /** The first m fragment files of a column, one after the other, hold partition p's records of readers 0 .. m - 1. */
  lemma {:induction false} ColumnConcat(input: seq<byte>, numReaders: nat, np: int, p: nat, files: seq<seq<byte>>, m: nat)
    requires FileKeysPrintable(input) && ValidPartitionCount(np) && numReaders >= 1 && m <= numReaders && m <= |files|
    requires forall r :: 0 <= r < m ==> files[r] == Flatten(ReaderFragment(input, numReaders, np, r, p))
    ensures AllKeysPrintable(ReadersRecords(input, numReaders, m))
    ensures Concat(files, m) == Flatten(Select(ReadersRecords(input, numReaders, m), np, p))
  {
    var parts := ReaderParts(input, numReaders);
    forall r | 0 <= r < m
      ensures AllKeysPrintable(parts[r]) && files[r] == Flatten(Select(parts[r], np, p))
    {
      ReaderPrintable(input, numReaders, r);
    }
    PartsConcat(files, parts, np, p, m);
  }

  /**
   * Files each holding one record sequence's share of partition p hold,
   * one after the other, partition p's share of the sequences joined.
   */
  lemma {:induction false} PartsConcat(files: seq<seq<byte>>, parts: seq<seq<Record>>, np: int, p: nat, m: nat)
    requires ValidPartitionCount(np) && m <= |files| && m <= |parts|
    requires forall r :: 0 <= r < m ==> AllKeysPrintable(parts[r]) && files[r] == Flatten(Select(parts[r], np, p))
    ensures AllKeysPrintable(Joined(parts, m))
    ensures Concat(files, m) == Flatten(Select(Joined(parts, m), np, p))
  {
    if m > 0 {
      PartsConcat(files, parts, np, p, m - 1);
      var a, b := Joined(parts, m - 1), parts[m - 1];
      assert forall rec | rec in a + b :: rec in a || rec in b;
      ConcatSelectStep(files, m, a, b, Joined(parts, m), np, p);
    }
  }

  /** One more file holding the next records' share of a partition extends the share of the records so far. */
  lemma {:induction false} ConcatSelectStep(files: seq<seq<byte>>, m: nat, a: seq<Record>, b: seq<Record>, whole: seq<Record>,
                                            np: int, p: nat)
    requires ValidPartitionCount(np) && AllKeysPrintable(a) && AllKeysPrintable(b)
    requires 0 < m <= |files| && whole == a + b
    requires Concat(files, m - 1) == Flatten(Select(a, np, p)) && files[m - 1] == Flatten(Select(b, np, p))
    ensures Concat(files, m) == Flatten(Select(whole, np, p))
  {
    SelectAppend(a, b, np, p);
    FlattenAppend(Select(a, np, p), Select(b, np, p));
  }

  /** The first m fragment sizes of a column add up to the size of partition p's share of readers 0 .. m - 1. */
  lemma {:induction false} ColumnSizes(input: seq<byte>, numReaders: nat, np: int, p: nat, sizes: seq<nat>, m: nat)
    requires FileKeysPrintable(input) && ValidPartitionCount(np) && numReaders >= 1 && m <= numReaders && m <= |sizes|
    requires forall r :: 0 <= r < m ==> sizes[r] == |ReaderFragment(input, numReaders, np, r, p)|
    ensures AllKeysPrintable(ReadersRecords(input, numReaders, m))
    ensures PrefixSum(sizes, m) == |Select(ReadersRecords(input, numReaders, m), np, p)|
  {
    var parts := ReaderParts(input, numReaders);
    forall r | 0 <= r < m
      ensures AllKeysPrintable(parts[r]) && sizes[r] == |Select(parts[r], np, p)|
    {
      ReaderPrintable(input, numReaders, r);
    }
    PartsSizes(sizes, parts, np, p, m);
  }

  /** Sizes of record sequences' shares of partition p add up to the share of the sequences joined. */
  lemma {:induction false} PartsSizes(sizes: seq<nat>, parts: seq<seq<Record>>, np: int, p: nat, m: nat)
    requires ValidPartitionCount(np) && m <= |sizes| && m <= |parts|
    requires forall r :: 0 <= r < m ==> AllKeysPrintable(parts[r]) && sizes[r] == |Select(parts[r], np, p)|
    ensures AllKeysPrintable(Joined(parts, m))
    ensures PrefixSum(sizes, m) == |Select(Joined(parts, m), np, p)|
  {
    if m > 0 {
      PartsSizes(sizes, parts, np, p, m - 1);
      var a, b := Joined(parts, m - 1), parts[m - 1];
      assert forall rec | rec in a + b :: rec in a || rec in b;
      SelectAppend(a, b, np, p);
    }
  }

  /**
   * After the read phase, column p of the fragment tables holds exactly
   * partition p's records of the whole input, in file order, in well
   * formed fragments whose sizes add up to the partition's size.
   */
  lemma {:induction false} ReadPhaseColumns(input: seq<byte>, numReaders: nat, np: int, p: nat,
                         fragFiles: seq<seq<seq<byte>>>, fragSizes: seq<seq<nat>>)
    requires FileKeysPrintable(input) && numReaders >= 1 && ValidPartitionCount(np) && p < np
    requires Table(fragFiles, numReaders, np) && Table(fragSizes, numReaders, np)
    requires forall r :: 0 <= r < numReaders ==>
      ReaderRow(input, numReaders, np, r, fragFiles[r], fragSizes[r])
    ensures HasColumn(fragFiles, p, numReaders) && HasColumn(fragSizes, p, numReaders)
    ensures WellFormedColumn(Column(fragFiles, p, numReaders), Column(fragSizes, p, numReaders), numReaders)
    ensures Concat(Column(fragFiles, p, numReaders), numReaders) == Flatten(Select(RecordsOf(input), np, p))
    ensures PrefixSum(Column(fragSizes, p, numReaders), numReaders) == |Select(RecordsOf(input), np, p)|
  {
    var files, sizes := Column(fragFiles, p, numReaders), Column(fragSizes, p, numReaders);
    forall r | 0 <= r < numReaders
      ensures files[r] == Flatten(ReaderFragment(input, numReaders, np, r, p))
      ensures sizes[r] == |ReaderFragment(input, numReaders, np, r, p)|
    {
      ReaderPrintable(input, numReaders, r);
    }
    ColumnHoldsPartition(input, numReaders, np, p, files, sizes, numReaders);
    AllReadersCoverFile(input, numReaders);
  }

  /** Partition p has as many records as its totals entry, for every p below m; then the first m totals add up to those partitions' records. */
  lemma {:induction false} TotalsCount(recs: seq<Record>, np: int, totals: seq<nat>, m: nat)
    requires ValidPartitionCount(np) && AllKeysPrintable(recs) && m <= np == |totals|
    requires forall p :: 0 <= p < np ==> totals[p] == |Select(recs, np, p)|
    ensures PrefixSum(totals, m) == |SelectAll(recs, np, m)|
  {
    if m > 0 {
      TotalsCount(recs, np, totals, m - 1);
    }
  }

  // ------------------------------------------------------------------
  // The sort loop and the whole sort
  // ------------------------------------------------------------------

  /**
   * One pass of the sort loop of sort.h:150-197: a non-empty partition is
   * gathered from its fragment files, sorted in memory and written to its
   * slot from writeOffset on; an empty one is skipped. The slot then holds
   * the partition's block, and nothing else of the output changes.
   */
  method SortPartition(files: seq<seq<byte>>, sizes: seq<nat>, numReaders: nat,
                       partitionSize: nat, writeOffset: nat, output: array<byte>, ghost part: seq<Record>)
    requires WellFormedColumn(files, sizes, numReaders)
    requires AllKeysPrintable(part) && Concat(files, numReaders) == Flatten(part)
    requires partitionSize == PrefixSum(sizes, numReaders) == |part|
    requires writeOffset + partitionSize * 100 <= output.Length
    modifies output
    ensures output[..writeOffset] == old(output[..writeOffset])
    ensures output[writeOffset .. writeOffset + partitionSize * 100] == Flatten(PartitionBlock(part))
    ensures output[writeOffset + partitionSize * 100 ..] ==
      old(output[writeOffset + partitionSize * 100 ..])
  {
    PartitionBlockPermutes(part);
    if partitionSize > 0 {
      SortNonEmptyPartition(files, sizes, numReaders, partitionSize, writeOffset, output, part);
    } else {
      assert Flatten(PartitionBlock(part)) == [];
    }
  }

  /** The body of the `partition_size > 0` branch of sort.h:151-196. */
  method SortNonEmptyPartition(files: seq<seq<byte>>, sizes: seq<nat>, numReaders: nat,
                               partitionSize: nat, writeOffset: nat, output: array<byte>, ghost part: seq<Record>)
    requires WellFormedColumn(files, sizes, numReaders)
    requires AllKeysPrintable(part) && Concat(files, numReaders) == Flatten(part)
    requires partitionSize == PrefixSum(sizes, numReaders) == |part|
    requires writeOffset + partitionSize * 100 <= output.Length
    modifies output
    ensures output[..writeOffset] == old(output[..writeOffset])
    ensures output[writeOffset .. writeOffset + partitionSize * 100] == Flatten(PartitionBlock(part))
    ensures output[writeOffset + partitionSize * 100 ..] ==
      old(output[writeOffset + partitionSize * 100 ..])
  {
    var contents, recBuf := GatherPartition(files, sizes, numReaders, partitionSize);
    RecordsOfFlatten(part);
    SortContents(contents, recBuf, part);
    WritePartition(contents, partitionSize, recBuf, output, writeOffset, PartitionBlock(part));
  }

  /**
   * `in_memory_sort` (sort.h:170-172) on a partition's embeddings: sorted
   * by the keys they point to, they point to the partition's block.
   */
  method SortContents(contents: array<EmbeddingValue>, recBuf: array<byte>, ghost part: seq<Record>)
    requires AllKeysPrintable(part) && recBuf[..] == Flatten(part) && contents[..] == Embedded(part)
    modifies contents
    ensures RecordsInBuffer(recBuf[..], contents[..])
    ensures Deref(recBuf[..], contents[..]) == PartitionBlock(part)
  {
    EmbeddedInFlatten(part);
    RecordsInBufferHaveKeys(recBuf[..], contents[..]);
    InMemorySort(contents, recBuf[..], contents.Length);
    DerefPermutation(recBuf[..], Embedded(part), contents[..]);
  }

  /** The bytes of done followed by the bytes of block are the bytes of done + block. */
  lemma {:induction false} NextSlot(out: seq<byte>, totals: seq<nat>, p: nat, done: seq<byte>, block: seq<byte>)
    requires p < |totals| && PrefixSum(totals, p + 1) * 100 <= |out|
    requires out[..PrefixSum(totals, p) * 100] == done
    requires out[PrefixSum(totals, p) * 100 .. PrefixSum(totals, p) * 100 + totals[p] * 100] == block
    ensures out[..PrefixSum(totals, p + 1) * 100] == done + block
  {
    var at, end := PrefixSum(totals, p) * 100, PrefixSum(totals, p + 1) * 100;
    assert out[..end] == out[..at] + out[at..end];
  }

  /** The bytes of each partition's block, in partition order. */
  function BlockBytes(recs: seq<Record>, np: int): (blocks: seq<seq<byte>>)
    requires ValidPartitionCount(np) && AllKeysPrintable(recs)
    ensures |blocks| == np
  {
    var parts := AllBlocks(recs, np);
    seq(np, p requires 0 <= p < np => Flatten(parts[p]))
  }

  /** Files holding the bytes of record sequences hold, one after the other, the bytes of the sequences joined. */
  lemma {:induction false} ConcatFlatten(files: seq<seq<byte>>, parts: seq<seq<Record>>, m: nat)
    requires |files| == |parts| && m <= |parts|
    requires forall p :: 0 <= p < |parts| ==> files[p] == Flatten(parts[p])
    ensures Concat(files, m) == Flatten(Joined(parts, m))
  {
    if m > 0 {
      var init, last := Joined(parts, m - 1), parts[m - 1];
      assert files[m - 1] == Flatten(last);
      ConcatFlatten(files, parts, m - 1);
      FlattenAppend(init, last);
      assert Concat(files, m) == Concat(files, m - 1) + files[m - 1];
    }
  }

  /** The bytes of the first m blocks, one after the other, are the first m blocks of the output. */
  lemma {:induction false} BlockBytesOutput(recs: seq<Record>, np: int, m: nat)
    requires ValidPartitionCount(np) && AllKeysPrintable(recs) && m <= np
    ensures Concat(BlockBytes(recs, np), m) == Flatten(Output(recs, np, m))
  {
    ConcatFlatten(BlockBytes(recs, np), AllBlocks(recs, np), m);
  }

  /**
   * Column p of the fragment tables holds partition p's records of recs in
   * well formed fragments, and totals[p] is their number.
   */
  predicate PartitionReady(recs: seq<Record>, np: int, fragFiles: seq<seq<seq<byte>>>, fragSizes: seq<seq<nat>>,
                           numReaders: nat, totals: seq<nat>, p: nat)
    requires ValidPartitionCount(np) && AllKeysPrintable(recs)
  {
    p < |totals| && HasColumn(fragFiles, p, numReaders) && HasColumn(fragSizes, p, numReaders) &&
    WellFormedColumn(Column(fragFiles, p, numReaders), Column(fragSizes, p, numReaders), numReaders) &&
    Concat(Column(fragFiles, p, numReaders), numReaders) == Flatten(Select(recs, np, p)) &&
    totals[p] == PrefixSum(Column(fragSizes, p, numReaders), numReaders) == |Select(recs, np, p)|
  }

  /**
   * The sort loop of sort.h:148-197 over every partition, with the
   * partition sizes and write offsets of sort.h:133-146: partition p's
   * block goes to the slot after partitions 0 .. p - 1, so the output
   * begins with the blocks of all partitions, in partition order.
   */
  method SortPartitions(ghost recs: seq<Record>, np: int, fragFiles: seq<seq<seq<byte>>>,
                        fragSizes: seq<seq<nat>>, numReaders: nat,
                        totals: seq<nat>, offsets: seq<nat>, numSorters: nat, output: array<byte>)
    requires ValidPartitionCount(np) && AllKeysPrintable(recs) && numSorters >= 1
    requires |totals| == np && |offsets| == np
    requires forall p :: 0 <= p < np ==> offsets[p] == PrefixSum(totals, p) * 100
    requires PrefixSum(totals, np) * 100 <= output.Length
    requires forall p :: 0 <= p < np ==> PartitionReady(recs, np, fragFiles, fragSizes, numReaders, totals, p)
    modifies output
    ensures output[..PrefixSum(totals, np) * 100] == Flatten(Output(recs, np, np))
  {
    ghost var blocks := BlockBytes(recs, np);
    for partitionIdx := 0 to np
      invariant PrefixSum(totals, partitionIdx) * 100 <= output.Length
      invariant output[..PrefixSum(totals, partitionIdx) * 100] == Concat(blocks, partitionIdx)
    {
      PrefixSumMonotone(totals, partitionIdx + 1, np);
      // Every sorter thread writes through its own handle on the same
      // output file; the thread number always names an open handle.
      var thId := SorterOf(partitionIdx, numSorters);
      assert thId < numSorters;
      SortSlot(recs, np, fragFiles, fragSizes, numReaders, totals, partitionIdx, offsets[partitionIdx], output, blocks);
    }
    BlockBytesOutput(recs, np, np);
  }

  /**
   * Pass p of the sort loop (sort.h:148-197): with the bytes done of
   * partitions 0 .. p - 1 at the start of the output, partition p's block
   * goes to the slot at writeOffset, right after them.
   */
  method SortSlot(ghost recs: seq<Record>, np: int, fragFiles: seq<seq<seq<byte>>>,
                  fragSizes: seq<seq<nat>>, numReaders: nat, totals: seq<nat>, p: nat,
                  writeOffset: nat, output: array<byte>, ghost blocks: seq<seq<byte>>)
    requires ValidPartitionCount(np) && AllKeysPrintable(recs) && p < np == |totals|
    requires writeOffset == PrefixSum(totals, p) * 100
    requires PrefixSum(totals, p + 1) * 100 <= output.Length
    requires PartitionReady(recs, np, fragFiles, fragSizes, numReaders, totals, p)
    requires blocks == BlockBytes(recs, np) && output[..writeOffset] == Concat(blocks, p)
    modifies output
    ensures output[..PrefixSum(totals, p + 1) * 100] == Concat(blocks, p + 1)
  {
    ghost var ready := PartitionReady(recs, np, fragFiles, fragSizes, numReaders, totals, p);
    var partitionSize := totals[p];
    var files, sizes := Column(fragFiles, p, numReaders), Column(fragSizes, p, numReaders);
    ghost var part := Select(recs, np, p);
    SelectPrintable(recs, np, p);
    SortPartition(files, sizes, numReaders, partitionSize, writeOffset, output, part);
    NextSlot(output[..], totals, p, Concat(blocks, p), Flatten(PartitionBlock(part)));
  }

  /**
   * `elsar::sort` (sort.h:22-199) on an input file of whole records with
   * printable keys, with numProc reader threads and availMem bytes of
   * available memory. An empty input returns at once, and an input the
   * validation check of sort.h:49-54 refuses exits; neither writes an
   * output file (None). Otherwise the output file has the input's
   * size and holds the blocks of all partitions in partition order: the
   * input's records, sorted by key, each exactly as often as in the input.
   */
  method Sort(input: seq<byte>, numProc: nat, availMem: nat) returns (output: Option<seq<byte>>)
    requires numProc >= 1 && FileKeysPrintable(input)
    requires |input| > 0 ==> ValidPartitionCount(NumPartitions(|input| / 100))
    ensures output.None? <==> |input| == 0 || !MemoryFeasible(numProc, availMem)
    ensures output.Some? ==> |output.value| == |input|
    ensures output.Some? ==> var np := NumPartitions(|input| / 100);
      output.value == Flatten(Output(RecordsOf(input), np, np))
    ensures output.Some? ==> |output.value| % 100 == 0
    ensures output.Some? ==> SortedRecords(RecordsOf(output.value))
    ensures output.Some? ==> multiset(RecordsOf(output.value)) == multiset(RecordsOf(input))
  {
    if |input| == 0 {
      return None;
    }
    var numRecs := |input| / 100;
    var numPartitions := NumPartitions(numRecs);
    var numReaders := numProc;
    if !MemoryFeasible(numReaders, availMem) {
      return None;
    }
    var numSorters := SorterCount(numProc, |input|, availMem);
    var fragFiles, fragSizes := ReadPhase(input, numReaders, numPartitions);
    var out := new byte[|input|](_ => 0);
    var totals := AggregateSizes(fragSizes, numReaders, numPartitions);
    var offsets := ComputeOffsets(totals);
    ghost var recs := RecordsOf(input);
    PartitionsReady(input, numReaders, numPartitions, fragFiles, fragSizes, totals);
    SortPartitions(recs, numPartitions, fragFiles, fragSizes, numReaders, totals, offsets, numSorters, out);
    assert out[..] == out[..PrefixSum(totals, numPartitions) * 100];
    output := Some(out[..]);
    OutputBytesSorted(recs, numPartitions);
  }

  /**
   * After the read phase and the size aggregation, every partition's
   * fragment files hold its records, and the partitions together hold all
   * the input's records.
   */
  lemma {:induction false} PartitionsReady(input: seq<byte>, numReaders: nat, np: int,
                                           fragFiles: seq<seq<seq<byte>>>, fragSizes: seq<seq<nat>>, totals: seq<nat>)
    requires FileKeysPrintable(input) && numReaders >= 1 && ValidPartitionCount(np)
    requires Table(fragFiles, numReaders, np) && Table(fragSizes, numReaders, np)
    requires forall r :: 0 <= r < numReaders ==>
      ReaderRow(input, numReaders, np, r, fragFiles[r], fragSizes[r])
    requires |totals| == np
    requires forall p :: 0 <= p < np ==>
      HasColumn(fragSizes, p, numReaders) && totals[p] == PrefixSum(Column(fragSizes, p, numReaders), numReaders)
    ensures forall p :: 0 <= p < np ==> PartitionReady(RecordsOf(input), np, fragFiles, fragSizes, numReaders, totals, p)
    ensures PrefixSum(totals, np) * 100 == |input|
  {
    var recs := RecordsOf(input);
    forall p | 0 <= p < np
      ensures PartitionReady(recs, np, fragFiles, fragSizes, numReaders, totals, p)
      ensures totals[p] == |Select(recs, np, p)|
    {
      ReadPhaseColumns(input, numReaders, np, p, fragFiles, fragSizes);
    }
    TotalsCount(recs, np, totals, np);
    PartitionsArePermutation(recs, np);
    assert |SelectAll(recs, np, np)| == |multiset(recs)| == |recs|;
  }

  /** The bytes of the whole output hold every input record exactly once, in key order. */
  lemma {:induction false} OutputBytesSorted(recs: seq<Record>, np: int)
    requires ValidPartitionCount(np) && AllKeysPrintable(recs)
    ensures |Flatten(Output(recs, np, np))| == |recs| * 100
    ensures SortedRecords(RecordsOf(Flatten(Output(recs, np, np))))
    ensures multiset(RecordsOf(Flatten(Output(recs, np, np)))) == multiset(recs)
  {
    OutputIsSortedPermutation(recs, np);
    RecordsOfFlatten(Output(recs, np, np));
  }

  // ------------------------------------------------------------------
  // The record count kept across calls (sort.h:26)
  // ------------------------------------------------------------------

  /**
   * Reader thread readerIdx as sort.h:68-73 computes its range when
   * `num_recs`, a function-local static, still holds the record count
   * staleNumRecs of the input of the first call (np, computed from the same
   * count, is stale too): the read comes up short exactly when that range
   * is non-empty and ends past the current input.
   */
  method StaleReaderThread(input: seq<byte>, staleNumRecs: nat, numReaders: nat, np: int, readerIdx: nat,
                           fragFiles: array<seq<byte>>, fragSizes: array<nat>)
    returns (ok: bool)
    requires FileKeysPrintable(input) && numReaders >= 1 && readerIdx < numReaders && ValidPartitionCount(np)
    requires fragFiles.Length == fragSizes.Length == np
    modifies fragFiles, fragSizes
    ensures var first, last := ReaderFirst(readerIdx, staleNumRecs, numReaders),
                               ReaderLast(readerIdx, staleNumRecs, numReaders, |input|);
      ok <==> last <= first || last <= |input|
  {
    var avgBytesPerReader := (staleNumRecs / numReaders) * 100;
    var nextByteToRead := readerIdx * avgBytesPerReader;
    var lastByteToRead := nextByteToRead + avgBytesPerReader;
    if readerIdx == numReaders - 1 {
      lastByteToRead := |input|;
    }
    var share := staleNumRecs / numReaders;
    SharesFit(readerIdx, numReaders, staleNumRecs, 100);
    SharesFit(readerIdx + 1, numReaders, staleNumRecs, 100);
    WholeRecords(readerIdx * share);
    WholeRecords((readerIdx + 1) * share);
    assert (readerIdx + 1) * avgBytesPerReader == nextByteToRead + avgBytesPerReader;
    ok := ReadRange(input, nextByteToRead, lastByteToRead, np, fragFiles, fragSizes);
  }

  /**
   * With A = AVG_PARTITION_RECS: a first call on a file of 4 * A records,
   * then a call on a file of 2 * A records with 4 readers. Both calls have
   * a valid partition count, but the second computes its ranges, and its
   * `num_partitions` (4 instead of 2), from the first call's `num_recs`.
   * Reader 2 then gets bytes [200 * A, 300 * A) of a file of 200 * A
   * bytes, so its read comes up short and the program exits.
   */
  lemma {:induction false} StaleCountShortRead()
    ensures var a := AVG_PARTITION_RECS;
      var staleRecs, inputSz := 4 * a, 2 * a * 100;
      var first, last := ReaderFirst(2, staleRecs, 4), ReaderLast(2, staleRecs, 4, inputSz);
      NumPartitions(staleRecs) == 4 && ValidPartitionCount(NumPartitions(staleRecs)) &&
      NumPartitions(inputSz / 100) == 2 && ValidPartitionCount(NumPartitions(inputSz / 100)) &&
      first == 200 * a && last == 300 * a && !(last <= first || last <= inputSz)
  {
  }
}
