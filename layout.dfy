/**
 * The integer planning of `elsar::sort` (include/elsar/sort.h): how many
 * coarse partitions there are, which partition a record's first two key
 * bytes select, which byte range of the input each reader covers, and where
 * in the output file each partition is written.
 */
module Layout {
  import opened Globals
  import opened KeyOrder
  import opened Keys
  import opened Records
  import opened CppArith

  // ------------------------------------------------------------------
  // The coarse partition hash
  // ------------------------------------------------------------------

  /** `static_cast<int>(char)`: `char` is signed, so bytes above 127 are negative. */
  function SignedChar(b: byte): (c: int)
    ensures -128 <= c < 128 && (c - b) % 256 == 0
  {
    if b < 128 then b else b - 256
  }

  /** `emb`: the first two key bytes read as a two-digit base-95 number. */
  function CoarseHash(rec: seq<byte>): (emb: int)
    requires |rec| >= 2
    ensures Printable(rec, 2) ==> 0 <= emb <= MAX_EMBEDDING_VALUE
  {
    (SignedChar(rec[0]) - MIN_PRINTABLE_CHAR) * PRINTABLE_RANGE + (SignedChar(rec[1]) - MIN_PRINTABLE_CHAR)
  }

  lemma {:induction false} MaxEmbeddingValue()
    ensures PRINTABLE_RANGE == 95 && MAX_EMBEDDING_VALUE == 9120
  {
  }

  /** MAX_EMBEDDING_VALUE bounds the hash of printable bytes; ASCII keys stay below 95 * 95. */
  lemma {:induction false} CoarseHashBounds(rec: seq<byte>)
    requires |rec| >= 2 && Printable(rec, 2)
    ensures 0 <= CoarseHash(rec) <= MAX_EMBEDDING_VALUE
    ensures Ascii(rec, 2) ==> CoarseHash(rec) < PRINTABLE_RANGE * PRINTABLE_RANGE
  {
    MaxEmbeddingValue();
  }

  /** The hash never decreases along the lexicographic order of the first two bytes. */
  lemma {:induction false} CoarseHashMonotone(a: seq<byte>, b: seq<byte>)
    requires |a| >= 2 && |b| >= 2 && Printable(a, 2) && Printable(b, 2)
    requires LexLess(a, b, 2) || a[..2] == b[..2]
    ensures CoarseHash(a) <= CoarseHash(b)
  {
    MaxEmbeddingValue();
    if a[..2] == b[..2] {
      assert a[0] == a[..2][0] && a[1] == a[..2][1];
    } else {
      var k :| 0 <= k < 2 && LexLessAt(a, b, k);
      if k == 1 {
        assert a[0] == a[..1][0] && b[0] == b[..1][0];
      }
    }
  }

  /** On ASCII bytes the hash is strictly monotone. */
  lemma {:induction false} CoarseHashStrictlyMonotone(a: seq<byte>, b: seq<byte>)
    requires |a| >= 2 && |b| >= 2 && Ascii(a, 2) && Ascii(b, 2) && LexLess(a, b, 2)
    ensures CoarseHash(a) < CoarseHash(b)
  {
    MaxEmbeddingValue();
    var k :| 0 <= k < 2 && LexLessAt(a, b, k);
    if k == 1 {
      assert a[0] == a[..1][0] && b[0] == b[..1][0];
    }
  }

  /** Byte 127 is a 96th digit: " \x7f" and "! " are ordered but hash alike. */
  lemma {:induction false} DelByteCollides()
    ensures var a, b := [32, 127], [33, 32];
      LexLess(a, b, 2) && CoarseHash(a) == CoarseHash(b)
  {
    var a: seq<byte>, b: seq<byte> := [32, 127], [33, 32];
    assert LexLessAt(a, b, 0);
  }

  // ------------------------------------------------------------------
  // Partitions
  // ------------------------------------------------------------------

  /** `num_partitions`. */
  function NumPartitions(numRecs: nat): (np: nat)
    ensures np * AVG_PARTITION_RECS <= numRecs < (np + 1) * AVG_PARTITION_RECS
  {
    numRecs / AVG_PARTITION_RECS
  }

  /** A partition count for which `partition_width` is a positive whole number. */
  predicate ValidPartitionCount(np: int)
  {
    1 <= np <= MAX_EMBEDDING_VALUE
  }

  // ------------------------------------------------------------------
  // Memory budget and sorter threads (sort.h:28, 40-54)
  // ------------------------------------------------------------------

  /** `sizeof(Embedding)`: a record pointer and a 64-bit `converted_t`. */
  const EMBEDDING_SZ: nat := 16

  /** `avg_mem_for_partition_sorting`, in bytes. */
  const SORT_MEM_PER_PARTITION: nat := AVG_PARTITION_RECS * (BYTES_PER_REC + EMBEDDING_SZ * IN_MEM_SORT_MEM_MULTIPLIER)

  /**
   * The validation check of sort.h:49-54 passes: one read batch per reader
   * and 1.4 average partition sorts fit in the available memory.
   */
  predicate MemoryFeasible(numReaders: nat, availMem: nat): (ok: bool)
    ensures ok <==> READ_BATCH_RECS * BYTES_PER_REC * numReaders < availMem && 14 * SORT_MEM_PER_PARTITION < 10 * availMem
  {
    READ_BATCH_RECS * BYTES_PER_REC * numReaders < availMem &&
    1.4 * SORT_MEM_PER_PARTITION as real < availMem as real
  }

  /**
   * `num_sorters` as written (sort.h:43-46): as many average partition
   * sorts as fit both in the input file's size and in the available memory,
   * and no more than numProc.
   */
  function NumSorters(numProc: nat, inputSz: nat, availMem: nat): (n: nat)
    ensures n <= numProc
    ensures n * SORT_MEM_PER_PARTITION <= inputSz && n * SORT_MEM_PER_PARTITION <= availMem
    ensures n == numProc || Min(inputSz, availMem) < (n + 1) * SORT_MEM_PER_PARTITION
  {
    Min(numProc, Min(inputSz, availMem) / SORT_MEM_PER_PARTITION)
  }

  /**
   * Once the validation check passes, no sorter thread is started exactly
   * when the input file is smaller than one average partition sort.
   */
  lemma {:induction false} NoSorterForSmallInput(numProc: nat, inputSz: nat, availMem: nat)
    requires numProc >= 1 && MemoryFeasible(numProc, availMem)
    ensures NumSorters(numProc, inputSz, availMem) == 0 <==> inputSz < SORT_MEM_PER_PARTITION
  {
    assert SORT_MEM_PER_PARTITION < availMem;
  }

  /**
   * An input the rest of `sort` handles, one partition of AVG_PARTITION_RECS
   * records on one thread with 3 GB of memory, passes the validation check
   * and yet gets no sorter thread: `out_fids_for_sorters` has no entries,
   * while the sort loop still indexes it by thread number (sort.h:128, 178, 191).
   */
  lemma SorterlessInput()
    ensures var inputSz, availMem := AVG_PARTITION_RECS * BYTES_PER_REC, 3000000000;
      ValidPartitionCount(NumPartitions(inputSz / BYTES_PER_REC)) && MemoryFeasible(1, availMem) &&
      NumSorters(1, inputSz, availMem) == 0
  {
    var inputSz, availMem := AVG_PARTITION_RECS * BYTES_PER_REC, 3000000000;
    assert NumPartitions(inputSz / BYTES_PER_REC) == 1;
    NoSorterForSmallInput(1, inputSz, availMem);
  }

  /**
   * The number of sorter threads with at least one thread, so that every
   * thread number of the sort loop names an open output handle; it agrees
   * with `num_sorters` whenever that is positive.
   */
  function SorterCount(numProc: nat, inputSz: nat, availMem: nat): (n: nat)
    ensures numProc >= 1 ==> 1 <= n <= numProc
    ensures NumSorters(numProc, inputSz, availMem) >= 1 ==> n == NumSorters(numProc, inputSz, availMem)
    ensures NumSorters(numProc, inputSz, availMem) == 0 ==> n == 1
  {
    Max(1, NumSorters(numProc, inputSz, availMem))
  }

  /**
   * `schedule(static, 1)`: the thread that runs the sort of partition p
   * (sort.h:148); its number indexes the output handles.
   */
  function SorterOf(p: nat, numSorters: nat): (t: nat)
    requires numSorters >= 1
    ensures t < numSorters && (p < numSorters ==> t == p)
  {
    p % numSorters
  }

  /** `partition_width`: the floor of MAX_EMBEDDING_VALUE / num_partitions. */
  function PartitionWidth(np: int): (w: int)
    requires ValidPartitionCount(np)
    ensures w >= 1
  {
    MAX_EMBEDDING_VALUE / np
  }

  /** The np bins of width `partition_width` fit below MAX_EMBEDDING_VALUE, and one more would not. */
  lemma {:induction false} PartitionWidthBounds(np: int)
    requires ValidPartitionCount(np)
    ensures PartitionWidth(np) * np <= MAX_EMBEDDING_VALUE < (PartitionWidth(np) + 1) * np
  {
    DivBounds(MAX_EMBEDDING_VALUE, np);
  }

  /**
   * `predicted_partition`: the bin of width `partition_width` that holds
   * emb, the last bin also taking every value past the others.
   */
  function PartitionIndex(emb: int, np: int): (p: int)
    requires 0 <= emb && ValidPartitionCount(np)
    ensures 0 <= p < np
  {
    ClampedBin(emb, PartitionWidth(np), np);
    Min(emb / PartitionWidth(np), np - 1)
  }

  /** Partition p holds the values of bin p, and the last partition everything from its bin on. */
  lemma {:induction false} PartitionIndexBin(emb: int, np: int)
    requires 0 <= emb && ValidPartitionCount(np)
    ensures var p := PartitionIndex(emb, np);
      (p < np - 1 ==> p * PartitionWidth(np) <= emb < (p + 1) * PartitionWidth(np)) &&
      (p == np - 1 ==> (np - 1) * PartitionWidth(np) <= emb)
  {
    ClampedBin(emb, PartitionWidth(np), np);
  }

  /** A larger hash never selects an earlier partition. */
  lemma {:induction false} PartitionIndexMonotone(e1: int, e2: int, np: int)
    requires 0 <= e1 <= e2 && ValidPartitionCount(np)
    ensures PartitionIndex(e1, np) <= PartitionIndex(e2, np)
  {
    DivMonotone(e1, e2, PartitionWidth(np));
  }

  /** The key bytes the hash and the key conversion read are printable. */
  predicate KeyPrintable(rec: Record)
  {
    Printable(rec, KEY_SZ)
  }

  predicate AllKeysPrintable(recs: seq<Record>)
  {
    forall rec | rec in recs :: KeyPrintable(rec)
  }

  /** The partition a record is appended to. */
  function PartitionOf(rec: Record, np: int): (p: int)
    requires ValidPartitionCount(np) && KeyPrintable(rec)
    ensures 0 <= p < np
  {
    CoarseHashBounds(rec);
    PartitionIndex(CoarseHash(rec), np)
  }

  /**
   * A record whose key is smaller falls in the same or an earlier partition,
   * so partitions are ordered by key.
   */
  lemma {:induction false} PartitionOfMonotone(a: Record, b: Record, np: int)
    requires ValidPartitionCount(np) && KeyPrintable(a) && KeyPrintable(b)
    requires RecordLess(a, b)
    ensures PartitionOf(a, np) <= PartitionOf(b, np)
  {
    PrintableHasNoNul(a, KEY_SZ);
    StrncmpIsLex(a, b, KEY_SZ);
    LexLessShorten(a, b, 2, KEY_SZ);
    CoarseHashBounds(a);
    CoarseHashBounds(b);
    CoarseHashMonotone(a, b);
    PartitionIndexMonotone(CoarseHash(a), CoarseHash(b), np);
  }

  /** A record in a later partition is never smaller than one in an earlier one. */
  lemma {:induction false} CrossPartitionOrder(a: Record, b: Record, np: int)
    requires ValidPartitionCount(np) && KeyPrintable(a) && KeyPrintable(b)
    requires PartitionOf(a, np) < PartitionOf(b, np)
    ensures !RecordLess(b, a)
  {
    if RecordLess(b, a) {
      PartitionOfMonotone(b, a, np);
    }
  }

  /** The records that go to partition p, in their original order. */
  function Select(recs: seq<Record>, np: int, p: int): (s: seq<Record>)
    requires ValidPartitionCount(np)
    ensures |s| <= |recs|
  {
    if recs == [] then []
    else
      var x := Last(recs);
      Select(recs[..|recs| - 1], np, p) + (if KeyPrintable(x) && PartitionOf(x, np) == p then [x] else [])
  }

  /** A record is selected for p exactly when it is one of the records and its partition is p. */
  lemma {:induction false} SelectMembership(recs: seq<Record>, np: int, p: int, rec: Record)
    requires ValidPartitionCount(np) && AllKeysPrintable(recs)
    ensures rec in Select(recs, np, p) <==> rec in recs && KeyPrintable(rec) && PartitionOf(rec, np) == p
  {
    if recs != [] {
      var init := recs[..|recs| - 1];
      assert recs == init + [Last(recs)];
      SelectMembership(init, np, p, rec);
    }
  }

  /** Every selected record belongs to partition p. */
  lemma {:induction false} SelectedRecords(recs: seq<Record>, np: int, p: int)
    requires ValidPartitionCount(np) && AllKeysPrintable(recs)
    ensures forall y | y in Select(recs, np, p) :: KeyPrintable(y) && PartitionOf(y, np) == p
  {
    forall y | y in Select(recs, np, p) ensures KeyPrintable(y) && PartitionOf(y, np) == p {
      SelectMembership(recs, np, p, y);
    }
  }

  lemma {:induction false} SelectPrintable(recs: seq<Record>, np: int, p: int)
    requires ValidPartitionCount(np) && AllKeysPrintable(recs)
    ensures AllKeysPrintable(Select(recs, np, p))
  {
    forall rec | rec in Select(recs, np, p) ensures KeyPrintable(rec) {
      SelectMembership(recs, np, p, rec);
    }
  }

  /** Selection distributes over concatenation. */
  lemma {:induction false} SelectAppend(a: seq<Record>, b: seq<Record>, np: int, p: int)
    requires ValidPartitionCount(np) && AllKeysPrintable(a) && AllKeysPrintable(b)
    ensures AllKeysPrintable(a + b)
    ensures Select(a + b, np, p) == Select(a, np, p) + Select(b, np, p)
    decreases |b|
  {
    if b == [] {
      assert a + b == a;
    } else {
      var init := b[..|b| - 1];
      assert (a + b)[..|a + b| - 1] == a + init;
      assert forall rec | rec in init :: rec in b;
      SelectAppend(a, init, np, p);
    }
  }

  /** All partitions of `recs`, partition 0 first, up to partition m - 1. */
  function SelectAll(recs: seq<Record>, np: int, m: nat): seq<Record>
    requires ValidPartitionCount(np) && m <= np
  {
    if m == 0 then [] else SelectAll(recs, np, m - 1) + Select(recs, np, m - 1)
  }

  /** How often y occurs in s. */
  function Count<T(==)>(s: seq<T>, y: T): nat
  {
    if s == [] then 0 else Count(s[..|s| - 1], y) + (if Last(s) == y then 1 else 0)
  }

  lemma {:induction false} CountAppend<T>(a: seq<T>, b: seq<T>, y: T)
    ensures Count(a + b, y) == Count(a, y) + Count(b, y)
    decreases |b|
  {
    if b == [] {
      assert a + b == a;
    } else {
      assert (a + b)[..|a + b| - 1] == a + b[..|b| - 1];
      CountAppend(a, b[..|b| - 1], y);
    }
  }

  /** Count is the multiplicity in the multiset of the sequence. */
  lemma {:induction false} CountMultiplicity<T>(s: seq<T>, y: T)
    ensures Count(s, y) == multiset(s)[y]
  {
    if s != [] {
      var init := s[..|s| - 1];
      assert s == init + [Last(s)];
      CountMultiplicity(init, y);
    }
  }

  /** Partition p holds each record of p with a printable key as often as recs does, and no other such record. */
  lemma {:induction false} SelectCount(recs: seq<Record>, np: int, p: int, y: Record)
    requires ValidPartitionCount(np) && KeyPrintable(y)
    ensures Count(Select(recs, np, p), y) == if PartitionOf(y, np) == p then Count(recs, y) else 0
  {
    if recs != [] {
      var init, x := recs[..|recs| - 1], Last(recs);
      SelectCount(init, np, p, y);
      CountAppend(Select(init, np, p), if KeyPrintable(x) && PartitionOf(x, np) == p then [x] else [], y);
    }
  }

  /** No partition holds a record whose key is not printable. */
  lemma {:induction false} SelectUnprintable(recs: seq<Record>, np: int, p: int, y: Record)
    requires ValidPartitionCount(np) && !KeyPrintable(y)
    ensures Count(Select(recs, np, p), y) == 0
  {
    if recs != [] {
      var init, x := recs[..|recs| - 1], Last(recs);
      SelectUnprintable(init, np, p, y);
      CountAppend(Select(init, np, p), if KeyPrintable(x) && PartitionOf(x, np) == p then [x] else [], y);
    }
  }

  /** Partitions 0 .. m - 1 together hold each record of those partitions as often as recs does. */
  lemma {:induction false} SelectAllCount(recs: seq<Record>, np: int, m: nat, y: Record)
    requires ValidPartitionCount(np) && m <= np && KeyPrintable(y)
    ensures Count(SelectAll(recs, np, m), y) == if PartitionOf(y, np) < m then Count(recs, y) else 0
  {
    if m > 0 {
      SelectAllCount(recs, np, m - 1, y);
      SelectCount(recs, np, m - 1, y);
      CountAppend(SelectAll(recs, np, m - 1), Select(recs, np, m - 1), y);
    }
  }

  /** Nor do partitions 0 .. m - 1 together. */
  lemma {:induction false} SelectAllUnprintable(recs: seq<Record>, np: int, m: nat, y: Record)
    requires ValidPartitionCount(np) && m <= np && !KeyPrintable(y)
    ensures Count(SelectAll(recs, np, m), y) == 0
  {
    if m > 0 {
      SelectAllUnprintable(recs, np, m - 1, y);
      SelectUnprintable(recs, np, m - 1, y);
      CountAppend(SelectAll(recs, np, m - 1), Select(recs, np, m - 1), y);
    }
  }

  /** The partitions together hold every record exactly once. */
  lemma {:induction false} PartitionsArePermutation(recs: seq<Record>, np: int)
    requires ValidPartitionCount(np) && AllKeysPrintable(recs)
    ensures multiset(SelectAll(recs, np, np)) == multiset(recs)
  {
    forall y ensures multiset(SelectAll(recs, np, np))[y] == multiset(recs)[y] {
      CountMultiplicity(SelectAll(recs, np, np), y);
      CountMultiplicity(recs, y);
      if KeyPrintable(y) {
        SelectAllCount(recs, np, np, y);
      } else {
        SelectAllUnprintable(recs, np, np, y);
        assert y !in recs;
      }
    }
  }

  // ------------------------------------------------------------------
  // Reader ranges
  // ------------------------------------------------------------------

  /** `avg_bytes_per_reader_th`: whole records only. */
  function AvgBytesPerReader(numRecs: nat, numReaders: nat): (avg: nat)
    requires numReaders >= 1
    ensures avg % 100 == 0
    ensures avg <= numRecs * 100
  {
    var share := numRecs / numReaders;
    DivBounds(numRecs, numReaders);
    WholeRecords(share);
    assert (share * 100) * numReaders == (share * numReaders) * 100;
    share * 100
  }

  /** Reader i starts at byte i * avg_bytes_per_reader_th. */
  function ReaderFirst(i: nat, numRecs: nat, numReaders: nat): (first: nat)
    requires numReaders >= 1
    ensures i == 0 ==> first == 0
    ensures first % 100 == 0
  {
    var share := numRecs / numReaders;
    WholeRecords(i * share);
    assert i * (share * 100) == (i * share) * 100;
    i * AvgBytesPerReader(numRecs, numReaders)
  }

  /** Reader i stops where reader i + 1 starts; the last reader reads to the end of the file. */
  function ReaderLast(i: nat, numRecs: nat, numReaders: nat, fileSz: nat): (last: nat)
    requires numReaders >= 1
    ensures i == numReaders - 1 ==> last == fileSz
    ensures i != numReaders - 1 ==> last == ReaderFirst(i + 1, numRecs, numReaders)
  {
    if i == numReaders - 1 then fileSz
    else
      var avg := AvgBytesPerReader(numRecs, numReaders);
      assert (i + 1) * avg == i * avg + avg;
      ReaderFirst(i, numRecs, numReaders) + avg
  }

  /**
   * With numRecs whole records in the file, reader i's range lies inside the
   * file and ends where reader i + 1's begins; the first starts at byte 0,
   * the last ends at the end of the file, and every boundary falls between
   * two records when the file holds whole records.
   */
  lemma {:induction false} ReaderRangesTile(fileSz: nat, numRecs: nat, numReaders: nat, i: nat)
    requires numReaders >= 1 && i < numReaders && numRecs * 100 <= fileSz
    ensures ReaderFirst(0, numRecs, numReaders) == 0
    ensures ReaderLast(numReaders - 1, numRecs, numReaders, fileSz) == fileSz
    ensures ReaderFirst(i, numRecs, numReaders) <= ReaderLast(i, numRecs, numReaders, fileSz) <= fileSz
    ensures i < numReaders - 1 ==>
      ReaderLast(i, numRecs, numReaders, fileSz) == ReaderFirst(i + 1, numRecs, numReaders)
    ensures fileSz % 100 == 0 ==>
      ReaderFirst(i, numRecs, numReaders) % 100 == 0 &&
      ReaderLast(i, numRecs, numReaders, fileSz) % 100 == 0
  {
    SharesFit(i, numReaders, numRecs, 100);
    SharesFit(i + 1, numReaders, numRecs, 100);
  }

  /** The records of reader i's range. */
  function ReaderRecords(input: seq<byte>, numReaders: nat, i: nat): seq<Record>
    requires numReaders >= 1 && i < numReaders && |input| % 100 == 0
  {
    var numRecs := |input| / 100;
    DivExact(|input|, 100);
    ReaderRangesTile(|input|, numRecs, numReaders, i);
    ModDiff(ReaderLast(i, numRecs, numReaders, |input|), ReaderFirst(i, numRecs, numReaders));
    RecordsOf(input[ReaderFirst(i, numRecs, numReaders) .. ReaderLast(i, numRecs, numReaders, |input|)])
  }

  /** The records of each reader, in reader order. */
  function ReaderParts(input: seq<byte>, numReaders: nat): (parts: seq<seq<Record>>)
    requires numReaders >= 1 && |input| % 100 == 0
    ensures |parts| == numReaders
  {
    seq(numReaders, r requires 0 <= r < numReaders => ReaderRecords(input, numReaders, r))
  }

  /** The records of readers 0 .. m - 1, in reader order. */
  function ReadersRecords(input: seq<byte>, numReaders: nat, m: nat): seq<Record>
    requires numReaders >= 1 && m <= numReaders && |input| % 100 == 0
  {
    Joined(ReaderParts(input, numReaders), m)
  }

  /** Readers 0 .. m - 1 are readers 0 .. m - 2 followed by reader m - 1. */
  lemma {:induction false} ReadersRecordsStep(input: seq<byte>, numReaders: nat, m: nat)
    requires numReaders >= 1 && 1 <= m <= numReaders && |input| % 100 == 0
    ensures ReadersRecords(input, numReaders, m) ==
      ReadersRecords(input, numReaders, m - 1) + ReaderRecords(input, numReaders, m - 1)
  {
  }

  /** The byte where reader m - 1 stops. */
  function ReadersEnd(input: seq<byte>, numReaders: nat, m: nat): (e: nat)
    requires numReaders >= 1 && 1 <= m <= numReaders && |input| % 100 == 0
    ensures e <= |input| && e % 100 == 0
    ensures m == numReaders ==> e == |input|
  {
    var numRecs := |input| / 100;
    DivExact(|input|, 100);
    ReaderRangesTile(|input|, numRecs, numReaders, m - 1);
    ReaderLast(m - 1, numRecs, numReaders, |input|)
  }

  /** Reader m - 1 reads from where reader m - 2 stops (the file's start for the first reader) to ReadersEnd(m). */
  lemma {:induction false} ReaderBounds(input: seq<byte>, numReaders: nat, m: nat)
    requires numReaders >= 1 && 1 <= m <= numReaders && |input| % 100 == 0
    ensures m == 1 ==> ReaderRecords(input, numReaders, 0) == RecordsOf(input[..ReadersEnd(input, numReaders, 1)])
    ensures m > 1 ==> ReadersEnd(input, numReaders, m - 1) <= ReadersEnd(input, numReaders, m)
    ensures m > 1 ==>
      ReaderRecords(input, numReaders, m - 1) ==
      RecordsBetween(input, ReadersEnd(input, numReaders, m - 1), ReadersEnd(input, numReaders, m))
  {
    var numRecs := |input| / 100;
    DivExact(|input|, 100);
    ReaderRangesTile(|input|, numRecs, numReaders, m - 1);
    if m > 1 {
      ReaderRangesTile(|input|, numRecs, numReaders, m - 2);
    } else {
      var last := ReaderLast(0, numRecs, numReaders, |input|);
      assert input[0..last] == input[..last];
    }
  }

  /** The readers together read the whole file, each record once, in file order. */
  lemma {:induction false} ReadersCoverFile(input: seq<byte>, numReaders: nat, m: nat)
    requires numReaders >= 1 && 1 <= m <= numReaders && |input| % 100 == 0
    ensures ReadersRecords(input, numReaders, m) == RecordsOf(input[..ReadersEnd(input, numReaders, m)])
  {
    ReaderBounds(input, numReaders, m);
    if m == 1 {
      ReadersRecordsStep(input, numReaders, 1);
      assert ReadersRecords(input, numReaders, 1) == [] + ReaderRecords(input, numReaders, 0);
    } else {
      ReadersCoverFile(input, numReaders, m - 1);
      RecordsOfSplit(input, ReadersEnd(input, numReaders, m - 1), ReadersEnd(input, numReaders, m));
      ReadersRecordsStep(input, numReaders, m);
    }
  }

  /** Hence reading all ranges yields exactly the file's records. */
  lemma {:induction false} AllReadersCoverFile(input: seq<byte>, numReaders: nat)
    requires numReaders >= 1 && |input| % 100 == 0
    ensures ReadersRecords(input, numReaders, numReaders) == RecordsOf(input)
  {
    ReadersCoverFile(input, numReaders, numReaders);
    assert input[..|input|] == input;
  }

  // ------------------------------------------------------------------
  // Output slots
  // ------------------------------------------------------------------

  /** The number of records in partitions 0 .. i - 1. */
  function PrefixSum(sizes: seq<nat>, i: nat): (total: nat)
    requires i <= |sizes|
    ensures i > 0 ==> sizes[i - 1] <= total
  {
    if i == 0 then 0 else PrefixSum(sizes, i - 1) + sizes[i - 1]
  }

  /** The total of the first i sizes is at least each of them. */
  lemma {:induction false} PrefixSumCovers(sizes: seq<nat>, i: nat)
    requires i <= |sizes|
    ensures forall k :: 0 <= k < i ==> sizes[k] <= PrefixSum(sizes, i)
  {
    forall k | 0 <= k < i
      ensures sizes[k] <= PrefixSum(sizes, i)
    {
      PrefixSumMonotone(sizes, k + 1, i);
    }
  }

  lemma {:induction false} PrefixSumMonotone(sizes: seq<nat>, i: nat, j: nat)
    requires i <= j <= |sizes|
    ensures PrefixSum(sizes, i) <= PrefixSum(sizes, j)
    decreases j - i
  {
    if i < j {
      PrefixSumMonotone(sizes, i, j - 1);
    }
  }

  /**
   * Partition i's output slot [100 * PrefixSum(i), 100 * PrefixSum(i + 1))
   * ends before any later partition's begins, and inside the total.
   */
  lemma {:induction false} SlotsDisjoint(sizes: seq<nat>, i: nat, j: nat)
    requires i < j <= |sizes|
    ensures (PrefixSum(sizes, i) + sizes[i]) * 100 <= PrefixSum(sizes, j) * 100
  {
    PrefixSumMonotone(sizes, i + 1, j);
  }
}
