/**
 * What the external sort writes, as a function of its input: each coarse
 * partition's records, in the order the readers produced them, sorted by
 * key through embeddings into a buffer holding them (the gather and
 * `in_memory_sort` steps of include/elsar/sort.h:152-172), and the sorted
 * partitions laid out one after the other in partition order (the write
 * offsets of sort.h:141-146). The theorems at the end state that this output
 * is sorted by key and holds every input record exactly once.
 */
module Blocks {
  import opened Globals
  import opened KeyOrder
  import opened Keys
  import opened Embeddings
  import opened Sorting
  import opened Records
  import opened Layout

  /** Every embedding names a whole record inside the buffer. */
  predicate RecordsInBuffer(buf: seq<byte>, es: seq<EmbeddingValue>)
  {
    forall e | e in es :: 0 <= e.record && e.record + 100 <= |buf|
  }

  lemma {:induction false} RecordsInBufferHaveKeys(buf: seq<byte>, es: seq<EmbeddingValue>)
    requires RecordsInBuffer(buf, es)
    ensures AllKeysInBuffer(buf, es)
  {
  }

  /** The records the embeddings point to, in the embeddings' order (the memcpy of sort.h:185-189). */
  function Deref(buf: seq<byte>, es: seq<EmbeddingValue>): (recs: seq<Record>)
    requires RecordsInBuffer(buf, es)
    ensures |recs| == |es|
  {
    seq(|es|, i requires 0 <= i < |es| => assert es[i] in es; RecordAt(buf, es[i].record))
  }

  /** Record i of the dereferenced sequence is the buffer's record at embedding i's pointer. */
  lemma {:induction false} DerefAt(buf: seq<byte>, es: seq<EmbeddingValue>, i: nat)
    requires RecordsInBuffer(buf, es) && i < |es|
    ensures 0 <= es[i].record && es[i].record + 100 <= |buf|
    ensures Deref(buf, es)[i] == buf[es[i].record .. es[i].record + 100]
  {
    assert es[i] in es;
  }

  lemma {:induction false} DerefAppend(buf: seq<byte>, a: seq<EmbeddingValue>, b: seq<EmbeddingValue>)
    requires RecordsInBuffer(buf, a) && RecordsInBuffer(buf, b)
    ensures RecordsInBuffer(buf, a + b)
    ensures Deref(buf, a + b) == Deref(buf, a) + Deref(buf, b)
  {
  }

  lemma {:induction false} RecordsInBufferPermutation(buf: seq<byte>, a: seq<EmbeddingValue>, b: seq<EmbeddingValue>)
    requires RecordsInBuffer(buf, a) && multiset(a) == multiset(b)
    ensures RecordsInBuffer(buf, b)
  {
    forall e | e in b ensures 0 <= e.record && e.record + 100 <= |buf| {
      assert e in multiset(b);
      assert e in a;
    }
  }

  /** Removing the embedding at j removes the record it points to. */
  lemma {:induction false} DerefRemoveAt(buf: seq<byte>, b: seq<EmbeddingValue>, j: nat)
    requires RecordsInBuffer(buf, b) && j < |b|
    ensures multiset(b[..j] + b[j + 1..]) == multiset(b) - multiset{b[j]}
    ensures RecordsInBuffer(buf, b[..j] + b[j + 1..])
    ensures multiset(Deref(buf, b)) == multiset(Deref(buf, b[..j] + b[j + 1..])) + multiset{Deref(buf, b)[j]}
  {
    var rest := b[..j] + b[j + 1..];
    assert b == b[..j] + [b[j]] + b[j + 1..];
    assert forall e | e in rest :: e in b;
    var d := Deref(buf, b);
    assert Deref(buf, rest) == d[..j] + d[j + 1..];
    assert d == d[..j] + [d[j]] + d[j + 1..];
  }

  /** A position where x occurs in s. */
  lemma {:induction false} IndexOf<T>(s: seq<T>, x: T) returns (j: nat)
    requires x in s
    ensures j < |s| && s[j] == x
  {
    j :| 0 <= j < |s| && s[j] == x;
  }

  /** Rearranging the embeddings rearranges the records they point to in the same way. */
  lemma {:induction false} DerefPermutation(buf: seq<byte>, a: seq<EmbeddingValue>, b: seq<EmbeddingValue>)
    requires RecordsInBuffer(buf, a) && multiset(a) == multiset(b)
    ensures RecordsInBuffer(buf, b)
    ensures multiset(Deref(buf, a)) == multiset(Deref(buf, b))
    decreases |a|
  {
    RecordsInBufferPermutation(buf, a, b);
    if a != [] {
      var init, x := a[..|a| - 1], Last(a);
      assert a == init + [x];
      assert x in multiset(b);
      var j := IndexOf(b, x);
      DerefRemoveAt(buf, b, j);
      var rest := b[..j] + b[j + 1..];
      assert multiset(a) == multiset(init) + multiset{x};
      assert multiset(init) == multiset(rest);
      assert RecordsInBuffer(buf, init) by {
        assert forall e | e in init :: e in a;
      }
      DerefPermutation(buf, init, rest);
      DerefAppend(buf, init, [x]);
      DerefAt(buf, b, j);
      DerefAt(buf, [x], 0);
      assert Deref(buf, [x]) == [Deref(buf, b)[j]];
    }
  }

  /** Embeddings sorted by the keys they point to yield records sorted by key. */
  lemma {:induction false} DerefSorted(buf: seq<byte>, es: seq<EmbeddingValue>)
    requires RecordsInBuffer(buf, es) && AllKeysInBuffer(buf, es) && SortedByKey(buf, es)
    ensures SortedRecords(Deref(buf, es))
  {
    var recs := Deref(buf, es);
    forall i, j | 0 <= i < j < |recs| ensures !RecordLess(recs[j], recs[i]) {
      assert !KeyLess(buf, es[j], es[i]);
      assert es[i] in es && es[j] in es;
      assert KeyOf(buf, es[j]) == recs[j][..KEY_SZ];
      assert KeyOf(buf, es[i]) == recs[i][..KEY_SZ];
      StrncmpLessPrefix(recs[j], recs[i], KEY_SZ, KEY_SZ);
    }
  }

  /**
   * The embeddings of records laid out from byte 0 of a buffer: record i at
   * byte i * 100 with its converted key (sort.h:160-164).
   */
  function Embedded(recs: seq<Record>): (es: seq<EmbeddingValue>)
    requires AllKeysPrintable(recs)
    ensures |es| == |recs|
  {
    seq(|recs|, i requires 0 <= i < |recs| =>
      assert recs[i] in recs;
      EmbeddingValue(i * 100, EncodedKey(recs[i])))
  }

  /** Following the embeddings of records laid out in a buffer gives the records back. */
  lemma {:induction false} EmbeddedInFlatten(recs: seq<Record>)
    requires AllKeysPrintable(recs)
    ensures RecordsInBuffer(Flatten(recs), Embedded(recs))
    ensures Deref(Flatten(recs), Embedded(recs)) == recs
  {
    var buf, es := Flatten(recs), Embedded(recs);
    RecordsOfFlatten(recs);
    forall i | 0 <= i < |recs|
      ensures es[i].record + 100 <= |buf| && RecordAt(buf, es[i].record) == recs[i]
    {
      RecordsOfIndex(buf, i);
    }
  }

  /**
   * One partition as it is written: its records laid out in a buffer, their
   * embeddings sorted by the keys they point to, and the records copied out
   * in that order. Records with equal keys come out in the reference sort's
   * order.
   */
  function PartitionBlock(recs: seq<Record>): (block: seq<Record>)
    requires AllKeysPrintable(recs)
    ensures |block| == |recs|
  {
    var buf, es := Flatten(recs), Embedded(recs);
    EmbeddedInFlatten(recs);
    var sorted := SortByKey(buf, es);
    SortByKeyPermutes(buf, es);
    DerefPermutation(buf, es, sorted);
    Deref(buf, sorted)
  }

  /** A partition's block holds the partition's records, each exactly once... */
  lemma {:induction false} PartitionBlockPermutes(recs: seq<Record>)
    requires AllKeysPrintable(recs)
    ensures multiset(PartitionBlock(recs)) == multiset(recs)
    ensures |PartitionBlock(recs)| == |recs|
  {
    var buf := Flatten(recs);
    EmbeddedInFlatten(recs);
    var es := Embedded(recs);
    SortByKeyPermutes(buf, es);
    DerefPermutation(buf, es, SortByKey(buf, es));
    assert |multiset(PartitionBlock(recs))| == |multiset(recs)|;
  }

  /** ...in key order. */
  lemma {:induction false} PartitionBlockSorted(recs: seq<Record>)
    requires AllKeysPrintable(recs)
    ensures SortedRecords(PartitionBlock(recs))
  {
    var buf := Flatten(recs);
    EmbeddedInFlatten(recs);
    var es := Embedded(recs);
    var sorted := SortByKey(buf, es);
    SortByKeySorted(buf, es);
    SortByKeyPermutes(buf, es);
    DerefPermutation(buf, es, sorted);
    DerefSorted(buf, sorted);
  }

  /** Every record of a block is one of the partition's records. */
  lemma {:induction false} BlockMembers(recs: seq<Record>)
    requires AllKeysPrintable(recs)
    ensures forall y | y in PartitionBlock(recs) :: y in recs
  {
    PartitionBlockPermutes(recs);
    forall y | y in PartitionBlock(recs) ensures y in recs {
      assert y in multiset(PartitionBlock(recs));
    }
  }

  /** The block of each partition, in partition order. */
  function AllBlocks(recs: seq<Record>, np: int): (blocks: seq<seq<Record>>)
    requires ValidPartitionCount(np) && AllKeysPrintable(recs)
    ensures |blocks| == np
  {
    seq(np, p requires 0 <= p < np => SelectPrintable(recs, np, p); PartitionBlock(Select(recs, np, p)))
  }

  /** The blocks of partitions 0 .. m - 1, in partition order. */
  function Output(recs: seq<Record>, np: int, m: nat): seq<Record>
    requires ValidPartitionCount(np) && AllKeysPrintable(recs) && m <= np
  {
    Joined(AllBlocks(recs, np), m)
  }

  /** The first m blocks are the first m - 1 blocks followed by block m - 1. */
  lemma {:induction false} OutputStep(recs: seq<Record>, np: int, m: nat)
    requires ValidPartitionCount(np) && AllKeysPrintable(recs) && 0 < m <= np
    ensures AllKeysPrintable(Select(recs, np, m - 1))
    ensures Output(recs, np, m) == Output(recs, np, m - 1) + PartitionBlock(Select(recs, np, m - 1))
  {
    SelectPrintable(recs, np, m - 1);
  }

  /** The first m blocks hold exactly the records of the first m partitions. */
  lemma {:induction false} OutputHoldsPartitions(recs: seq<Record>, np: int, m: nat)
    requires ValidPartitionCount(np) && AllKeysPrintable(recs) && m <= np
    ensures multiset(Output(recs, np, m)) == multiset(SelectAll(recs, np, m))
  {
    if m > 0 {
      OutputHoldsPartitions(recs, np, m - 1);
      OutputStep(recs, np, m);
      PartitionBlockPermutes(Select(recs, np, m - 1));
    }
  }

  /** The first m blocks hold exactly the input records of the partitions below m. */
  lemma {:induction false} OutputMembership(recs: seq<Record>, np: int, m: nat, x: Record)
    requires ValidPartitionCount(np) && AllKeysPrintable(recs) && m <= np
    ensures x in Output(recs, np, m) <==> x in recs && KeyPrintable(x) && PartitionOf(x, np) < m
  {
    var all := SelectAll(recs, np, m);
    OutputHoldsPartitions(recs, np, m);
    CountMultiplicity(all, x);
    CountMultiplicity(recs, x);
    var inAll: multiset<Record>, inRecs: multiset<Record> := multiset(all), multiset(recs);
    assert x in Output(recs, np, m) <==> inAll[x] > 0;
    assert x in recs <==> inRecs[x] > 0;
    if KeyPrintable(x) {
      SelectAllCount(recs, np, m, x);
    } else {
      SelectAllUnprintable(recs, np, m, x);
    }
  }

  /** Records of an earlier partition are never larger than records of a later one. */
  lemma {:induction false} EarlierPartitionsFirst(earlier: seq<Record>, later: seq<Record>, np: int, q: int)
    requires ValidPartitionCount(np)
    requires forall x | x in earlier :: KeyPrintable(x) && PartitionOf(x, np) < q
    requires forall y | y in later :: KeyPrintable(y) && PartitionOf(y, np) == q
    ensures Precedes(earlier, later)
  {
    forall x, y | x in earlier && y in later ensures !RecordLess(y, x) {
      CrossPartitionOrder(x, y, np);
    }
  }

  /** No record of partition m - 1's block is smaller than a record of an earlier block. */
  lemma {:induction false} BlockFollowsOutput(recs: seq<Record>, np: int, m: nat)
    requires ValidPartitionCount(np) && AllKeysPrintable(recs) && 1 <= m <= np
    ensures AllKeysPrintable(Select(recs, np, m - 1))
    ensures Precedes(Output(recs, np, m - 1), PartitionBlock(Select(recs, np, m - 1)))
  {
    SelectPrintable(recs, np, m - 1);
    var part := Select(recs, np, m - 1);
    var block := PartitionBlock(part);
    var earlier := Output(recs, np, m - 1);
    forall x | x in earlier ensures KeyPrintable(x) && PartitionOf(x, np) < m - 1 {
      OutputMembership(recs, np, m - 1, x);
    }
    BlockMembers(part);
    SelectedRecords(recs, np, m - 1);
    EarlierPartitionsFirst(earlier, block, np, m - 1);
  }

  /** The blocks laid out in partition order are sorted by key. */
  lemma {:induction false} OutputSorted(recs: seq<Record>, np: int, m: nat)
    requires ValidPartitionCount(np) && AllKeysPrintable(recs) && m <= np
    ensures SortedRecords(Output(recs, np, m))
  {
    if m > 0 {
      OutputSorted(recs, np, m - 1);
      OutputStep(recs, np, m);
      BlockFollowsOutput(recs, np, m);
      PartitionBlockSorted(Select(recs, np, m - 1));
      SortedConcat(Output(recs, np, m - 1), PartitionBlock(Select(recs, np, m - 1)));
    }
  }

  /** The whole output: every input record exactly once, in key order. */
  lemma {:induction false} OutputIsSortedPermutation(recs: seq<Record>, np: int)
    requires ValidPartitionCount(np) && AllKeysPrintable(recs)
    ensures SortedRecords(Output(recs, np, np))
    ensures multiset(Output(recs, np, np)) == multiset(recs)
    ensures |Output(recs, np, np)| == |recs|
  {
    OutputSorted(recs, np, np);
    OutputHoldsPartitions(recs, np, np);
    PartitionsArePermutation(recs, np);
    assert |multiset(Output(recs, np, np))| == |multiset(recs)|;
  }
}
