/**
 * Sorting embeddings by the 10-byte key of the records they refer to.
 *
 * The sample sort of `TwoLayerRMI::train` (include/elsar/internal/rmi.h)
 * calls `std::sort` with the comparator `strncmp(a.record, b.record, KEY_SZ) < 0`.
 * The per-partition `in_memory_sort` is not part of this model; it is taken
 * to sort by the same comparator. `SortByKey` is a reference sort (an
 * insertion sort, stable on equal keys) whose result is proved sorted and
 * a permutation of its input. Neither library routine is bound to that
 * order of records with equal keys, so the model fixes a tie order that the
 * source does not.
 */
module Sorting {
  import opened Globals
  import opened KeyOrder
  import opened Embeddings

  /** The embedding's key lies inside the buffer it refers to. */
  predicate KeyInBuffer(buf: seq<byte>, e: EmbeddingValue)
  {
    0 <= e.record && e.record + KEY_SZ <= |buf|
  }

  predicate AllKeysInBuffer(buf: seq<byte>, s: seq<EmbeddingValue>)
  {
    forall e | e in s :: KeyInBuffer(buf, e)
  }

  function KeyOf(buf: seq<byte>, e: EmbeddingValue): seq<byte>
    requires KeyInBuffer(buf, e)
  {
    buf[e.record .. e.record + KEY_SZ]
  }

  /** The comparator `strncmp(a.record, b.record, KEY_SZ) < 0`. */
  predicate KeyLess(buf: seq<byte>, a: EmbeddingValue, b: EmbeddingValue)
    requires KeyInBuffer(buf, a) && KeyInBuffer(buf, b)
  {
    StrncmpLess(KeyOf(buf, a), KeyOf(buf, b), KEY_SZ)
  }

  /** No later element's key is smaller than an earlier one's. */
  predicate SortedByKey(buf: seq<byte>, s: seq<EmbeddingValue>)
    requires AllKeysInBuffer(buf, s)
  {
    forall i, j :: 0 <= i < j < |s| ==> !KeyLess(buf, s[j], s[i])
  }

  lemma {:induction false} SortedPrepend(buf: seq<byte>, y: EmbeddingValue, t: seq<EmbeddingValue>)
    requires KeyInBuffer(buf, y) && AllKeysInBuffer(buf, t) && SortedByKey(buf, t)
    requires forall e | e in t :: !KeyLess(buf, e, y)
    ensures AllKeysInBuffer(buf, [y] + t) && SortedByKey(buf, [y] + t)
  {
    var r := [y] + t;
    forall i, j | 0 <= i < j < |r| ensures !KeyLess(buf, r[j], r[i]) {
      assert r[j] == t[j - 1];
      if i > 0 {
        assert r[i] == t[i - 1];
      }
    }
  }

  /** Inserts x after every element whose key is not greater than x's. */
  function Insert(buf: seq<byte>, x: EmbeddingValue, s: seq<EmbeddingValue>): (r: seq<EmbeddingValue>)
    requires KeyInBuffer(buf, x) && AllKeysInBuffer(buf, s)
    ensures |r| == |s| + 1
    ensures AllKeysInBuffer(buf, r)
  {
    if s == [] || KeyLess(buf, x, s[0]) then [x] + s
    else
      assert s == [s[0]] + s[1..];
      [s[0]] + Insert(buf, x, s[1..])
  }

  /** Inserting adds x and keeps every other element. */
  lemma {:induction false} InsertPermutes(buf: seq<byte>, x: EmbeddingValue, s: seq<EmbeddingValue>)
    requires KeyInBuffer(buf, x) && AllKeysInBuffer(buf, s)
    ensures multiset(Insert(buf, x, s)) == multiset(s) + multiset{x}
  {
    if s != [] && !KeyLess(buf, x, s[0]) {
      assert s == [s[0]] + s[1..];
      InsertPermutes(buf, x, s[1..]);
    }
  }

  lemma {:induction false} InsertSorted(buf: seq<byte>, x: EmbeddingValue, s: seq<EmbeddingValue>)
    requires KeyInBuffer(buf, x) && AllKeysInBuffer(buf, s) && SortedByKey(buf, s)
    ensures SortedByKey(buf, Insert(buf, x, s))
  {
    if s == [] {
    } else if KeyLess(buf, x, s[0]) {
      forall e | e in s ensures !KeyLess(buf, e, x) {
        var j :| 0 <= j < |s| && s[j] == e;
        if j == 0 {
          StrncmpAsymmetric(KeyOf(buf, x), KeyOf(buf, e), KEY_SZ);
        } else {
          assert !KeyLess(buf, s[j], s[0]);
          StrncmpChain(KeyOf(buf, e), KeyOf(buf, x), KeyOf(buf, s[0]), KEY_SZ);
        }
      }
      SortedPrepend(buf, x, s);
    } else {
      var t := Insert(buf, x, s[1..]);
      InsertSorted(buf, x, s[1..]);
      InsertPermutes(buf, x, s[1..]);
      forall e | e in t ensures !KeyLess(buf, e, s[0]) {
        assert e in multiset(t);
        if e != x {
          assert e in multiset(s[1..]);
          var j :| 0 <= j < |s[1..]| && s[1..][j] == e;
          assert s[j + 1] == e;
        }
      }
      SortedPrepend(buf, s[0], t);
    }
  }

  /** The reference sort: a permutation of s. */
  function SortByKey(buf: seq<byte>, s: seq<EmbeddingValue>): (r: seq<EmbeddingValue>)
    requires AllKeysInBuffer(buf, s)
    ensures |r| == |s|
    ensures AllKeysInBuffer(buf, r)
  {
    if s == [] then []
    else
      assert s == [s[0]] + s[1..];
      Insert(buf, s[0], SortByKey(buf, s[1..]))
  }

  /** The reference sort is a permutation of s... */
  lemma {:induction false} SortByKeyPermutes(buf: seq<byte>, s: seq<EmbeddingValue>)
    requires AllKeysInBuffer(buf, s)
    ensures multiset(SortByKey(buf, s)) == multiset(s)
  {
    if s != [] {
      assert s == [s[0]] + s[1..];
      SortByKeyPermutes(buf, s[1..]);
      InsertPermutes(buf, s[0], SortByKey(buf, s[1..]));
    }
  }

  /** ...sorted by key. */
  lemma {:induction false} SortByKeySorted(buf: seq<byte>, s: seq<EmbeddingValue>)
    requires AllKeysInBuffer(buf, s)
    ensures SortedByKey(buf, SortByKey(buf, s))
  {
    if s != [] {
      SortByKeySorted(buf, s[1..]);
      InsertSorted(buf, s[0], SortByKey(buf, s[1..]));
    }
  }

  /**
   * `in_memory_sort(begin, end, size)`: rearranges the embeddings of a
   * partition so that their records are in key order. The routine itself
   * is not part of this model; this method stands for it by the reference
   * sort, so records with equal keys come out in the reference sort's order.
   */
  method InMemorySort(contents: array<EmbeddingValue>, buf: seq<byte>, size: nat)
    requires size == contents.Length && AllKeysInBuffer(buf, contents[..])
    modifies contents
    ensures contents[..] == SortByKey(buf, old(contents[..]))
    ensures multiset(contents[..]) == multiset(old(contents[..]))
    ensures AllKeysInBuffer(buf, contents[..]) && SortedByKey(buf, contents[..])
  {
    var sorted := SortByKey(buf, contents[..]);
    SortByKeySorted(buf, contents[..]);
    SortByKeyPermutes(buf, contents[..]);
    forall i | 0 <= i < size {
      contents[i] := sorted[i];
    }
    assert contents[..] == sorted;
  }
}
