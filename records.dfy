/**
 * A file of fixed-width records: splitting a byte sequence into records,
 * joining records back into bytes, and the key order on records that the
 * sorted output must respect (`strncmp` on the first KEY_SZ bytes).
 */
module Records {
  import opened Globals
  import opened KeyOrder

  /** The record that starts at byte offset `at`. */
  function RecordAt(bytes: seq<byte>, at: nat): Record
    requires at + 100 <= |bytes|
  {
    bytes[at .. at + 100]
  }

  /** The bytes as consecutive records; the last record ends the sequence. */
  function RecordsOf(bytes: seq<byte>): (r: seq<Record>)
    requires |bytes| % 100 == 0
    ensures |r| * 100 == |bytes|
    decreases |bytes|
  {
    if |bytes| == 0 then []
    else RecordsOf(bytes[..|bytes| - 100]) + [bytes[|bytes| - 100..]]
  }

  /** The records, one after the other. */
  function Flatten(recs: seq<Record>): (b: seq<byte>)
    ensures |b| == |recs| * 100
  {
    if recs == [] then [] else Flatten(recs[..|recs| - 1]) + Last(recs)
  }

  /** The first m of the record sequences, one after the other. */
  function Joined(parts: seq<seq<Record>>, m: nat): seq<Record>
    requires m <= |parts|
  {
    if m == 0 then [] else Joined(parts, m - 1) + parts[m - 1]
  }

  /** Record i of the file starts at byte i * 100. */
  lemma {:induction false} RecordsOfIndex(bytes: seq<byte>, i: nat)
    requires |bytes| % 100 == 0 && i < |bytes| / 100
    ensures i * 100 + 100 <= |bytes|
    ensures RecordsOf(bytes)[i] == RecordAt(bytes, i * 100)
    decreases |bytes|
  {
    var n := |bytes| - 100;
    var init := bytes[..n];
    assert RecordsOf(bytes) == RecordsOf(init) + [bytes[n..]];
    if i < n / 100 {
      RecordsOfIndex(init, i);
    } else {
      assert i * 100 == n;
    }
  }

  /** Splitting a concatenation at a record boundary. */
  lemma {:induction false} RecordsOfAppend(a: seq<byte>, b: seq<byte>)
    requires |a| % 100 == 0 && |b| % 100 == 0
    ensures RecordsOf(a + b) == RecordsOf(a) + RecordsOf(b)
    decreases |b|
  {
    if |b| > 0 {
      var n := |b| - 100;
      assert (a + b)[..|a + b| - 100] == a + b[..n];
      assert (a + b)[|a + b| - 100..] == b[n..];
      RecordsOfAppend(a, b[..n]);
    } else {
      assert a + b == a;
    }
  }

  lemma {:induction false} FlattenAppend(a: seq<Record>, b: seq<Record>)
    ensures Flatten(a + b) == Flatten(a) + Flatten(b)
    decreases |b|
  {
    if b == [] {
      assert a + b == a;
    } else {
      assert (a + b)[..|a + b| - 1] == a + b[..|b| - 1];
      FlattenAppend(a, b[..|b| - 1]);
    }
  }

  /** The records between two record boundaries. */
  function RecordsBetween(bytes: seq<byte>, from: nat, to: nat): (r: seq<Record>)
    requires from <= to <= |bytes| && from % 100 == 0 && to % 100 == 0
    ensures |r| * 100 == to - from
  {
    RecordsOf(bytes[from..to])
  }

  /** Cutting whole records at a record boundary splits the records there. */
  lemma {:induction false} RecordsOfSplit(bytes: seq<byte>, cut: nat, end: nat)
    requires cut <= end <= |bytes| && cut % 100 == 0 && end % 100 == 0
    ensures RecordsOf(bytes[..end]) == RecordsOf(bytes[..cut]) + RecordsBetween(bytes, cut, end)
  {
    assert bytes[..end] == bytes[..cut] + bytes[cut..end];
    RecordsOfAppend(bytes[..cut], bytes[cut..end]);
  }

  /** Splitting joined records gives the records back. */
  lemma {:induction false} RecordsOfFlatten(recs: seq<Record>)
    ensures |Flatten(recs)| % 100 == 0
    ensures RecordsOf(Flatten(recs)) == recs
    decreases |recs|
  {
    if recs != [] {
      var init := recs[..|recs| - 1];
      RecordsOfFlatten(init);
      var b := Flatten(recs);
      assert b[..|b| - 100] == Flatten(init);
      assert b[|b| - 100..] == Last(recs);
    }
  }

  /** Joining the split records gives the bytes back. */
  lemma {:induction false} FlattenRecordsOf(bytes: seq<byte>)
    requires |bytes| % 100 == 0
    ensures Flatten(RecordsOf(bytes)) == bytes
    decreases |bytes|
  {
    if |bytes| > 0 {
      var n := |bytes| - 100;
      FlattenRecordsOf(bytes[..n]);
      var r := RecordsOf(bytes);
      assert r[..|r| - 1] == RecordsOf(bytes[..n]);
    }
  }

  /** Record i of a copy of the first n records of src lies at start + i * 100. */
  lemma {:induction false} CopiedRecord(dst: seq<byte>, start: nat, src: seq<byte>, n: nat, i: nat)
    requires |src| % 100 == 0 && n * 100 <= |src| && i < n
    requires start + n * 100 <= |dst|
    requires dst[start .. start + n * 100] == src[..n * 100]
    ensures dst[start + i * 100 .. start + i * 100 + 100] == RecordsOf(src)[i]
  {
    RecordsOfIndex(src, i);
    var from := i * 100;
    var len := n * 100;
    assert from + 100 <= len;
    var copied, original := dst[start + from .. start + from + 100], src[from .. from + 100];
    forall k | 0 <= k < 100
      ensures copied[k] == original[k]
    {
      assert dst[start .. start + len][from + k] == src[..len][from + k];
    }
    assert copied == original;
  }

  // ------------------------------------------------------------------
  // Key order on records
  // ------------------------------------------------------------------

  /** `strncmp(a, b, KEY_SZ) < 0`. */
  predicate RecordLess(a: Record, b: Record)
  {
    StrncmpLess(a, b, KEY_SZ)
  }

  /** No later record has a smaller key than an earlier one. */
  predicate SortedRecords(s: seq<Record>)
  {
    forall i, j :: 0 <= i < j < |s| ==> !RecordLess(s[j], s[i])
  }

  /** No record of b has a smaller key than a record of a. */
  predicate Precedes(a: seq<Record>, b: seq<Record>)
  {
    forall x, y | x in a && y in b :: !RecordLess(y, x)
  }

  /** Two sorted runs, every key of the second at least every key of the first, make a sorted run. */
  lemma {:induction false} SortedConcat(a: seq<Record>, b: seq<Record>)
    requires SortedRecords(a) && SortedRecords(b) && Precedes(a, b)
    ensures SortedRecords(a + b)
  {
    var s := a + b;
    forall i, j | 0 <= i < j < |s| ensures !RecordLess(s[j], s[i]) {
      if j < |a| {
        assert s[i] == a[i] && s[j] == a[j];
      } else if i >= |a| {
        assert s[i] == b[i - |a|] && s[j] == b[j - |a|];
      } else {
        assert s[i] in a && s[j] in b;
      }
    }
  }
}
