/**
 * The record-moving helpers of include/elsar/internal/utils.h that the
 * external sort calls: reading a fragment file into a buffer of records and
 * a batch of embeddings, and appending the records a reader has assigned to
 * each partition to that partition's fragment file.
 *
 * A file is the sequence of its bytes. A pointer into a record buffer is
 * the byte offset it points to; a `vector<char *>` of such pointers is a
 * sequence of offsets.
 */
module Utils {
  import opened Globals
  import opened Keys
  import opened Embeddings
  import opened Records
  import opened Layout

  /** Every offset starts a whole record inside the buffer. */
  predicate InBuffer(buf: seq<byte>, offs: seq<nat>)
  {
    forall o | o in offs :: o + 100 <= |buf|
  }

  /** The records the offsets point to, in the order of the offsets. */
  function Gather(buf: seq<byte>, offs: seq<nat>): (recs: seq<Record>)
    requires InBuffer(buf, offs)
    ensures |recs| == |offs|
  {
    if offs == [] then []
    else
      var init := offs[..|offs| - 1];
      assert forall o | o in init :: o in offs;
      assert Last(offs) in offs;
      Gather(buf, init) + [RecordAt(buf, Last(offs))]
  }

  /** One more pointer gathers one more record. */
  lemma {:induction false} GatherSnoc(buf: seq<byte>, offs: seq<nat>, o: nat)
    requires InBuffer(buf, offs) && o + 100 <= |buf|
    ensures InBuffer(buf, offs + [o])
    ensures Gather(buf, offs + [o]) == Gather(buf, offs) + [RecordAt(buf, o)]
  {
    assert (offs + [o])[..|offs|] == offs;
  }

  /** One more record joins the bytes one record longer. */
  lemma {:induction false} FlattenSnoc(recs: seq<Record>, rec: Record)
    ensures Flatten(recs + [rec]) == Flatten(recs) + rec
  {
    assert (recs + [rec])[..|recs|] == recs;
  }

  /** Every key in the file is printable (bytes 32 to 127). */
  predicate FileKeysPrintable(file: seq<byte>)
  {
    |file| % 100 == 0 && AllKeysPrintable(RecordsOf(file))
  }

  /**
   * `_read_records_file_into_embeddings`: reads numRecsToRead records from
   * the start of the file into recsBuf at bufStart, then fills the batch at
   * batchStart with one embedding per record, pointing at the record's copy
   * in recsBuf and holding its converted key. A short read ends the program
   * in the source; here it returns ok = false.
   */
  method ReadRecordsIntoEmbeddings(file: seq<byte>, numRecsToRead: nat,
                                   convertedBatch: array<EmbeddingValue>, batchStart: nat,
                                   recsBuf: array<byte>, bufStart: nat)
    returns (ok: bool, numRecsRead: nat)
    requires FileKeysPrintable(file)
    requires batchStart + numRecsToRead <= convertedBatch.Length
    requires bufStart + numRecsToRead * 100 <= recsBuf.Length
    modifies convertedBatch, recsBuf
    ensures ok <==> numRecsToRead * 100 <= |file|
    ensures ok ==> numRecsRead == numRecsToRead
    ensures ok ==> recsBuf[bufStart .. bufStart + numRecsRead * 100] == file[..numRecsRead * 100]
    ensures ok ==> forall j :: 0 <= j < recsBuf.Length && !(bufStart <= j < bufStart + numRecsRead * 100) ==>
      recsBuf[j] == old(recsBuf[j])
    ensures ok ==> forall i :: 0 <= i < numRecsRead ==>
      KeyPrintable(RecordsOf(file)[i]) &&
      convertedBatch[batchStart + i] == EmbeddingValue(bufStart + i * 100, EncodedKey(RecordsOf(file)[i]))
    ensures ok ==> forall j :: 0 <= j < convertedBatch.Length && !(batchStart <= j < batchStart + numRecsRead) ==>
      convertedBatch[j] == old(convertedBatch[j])
  {
    if |file| < numRecsToRead * 100 {
      return false, 0;
    }
    ghost var recs := RecordsOf(file);
    forall j | 0 <= j < numRecsToRead * 100 {
      recsBuf[bufStart + j] := file[j];
    }
    ok, numRecsRead := true, numRecsToRead;
    assert recsBuf[bufStart .. bufStart + numRecsRead * 100] == file[..numRecsRead * 100];
    ghost var buf, batch := recsBuf[..], convertedBatch[..];
    var recIdx := 0;
    while recIdx < numRecsRead
      modifies convertedBatch
      invariant 0 <= recIdx <= numRecsRead
      invariant recsBuf[..] == buf
      invariant forall i :: 0 <= i < recIdx ==>
        KeyPrintable(recs[i]) &&
        convertedBatch[batchStart + i] == EmbeddingValue(bufStart + i * 100, EncodedKey(recs[i]))
      invariant forall j :: 0 <= j < convertedBatch.Length && !(batchStart <= j < batchStart + recIdx) ==>
        convertedBatch[j] == batch[j]
    {
      var at := bufStart + recIdx * 100;
      CopiedRecord(buf, bufStart, file, numRecsRead, recIdx);
      assert recs[recIdx] in recs;
      var key := ConvertKey(recsBuf[at .. at + 100]);
      convertedBatch[batchStart + recIdx] := EmbeddingValue(at, key);
      recIdx := recIdx + 1;
    }
  }

  /**
   * The `fwrite_unlocked` loop of `_flush_fragments` for one partition:
   * appends the record each pointer names to the fragment file, in pointer
   * order.
   */
  method WriteRecords(fid: seq<byte>, recsBuf: array<byte>, offs: seq<nat>) returns (written: seq<byte>)
    requires InBuffer(recsBuf[..], offs)
    ensures written == fid + Flatten(Gather(recsBuf[..], offs))
  {
    ghost var buf := recsBuf[..];
    written := fid;
    var k := 0;
    while k < |offs|
      invariant 0 <= k <= |offs|
      invariant InBuffer(buf, offs[..k])
      invariant written == fid + Flatten(Gather(buf, offs[..k]))
    {
      WrittenPrefix(buf, offs, k);
      ghost var before := Flatten(Gather(buf, offs[..k]));
      assert (fid + before) + buf[offs[k] .. offs[k] + 100] ==
        fid + (before + buf[offs[k] .. offs[k] + 100]);
      written := written + recsBuf[offs[k] .. offs[k] + 100];
      k := k + 1;
    }
    assert offs[..|offs|] == offs;
  }

  /** The records of the first k + 1 pointers are those of the first k and then the record pointer k names. */
  lemma {:induction false} WrittenPrefix(buf: seq<byte>, offs: seq<nat>, k: nat)
    requires InBuffer(buf, offs) && k < |offs|
    ensures offs[k] + 100 <= |buf|
    ensures InBuffer(buf, offs[..k]) && InBuffer(buf, offs[..k + 1])
    ensures Flatten(Gather(buf, offs[..k + 1])) ==
      Flatten(Gather(buf, offs[..k])) + buf[offs[k] .. offs[k] + 100]
  {
    assert offs[k] in offs;
    assert forall o | o in offs[..k] :: o in offs;
    assert offs[..k + 1] == offs[..k] + [offs[k]];
    GatherSnoc(buf, offs[..k], offs[k]);
    FlattenSnoc(Gather(buf, offs[..k]), RecordAt(buf, offs[k]));
  }

  /**
   * `_flush_fragments` for one reader, whose fragment files and sizes are
   * the rows fragFiles and fragSizes: writes the records each partition's
   * pointers name to that partition's fragment file, in pointer order, adds
   * their number to the partition's fragment size and clears the pointers.
   */
  method FlushFragments(frags: array<seq<nat>>, recsBuf: array<byte>,
                        fragFiles: array<seq<byte>>, fragSizes: array<nat>, numPartitions: nat)
    requires numPartitions == frags.Length == fragFiles.Length == fragSizes.Length
    requires forall p :: 0 <= p < numPartitions ==> InBuffer(recsBuf[..], frags[p])
    modifies frags, fragFiles, fragSizes
    ensures forall p :: 0 <= p < numPartitions ==> frags[p] == []
    ensures forall p :: 0 <= p < numPartitions ==>
      fragFiles[p] == old(fragFiles[p]) + Flatten(Gather(recsBuf[..], old(frags[p]))) &&
      fragSizes[p] == old(fragSizes[p]) + |old(frags[p])|
  {
    for partitionIdx := 0 to numPartitions
      invariant forall p :: 0 <= p < partitionIdx ==>
        frags[p] == [] &&
        fragFiles[p] == old(fragFiles[p]) + Flatten(Gather(recsBuf[..], old(frags[p]))) &&
        fragSizes[p] == old(fragSizes[p]) + |old(frags[p])|
      invariant forall p :: partitionIdx <= p < numPartitions ==>
        frags[p] == old(frags[p]) && fragFiles[p] == old(fragFiles[p]) && fragSizes[p] == old(fragSizes[p])
    {
      var fid := WriteRecords(fragFiles[partitionIdx], recsBuf, frags[partitionIdx]);
      fragFiles[partitionIdx] := fid;
      fragSizes[partitionIdx] := fragSizes[partitionIdx] + |frags[partitionIdx]|;
      frags[partitionIdx] := [];
    }
  }
}
