/**
 * Constants and basic types shared by every part of the external sort.
 * The values are those of the reference configuration in
 * include/elsar/internal/globals.h.
 */
module Globals {

  /** One byte of a record, as read from or written to a file. */
  type byte = x: int | 0 <= x < 256

  /** `converted_t` is a 64-bit unsigned integer. */
  const U64_LIMIT: int := 0x1_0000_0000_0000_0000
  type u64 = x: int | 0 <= x < U64_LIMIT

  /** Record width and key width, in bytes. */
  const BYTES_PER_REC: nat := 100
  const KEY_SZ: nat := 10

  /** '~', the largest printable ASCII code. */
  const MAX_ASCII_CODE: nat := 126

  /** Batch sizes of the ingest and write phases, in records. */
  const WRITE_BATCH_SZ: nat := 1000
  const READ_BATCH_RECS: nat := 1000000

  /** Embeddings per record that the in-memory sort needs room for. */
  const IN_MEM_SORT_MEM_MULTIPLIER: nat := 3

  /** Target number of records per coarse partition. */
  const AVG_PARTITION_RECS: nat := 10964912

  /** A fixed-width record: exactly BYTES_PER_REC bytes. */
  type Record = s: seq<byte> | |s| == 100 witness seq(100, _ => 0)

  datatype Option<T> = None | Some(value: T)

  /** `back()` of a non-empty vector. */
  function Last<T>(s: seq<T>): T
    requires |s| > 0
  {
    s[|s| - 1]
  }

  function Min(a: int, b: int): int { if a <= b then a else b }
  function Max(a: int, b: int): int { if a >= b then a else b }
}
