/**
 * Key encoding (`_convert_key` in include/elsar/internal/utils.h).
 *
 * The first nine key bytes are read as the digits of a base-95 number, most
 * significant first, each digit being the byte minus the smallest printable
 * code. The source computes the powers of 95 with `pow()` on doubles; every
 * power it uses is at most 95^8 < 2^53, so the model uses exact integers.
 */
module Keys {
  import opened Globals
  import opened KeyOrder
  import opened CppArith

  const MIN_PRINTABLE_CHAR: nat := 32
  const MAX_PRINTABLE_CHAR: nat := 127
  const PRINTABLE_RANGE: nat := MAX_PRINTABLE_CHAR - MIN_PRINTABLE_CHAR
  const MAX_EMBEDDING_VALUE: nat := PRINTABLE_RANGE * PRINTABLE_RANGE + PRINTABLE_RANGE
  const NUM_CHARS_TO_CONVERT: nat := 9

  function Pow(b: nat, e: nat): nat
  {
    if e == 0 then 1 else b * Pow(b, e - 1)
  }

  lemma {:induction false} PowPositive(b: nat, e: nat)
    requires b > 0
    ensures Pow(b, e) > 0
  {
    if e > 0 {
      PowPositive(b, e - 1);
    }
  }

  /** Every one of the first n bytes lies in [MIN_PRINTABLE_CHAR, hi]. */
  predicate BytesWithin(key: seq<byte>, n: nat, hi: nat)
    requires n <= |key|
  {
    forall i :: 0 <= i < n ==> MIN_PRINTABLE_CHAR <= key[i] <= hi
  }

  /** The bytes the source's constants admit: codes 32 to 127. */
  predicate Printable(key: seq<byte>, n: nat)
    requires n <= |key|
  {
    BytesWithin(key, n, MAX_PRINTABLE_CHAR)
  }

  /** Printable ASCII proper: codes 32 ' ' to 126 '~'. */
  predicate Ascii(key: seq<byte>, n: nat)
    requires n <= |key|
  {
    BytesWithin(key, n, MAX_ASCII_CODE)
  }

  lemma {:induction false} PrintableHasNoNul(key: seq<byte>, n: nat)
    requires n <= |key| && Printable(key, n)
    ensures NoNul(key, n)
  {
  }

  /** The value of `value` after the first i iterations of the loop. */
  function PartialKey(key: seq<byte>, i: nat): (value: int)
    requires i <= NUM_CHARS_TO_CONVERT <= |key| && Printable(key, NUM_CHARS_TO_CONVERT)
    ensures value >= 0
  {
    if i == 0 then 0
    else PartialKey(key, i - 1)
         + (key[i - 1] - MIN_PRINTABLE_CHAR) * Pow(PRINTABLE_RANGE, NUM_CHARS_TO_CONVERT - i)
  }

  lemma {:induction false} MulComm95(d: int, x: int)
    ensures d * (95 * x) == 95 * (d * x)
  {
  }

  /**
   * Digits i0..i-1 contribute between 0 and d/94 * (95^(9-i0) - 95^(9-i))
   * when no digit exceeds d. With d = 94 (printable ASCII) this is the usual
   * base-95 bound; with d = 95 (byte 127 admitted) it still fits in 64 bits.
   */
  lemma {:induction false} PartialKeyGrowth(key: seq<byte>, i0: nat, i: nat, d: nat)
    requires i0 <= i <= NUM_CHARS_TO_CONVERT <= |key| && Printable(key, NUM_CHARS_TO_CONVERT)
    requires forall j :: 0 <= j < NUM_CHARS_TO_CONVERT ==> key[j] - MIN_PRINTABLE_CHAR <= d
    ensures 0 <= PartialKey(key, i) - PartialKey(key, i0)
    ensures 94 * (PartialKey(key, i) - PartialKey(key, i0))
            <= d * Pow(95, 9 - i0) - d * Pow(95, 9 - i)
  {
    if i > i0 {
      PartialKeyGrowth(key, i0, i - 1, d);
      var x := Pow(95, 9 - i);
      var c := key[i - 1] - MIN_PRINTABLE_CHAR;
      assert Pow(95, 9 - (i - 1)) == 95 * x;
      PowPositive(95, 9 - i);
      MulMonotone(0, c, x);
      MulMonotone(c, d, x);
      MulComm95(d, x);
      var cx, dx := c * x, d * x;
      assert PartialKey(key, i) == PartialKey(key, i - 1) + cx;
      assert 0 <= cx <= dx;
      assert d * Pow(95, 9 - (i - 1)) == 95 * dx;
    }
  }

  /** 95^9, the number of distinct nine-character ASCII prefixes. */
  const KEY_SPACE: nat := 630249409724609375

  lemma {:induction false} Pow95Nine()
    ensures Pow(95, 9) == KEY_SPACE
  {
  }

  /** Every partial sum fits 64 bits; for ASCII it stays below 95^9. */
  lemma {:induction false} PartialKeyBounds(key: seq<byte>, i: nat)
    requires i <= NUM_CHARS_TO_CONVERT <= |key| && Printable(key, NUM_CHARS_TO_CONVERT)
    ensures 0 <= PartialKey(key, i) < U64_LIMIT
    ensures Ascii(key, NUM_CHARS_TO_CONVERT) ==> PartialKey(key, i) < KEY_SPACE
  {
    Pow95Nine();
    PartialKeyGrowth(key, 0, i, 95);
    PartialKeyGrowth(key, i, NUM_CHARS_TO_CONVERT, 95);
    if Ascii(key, NUM_CHARS_TO_CONVERT) {
      PartialKeyGrowth(key, 0, NUM_CHARS_TO_CONVERT, 94);
      PartialKeyGrowth(key, i, NUM_CHARS_TO_CONVERT, 94);
    }
  }

  /**
   * The converted key: the sum over the first nine bytes of
   * (key[i] - 32) * 95^(8 - i). It fits `converted_t` for every byte in
   * [32, 127], and lies below 95^9 for printable ASCII.
   */
  function EncodedKey(key: seq<byte>): (r: u64)
    requires NUM_CHARS_TO_CONVERT <= |key| && Printable(key, NUM_CHARS_TO_CONVERT)
    ensures Ascii(key, NUM_CHARS_TO_CONVERT) ==> r < KEY_SPACE
  {
    PartialKeyBounds(key, NUM_CHARS_TO_CONVERT);
    PartialKey(key, NUM_CHARS_TO_CONVERT)
  }

  /**
   * The loop of `_convert_key`: `value` accumulates one digit per iteration,
   * and never leaves the 64-bit range.
   */
  method ConvertKey(key: seq<byte>) returns (value: u64)
    requires NUM_CHARS_TO_CONVERT <= |key| && Printable(key, NUM_CHARS_TO_CONVERT)
    ensures value == EncodedKey(key)
  {
    value := 0;
    var i := 0;
    while i < NUM_CHARS_TO_CONVERT
      invariant 0 <= i <= NUM_CHARS_TO_CONVERT
      invariant value == PartialKey(key, i)
    {
      PartialKeyBounds(key, i + 1);
      value := value + (key[i] - MIN_PRINTABLE_CHAR) * Pow(PRINTABLE_RANGE, NUM_CHARS_TO_CONVERT - i - 1);
      i := i + 1;
    }
  }

  /** Only the first i bytes contribute to the first i digits. */
  lemma {:induction false} PartialKeyOfPrefix(a: seq<byte>, b: seq<byte>, i: nat)
    requires i <= NUM_CHARS_TO_CONVERT <= |a| && NUM_CHARS_TO_CONVERT <= |b|
    requires Printable(a, NUM_CHARS_TO_CONVERT) && Printable(b, NUM_CHARS_TO_CONVERT)
    requires a[..i] == b[..i]
    ensures PartialKey(a, i) == PartialKey(b, i)
  {
    if i > 0 {
      assert a[..i - 1] == a[..i][..i - 1];
      assert b[..i - 1] == b[..i][..i - 1];
      assert a[i - 1] == a[..i][i - 1];
      assert b[i - 1] == b[..i][i - 1];
      PartialKeyOfPrefix(a, b, i - 1);
    }
  }

  /** The tenth key byte, and everything after it, never contributes. */
  lemma {:induction false} EncodedKeyIgnoresTail(a: seq<byte>, b: seq<byte>)
    requires NUM_CHARS_TO_CONVERT <= |a| && NUM_CHARS_TO_CONVERT <= |b|
    requires Printable(a, NUM_CHARS_TO_CONVERT) && Printable(b, NUM_CHARS_TO_CONVERT)
    requires a[..NUM_CHARS_TO_CONVERT] == b[..NUM_CHARS_TO_CONVERT]
    ensures EncodedKey(a) == EncodedKey(b)
  {
    PartialKeyOfPrefix(a, b, NUM_CHARS_TO_CONVERT);
  }

  /** For printable ASCII, a smaller nine-byte prefix gives a smaller key. */
  lemma {:induction false} EncodedKeyStrictlyMonotone(a: seq<byte>, b: seq<byte>)
    requires NUM_CHARS_TO_CONVERT <= |a| && NUM_CHARS_TO_CONVERT <= |b|
    requires Ascii(a, NUM_CHARS_TO_CONVERT) && Ascii(b, NUM_CHARS_TO_CONVERT)
    requires LexLess(a, b, NUM_CHARS_TO_CONVERT)
    ensures EncodedKey(a) < EncodedKey(b)
  {
    var k :| 0 <= k < NUM_CHARS_TO_CONVERT && LexLessAt(a, b, k);
    PartialKeyOfPrefix(a, b, k);
    var x := Pow(95, 8 - k);
    var ca := a[k] - MIN_PRINTABLE_CHAR;
    var cb := b[k] - MIN_PRINTABLE_CHAR;
    PowPositive(95, 8 - k);
    MulMonotone(ca + 1, cb, x);
    assert (ca + 1) * x == ca * x + x;
    var cax, cbx := ca * x, cb * x;
    assert PartialKey(a, k + 1) == PartialKey(a, k) + cax;
    assert PartialKey(b, k + 1) == PartialKey(b, k) + cbx;
    PartialKeyGrowth(a, k + 1, NUM_CHARS_TO_CONVERT, 94);
    PartialKeyGrowth(b, k + 1, NUM_CHARS_TO_CONVERT, 94);
    assert Pow(95, 9 - NUM_CHARS_TO_CONVERT) == 1;
    assert 94 * Pow(95, 9 - (k + 1)) - 94 * 1 == 94 * (x - 1);
  }

  /**
   * On printable ASCII the encoding is an order embedding of the nine-byte
   * prefix: `<` on converted keys is lexicographic `<`, and equal converted
   * keys mean equal prefixes.
   */
  lemma {:induction false} EncodedKeyOrderIff(a: seq<byte>, b: seq<byte>)
    requires NUM_CHARS_TO_CONVERT <= |a| && NUM_CHARS_TO_CONVERT <= |b|
    requires Ascii(a, NUM_CHARS_TO_CONVERT) && Ascii(b, NUM_CHARS_TO_CONVERT)
    ensures EncodedKey(a) < EncodedKey(b) <==> LexLess(a, b, NUM_CHARS_TO_CONVERT)
    ensures EncodedKey(a) == EncodedKey(b) <==> a[..NUM_CHARS_TO_CONVERT] == b[..NUM_CHARS_TO_CONVERT]
  {
    if a[..NUM_CHARS_TO_CONVERT] == b[..NUM_CHARS_TO_CONVERT] {
      EncodedKeyIgnoresTail(a, b);
      forall k | 0 <= k < NUM_CHARS_TO_CONVERT ensures !LexLessAt(a, b, k) {
        assert a[k] == a[..NUM_CHARS_TO_CONVERT][k];
        assert b[k] == b[..NUM_CHARS_TO_CONVERT][k];
      }
    } else {
      LexTrichotomy(a, b, NUM_CHARS_TO_CONVERT);
      if LexLess(a, b, NUM_CHARS_TO_CONVERT) {
        EncodedKeyStrictlyMonotone(a, b);
      } else {
        EncodedKeyStrictlyMonotone(b, a);
      }
    }
  }

  /**
   * Byte 127 (DEL) is a digit of value 95, which is not a base-95 digit:
   * the keys " \x7f       " and "!        " are lexicographically ordered
   * but encode to the same value, 95^8.
   */
  lemma {:induction false} DelByteBreaksOrder()
    ensures var a := [32, 127, 32, 32, 32, 32, 32, 32, 32];
            var b := [33, 32, 32, 32, 32, 32, 32, 32, 32];
            LexLess(a, b, NUM_CHARS_TO_CONVERT) && a[..NUM_CHARS_TO_CONVERT] != b[..NUM_CHARS_TO_CONVERT]
            && EncodedKey(a) == EncodedKey(b)
  {
    var a: seq<byte> := [32, 127, 32, 32, 32, 32, 32, 32, 32];
    var b: seq<byte> := [33, 32, 32, 32, 32, 32, 32, 32, 32];
    assert LexLessAt(a, b, 0);
    assert a[1] != b[1];
  }
}
