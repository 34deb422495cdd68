/**
 * The two orders on record keys used by the sort.
 *
 * `StrncmpLess` is `strncmp(a, b, n) < 0`, the comparison the sample sort in
 * include/elsar/internal/rmi.h:162-164 uses on the 10-byte key. `LexLess` is
 * plain lexicographic order on the first n bytes, the order the key encoding
 * and the coarse partitioner are meant to preserve.
 */
module KeyOrder {
  import opened Globals

  /**
   * `strncmp(a, b, n) < 0`. Bytes are compared as unsigned char; the
   * comparison stops at the first differing byte, at a NUL byte both strings
   * share, or after n bytes.
   */
  predicate StrncmpLess(a: seq<byte>, b: seq<byte>, n: nat)
    requires n <= |a| && n <= |b|
    ensures StrncmpLess(a, b, n) ==> a[..n] != b[..n]
  {
    n > 0 &&
    if a[0] != b[0] then a[0] < b[0]
    else a[0] != 0 && StrncmpLess(a[1..], b[1..], n - 1)
  }

  /** Position k is the first at which a and b differ, and a is smaller there. */
  predicate LexLessAt(a: seq<byte>, b: seq<byte>, k: nat)
  {
    k < |a| && k < |b| && a[..k] == b[..k] && a[k] < b[k]
  }

  /** Lexicographic order on the first n bytes. */
  predicate LexLess(a: seq<byte>, b: seq<byte>, n: nat)
  {
    exists k :: 0 <= k < n && LexLessAt(a, b, k)
  }

  /** None of the first n bytes is NUL. */
  predicate NoNul(a: seq<byte>, n: nat)
    requires n <= |a|
  {
    forall i :: 0 <= i < n ==> a[i] != 0
  }

  lemma {:induction false} StrncmpIrreflexive(a: seq<byte>, n: nat)
    requires n <= |a|
    ensures !StrncmpLess(a, a, n)
  {
    if n > 0 {
      StrncmpIrreflexive(a[1..], n - 1);
    }
  }

  lemma {:induction false} StrncmpTransitive(a: seq<byte>, b: seq<byte>, c: seq<byte>, n: nat)
    requires n <= |a| && n <= |b| && n <= |c|
    requires StrncmpLess(a, b, n) && StrncmpLess(b, c, n)
    ensures StrncmpLess(a, c, n)
  {
    if a[0] == b[0] && b[0] == c[0] {
      StrncmpTransitive(a[1..], b[1..], c[1..], n - 1);
    }
  }

  /** Transitivity as an implication, for callers that do not know its premises hold. */
  lemma {:induction false} StrncmpChain(a: seq<byte>, b: seq<byte>, c: seq<byte>, n: nat)
    requires n <= |a| && n <= |b| && n <= |c|
    ensures StrncmpLess(a, b, n) && StrncmpLess(b, c, n) ==> StrncmpLess(a, c, n)
  {
    if StrncmpLess(a, b, n) && StrncmpLess(b, c, n) {
      StrncmpTransitive(a, b, c, n);
    }
  }

  lemma {:induction false} StrncmpAsymmetric(a: seq<byte>, b: seq<byte>, n: nat)
    requires n <= |a| && n <= |b|
    requires StrncmpLess(a, b, n)
    ensures !StrncmpLess(b, a, n)
  {
    if a[0] == b[0] {
      StrncmpAsymmetric(a[1..], b[1..], n - 1);
    }
  }

  /** Dropping a shared first byte shifts the first difference down by one. */
  lemma {:induction false} LexLessAtTail(a: seq<byte>, b: seq<byte>, k: nat)
    requires |a| > 0 && |b| > 0 && a[0] == b[0]
    ensures LexLessAt(a, b, k + 1) <==> LexLessAt(a[1..], b[1..], k)
  {
    if k + 1 < |a| && k + 1 < |b| {
      assert a[..k + 1] == [a[0]] + a[1..][..k];
      assert b[..k + 1] == [b[0]] + b[1..][..k];
    }
  }

  /** Without NUL bytes, `strncmp` is lexicographic order. */
  lemma {:induction false} StrncmpIsLex(a: seq<byte>, b: seq<byte>, n: nat)
    requires n <= |a| && n <= |b| && NoNul(a, n)
    ensures StrncmpLess(a, b, n) <==> LexLess(a, b, n)
  {
    if n == 0 {
    } else if a[0] != b[0] {
      if a[0] < b[0] {
        assert LexLessAt(a, b, 0);
      } else {
        forall k | 0 <= k < n ensures !LexLessAt(a, b, k) {
          if k > 0 && k < |a| && k < |b| {
            assert a[..k][0] == a[0];
            assert b[..k][0] == b[0];
          }
        }
      }
    } else {
      assert NoNul(a[1..], n - 1) by {
        forall i | 0 <= i < n - 1 ensures a[1..][i] != 0 {
          assert a[1..][i] == a[i + 1];
        }
      }
      StrncmpIsLex(a[1..], b[1..], n - 1);
      if LexLess(a, b, n) {
        var k :| 0 <= k < n && LexLessAt(a, b, k);
        assert k > 0;
        LexLessAtTail(a, b, k - 1);
        assert LexLess(a[1..], b[1..], n - 1);
      }
      if LexLess(a[1..], b[1..], n - 1) {
        var k :| 0 <= k < n - 1 && LexLessAt(a[1..], b[1..], k);
        LexLessAtTail(a, b, k);
        assert LexLessAt(a, b, k + 1);
      }
    }
  }

  /** Lexicographic order is asymmetric. */
  lemma {:induction false} LexLessAsymmetric(a: seq<byte>, b: seq<byte>, n: nat)
    requires LexLess(a, b, n)
    ensures !LexLess(b, a, n)
  {
    var k :| 0 <= k < n && LexLessAt(a, b, k);
    forall j | 0 <= j < n ensures !LexLessAt(b, a, j) {
      if j < k && j < |a| && j < |b| {
        assert a[..k][j] == a[j] && b[..k][j] == b[j];
      } else if k < j && j < |a| && j < |b| {
        assert a[..j][k] == a[k] && b[..j][k] == b[k];
      }
    }
  }

  /** Two different n-byte prefixes are ordered one way or the other. */
  lemma {:induction false} LexTrichotomy(a: seq<byte>, b: seq<byte>, n: nat)
    requires n <= |a| && n <= |b| && a[..n] != b[..n]
    ensures LexLess(a, b, n) || LexLess(b, a, n)
  {
    if a[..n - 1] != b[..n - 1] {
      LexTrichotomy(a, b, n - 1);
      if LexLess(a, b, n - 1) {
        var k :| 0 <= k < n - 1 && LexLessAt(a, b, k);
        assert LexLessAt(a, b, k);
      } else {
        var k :| 0 <= k < n - 1 && LexLessAt(b, a, k);
        assert LexLessAt(b, a, k);
      }
    } else {
      assert a[n - 1] != b[n - 1] by {
        assert a[..n] == a[..n - 1] + [a[n - 1]];
        assert b[..n] == b[..n - 1] + [b[n - 1]];
      }
      if a[n - 1] < b[n - 1] {
        assert LexLessAt(a, b, n - 1);
      } else {
        assert LexLessAt(b, a, n - 1);
      }
    }
  }

  /** Order on a longer prefix implies order or equality on a shorter one. */
  lemma {:induction false} LexLessShorten(a: seq<byte>, b: seq<byte>, m: nat, n: nat)
    requires m <= n && m <= |a| && m <= |b| && LexLess(a, b, n)
    ensures LexLess(a, b, m) || a[..m] == b[..m]
  {
    var k :| 0 <= k < n && LexLessAt(a, b, k);
    if k < m {
      assert LexLessAt(a, b, k);
    } else {
      assert a[..m] == a[..k][..m];
      assert b[..m] == b[..k][..m];
    }
  }

  /** `strncmp` with bound n reads only the first n bytes. */
  lemma {:induction false} StrncmpLessPrefix(a: seq<byte>, b: seq<byte>, n: nat, m: nat)
    requires n <= m <= |a| && m <= |b|
    ensures StrncmpLess(a[..m], b[..m], n) == StrncmpLess(a, b, n)
  {
    if n > 0 {
      assert a[..m][1..] == a[1..][..m - 1];
      assert b[..m][1..] == b[1..][..m - 1];
      StrncmpLessPrefix(a[1..], b[1..], n - 1, m - 1);
    }
  }
}
