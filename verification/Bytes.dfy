/** Bytes, blocks of memory as sequences, and the two reference orders that the
    block-wise code is measured against: `MemCmp` on blocks of one length and
    `StrCmp` on strings. Both look at one byte at a time, the first as an unsigned number, the
    second as a signed one. */
module Bytes {
  type u8 = x: int | 0 <= x < 0x100

  /** 256 to the power of `n`. */
  function Pow256(n: nat): (p: nat)
    ensures p > 0
  {
    if n == 0 then 1 else 256 * Pow256(n - 1)
  }

  function Sign(x: int): int {
    if x < 0 then -1 else if x > 0 then 1 else 0
  }

  /** The difference of the first bytes that differ, 0 when none do. */
  function MemCmp(a: seq<u8>, b: seq<u8>): int
    requires |a| == |b|
  {
    if a == [] then 0
    else if a[0] != b[0] then a[0] as int - b[0] as int
    else MemCmp(a[1..], b[1..])
  }

  lemma {:induction false} MemCmpEqual(a: seq<u8>, b: seq<u8>)
    requires |a| == |b|
    ensures MemCmp(a, b) == 0 <==> a == b
  {
    if a != [] {
      MemCmpEqual(a[1..], b[1..]);
      assert a == [a[0]] + a[1..] && b == [b[0]] + b[1..];
    }
  }

  /** What the sign of `MemCmp` means, without recursion: the first pair that differs decides. */
  lemma {:induction false} MemCmpFirstDifference(a: seq<u8>, b: seq<u8>, k: nat)
    requires |a| == |b| && k < |a|
    requires a[..k] == b[..k] && a[k] != b[k]
    ensures MemCmp(a, b) == a[k] as int - b[k] as int
  {
    if k > 0 {
      assert a[0] == a[..k][0] == b[..k][0] == b[0];
      assert a[1..][..k - 1] == a[..k][1..] && b[1..][..k - 1] == b[..k][1..];
      MemCmpFirstDifference(a[1..], b[1..], k - 1);
    }
  }

  /** Comparison may be done piecewise: a difference in the front decides, and an equal front is skipped. */
  lemma {:induction false} MemCmpSplit(a: seq<u8>, b: seq<u8>, k: nat)
    requires |a| == |b| && k <= |a|
    ensures MemCmp(a, b) == if a[..k] == b[..k] then MemCmp(a[k..], b[k..]) else MemCmp(a[..k], b[..k])
  {
    if k > 0 {
      assert a[..k] == [a[0]] + a[1..][..k - 1] && b[..k] == [b[0]] + b[1..][..k - 1];
      assert a[..k][1..] == a[1..][..k - 1] && b[..k][1..] == b[1..][..k - 1];
      if a[0] == b[0] {
        MemCmpSplit(a[1..], b[1..], k - 1);
        assert a[k..] == a[1..][k - 1..] && b[k..] == b[1..][k - 1..];
      }
    } else {
      assert a[0..] == a && b[0..] == b;
    }
  }

  lemma SliceOfSlice(s: seq<u8>, a: nat, b: nat, i: nat, j: nat)
    requires a <= b <= |s| && i <= j <= b - a
    ensures s[a..b][i..j] == s[a + i..a + j]
  {
    forall k | 0 <= k < j - i
      ensures s[a..b][i..j][k] == s[a + i..a + j][k]
    {
    }
  }

  // ---------- strings ----------

  predicate NulFree(s: seq<u8>) {
    forall i :: 0 <= i < |s| ==> s[i] != 0
  }

  /** What a C string pointer to `s` sees: everything in front of the first NUL. */
  function UpToNul(s: seq<u8>): seq<u8> {
    if s == [] || s[0] == 0 then [] else [s[0]] + UpToNul(s[1..])
  }

  lemma {:induction false} UpToNulIsFree(s: seq<u8>)
    ensures NulFree(UpToNul(s))
  {
    if s != [] && s[0] != 0 {
      UpToNulIsFree(s[1..]);
    }
  }

  lemma {:induction false} UpToNulMeans(s: seq<u8>, more: seq<u8>)
    requires NulFree(s)
    ensures UpToNul(s) == s && UpToNul(s + [0] + more) == s
  {
    if s != [] {
      UpToNulMeans(s[1..], more);
      assert (s + [0] + more)[1..] == s[1..] + [0] + more;
      assert s == [s[0]] + s[1..];
    }
  }

  /** A byte as the `char` that the runtime's own string comparisons subtract: it is signed. */
  function Char(b: u8): int {
    if b < 0x80 then b else b - 0x100
  }

  /** The difference of the first characters that differ; a string ends in an implicit NUL. */
  function StrCmp(a: seq<u8>, b: seq<u8>): int {
    if a == [] && b == [] then 0
    else if a == [] then -Char(b[0])
    else if b == [] then Char(a[0])
    else if a[0] != b[0] then Char(a[0]) - Char(b[0])
    else StrCmp(a[1..], b[1..])
  }

  /** The comparison as ISO C11 defines it, on unsigned characters. */
  function UnsignedStrCmp(a: seq<u8>, b: seq<u8>): int {
    if a == [] && b == [] then 0
    else if a == [] then -(b[0] as int)
    else if b == [] then a[0] as int
    else if a[0] != b[0] then a[0] as int - b[0] as int
    else UnsignedStrCmp(a[1..], b[1..])
  }

  /** Are the first characters that differ, if any, both below 0x80 or both not? */
  predicate SameHalf(a: seq<u8>, b: seq<u8>) {
    if a == [] && b == [] then true
    else if a == [] then b[0] < 0x80
    else if b == [] then a[0] < 0x80
    else if a[0] != b[0] then a[0] < 0x80 <==> b[0] < 0x80
    else SameHalf(a[1..], b[1..])
  }

  /** The runtime's comparison has the sign that the standard asks for exactly when the characters
      that decide are in the same half; whether it is zero is never in question. */
  lemma {:induction false} StrCmpSignIff(a: seq<u8>, b: seq<u8>)
    requires NulFree(a) && NulFree(b)
    ensures Sign(StrCmp(a, b)) == Sign(UnsignedStrCmp(a, b)) <==> SameHalf(a, b)
    ensures StrCmp(a, b) == 0 <==> UnsignedStrCmp(a, b) == 0
  {
    if a != [] && b != [] {
      StrCmpSignIff(a[1..], b[1..]);
    }
  }

  /** A single 0x80 against a single 1. */
  lemma StrCmpWitness()
    ensures StrCmp([0x80], [1]) < 0 < UnsignedStrCmp([0x80], [1])
  {
  }

  lemma {:induction false} StrCmpEqual(a: seq<u8>, b: seq<u8>)
    requires NulFree(a) && NulFree(b)
    ensures StrCmp(a, b) == 0 <==> a == b
  {
    if a != [] && b != [] {
      StrCmpEqual(a[1..], b[1..]);
      assert a == [a[0]] + a[1..] && b == [b[0]] + b[1..];
    }
  }

  lemma {:induction false} StrCmpAntisymmetric(a: seq<u8>, b: seq<u8>)
    ensures StrCmp(a, b) == -StrCmp(b, a)
  {
    if a != [] && b != [] && a[0] == b[0] {
      StrCmpAntisymmetric(a[1..], b[1..]);
    }
  }

  lemma {:induction false} UnsignedStrCmpAntisymmetric(a: seq<u8>, b: seq<u8>)
    ensures UnsignedStrCmp(a, b) == -UnsignedStrCmp(b, a)
  {
    if a != [] && b != [] && a[0] == b[0] {
      UnsignedStrCmpAntisymmetric(a[1..], b[1..]);
    }
  }

  lemma {:induction false} StrCmpTransitive(a: seq<u8>, b: seq<u8>, c: seq<u8>)
    requires NulFree(a) && NulFree(b) && NulFree(c)
    requires StrCmp(a, b) <= 0 && StrCmp(b, c) <= 0
    ensures StrCmp(a, c) <= 0
    ensures StrCmp(a, b) < 0 || StrCmp(b, c) < 0 ==> StrCmp(a, c) < 0
  {
    if a != [] && b != [] && c != [] && a[0] == b[0] == c[0] {
      StrCmpTransitive(a[1..], b[1..], c[1..]);
    }
  }
}
