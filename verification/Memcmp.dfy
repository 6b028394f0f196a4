/** Block-wise memcmp, generic (non-SSE) path: overlapping head and tail blocks,
    big-endian loads and a narrowed difference, against the byte-wise `MemCmp`. */
module Memcmp {
  import opened Bytes
  import opened Bits
  import opened IAlign

  // ---------- loads ----------

  /** The number a little-endian machine reads from the block `s`. */
  function Load(s: seq<u8>): nat {
    if s == [] then 0 else s[0] + 256 * Load(s[1..])
  }

  /** Reverses the `n` bytes of `v`. */
  function Bswap(v: nat, n: nat): nat {
    if n == 0 then 0 else (v % 256) * Pow256(n - 1) + Bswap(v / 256, n - 1)
  }

  function LoadBE(s: seq<u8>): nat {
    Bswap(Load(s), |s|)
  }

  lemma LoadBECons(s: seq<u8>)
    requires s != []
    ensures LoadBE(s) == s[0] * Pow256(|s| - 1) + LoadBE(s[1..])
  {
    var v := Load(s);
    assert v == s[0] + 256 * Load(s[1..]);
    assert v % 256 == s[0] && v / 256 == Load(s[1..]);
  }

  lemma {:induction false} LoadBEBound(s: seq<u8>)
    ensures 0 <= LoadBE(s) < Pow256(|s|)
  {
    if s != [] {
      LoadBECons(s);
      LoadBEBound(s[1..]);
      MulMonotone(s[0], 255, Pow256(|s| - 1));
    }
  }

  /** Big-endian numbers are ordered as the byte blocks they were loaded from. */
  lemma {:induction false} LoadBEOrder(a: seq<u8>, b: seq<u8>)
    requires |a| == |b|
    ensures Sign(LoadBE(a) - LoadBE(b)) == Sign(MemCmp(a, b))
  {
    if a != [] {
      LoadBECons(a);
      LoadBECons(b);
      if a[0] == b[0] {
        LoadBEOrder(a[1..], b[1..]);
      } else {
        LoadBEBound(a[1..]);
        LoadBEBound(b[1..]);
        HighByteDecides(a[0], b[0], LoadBE(a[1..]), LoadBE(b[1..]), Pow256(|a| - 1));
      }
    }
  }

  lemma HighByteDecides(x: u8, y: u8, s: nat, t: nat, p: nat)
    requires x != y && s < p && t < p
    ensures Sign(x * p + s - (y * p + t)) == Sign(x - y)
  {
    if x < y {
      MulMonotone(x + 1, y, p);
      assert (x + 1) * p == x * p + p;
    } else {
      MulMonotone(y + 1, x, p);
      assert (y + 1) * p == y * p + p;
    }
  }

  lemma {:induction false} LoadInjective(a: seq<u8>, b: seq<u8>)
    requires |a| == |b|
    ensures Load(a) == Load(b) <==> a == b
  {
    if a != [] {
      LoadInjective(a[1..], b[1..]);
      assert Load(a) % 256 == a[0] && Load(b) % 256 == b[0];
      assert a == [a[0]] + a[1..] && b == [b[0]] + b[1..];
    }
  }

  // ---------- 32-bit narrowing of a 33-bit difference ----------

  lemma Pow2Of16()
    ensures Pow2(16) == 0x1_0000
  {
    assert Pow2(4) == 16;
    assert Pow2(8) == 256 by { assert Pow2(6) == 64; }
    assert Pow2(12) == 4096 by { assert Pow2(10) == 1024; }
    assert Pow2(14) == 16384;
  }

  /** Two's complement `x | y` for any `x` and a 16-bit `y`: only the low 16 bits of `x` change. */
  function OrLow16(x: int, y: nat): int
    requires y < 0x1_0000
  {
    x - x % 0x1_0000 + Or(x % 0x1_0000, y)
  }

  function ToI32(x: int): int {
    var low := x % 0x1_0000_0000;
    if low < 0x8000_0000 then low else low - 0x1_0000_0000
  }

  lemma OrLow16Bounds(x: int, y: nat)
    requires y < 0x1_0000
    ensures x <= OrLow16(x, y) < 0x1_0000 * (x / 0x1_0000) + 0x1_0000
    ensures OrLow16(x, y) == 0 <==> x == 0 && y == 0
  {
    var low := x % 0x1_0000;
    assert x == 0x1_0000 * (x / 0x1_0000) + low;
    Pow2Of16();
    OrBounds(low, y, 16);
    ZeroBlock(x / 0x1_0000, Or(low, y));
  }

  lemma ZeroBlock(block: int, low: nat)
    requires low < 0x1_0000
    ensures 0x1_0000 * block + low == 0 <==> block == 0 && low == 0
  {
  }

  /** The difference needs 33 bits; its half has 32, and or-ing back the low half of the
      difference loses neither the sign nor that it is nonzero. */
  lemma NarrowedDifference(diff: int, half: int, low: nat, block: int, r: int)
    requires -0x1_0000_0000 < diff < 0x1_0000_0000
    requires 2 * half <= diff <= 2 * half + 1 && low == diff % 0x1_0000
    requires 0x1_0000 * block <= half <= r < 0x1_0000 * block + 0x1_0000
    requires r == 0 <==> half == 0 && low == 0
    ensures Sign(r) == Sign(diff) && ToI32(r) == r
    ensures -0x8000_0000 <= r < 0x8000_0000
  {
    assert -0x8000 <= block < 0x8000;
  }

  /** `diff >> 1 | diff & 0xFFFF`, cut to 32 bits. */
  function CmpEqU32(x: nat, y: nat): (r: int)
    requires x < 0x1_0000_0000 && y < 0x1_0000_0000
    ensures Sign(r) == Sign(x - y)
    ensures -0x8000_0000 <= r < 0x8000_0000
  {
    var diff := x - y;
    var half, low := diff / 2, diff % 0x1_0000;
    OrLow16Bounds(half, low);
    NarrowedDifference(diff, half, low, half / 0x1_0000, OrLow16(half, low));
    ToI32(OrLow16(half, low))
  }

  function CmpNeqU64(x: nat, y: nat): int {
    if x < y then -5 else 5
  }

  // ---------- one block ----------

  predicate BlockSize(w: nat) {
    w == 1 || w == 2 || w == 4 || w == 8
  }

  predicate IsExpensive(w: nat) {
    w > 4
  }

  lemma Pow256Values()
    ensures Pow256(1) == 0x100 && Pow256(2) == 0x1_0000 && Pow256(4) == 0x1_0000_0000
  {
    assert Pow256(3) == 0x100_0000;
  }

  /** `cmp_eq`: plain difference for 1 and 2 bytes, the narrowed one for 4. */
  function CmpEq(w: nat, lhs: seq<u8>, rhs: seq<u8>, off: nat): (r: int)
    requires BlockSize(w) && !IsExpensive(w)
    requires |lhs| == |rhs| && off + w <= |lhs|
    ensures Sign(r) == Sign(MemCmp(lhs[off..off + w], rhs[off..off + w]))
    ensures -0x8000_0000 <= r < 0x8000_0000
  {
    var a, b := lhs[off..off + w], rhs[off..off + w];
    LoadBEOrder(a, b);
    LoadBEBound(a);
    LoadBEBound(b);
    Pow256Values();
    if w == 4 then CmpEqU32(LoadBE(a), LoadBE(b)) else LoadBE(a) - LoadBE(b)
  }

  predicate Eq(w: nat, lhs: seq<u8>, rhs: seq<u8>, off: nat)
    requires |lhs| == |rhs| && off + w <= |lhs|
  {
    Load(lhs[off..off + w]) == Load(rhs[off..off + w])
  }

  function CmpNeq(lhs: seq<u8>, rhs: seq<u8>, off: nat): int
    requires |lhs| == |rhs| && off + 8 <= |lhs|
  {
    CmpNeqU64(LoadBE(lhs[off..off + 8]), LoadBE(rhs[off..off + 8]))
  }

  function CmpBlockOff(w: nat, lhs: seq<u8>, rhs: seq<u8>, off: nat): (r: int)
    requires BlockSize(w) && |lhs| == |rhs| && off + w <= |lhs|
    ensures Sign(r) == Sign(MemCmp(lhs[off..off + w], rhs[off..off + w]))
    ensures -0x8000_0000 <= r < 0x8000_0000
  {
    var a, b := lhs[off..off + w], rhs[off..off + w];
    if IsExpensive(w) then
      LoadBEOrder(a, b);
      LoadInjective(a, b);
      MemCmpEqual(a, b);
      if !Eq(w, lhs, rhs, off) then CmpNeq(lhs, rhs, off) else 0
    else
      CmpEq(w, lhs, rhs, off)
  }

  /** Two cheap blocks, the second one right after the first. */
  function CmpBlockSeq(w0: nat, w1: nat, lhs: seq<u8>, rhs: seq<u8>): (r: int)
    requires BlockSize(w0) && BlockSize(w1) && !IsExpensive(w0) && !IsExpensive(w1)
    requires |lhs| == |rhs| == w0 + w1
    ensures Sign(r) == Sign(MemCmp(lhs, rhs))
    ensures -0x8000_0000 <= r < 0x8000_0000
  {
    MemCmpSplit(lhs, rhs, w0);
    MemCmpEqual(lhs[..w0], rhs[..w0]);
    assert lhs[0..0 + w0] == lhs[..w0] && rhs[0..0 + w0] == rhs[..w0];
    assert lhs[w0..][0..0 + w1] == lhs[w0..] && rhs[w0..][0..0 + w1] == rhs[w0..];
    var v := CmpEq(w0, lhs, rhs, 0);
    if v != 0 then v else CmpEq(w1, lhs[w0..], rhs[w0..], 0)
  }

  /** First and last block; they overlap unless the length is exactly two blocks. */
  function CmpFirstLastBlock(w: nat, lhs: seq<u8>, rhs: seq<u8>): (r: int)
    requires BlockSize(w) && |lhs| == |rhs| && w <= |lhs| <= 2 * w
    ensures Sign(r) == Sign(MemCmp(lhs, rhs))
    ensures -0x8000_0000 <= r < 0x8000_0000
  {
    var len := |lhs|;
    var head := CmpBlockOff(w, lhs, rhs, 0);
    assert lhs[0..0 + w] == lhs[..w] && rhs[0..0 + w] == rhs[..w];
    MemCmpSplit(lhs, rhs, w);
    MemCmpEqual(lhs[..w], rhs[..w]);
    if head != 0 then head
    else
      LastBlock(lhs, rhs, w, len - w);
      assert lhs[len - w..len - w + w] == lhs[len - w..] && rhs[len - w..len - w + w] == rhs[len - w..];
      CmpBlockOff(w, lhs, rhs, len - w)
  }

  /** An overlapping last block is harmless once everything before `off` is known equal. */
  lemma LastBlock(lhs: seq<u8>, rhs: seq<u8>, off: nat, limit: nat)
    requires |lhs| == |rhs| && limit <= off <= |lhs|
    requires lhs[..off] == rhs[..off]
    ensures MemCmp(lhs, rhs) == MemCmp(lhs[limit..], rhs[limit..])
  {
    assert lhs[..limit] == lhs[..off][..limit] && rhs[..limit] == rhs[..off][..limit];
    MemCmpSplit(lhs, rhs, limit);
  }

  // ---------- loops ----------

  /** `__cmp_loop_and_last_off` on 8-byte blocks, starting at `start`. */
  method CmpLoopAndLastOff(lhs: seq<u8>, rhs: seq<u8>, start: nat) returns (r: int)
    requires |lhs| == |rhs| && 8 <= |lhs| && start <= |lhs| - 8
    requires lhs[..start] == rhs[..start]
    ensures Sign(r) == Sign(MemCmp(lhs, rhs))
    ensures -0x8000_0000 <= r < 0x8000_0000
  {
    var off, limit := start, |lhs| - 8;
    while off < limit
      invariant off <= |lhs|
      invariant lhs[..off] == rhs[..off]
    {
      var a, b := lhs[off..off + 8], rhs[off..off + 8];
      LoadInjective(a, b);
      if !Eq(8, lhs, rhs, off) {
        LoadBEOrder(a, b);
        MemCmpEqual(a, b);
        MemCmpSplit(lhs, rhs, off);
        MemCmpSplit(lhs[off..], rhs[off..], 8);
        assert lhs[off..][..8] == a && rhs[off..][..8] == b;
        return CmpNeq(lhs, rhs, off);
      }
      assert lhs[..off + 8] == lhs[..off] + a && rhs[..off + 8] == rhs[..off] + b;
      off := off + 8;
    }
    LastBlock(lhs, rhs, off, limit);
    assert lhs[limit..limit + 8] == lhs[limit..] && rhs[limit..limit + 8] == rhs[limit..];
    return CmpBlockOff(8, lhs, rhs, limit);
  }

  const ALIGN_THRESHOLD: nat := 384

  method CmpLoopAndLastAlign(lhs: seq<u8>, rhs: seq<u8>, lhsAddress: nat) returns (r: int)
    requires |lhs| == |rhs| && 16 <= |lhs|
    ensures Sign(r) == Sign(MemCmp(lhs, rhs))
    ensures -0x8000_0000 <= r < 0x8000_0000
  {
    var l, rr := lhs, rhs;
    var align := OffsetFromLastAlign(8, lhsAddress);
    if |lhs| >= ALIGN_THRESHOLD && align != 8 {
      var v := CmpBlockOff(8, lhs, rhs, 0);
      assert lhs[0..0 + 8] == lhs[..8] && rhs[0..0 + 8] == rhs[..8];
      MemCmpSplit(lhs, rhs, 8);
      MemCmpEqual(lhs[..8], rhs[..8]);
      if v != 0 {
        return v;
      }
      LastBlock(lhs, rhs, 8, align);
      l, rr := lhs[align..], rhs[align..];
    }
    r := CmpLoopAndLastOff(l, rr, 0);
  }

  // ---------- dispatch ----------

  /** The lengths that never reach a loop. */
  function UpTo16(lhs: seq<u8>, rhs: seq<u8>): (r: int)
    requires |lhs| == |rhs| <= 16
    ensures Sign(r) == Sign(MemCmp(lhs, rhs))
    ensures -0x8000_0000 <= r < 0x8000_0000
  {
    var len := |lhs|;
    assert lhs[0..0 + len] == lhs && rhs[0..0 + len] == rhs;
    if len == 0 then 0
    else if len == 1 then CmpBlockOff(1, lhs, rhs, 0)
    else if len == 2 then CmpBlockOff(2, lhs, rhs, 0)
    else if len == 3 then CmpBlockSeq(2, 1, lhs, rhs)
    else if len == 4 then CmpBlockOff(4, lhs, rhs, 0)
    else if len == 5 then CmpBlockSeq(4, 1, lhs, rhs)
    else if len == 6 then CmpBlockSeq(4, 2, lhs, rhs)
    else if len == 7 then CmpFirstLastBlock(4, lhs, rhs)
    else if len == 8 then CmpBlockOff(8, lhs, rhs, 0)
    else CmpFirstLastBlock(8, lhs, rhs)
  }

  /** `__memcmp_dispatch` without SSE: for all blocks of one length and every address of the left
      one, the sign is that of the first differing unsigned byte pair. */
  method Dispatch(lhs: seq<u8>, rhs: seq<u8>, lhsAddress: nat) returns (r: int)
    requires |lhs| == |rhs|
    ensures Sign(r) == Sign(MemCmp(lhs, rhs))
    ensures r == 0 <==> lhs == rhs
    ensures -0x8000_0000 <= r < 0x8000_0000
  {
    MemCmpEqual(lhs, rhs);
    if |lhs| <= 16 {
      return UpTo16(lhs, rhs);
    }
    r := CmpLoopAndLastAlign(lhs, rhs, lhsAddress);
  }
}
