/** The SSE4.1 path of memcmp as written: 16-byte blocks, compared by the larger of each pair of
    64-bit lanes. What it returns is zero exactly on equal blocks of memory; what its sign means
    for longer ones is another matter. */
module MemcmpSse {
  import opened Bytes
  import opened Bits
  import opened IAlign
  import opened Memcmp

  // ---------- one block ----------

  /** `__sse_max_u8` on one lane: it takes the larger 64-bit number, not the larger bytes. */
  function MaxLane(a: seq<u8>, b: seq<u8>): seq<u8> {
    if Load(a) < Load(b) then b else a
  }

  function MaxBlock(x: seq<u8>, y: seq<u8>): seq<u8>
    requires |x| == |y| == 16
  {
    MaxLane(x[..8], y[..8]) + MaxLane(x[8..], y[8..])
  }

  /** `be_cmp_mask`: a one for every byte of `v` that equals the one of `max`, the first on top. */
  function Mask(max: seq<u8>, v: seq<u8>): nat
    requires |max| == |v|
  {
    if v == [] then 0
    else (if max[0] == v[0] then Pow2(|v| - 1) else 0) + Mask(max[1..], v[1..])
  }

  /** `cmp_neq<Gmi128>` */
  function CmpNeq16(x: seq<u8>, y: seq<u8>): int
    requires |x| == |y| == 16
  {
    Mask(MaxBlock(x, y), x) - Mask(MaxBlock(x, y), y)
  }

  lemma {:induction false} MaskBound(max: seq<u8>, v: seq<u8>)
    requires |max| == |v|
    ensures Mask(max, v) < Pow2(|v|)
  {
    if v != [] {
      MaskBound(max[1..], v[1..]);
    }
  }

  /** The first byte that differs decides between two masks, in favour of the side it comes from. */
  lemma {:induction false} MaskDecides(max: seq<u8>, x: seq<u8>, y: seq<u8>, k: nat)
    requires |max| == |x| == |y| && k < |x| && x[..k] == y[..k] && max[k] == x[k] != y[k]
    ensures Mask(max, x) > Mask(max, y)
  {
    if k == 0 {
      MaskBound(max[1..], y[1..]);
    } else {
      assert x[0] == x[..k][0] && y[0] == y[..k][0];
      assert x[1..][..k - 1] == x[..k][1..] && y[1..][..k - 1] == y[..k][1..];
      MaskDecides(max[1..], x[1..], y[1..], k - 1);
    }
  }

  function FirstDifference(x: seq<u8>, y: seq<u8>): (k: nat)
    requires |x| == |y| && x != y
    ensures k < |x| && x[..k] == y[..k] && x[k] != y[k]
  {
    if x[0] != y[0] then 0
    else
      assert x == [x[0]] + x[1..] && y == [y[0]] + y[1..];
      var k := FirstDifference(x[1..], y[1..]);
      assert x[..k + 1] == [x[0]] + x[1..][..k] && y[..k + 1] == [y[0]] + y[1..][..k];
      k + 1
  }

  lemma PrefixAgrees(x: seq<u8>, y: seq<u8>, n: nat)
    requires |x| == |y| && n <= |x| && x[..n] == y[..n]
    ensures forall k :: 0 <= k < n ==> x[k] == y[k]
  {
    forall k | 0 <= k < n
      ensures x[k] == y[k]
    {
      assert x[k] == x[..n][k] && y[k] == y[..n][k];
    }
  }

  /** There is only one. */
  lemma FirstDifferenceIs(x: seq<u8>, y: seq<u8>, k: nat)
    requires |x| == |y| && k < |x| && x[..k] == y[..k] && x[k] != y[k]
    ensures x != y && FirstDifference(x, y) == k
  {
    PrefixAgrees(x, y, k);
    PrefixAgrees(x, y, FirstDifference(x, y));
  }

  function LastDifference(x: seq<u8>, y: seq<u8>): (j: nat)
    requires |x| == |y| && x != y
    ensures j < |x| && x[j] != y[j] && x[j + 1..] == y[j + 1..]
  {
    var last := |x| - 1;
    if x[last] != y[last] then last
    else
      assert x == x[..last] + [x[last]] && y == y[..last] + [y[last]];
      var j := LastDifference(x[..last], y[..last]);
      assert x[j + 1..] == x[..last][j + 1..] + [x[last]] && y[j + 1..] == y[..last][j + 1..] + [y[last]];
      j
  }

  lemma LastDifferenceIs(x: seq<u8>, y: seq<u8>, j: nat)
    requires |x| == |y| && j < |x| && x[j] != y[j] && forall i :: j < i < |x| ==> x[i] == y[i]
    ensures x != y && LastDifference(x, y) == j
  {
    var l := LastDifference(x, y);
    forall i | l < i < |x|
      ensures x[i] == y[i]
    {
      assert x[i] == x[l + 1..][i - l - 1] && y[i] == y[l + 1..][i - l - 1];
    }
  }

  /** Where the lane with the first difference starts, the lanes being counted from `block`. */
  function LaneFrom(block: nat, k: nat): (l: nat)
    requires block <= k
    ensures block <= l <= k < l + 8
  {
    block + (k - block) / 8 * 8
  }

  /** ... in one block. */
  function Lane(x: seq<u8>, y: seq<u8>): (l: nat)
    requires |x| == |y| == 16 && x != y
    ensures l == LaneFrom(0, FirstDifference(x, y)) && l <= FirstDifference(x, y) < l + 8
    ensures (l == 0 || l == 8) && x[..l] == y[..l] && x[l..l + 8] != y[l..l + 8]
  {
    var k := FirstDifference(x, y);
    if k < 8 then
      assert x[0..0 + 8][k] == x[k] && y[0..0 + 8][k] == y[k];
      0
    else
      assert x[8..8 + 8][k - 8] == x[k] && y[8..8 + 8][k - 8] == y[k];
      assert x[..8] == x[..k][..8] && y[..8] == y[..k][..8];
      8
  }

  /** The block comparison has the sign of the little-endian comparison of that lane. */
  lemma CmpNeq16Sign(x: seq<u8>, y: seq<u8>)
    requires |x| == |y| == 16 && x != y
    ensures var l := Lane(x, y);
      Sign(CmpNeq16(x, y)) == Sign(Load(x[l..l + 8]) - Load(y[l..l + 8])) != 0
  {
    hide FirstDifference, LaneFrom, Load, Mask;
    var k, l, max := FirstDifference(x, y), Lane(x, y), MaxBlock(x, y);
    var a, b := x[l..l + 8], y[l..l + 8];
    LoadInjective(a, b);
    assert x[..8] == x[0..0 + 8] && x[8..] == x[8..8 + 8] && y[..8] == y[0..0 + 8] && y[8..] == y[8..8 + 8];
    assert max[k] == MaxLane(a, b)[k - l];
    if Load(a) < Load(b) {
      assert max[k] == b[k - l] == y[k];
      MaskDecides(max, y, x, k);
    } else {
      assert max[k] == a[k - l] == x[k];
      MaskDecides(max, x, y, k);
    }
  }

  lemma CmpNeq16Bound(x: seq<u8>, y: seq<u8>)
    requires |x| == |y| == 16
    ensures -0x1_0000 < CmpNeq16(x, y) < 0x1_0000
  {
    MaskBound(MaxBlock(x, y), x);
    MaskBound(MaxBlock(x, y), y);
    Pow2Of16();
  }

  // ---------- blocks of memory ----------

  /** `r` is the little-endian comparison of the lane at `lane`; everything in front of it is equal. */
  ghost predicate DecidedAt(lhs: seq<u8>, rhs: seq<u8>, r: int, lane: nat)
    requires |lhs| == |rhs|
  {
    && lane + 8 <= |lhs| && lhs[..lane] == rhs[..lane]
    && lhs[lane..lane + 8] != rhs[lane..lane + 8]
    && Sign(r) == Sign(Load(lhs[lane..lane + 8]) - Load(rhs[lane..lane + 8])) != 0
  }

  /** Which block of `len` bytes sees the first difference at `k`: the next one in steps of 16, but
      the last one ends where the memory ends. */
  function BlockOf(len: nat, k: nat): (block: nat)
    requires 16 <= len && k < len
    ensures block <= k < block + 16 <= len
  {
    if k / 16 * 16 < len - 16 then k / 16 * 16 else len - 16
  }

  /** Where the blocks are counted from: long memory that is not aligned is, behind a first block,
      counted from the next boundary of the left side. */
  function StartOf(len: nat, address: nat, k: nat): nat {
    var align := OffsetFromLastAlign(16, address);
    if len < ALIGN_THRESHOLD || align == 16 || k < 16 then 0 else align
  }

  /** The lane that decides, from the blocks of memory and the address of the left one. */
  function DecidingLane(lhs: seq<u8>, rhs: seq<u8>, address: nat): nat
    requires |lhs| == |rhs| && 16 <= |lhs| && lhs != rhs
  {
    var k := FirstDifference(lhs, rhs);
    var start := StartOf(|lhs|, address, k);
    LaneFrom(start + BlockOf(|lhs| - start, k - start), k)
  }

  lemma Front(s: seq<u8>, a: nat, b: nat, l: nat)
    requires a <= b <= |s| && l <= b - a
    ensures s[..a + l] == s[..a] + s[a..b][..l]
  {
    SliceOfSlice(s, a, b, 0, l);
    assert s[a..b][..l] == s[a..b][0..l];
  }

  /** A decision about a part decides for the whole when everything in front of the part is equal. */
  lemma DecidedInside(lhs: seq<u8>, rhs: seq<u8>, a: nat, b: nat, r: int, l: nat)
    requires |lhs| == |rhs| && a <= b <= |lhs| && lhs[..a] == rhs[..a]
    requires DecidedAt(lhs[a..b], rhs[a..b], r, l)
    ensures DecidedAt(lhs, rhs, r, a + l)
  {
    hide Load;
    Front(lhs, a, b, l);
    Front(rhs, a, b, l);
    SliceOfSlice(lhs, a, b, l, l + 8);
    SliceOfSlice(rhs, a, b, l, l + 8);
  }

  lemma DifferenceInside(lhs: seq<u8>, rhs: seq<u8>, a: nat, b: nat)
    requires |lhs| == |rhs| && a <= b <= |lhs| && lhs[..a] == rhs[..a] && lhs[a..b] != rhs[a..b]
    ensures lhs != rhs && FirstDifference(lhs, rhs) == a + FirstDifference(lhs[a..b], rhs[a..b])
  {
    var k := FirstDifference(lhs[a..b], rhs[a..b]);
    Front(lhs, a, b, k);
    Front(rhs, a, b, k);
    FirstDifferenceIs(lhs, rhs, a + k);
  }

  /** `__cmp_block_off<Gmi128>`, everything in front of the block being equal. */
  method BlockOff(lhs: seq<u8>, rhs: seq<u8>, off: nat) returns (r: int)
    requires |lhs| == |rhs| && off + 16 <= |lhs| && lhs[..off] == rhs[..off]
    ensures r == 0 <==> lhs[off..off + 16] == rhs[off..off + 16]
    ensures r != 0 ==> lhs != rhs && off <= FirstDifference(lhs, rhs) < off + 16
    ensures r != 0 ==> DecidedAt(lhs, rhs, r, LaneFrom(off, FirstDifference(lhs, rhs)))
    ensures -0x1_0000 < r < 0x1_0000
  {
    var x, y := lhs[off..off + 16], rhs[off..off + 16];
    if x == y {
      return 0;
    }
    hide Pow2, Load, Mask, MaxBlock, FirstDifference;
    CmpNeq16Sign(x, y);
    CmpNeq16Bound(x, y);
    r := CmpNeq16(x, y);
    DecidedInside(lhs, rhs, off, off + 16, r, Lane(x, y));
    DifferenceInside(lhs, rhs, off, off + 16);
  }

  method LoopAndLastOff(lhs: seq<u8>, rhs: seq<u8>) returns (r: int)
    requires |lhs| == |rhs| && 16 <= |lhs|
    ensures r == 0 <==> lhs == rhs
    ensures r != 0 ==>
      var k := FirstDifference(lhs, rhs);
      DecidedAt(lhs, rhs, r, LaneFrom(BlockOf(|lhs|, k), k))
    ensures -0x1_0000 < r < 0x1_0000
  {
    hide DecidedAt, FirstDifference, LaneFrom;
    var off, limit := 0, |lhs| - 16;
    while off < limit
      invariant off <= |lhs| && off % 16 == 0 && lhs[..off] == rhs[..off]
    {
      r := BlockOff(lhs, rhs, off);
      if r != 0 {
        return;
      }
      assert lhs[..off + 16] == lhs[..off] + lhs[off..off + 16] && rhs[..off + 16] == rhs[..off] + rhs[off..off + 16];
      off := off + 16;
    }
    assert lhs[..limit] == lhs[..off][..limit] && rhs[..limit] == rhs[..off][..limit];
    r := BlockOff(lhs, rhs, limit);
    assert lhs == lhs[..limit] + lhs[limit..limit + 16] && rhs == rhs[..limit] + rhs[limit..limit + 16];
    if r != 0 {
      NotBefore(lhs, rhs, off);
    }
  }

  lemma NotBefore(lhs: seq<u8>, rhs: seq<u8>, off: nat)
    requires |lhs| == |rhs| && off <= |lhs| && lhs[..off] == rhs[..off] && lhs != rhs
    ensures off <= FirstDifference(lhs, rhs)
  {
    PrefixAgrees(lhs, rhs, off);
  }

  method LoopAndLastAlign(lhs: seq<u8>, rhs: seq<u8>, lhsAddress: nat) returns (r: int)
    requires |lhs| == |rhs| && 16 <= |lhs|
    ensures r == 0 <==> lhs == rhs
    ensures r != 0 ==> DecidedAt(lhs, rhs, r, DecidingLane(lhs, rhs, lhsAddress))
    ensures -0x1_0000 < r < 0x1_0000
  {
    hide Load, DecidedAt, FirstDifference;
    var align := OffsetFromLastAlign(16, lhsAddress);
    if |lhs| < ALIGN_THRESHOLD || align == 16 {
      r := LoopAndLastOff(lhs, rhs);
      return;
    }
    r := BlockOff(lhs, rhs, 0);
    if r != 0 {
      return;
    }
    r := BehindFirst(lhs, rhs, align);
  }

  /** From the boundary on, the first block being equal. */
  method BehindFirst(lhs: seq<u8>, rhs: seq<u8>, align: nat) returns (r: int)
    requires |lhs| == |rhs| && 32 <= |lhs| && align <= 16 && lhs[0..0 + 16] == rhs[0..0 + 16]
    ensures r == 0 <==> lhs == rhs
    ensures r != 0 ==> 16 <= FirstDifference(lhs, rhs)
    ensures r != 0 ==>
      var k := FirstDifference(lhs, rhs);
      DecidedAt(lhs, rhs, r, LaneFrom(align + BlockOf(|lhs| - align, k - align), k))
    ensures -0x1_0000 < r < 0x1_0000
  {
    hide Load, DecidedAt, FirstDifference;
    var a, b := lhs[align..|lhs|], rhs[align..|rhs|];
    assert lhs[..16] == lhs[0..0 + 16] && rhs[..16] == rhs[0..0 + 16];
    assert lhs[..align] == lhs[..16][..align] && rhs[..align] == rhs[..16][..align];
    assert lhs == lhs[..align] + a && rhs == rhs[..align] + b;
    r := LoopAndLastOff(a, b);
    if r != 0 {
      ghost var k := FirstDifference(a, b);
      NotBefore(lhs, rhs, 16);
      DifferenceInside(lhs, rhs, align, |lhs|);
      DecidedInside(lhs, rhs, align, |lhs|, r, LaneFrom(BlockOf(|a|, k), k));
    }
  }

  // ---------- what the sign means ----------

  /** In the lane that decides, are the first and the last byte that differ ordered the same way? */
  predicate SignsWell(lhs: seq<u8>, rhs: seq<u8>, address: nat)
    requires |lhs| == |rhs| && 16 <= |lhs| && lhs != rhs
  {
    var k, l := FirstDifference(lhs, rhs), DecidingLane(lhs, rhs, address);
    l + 8 <= |lhs| && lhs[l..l + 8] != rhs[l..l + 8] &&
    var j := l + LastDifference(lhs[l..l + 8], rhs[l..l + 8]);
    (lhs[k] < rhs[k] <==> lhs[j] < rhs[j])
  }

  /** Little-endian, the last byte that differs decides. */
  lemma {:induction false} LoadLastDifference(a: seq<u8>, b: seq<u8>, j: nat)
    requires |a| == |b| && j < |a| && a[j] != b[j] && a[j + 1..] == b[j + 1..]
    ensures Sign(Load(a) - Load(b)) == Sign(a[j] as int - b[j] as int)
  {
    if j == 0 {
      assert a[1..] == b[1..];
    } else {
      assert a[1..][j..] == a[j + 1..] && b[1..][j..] == b[j + 1..];
      LoadLastDifference(a[1..], b[1..], j - 1);
    }
  }

  /** So the sign is the lexicographic one exactly when they are. */
  lemma SignIff(lhs: seq<u8>, rhs: seq<u8>, r: int, address: nat)
    requires |lhs| == |rhs| && 16 <= |lhs| && lhs != rhs
    requires DecidedAt(lhs, rhs, r, DecidingLane(lhs, rhs, address))
    ensures Sign(r) == Sign(MemCmp(lhs, rhs)) <==> SignsWell(lhs, rhs, address)
  {
    hide Load, MemCmp, FirstDifference, LastDifference, DecidingLane;
    var k, l := FirstDifference(lhs, rhs), DecidingLane(lhs, rhs, address);
    var a, b := lhs[l..l + 8], rhs[l..l + 8];
    LoadLastDifference(a, b, LastDifference(a, b));
    MemCmpFirstDifference(lhs, rhs, k);
  }

  // ---------- dispatch ----------

  /** `__memcmp_dispatch` with SSE4.1, for every length and every address of the left block: zero
      exactly on equality; the sign is right up to 16 bytes, and above that exactly on `SignsWell`. */
  method Dispatch(lhs: seq<u8>, rhs: seq<u8>, lhsAddress: nat) returns (r: int)
    requires |lhs| == |rhs|
    ensures r == 0 <==> lhs == rhs
    ensures |lhs| > 16 && r != 0 ==> DecidedAt(lhs, rhs, r, DecidingLane(lhs, rhs, lhsAddress))
    ensures Sign(r) == Sign(MemCmp(lhs, rhs)) <==> |lhs| <= 16 || lhs == rhs || SignsWell(lhs, rhs, lhsAddress)
    ensures -0x8000_0000 <= r < 0x8000_0000
  {
    hide Load, FirstDifference, LastDifference, SignsWell, DecidedAt;
    MemCmpEqual(lhs, rhs);
    if |lhs| <= 16 {
      return UpTo16(lhs, rhs);
    }
    r := LoopAndLastAlign(lhs, rhs, lhsAddress);
    if r != 0 {
      SignIff(lhs, rhs, r, lhsAddress);
    }
  }

  /** 1, 0, 0, ... is greater than 0, 1, 0, ... : 17 bytes of each compare as less, at any address. */
  method SignWitness(address: nat) returns (lhs: seq<u8>, rhs: seq<u8>, r: int)
    ensures |lhs| == |rhs| == 17 && MemCmp(lhs, rhs) > 0 && r < 0
  {
    var zeros: seq<u8> := seq(15, _ => 0);
    lhs, rhs := [1, 0] + zeros, [0, 1] + zeros;
    r := Dispatch(lhs, rhs, address);
    FirstDifferenceIs(lhs, rhs, 0);
    var a, b := lhs[0..8], rhs[0..8];
    assert a[2..] == b[2..];
    LoadLastDifference(a, b, 1);
  }

  /** Below 384 bytes, or when the left side is aligned, its address does not matter. */
  lemma AddressBelow384(lhs: seq<u8>, rhs: seq<u8>, address: nat)
    requires |lhs| == |rhs| && 16 <= |lhs| && lhs != rhs && (|lhs| < 384 || address % 16 == 0)
    ensures DecidingLane(lhs, rhs, address) == DecidingLane(lhs, rhs, 0)
    ensures SignsWell(lhs, rhs, address) <==> SignsWell(lhs, rhs, 0)
  {
    hide FirstDifference, LastDifference, StartOf, LaneFrom, BlockOf;
    StartBelow384(|lhs|, address, FirstDifference(lhs, rhs));
    StartBelow384(|lhs|, 0, FirstDifference(lhs, rhs));
  }

  lemma StartBelow384(len: nat, address: nat, k: nat)
    requires len < 384 || address % 16 == 0
    ensures StartOf(len, address, k) == 0
  {
  }

  lemma LaneAt(lhs: seq<u8>, rhs: seq<u8>, address: nat, d: nat)
    requires |lhs| == |rhs| >= 384 && lhs != rhs && FirstDifference(lhs, rhs) == 20
    requires OffsetFromLastAlign(16, address) == d && (d == 12 || d == 16)
    ensures DecidingLane(lhs, rhs, address) == if d == 12 then 20 else 16
  {
    hide FirstDifference, OffsetFromLastAlign, BlockOf, LaneFrom;
    BlocksAndLanes(|lhs|);
  }

  lemma BlocksAndLanes(len: nat)
    requires len >= 384
    ensures BlockOf(len, 20) == 16 && BlockOf(len - 12, 8) == 0
    ensures LaneFrom(16, 20) == 16 && LaneFrom(12, 20) == 20
  {
  }

  lemma Offsets()
    ensures OffsetFromLastAlign(16, 0) == 16 && OffsetFromLastAlign(16, 4) == 12
  {
    assert 4 % 16 == 4;
  }

  /** From 384 bytes on it does: blocks that differ at 20, where the left side is greater, and next at 27,
      where it is less, are compared right when aligned, and wrong at address 4. */
  lemma AddressWitness(lhs: seq<u8>, rhs: seq<u8>)
    requires |lhs| == |rhs| >= 384 && lhs[..20] == rhs[..20] && lhs[20] > rhs[20]
    requires (forall i :: 20 < i < 27 ==> lhs[i] == rhs[i]) && lhs[27] < rhs[27]
    ensures lhs != rhs && SignsWell(lhs, rhs, 0) && !SignsWell(lhs, rhs, 4)
  {
    hide FirstDifference, LastDifference, DecidingLane, OffsetFromLastAlign;
    FirstDifferenceIs(lhs, rhs, 20);
    LastDifferenceIs(lhs[16..24], rhs[16..24], 4);
    LastDifferenceIs(lhs[20..28], rhs[20..28], 7);
    Offsets();
    LaneAt(lhs, rhs, 0, 16);
    LaneAt(lhs, rhs, 4, 12);
  }
}
