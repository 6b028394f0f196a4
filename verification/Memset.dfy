/** Block-wise memset in place. Blocks above eight bytes are arrays of 64-bit words, as on
    the path without vector registers. `base` is the address of `mem[0]`. */
module Memset {
  import opened Bytes
  import opened IAlign

  /** The `w`-byte word with all bits set, divided by 0xFF, times the byte. */
  function Splat(w: nat, val: u8): nat {
    (Pow256(w) - 1) / 0xFF * val
  }

  /** Byte `k` of a number in little-endian storage. */
  function ByteOf(v: nat, k: nat): u8 {
    v / Pow256(k) % 256
  }

  /** 1 + 256 + ... : a one in each of `w` bytes. */
  function Ones(w: nat): nat {
    if w == 0 then 0 else 1 + 256 * Ones(w - 1)
  }

  lemma {:induction false} OnesIsQuotient(w: nat)
    ensures Pow256(w) - 1 == 0xFF * Ones(w)
  {
    if w > 0 {
      OnesIsQuotient(w - 1);
    }
  }

  /** The bytes of a number are its lowest one and those of the rest. */
  lemma ByteOfCons(low: u8, rest: nat, k: nat)
    ensures ByteOf(low + 256 * rest, k) == if k == 0 then low else ByteOf(rest, k - 1)
  {
    RemainderUnique(low + 256 * rest, 256, rest, low);
    if k > 0 {
      var p := Pow256(k - 1);
      assert Pow256(k) == 256 * p;
      DivDiv(low + 256 * rest, p);
    } else {
      assert Pow256(k) == 1;
    }
  }

  lemma OnesTimes(w: nat, val: u8)
    requires w > 0
    ensures Ones(w) * val == val + 256 * (Ones(w - 1) * val)
  {
    var o := Ones(w - 1);
    assert (256 * o) * val == 256 * (o * val);
  }

  lemma {:induction false} OnesByte(w: nat, val: u8, k: nat)
    requires k < w
    ensures ByteOf(Ones(w) * val, k) == val
  {
    hide ByteOf, Ones;
    OnesTimes(w, val);
    ByteOfCons(val, Ones(w - 1) * val, k);
    if k > 0 {
      OnesByte(w - 1, val, k - 1);
    }
  }

  lemma DivDiv(v: nat, p: nat)
    requires p > 0
    ensures v / (256 * p) == v / 256 / p
  {
    var u := v / 256;
    var q, m := u / p, u % p;
    assert u == p * q + m;
    assert v == 256 * u + v % 256;
    var low := 256 * m + v % 256;
    assert v == q * (256 * p) + low by {
      assert 256 * (p * q) == q * (256 * p);
    }
    RemainderUnique(v, 256 * p, q, low);
  }

  /** Every byte of a splatted word is the byte itself. */
  lemma SplatByte(w: nat, val: u8, k: nat)
    requires k < w
    ensures ByteOf(Splat(w, val), k) == val
  {
    OnesIsQuotient(w);
    OnesByte(w, val, k);
  }

  // ---------- blocks ----------

  ghost predicate Filled(after: seq<u8>, before: seq<u8>, d: nat, len: nat, val: u8)
    requires |after| == |before| && d + len <= |before|
  {
    forall i :: 0 <= i < |before| ==> after[i] == if d <= i < d + len then val else before[i]
  }

  method StoreScalar(mem: array<u8>, d: nat, w: nat, val: u8)
    requires d + w <= mem.Length
    modifies mem
    ensures Filled(mem[..], old(mem[..]), d, w, val)
  {
    var v := Splat(w, val);
    forall k | 0 <= k < w
      ensures ByteOf(v, k) == val
    {
      SplatByte(w, val, k);
    }
    forall k | 0 <= k < w {
      mem[d + k] := ByteOf(v, k);
    }
  }

  /** A block of up to eight bytes is one scalar; a larger one is an array of 64-bit words. */
  method SetBlock(mem: array<u8>, d: nat, w: nat, val: u8, base: nat, align: nat)
    requires d + w <= mem.Length && (w <= 8 || w % 8 == 0)
    requires align > 0 && (base + d) % align == 0
    modifies mem
    ensures Filled(mem[..], old(mem[..]), d, w, val)
  {
    if w <= 8 {
      StoreScalar(mem, d, w, val);
    } else {
      for i := 0 to w / 8
        invariant Filled(mem[..], old(mem[..]), d, i * 8, val)
      {
        StoreScalar(mem, d + i * 8, 8, val);
      }
    }
  }

  method SetBlockSeq(mem: array<u8>, d: nat, w0: nat, w1: nat, val: u8, base: nat)
    requires d + w0 + w1 <= mem.Length && (w0 <= 8 || w0 % 8 == 0) && (w1 <= 8 || w1 % 8 == 0)
    modifies mem
    ensures Filled(mem[..], old(mem[..]), d, w0 + w1, val)
  {
    SetBlock(mem, d, w0, val, base, 1);
    SetBlock(mem, d + w0, w1, val, base, 1);
  }

  method SetFirstLastBlock(mem: array<u8>, d: nat, len: nat, w: nat, val: u8, base: nat)
    requires d + len <= mem.Length && w <= len <= 2 * w && (w <= 8 || w % 8 == 0)
    modifies mem
    ensures Filled(mem[..], old(mem[..]), d, len, val)
  {
    SetBlock(mem, d, w, val, base, 1);
    SetBlock(mem, d + len - w, w, val, base, 1);
  }

  /** `__set_loop_and_last_off` on 32-byte blocks; the destination is aligned to 32. */
  method SetLoopAndLastOff(mem: array<u8>, d: nat, len: nat, val: u8, start: nat, base: nat)
    requires d + len <= mem.Length && start + 32 <= len
    requires (base + d + start) % 32 == 0
    modifies mem
    ensures Filled(mem[..], old(mem[..]), d + start, len - start, val)
  {
    var off := start;
    SetBlock(mem, d + off, 32, val, base, 32);
    off := off + 32;
    while off < len - 32
      invariant start + 32 <= off <= len
      invariant (base + d + off) % 32 == 0
      invariant Filled(mem[..], old(mem[..]), d + start, off - start, val)
    {
      SetBlock(mem, d + off, 32, val, base, 32);
      off := off + 32;
    }
    SetBlock(mem, d + len - 32, 32, val, base, 1);
  }

  // ---------- the prefetching path ----------

  const PREFETCH_DEGREE: nat := 128

  /** What the inner loop advances by: the size of a 64-byte vector as written, where it stores 32. */
  const K_SIZE: nat := 64

  predicate Advance(kSize: nat) {
    kSize == 32 || kSize == K_SIZE
  }

  /** Does byte `j`, from the first store on, lie between the end of one store and the next? */
  predicate Between(j: int, kSize: nat) {
    kSize == K_SIZE && j % K_SIZE >= 32
  }

  /** Where step `n` of the inner loop is, over all its rounds. */
  function StepAt(n: nat, kSize: nat): nat {
    if kSize == K_SIZE then K_SIZE * n else 32 * n
  }

  lemma StepAligned(address: nat, n: nat, kSize: nat)
    requires Advance(kSize) && address % 32 == 0
    ensures (address + 96 + StepAt(n, kSize)) % 32 == 0
  {
    var q := address / 32 + 3 + if kSize == K_SIZE then 2 * n else n;
    RemainderUnique(address + 96 + StepAt(n, kSize), 32, q, 0);
  }

  lemma BetweenInStep(n: nat, kSize: nat)
    requires Advance(kSize)
    ensures forall j :: StepAt(n, kSize) <= j < StepAt(n + 1, kSize) ==>
      (Between(j, kSize) <==> StepAt(n, kSize) + 32 <= j)
  {
    forall j | StepAt(n, kSize) <= j < StepAt(n + 1, kSize)
      ensures Between(j, kSize) <==> StepAt(n, kSize) + 32 <= j
    {
      if kSize == K_SIZE {
        RemainderUnique(j, K_SIZE, n, j - K_SIZE * n);
      }
    }
  }

  /** Rounds of the outer prefetch loop on `len` aligned bytes. */
  function Rounds(len: nat, kSize: nat): nat {
    if 96 + PREFETCH_DEGREE + kSize <= len then (len - 96 - kSize) / 128 else 0
  }

  /** Bytes between two stores are never written. `i` counts from the aligned destination. */
  predicate Skipped(len: nat, i: int, kSize: nat)
  {
    96 <= i < 96 + 128 * Rounds(len, kSize) && Between(i - 96, kSize)
  }

  /** Filled from 96 to `off`, but for the bytes between two stores. */
  ghost predicate Stepped(after: seq<u8>, before: seq<u8>, d: nat, off: nat, val: u8, kSize: nat) {
    |after| == |before| && forall i :: 0 <= i < |after| ==>
      after[i] == if d + 96 <= i < d + off && !Between(i - d - 96, kSize) then val else before[i]
  }

  /** One more store, and the step behind it. */
  lemma NextStep(next: seq<u8>, after: seq<u8>, before: seq<u8>, d: nat, n: nat, val: u8, kSize: nat)
    requires Advance(kSize) && Stepped(after, before, d, 96 + StepAt(n, kSize), val, kSize)
    requires |next| == |after| && d + 96 + StepAt(n, kSize) + 32 <= |after|
    requires Filled(next, after, d + 96 + StepAt(n, kSize), 32, val)
    ensures Stepped(next, before, d, 96 + StepAt(n + 1, kSize), val, kSize)
  {
    hide Between;
    BetweenInStep(n, kSize);
  }

  method PrefetchLoop(mem: array<u8>, d: nat, len: nat, val: u8, base: nat, kSize: nat) returns (off: nat)
    requires d + len <= mem.Length && 192 < len && (base + d) % 32 == 0 && Advance(kSize)
    modifies mem
    ensures off == 96 + 128 * Rounds(len, kSize) && off + 32 <= len
    ensures forall i :: 0 <= i < mem.Length ==>
      mem[i] == if d + 96 <= i < d + off && !Skipped(len, i - d, kSize) then val else old(mem[i])
  {
    off := 96;
    ghost var before, round: nat := mem[..], 0;
    while off + PREFETCH_DEGREE + kSize <= len
      invariant off == 96 + 128 * round && off + kSize <= len
      invariant Stepped(mem[..], before, d, off, val, kSize)
    {
      off := PrefetchRound(mem, d, len, val, base, kSize, off, before, round);
      round := round + 1;
    }
    assert round == Rounds(len, kSize);
    forall i | 0 <= i < mem.Length
      ensures mem[i] == if d + 96 <= i < d + off && !Skipped(len, i - d, kSize) then val else before[i]
    {
      assert mem[i] == mem[..][i];
    }
  }

  method StoreStep(mem: array<u8>, d: nat, val: u8, base: nat, kSize: nat, off: nat, ghost before: seq<u8>,
                   ghost n: nat)
    requires Advance(kSize) && (base + d) % 32 == 0 && off == 96 + StepAt(n, kSize) && d + off + 32 <= mem.Length
    requires Stepped(mem[..], before, d, off, val, kSize)
    modifies mem
    ensures Stepped(mem[..], before, d, 96 + StepAt(n + 1, kSize), val, kSize)
  {
    hide Stepped, Filled;
    ghost var now := mem[..];
    StepAligned(base + d, n, kSize);
    SetBlock(mem, d + off, 32, val, base, 32);
    NextStep(mem[..], now, before, d, n, val, kSize);
  }

  /** The inner loop: one round of stores. */
  method PrefetchRound(mem: array<u8>, d: nat, len: nat, val: u8, base: nat, kSize: nat, start: nat,
                       ghost before: seq<u8>, ghost round: nat)
    returns (off: nat)
    requires d + len <= mem.Length && (base + d) % 32 == 0 && Advance(kSize)
    requires start == 96 + 128 * round && start + PREFETCH_DEGREE + kSize <= len
    requires Stepped(mem[..], before, d, start, val, kSize)
    modifies mem
    ensures off == start + PREFETCH_DEGREE && Stepped(mem[..], before, d, off, val, kSize)
  {
    hide Stepped, Filled;
    off := start;
    var step := 0;
    ghost var first: nat, m: nat := if kSize == K_SIZE then 2 * round else 4 * round, 0;
    assert StepAt(first, kSize) == 128 * round && StepAt(m, kSize) == 0;
    hide StepAt, Advance;
    while step < PREFETCH_DEGREE
      invariant m <= 4 && step == StepAt(m, kSize) <= PREFETCH_DEGREE && off == start + step
      invariant off == 96 + StepAt(first + m, kSize)
      invariant Stepped(mem[..], before, d, off, val, kSize)
    {
      StepAdds(first, m, kSize);
      StoreStep(mem, d, val, base, kSize, off, before, first + m);
      step, off := step + kSize, off + kSize;
      m := m + 1;
    }
  }

  lemma StepAdds(first: nat, m: nat, kSize: nat)
    requires Advance(kSize)
    ensures StepAt(first + m, kSize) == StepAt(first, kSize) + StepAt(m, kSize)
    ensures StepAt(first + m + 1, kSize) == StepAt(first + m, kSize) + kSize
    ensures StepAt(m + 1, kSize) == StepAt(m, kSize) + kSize
    ensures StepAt(m, kSize) < PREFETCH_DEGREE ==> m < 4 && StepAt(m + 1, kSize) <= PREFETCH_DEGREE
    ensures StepAt(0, kSize) == 0
  {
  }

  /** `__prefetching_memset`: exactly the skipped bytes keep what they held. */
  method Prefetching(mem: array<u8>, d: nat, len: nat, val: u8, base: nat, kSize: nat)
    requires d + len <= mem.Length && 64 < len && Advance(kSize)
    modifies mem
    ensures forall i :: 0 <= i < mem.Length ==>
      mem[i] == if d <= i < d + len && !PrefetchKeeps(len, (base + d) % 32, i - d, kSize) then val else old(mem[i])
  {
    if len <= 128 {
      SetFirstLastBlock(mem, d, len, 64, val, base);
      return;
    }
    SetBlock(mem, d, 64, val, base, 1);
    var ofs := OffsetFromLastAlign(32, base + d);
    var d', len' := d + ofs, len - ofs;
    if len' <= 192 {
      SetLoopAndLastOff(mem, d', len', val, 0, base);
    } else {
      SetBlockSeq(mem, d', 64, 32, val, base);
      var off := PrefetchLoop(mem, d', len', val, base, kSize);
      SetLoopAndLastOff(mem, d', len', val, off, base);
    }
  }

  /** The bytes that the prefetching path leaves alone, `i` counted from the destination. */
  predicate PrefetchKeeps(len: nat, residue: nat, i: int, kSize: nat)
    requires residue < 32
  {
    128 < len && Skipped(len - (32 - residue), i - (32 - residue), kSize)
  }

  /** As written the path is a fill for every memory exactly when the aligned length stays under 288,
      that is, while its inner loop is not entered; advancing by what it stores it always is. */
  lemma PrefetchFillsIff(len: nat, residue: nat, kSize: nat)
    requires residue < 32 && 64 < len && Advance(kSize)
    ensures (forall i :: 0 <= i < len ==> !PrefetchKeeps(len, residue, i, kSize)) <==>
      kSize == 32 || len - (32 - residue) < 288
  {
    if kSize == K_SIZE && len - (32 - residue) >= 288 {
      var i := 128 + (32 - residue);
      assert PrefetchKeeps(len, residue, i, K_SIZE);
    }
  }

  /** As written a prefetching memset of 384 bytes on a 32-byte boundary never writes byte 160. */
  lemma PrefetchWitness()
    ensures PrefetchKeeps(384, 0, 160, K_SIZE)
  {
  }

  // ---------- dispatch ----------

  method Small(mem: array<u8>, d: nat, len: nat, val: u8, base: nat)
    requires 0 < len < 5 && d + len <= mem.Length
    modifies mem
    ensures Filled(mem[..], old(mem[..]), d, len, val)
  {
    if len == 1 {
      SetBlock(mem, d, 1, val, base, 1);
    } else if len == 2 {
      SetBlock(mem, d, 2, val, base, 1);
    } else if len == 3 {
      SetBlockSeq(mem, d, 2, 1, val, base);
    } else {
      SetBlock(mem, d, 4, val, base, 1);
    }
  }

  /** `__memset_dispatch`. `prefetch` is the build switch, which the build sets unless told not to.
      With it exactly the skipped bytes are not filled, so as written the range is filled up to 64
      bytes and while fewer than 288 are left after alignment. Without it, or advancing by what is
      stored, it is for every length and residue. */
  method Dispatch(mem: array<u8>, d: nat, len: nat, val: u8, base: nat, prefetch: bool, kSize: nat)
    requires d + len <= mem.Length && Advance(kSize)
    modifies mem
    ensures !prefetch || kSize == 32 || len <= 64 || len - (32 - (base + d) % 32) < 288 ==>
      Filled(mem[..], old(mem[..]), d, len, val)
    ensures prefetch ==> forall i :: 0 <= i < mem.Length ==>
      mem[i] == if d <= i < d + len && !PrefetchKeeps(len, (base + d) % 32, i - d, kSize) then val else old(mem[i])
  {
    if len == 0 {
    } else if len < 5 {
      Small(mem, d, len, val, base);
    } else if len <= 8 {
      SetFirstLastBlock(mem, d, len, 4, val, base);
    } else if len <= 16 {
      SetFirstLastBlock(mem, d, len, 8, val, base);
    } else if len <= 32 {
      SetFirstLastBlock(mem, d, len, 16, val, base);
    } else if len <= 64 {
      SetFirstLastBlock(mem, d, len, 32, val, base);
    } else if prefetch {
      PrefetchFillsIff(len, (base + d) % 32, kSize);
      Prefetching(mem, d, len, val, base, kSize);
    } else if len <= 128 {
      SetFirstLastBlock(mem, d, len, 64, val, base);
    } else {
      SetBlock(mem, d, 32, val, base, 1);
      var ofs := OffsetFromLastAlign(32, base + d);
      SetLoopAndLastOff(mem, d + ofs, len - ofs, val, 0, base);
    }
  }
}
