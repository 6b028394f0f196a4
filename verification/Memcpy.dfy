/** Block-wise memcpy in place, inside one memory. The two ranges may lie anywhere in it
    as long as they do not overlap; `base` is the address of `mem[0]`. */
module Memcpy {
  import opened Bytes

  predicate Disjoint(d: nat, s: nat, len: nat) {
    d + len <= s || s + len <= d
  }

  /** What section 7.24.2.1 of ISO C11 asks of memcpy: `mem` after copying `len` bytes from `s` to `d`. */
  ghost predicate Copied(after: seq<u8>, before: seq<u8>, d: nat, s: nat, len: nat)
    requires |after| == |before| && d + len <= |before| && s + len <= |before|
  {
    Shifted(after, before, d, d + len, s - d)
  }

  /** `after` holds at [lo, hi) what `before` held `shift` further on, and is unchanged elsewhere. */
  ghost predicate Shifted(after: seq<u8>, before: seq<u8>, lo: nat, hi: nat, shift: int)
    requires |after| == |before| && hi <= |before| && 0 <= lo + shift && hi + shift <= |before|
  {
    forall i {:trigger after[i]} :: 0 <= i < |before| ==>
      after[i] == if lo <= i < hi then before[i + shift] else before[i]
  }

  /** A copied range whose front is copied already, extended by one more block that may overlap it. */
  lemma Extend(a: seq<u8>, b: seq<u8>, c: seq<u8>, lo: nat, mid: nat, next: nat, hi: nat, shift: int)
    requires |a| == |b| == |c| && lo <= next <= mid && next <= hi <= |a| && mid <= |a|
    requires 0 <= lo + shift && hi + shift <= |a| && mid + shift <= |a|
    requires Shifted(b, a, lo, mid, shift) && Shifted(c, b, next, hi, shift)
    requires mid <= next + shift || hi + shift <= lo
    ensures Shifted(c, a, lo, if mid < hi then hi else mid, shift)
  {
    forall i | 0 <= i < |a|
      ensures c[i] == if lo <= i < mid || lo <= i < hi then a[i + shift] else a[i]
    {
      if next <= i < hi {
        assert c[i] == b[i + shift] == a[i + shift];
      } else {
        assert c[i] == b[i];
      }
    }
  }

  /** One fixed-size copy. `align` is what the caller promises about the destination address. */
  method CopyBlock(mem: array<u8>, d: nat, s: nat, size: nat, base: nat, align: nat)
    requires d + size <= mem.Length && s + size <= mem.Length && Disjoint(d, s, size)
    requires align > 0 && (base + d) % align == 0
    modifies mem
    ensures Copied(mem[..], old(mem[..]), d, s, size)
  {
    forall k | 0 <= k < size {
      mem[d + k] := mem[s + k];
    }
  }

  method CopyLastBlock(mem: array<u8>, d: nat, s: nat, len: nat, size: nat, base: nat)
    requires d + len <= mem.Length && s + len <= mem.Length && Disjoint(d, s, len)
    requires size <= len
    modifies mem
    ensures Copied(mem[..], old(mem[..]), d + (len - size), s + (len - size), size)
  {
    var off := len - size;
    CopyBlock(mem, d + off, s + off, size, base, 1);
  }

  method CopyOverlapBlock(mem: array<u8>, d: nat, s: nat, len: nat, size: nat, base: nat)
    requires d + len <= mem.Length && s + len <= mem.Length && Disjoint(d, s, len)
    requires size <= len <= 2 * size
    modifies mem
    ensures Copied(mem[..], old(mem[..]), d, s, len)
  {
    ghost var a := mem[..];
    CopyBlock(mem, d, s, size, base, 1);
    ghost var b := mem[..];
    CopyLastBlock(mem, d, s, len, size, base);
    Extend(a, b, mem[..], d, d + size, d + (len - size), d + len, s - d);
  }

  /** One more block at `next`, at or before the end of what is copied already. */
  method CopyNext(mem: array<u8>, d: nat, s: nat, len: nat, next: nat, size: nat, base: nat, align: nat,
                  ghost before: seq<u8>, ghost done: nat)
    returns (ghost done': nat)
    requires |before| == mem.Length && d + len <= mem.Length && s + len <= mem.Length && Disjoint(d, s, len)
    requires d <= next <= done <= d + len && next + size <= d + len
    requires align > 0 && (base + next) % align == 0
    requires Shifted(mem[..], before, d, done, s - d)
    modifies mem
    ensures done' == if done < next + size then next + size else done
    ensures Shifted(mem[..], before, d, done', s - d)
  {
    ghost var now := mem[..];
    CopyBlock(mem, next, next - d + s, size, base, align);
    Extend(before, now, mem[..], d, done, next, next + size, s - d);
    done' := if done < next + size then next + size else done;
  }

  /** `__copy_aligned_blocks<32>`: first block, then blocks on aligned addresses, then the last
      block. Every store of the loop meets `CopyBlock`'s demand for a 32-byte boundary. */
  method CopyAlignedBlocks(mem: array<u8>, d: nat, s: nat, len: nat, base: nat)
    requires d + len <= mem.Length && s + len <= mem.Length && Disjoint(d, s, len)
    requires 64 <= len
    modifies mem
    ensures Copied(mem[..], old(mem[..]), d, s, len)
  {
    ghost var before := mem[..];
    CopyBlock(mem, d, s, 32, base, 1);
    var offla := (base + d) % 32;
    var limit := len + offla - 32;
    var off := 32;
    ghost var done := d + 32;     // everything before `done` is copied
    while off < limit
      invariant 32 <= off < limit + 32
      invariant (base + d - offla + off) % 32 == 0
      invariant d - offla + off <= done < d + len
      invariant Shifted(mem[..], before, d, done, s - d)
    {
      done := CopyNext(mem, d, s, len, d - offla + off, 32, base, 32, before, done);
      off := off + 32;
    }
    done := CopyNext(mem, d, s, len, d + (len - 32), 32, base, 1, before, done);
  }

  method Small(mem: array<u8>, d: nat, s: nat, len: nat, base: nat)
    requires 0 < len < 5
    requires d + len <= mem.Length && s + len <= mem.Length && Disjoint(d, s, len)
    modifies mem
    ensures Copied(mem[..], old(mem[..]), d, s, len)
  {
    if len == 1 {
      CopyBlock(mem, d, s, 1, base, 1);
    } else if len == 2 {
      CopyBlock(mem, d, s, 2, base, 1);
    } else if len == 3 {
      CopyBlock(mem, d, s, 3, base, 1);
    } else {
      CopyBlock(mem, d, s, 4, base, 1);
    }
  }

  /** `__memcpy_dispatch`: a byte copy for every length and every residue of the destination. */
  method Dispatch(mem: array<u8>, d: nat, s: nat, len: nat, base: nat)
    requires d + len <= mem.Length && s + len <= mem.Length && Disjoint(d, s, len)
    modifies mem
    ensures Copied(mem[..], old(mem[..]), d, s, len)
  {
    if len == 0 {
    } else if len < 5 {
      Small(mem, d, s, len, base);
    } else if len < 8 {
      CopyOverlapBlock(mem, d, s, len, 4, base);
    } else if len < 16 {
      CopyOverlapBlock(mem, d, s, len, 8, base);
    } else if len < 32 {
      CopyOverlapBlock(mem, d, s, len, 16, base);
    } else if len < 64 {
      CopyOverlapBlock(mem, d, s, len, 32, base);
    } else if len < 128 {
      CopyOverlapBlock(mem, d, s, len, 64, base);
    } else {
      CopyAlignedBlocks(mem, d, s, len, base);
    }
  }
}
