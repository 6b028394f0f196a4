/** Word-at-a-time strlen and wcslen: four 8-bit lanes in 32 bits, four 16-bit lanes in 64.
    Memory is a function from the index of a character to the character, so a wide read past
    the terminator yields something; `starts` records the addresses of the wide reads. */
module Strlen {

  ghost predicate IsLength<C>(mem: nat -> C, zero: C, n: nat) {
    mem(n) == zero && forall k: nat :: k < n ==> mem(k) != zero
  }

  /** The addresses a call may make wide reads at: on a block boundary, and not behind `last`. */
  ghost predicate ReadsInString(starts: seq<nat>, blockSize: nat, last: nat)
    requires blockSize > 0
  {
    forall k :: 0 <= k < |starts| ==> starts[k] <= last && starts[k] % blockSize == 0
  }

  lemma UpToEnd<C>(mem: nat -> C, zero: C, z: nat, s: nat)
    requires IsLength(mem, zero, z) && s <= z
    ensures mem(s) == zero <==> s == z
  {
  }

  // ---------- 4 lanes of 8 bits ----------

  const LO_BITS_8: bv32 := 0x0101_0101
  const HI_BITS_8: bv32 := 0x8080_8080

  function Repeat8(byte: bv32, times: nat): bv32 {
    if times == 0 then 0 else (Repeat8(byte, times - 1) << 8) | (byte & 0xFFFF)
  }

  method RepeatByte8(byte: bv32) returns (res: bv32)
    ensures res == Repeat8(byte, 4)
  {
    res := 0;
    var masked := byte & 0xFFFF;
    for i := 0 to 4
      invariant res == Repeat8(byte, i)
    {
      res := (res << 8) | masked;
    }
  }

  /** The two masks are repeated bytes. */
  lemma MasksAreRepeated8()
    ensures Repeat8(0x01, 4) == LO_BITS_8 && Repeat8(0x80, 4) == HI_BITS_8
  {
    assert Repeat8(0x01, 2) == 0x0101;
    assert Repeat8(0x80, 2) == 0x8080;
  }

  /** True iff some lane is zero: subtracting one from each lane borrows into the top bit of the
      lowest zero lane, and a top bit that was set before does not count. */
  predicate HasZeros8(block: bv32) {
    (block - LO_BITS_8) & !block & HI_BITS_8 != 0
  }

  /** Four characters read as one word, the first in the lowest lane. */
  function Block8(a: bv8, b: bv8, c: bv8, d: bv8): bv32 {
    (a as bv32) | ((b as bv32) << 8) | ((c as bv32) << 16) | ((d as bv32) << 24)
  }

  lemma Lanes8(a: bv8, b: bv8, c: bv8, d: bv8)
    ensures HasZeros8(Block8(a, b, c, d)) <==> a == 0 || b == 0 || c == 0 || d == 0
  {
  }

  /** One wide read at or before the terminator `z`: is it among the four characters? */
  method ReadBlock8(mem: nat -> bv8, i: nat, ghost z: nat) returns (zero: bool)
    requires IsLength(mem, 0, z) && i <= z
    ensures zero <==> z < i + 4
  {
    var a, b, c, d := mem(i), mem(i + 1), mem(i + 2), mem(i + 3);
    Lanes8(a, b, c, d);
    zero := HasZeros8(Block8(a, b, c, d));
  }

  /** `xstringlen_wide_read<i32, char>` */
  method WideStrlen8(mem: nat -> bv8, address: nat) returns (n: nat, ghost starts: seq<nat>)
    requires exists z: nat :: mem(z) == 0
    ensures IsLength(mem, 0, n)
    ensures ReadsInString(starts, 4, address + n)
  {
    hide IsLength;
    ghost var z := FirstZero(mem, 0 as bv8);
    var s := 0;
    starts := [];
    while (address + s) % 4 != 0
      invariant s <= z
      decreases z - s
    {
      UpToEnd(mem, 0, z, s);
      if mem(s) == 0 {
        return s, [];
      }
      s := s + 1;
    }
    var si := s;
    starts := [address + si];
    var zero := ReadBlock8(mem, si, z);
    while !zero
      invariant s <= si <= z && (address + si) % 4 == 0
      invariant ReadsInString(starts, 4, address + z)
      invariant zero <==> z < si + 4
      decreases z - si
    {
      s := si;
      si := si + 4;
      starts := starts + [address + si];
      zero := ReadBlock8(mem, si, z);
    }
    while mem(s) != 0
      invariant s <= z
      decreases z - s
    {
      UpToEnd(mem, 0, z, s);
      s := s + 1;
    }
    UpToEnd(mem, 0, z, s);
    return s, starts;
  }

  // ---------- 4 lanes of 16 bits ----------

  const LO_BITS_16: bv64 := 0x0001_0001_0001_0001
  const HI_BITS_16: bv64 := 0x8000_8000_8000_8000

  function Repeat16(byte: bv64, times: nat): bv64 {
    if times == 0 then 0 else (Repeat16(byte, times - 1) << 16) | (byte & 0xFF_FFFF)
  }

  /** Eight rounds of 16 bits: the first four are shifted out again. */
  method RepeatByte16(byte: bv64) returns (res: bv64)
    ensures res == Repeat16(byte, 8)
  {
    res := 0;
    var masked := byte & 0xFF_FFFF;
    for i := 0 to 8
      invariant res == Repeat16(byte, i)
    {
      res := (res << 16) | masked;
    }
  }

  lemma MasksAreRepeated16()
    ensures Repeat16(0x01, 8) == LO_BITS_16 && Repeat16(0x80, 8) << 8 == HI_BITS_16
  {
    assert Repeat16(0x01, 4) == 0x0001_0001_0001_0001;
    assert Repeat16(0x80, 4) == 0x0080_0080_0080_0080;
  }

  /** True iff some 16-bit lane is zero. */
  predicate HasZeros16(block: bv64) {
    (block - LO_BITS_16) & !block & HI_BITS_16 != 0
  }

  /** Four characters read as one word, the first in the lowest lane. */
  function Block16(a: bv16, b: bv16, c: bv16, d: bv16): bv64 {
    (a as bv64) | ((b as bv64) << 16) | ((c as bv64) << 32) | ((d as bv64) << 48)
  }

  lemma Lanes16(a: bv16, b: bv16, c: bv16, d: bv16)
    ensures HasZeros16(Block16(a, b, c, d)) <==> a == 0 || b == 0 || c == 0 || d == 0
  {
  }

  /** One wide read at or before the terminator `z`: is it among the four characters? */
  method ReadBlock16(mem: nat -> bv16, i: nat, ghost z: nat) returns (zero: bool)
    requires IsLength(mem, 0, z) && i <= z
    ensures zero <==> z < i + 4
  {
    var a, b, c, d := mem(i), mem(i + 1), mem(i + 2), mem(i + 3);
    Lanes16(a, b, c, d);
    zero := HasZeros16(Block16(a, b, c, d));
  }

  /** `xstringlen_wide_read<i64, wchar_t>`; on an odd address no block is ever read. */
  method WideStrlen16(mem: nat -> bv16, address: nat) returns (n: nat, ghost starts: seq<nat>)
    requires exists z: nat :: mem(z) == 0
    ensures IsLength(mem, 0, n)
    ensures ReadsInString(starts, 8, address + 2 * n)
    ensures address % 2 == 1 ==> starts == []
  {
    hide IsLength;
    ghost var z := FirstZero(mem, 0 as bv16);
    var s := 0;
    starts := [];
    while (address + 2 * s) % 8 != 0
      invariant s <= z
      decreases z - s
    {
      UpToEnd(mem, 0, z, s);
      if mem(s) == 0 {
        return s, [];
      }
      s := s + 1;
    }
    var si := s;
    starts := [address + 2 * si];
    var zero := ReadBlock16(mem, si, z);
    while !zero
      invariant s <= si <= z && (address + 2 * si) % 8 == 0
      invariant ReadsInString(starts, 8, address + 2 * z)
      invariant zero <==> z < si + 4
      decreases z - si
    {
      s := si;
      si := si + 4;
      starts := starts + [address + 2 * si];
      zero := ReadBlock16(mem, si, z);
    }
    while mem(s) != 0
      invariant s <= z
      decreases z - s
    {
      UpToEnd(mem, 0, z, s);
      s := s + 1;
    }
    UpToEnd(mem, 0, z, s);
    return s, starts;
  }

  // ---------- the terminator ----------

  ghost function FirstZero<C>(mem: nat -> C, zero: C): (z: nat)
    requires exists k: nat :: mem(k) == zero
    ensures IsLength(mem, zero, z)
  {
    var k: nat :| mem(k) == zero;
    FirstZeroUpTo(mem, zero, k)
  }

  ghost function FirstZeroUpTo<C>(mem: nat -> C, zero: C, k: nat): (z: nat)
    requires mem(k) == zero
    ensures IsLength(mem, zero, z)
    decreases k
  {
    if exists j: nat :: j < k && mem(j) == zero then
      var j: nat :| j < k && mem(j) == zero;
      FirstZeroUpTo(mem, zero, j)
    else k
  }
}
