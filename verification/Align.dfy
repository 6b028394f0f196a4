/** Rounding up to powers of two by smearing the top bit, for 8, 16, 32 and 64-bit integers
    carried in a 64-bit word. */
module Align {

  predicate Width(bits: nat) {
    bits == 8 || bits == 16 || bits == 32 || bits == 64
  }

  /** The largest value of the width. */
  function Max(bits: nat): bv64
    requires Width(bits)
  {
    if bits == 8 then 0xFF else if bits == 16 then 0xFFFF
    else if bits == 32 then 0xFFFF_FFFF else 0xFFFF_FFFF_FFFF_FFFF
  }

  predicate PowerOfTwo(p: bv64) {
    p != 0 && p & (p - 1) == 0
  }

  /** `r` is the least power of two strictly above `i`. */
  ghost predicate NextPower(i: bv64, r: bv64) {
    PowerOfTwo(r) && i < r && forall p: bv64 :: PowerOfTwo(p) && i < p ==> r <= p
  }

  /** `r` is the least power of two not below `i`: `i` itself if it is one, else the next one. */
  ghost predicate NextPowerOrSame(i: bv64, r: bv64) {
    if PowerOfTwo(i) then r == i else NextPower(i, r)
  }

  function Fold1(n: bv64): bv64 { n | (n >> 1) }
  function Fold2(n: bv64): bv64 { n | (n >> 2) }
  function Fold4(n: bv64): bv64 { n | (n >> 4) }
  function Fold8(n: bv64): bv64 { n | (n >> 8) }
  function Fold16(n: bv64): bv64 { n | (n >> 16) }
  function Fold32(n: bv64): bv64 { n | (n >> 32) }

  function Smeared(bits: nat, i: bv64): bv64
    requires Width(bits)
  {
    var n4 := Fold4(Fold2(Fold1(i)));
    if bits == 8 then n4
    else if bits == 16 then Fold8(n4)
    else if bits == 32 then Fold16(Fold8(n4))
    else Fold32(Fold16(Fold8(n4)))
  }

  /** `__Up<BitMax>` before the final increment. */
  method Smear(bits: nat, i: bv64) returns (n: bv64)
    requires Width(bits)
    ensures n == Smeared(bits, i)
  {
    n := i;
    n := Fold1(n);
    n := Fold2(n);
    n := Fold4(n);
    if bits > 8 {
      n := Fold8(n);
    }
    if bits > 16 {
      n := Fold16(n);
    }
    if bits > 32 {
      n := Fold32(n);
    }
  }

  predicate AllOnes(n: bv64) {
    n | (n >> 1) == n
  }

  /** `n` is all ones from the top bit of `i` down. */
  ghost predicate MaskOf(n: bv64, i: bv64) {
    AllOnes(n) && n >> 1 < i && i | (n >> 1) == n
  }

  lemma Mask8(i: bv64)
    requires 0 < i <= 0xFF
    ensures MaskOf(Smeared(8, i), i) && Smeared(8, i) <= 0xFF
  {
  }

  lemma Mask16(i: bv64)
    requires 0 < i <= 0xFFFF
    ensures MaskOf(Smeared(16, i), i) && Smeared(16, i) <= 0xFFFF
  {
  }

  lemma Mask32(i: bv64)
    requires 0 < i <= 0xFFFF_FFFF
    ensures MaskOf(Smeared(32, i), i) && Smeared(32, i) <= 0xFFFF_FFFF
  {
  }

  lemma Mask64(i: bv64)
    requires 0 < i
    ensures MaskOf(Smeared(64, i), i)
  {
  }

  /** The smear of a nonzero number of the width is its mask, and stays in the width. */
  lemma SmearedIsMask(bits: nat, i: bv64)
    requires Width(bits) && 0 < i <= Max(bits)
    ensures MaskOf(Smeared(bits, i), i) && Smeared(bits, i) <= Max(bits)
  {
    if bits == 8 {
      Mask8(i);
    } else if bits == 16 {
      Mask16(i);
    } else if bits == 32 {
      Mask32(i);
    } else {
      Mask64(i);
    }
  }

  /** The word that a number of the width becomes when it is widened: a negative one is filled up
      with ones. */
  function Widened(bits: nat, signed: bool, i: bv64): bv64
    requires Width(bits)
  {
    if signed && i > Max(bits) >> 1 then i | !Max(bits) else i
  }

  /** `Up`, cut back to the width by the final cast. `i` and the result are the patterns of the
      width, which the result type takes as an unsigned number. */
  function Up(bits: nat, signed: bool, i: bv64): bv64
    requires Width(bits)
  {
    if i == 0 then 1 else (Smeared(bits, Widened(bits, signed, i)) + 1) & Max(bits)
  }

  lemma Negative8(i: bv64)
    requires 0x7F < i <= 0xFF
    ensures Smeared(8, i | !0xFF) == 0xFFFF_FFFF_FFFF_FFFF
  {
  }

  lemma Negative16(i: bv64)
    requires 0x7FFF < i <= 0xFFFF
    ensures Smeared(16, i | !0xFFFF) == 0xFFFF_FFFF_FFFF_FFFF
  {
  }

  lemma Negative32(i: bv64)
    requires 0x7FFF_FFFF < i <= 0xFFFF_FFFF
    ensures Smeared(32, i | !0xFFFF_FFFF) == 0xFFFF_FFFF_FFFF_FFFF
  {
  }

  /** A negative number smears to all ones. */
  lemma NegativeSmears(bits: nat, i: bv64)
    requires Width(bits) && Max(bits) >> 1 < i <= Max(bits)
    ensures bits < 64 ==> Smeared(bits, i | !Max(bits)) == 0xFFFF_FFFF_FFFF_FFFF
  {
    if bits == 8 {
      Negative8(i);
    } else if bits == 16 {
      Negative16(i);
    } else if bits == 32 {
      Negative32(i);
    }
  }

  lemma MaskBelowHalf(n: bv64, i: bv64, max: bv64)
    requires MaskOf(n, i) && n <= max && AllOnes(max) && i <= max >> 1
    ensures n <= max >> 1
  {
  }

  lemma MaskAboveHalf(n: bv64, max: bv64)
    requires AllOnes(n) && AllOnes(max) && max >> 1 < n <= max
    ensures n == max
  {
  }

  lemma HalfPlusOne(n: bv64, max: bv64)
    requires 0 < n <= max >> 1 && AllOnes(max)
    ensures n < n + 1 <= max
  {
  }

  lemma Submask(v: bv64, max: bv64)
    requires v <= max && AllOnes(max)
    ensures v & max == v
  {
  }

  lemma MaskPlusOne(n: bv64)
    requires AllOnes(n)
    ensures (n + 1) & n == 0
  {
  }

  lemma Fits(n: bv64, i: bv64, max: bv64, m: bv64)
    requires MaskOf(n, i) && 0 < i && n <= max && AllOnes(max) && i <= max >> 1 && m == n + 1
    ensures m & max == m && n < m
  {
    MaskAbove(n, i);
    MaskBelowHalf(n, i, max);
    HalfPlusOne(n, max);
    Submask(m, max);
  }

  lemma NextOfMask(n: bv64, i: bv64, m: bv64)
    requires MaskOf(n, i) && m == n + 1 && n < m
    ensures NextPower(i, m)
  {
    MaskAbove(n, i);
    MaskPlusOne(n);
    forall p: bv64 | PowerOfTwo(p) && i < p
      ensures m <= p
    {
      NoPowerInside(n, i, p);
      Successor(n, m, p);
    }
  }

  lemma Successor(n: bv64, m: bv64, p: bv64)
    requires AllOnes(n) && m == n + 1 && n < p
    ensures m <= p
  {
  }

  /** A mask in the lower half of a width rounds up to the power above it. */
  lemma Rounded(n: bv64, i: bv64, max: bv64, m: bv64, r: bv64)
    requires MaskOf(n, i) && 0 < i && n <= max && AllOnes(max) && i <= max >> 1
    requires m == n + 1 && r == m & max
    ensures NextPower(i, r)
  {
    Fits(n, i, max, m);
    NextOfMask(n, i, m);
  }

  lemma MaskAbove(n: bv64, i: bv64)
    requires i | (n >> 1) == n
    ensures i <= n
  {
  }

  /** A mask that fills its width wraps to zero. */
  lemma Wrapped(n: bv64, i: bv64, max: bv64)
    requires MaskOf(n, i) && 0 < i && n <= max && AllOnes(max) && i > max >> 1
    ensures (n + 1) & max == 0
  {
    MaskAboveHalf(n, max);
    MaskPlusOne(n);
  }

  /** Between `i` and the all-ones mask above it there is no power of two. */
  lemma NoPowerInside(n: bv64, i: bv64, p: bv64)
    requires MaskOf(n, i) && PowerOfTwo(p) && i < p
    ensures n < p
  {
  }

  /** Strictly rounding up works exactly while the result still fits the width, and otherwise gives
      zero; so it does for every negative number. */
  lemma UpIsNextPower(bits: nat, signed: bool, i: bv64)
    requires Width(bits) && i <= Max(bits)
    ensures NextPower(i, Up(bits, signed, i)) <==> i <= Max(bits) >> 1
    ensures i > Max(bits) >> 1 ==> Up(bits, signed, i) == 0
  {
    if i != 0 {
      SmearedIsMask(bits, i);
      var n, max := Smeared(bits, i), Max(bits);
      if i <= max >> 1 {
        Rounded(n, i, max, n + 1, Up(bits, signed, i));
      } else {
        Wrapped(n, i, max);
        NegativeWraps(bits, i);
      }
    }
  }

  lemma NegativeWraps(bits: nat, i: bv64)
    requires Width(bits) && Max(bits) >> 1 < i <= Max(bits)
    requires (Smeared(bits, i) + 1) & Max(bits) == 0
    ensures (Smeared(bits, i | !Max(bits)) + 1) & Max(bits) == 0
  {
    if bits < 64 {
      NegativeSmears(bits, i);
    }
  }

  /** `IsPow2` as written: its branches are the wrong way round. */
  predicate IsPow2(i: bv64) {
    if i == 0 then i & (i - 1) == 0 else false
  }

  function UpEq(bits: nat, signed: bool, i: bv64): bv64
    requires Width(bits)
  {
    if IsPow2(i) then i else Up(bits, signed, i)
  }

  lemma PowerNotKept(i: bv64, r: bv64)
    requires PowerOfTwo(i) && (i < r || r == 0)
    ensures !NextPowerOrSame(i, r)
  {
  }

  /** `UpEq` meets its description exactly on the nonzero numbers that are not already powers
      of two and have a power of two above them in the width; on no negative number. */
  lemma UpEqIff(bits: nat, signed: bool, i: bv64)
    requires Width(bits) && i <= Max(bits)
    ensures NextPowerOrSame(i, UpEq(bits, signed, i)) <==> i != 0 && !PowerOfTwo(i) && i <= Max(bits) >> 1
  {
    hide Smeared, Widened, Max, Up;
    if i != 0 {
      UpIsNextPower(bits, signed, i);
      if PowerOfTwo(i) {
        PowerNotKept(i, Up(bits, signed, i));
      }
    }
  }

  /** 8 is taken to 16 and 0 to 0, at every width. */
  lemma UpEqWitness(bits: nat, signed: bool)
    requires Width(bits)
    ensures UpEq(bits, signed, 8) == 16 && UpEq(bits, signed, 0) == 0
  {
  }
}
