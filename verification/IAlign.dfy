/** Alignment of addresses, and the two facts about remainders the aligned loops rest on. */
module IAlign {

  lemma MulMonotone(x: int, y: int, p: nat)
    requires x <= y
    ensures x * p <= y * p
  {
  }

  /** `x % a` is the only remainder in range. */
  lemma RemainderUnique(x: int, a: nat, q: int, m: nat)
    requires m < a && x == q * a + m
    ensures x % a == m && x / a == q
  {
    var d := q - x / a;
    assert d * a == q * a - x / a * a;
    assert x / a * a == a * (x / a);
    assert d * a == x % a - m;
    if d >= 1 {
      MulMonotone(1, d, a);
    } else if d <= -1 {
      MulMonotone(d, -1, a);
    }
  }

  /** Distance to the next multiple of `align`; a whole `align` when already on one. */
  function OffsetFromLastAlign(align: nat, address: nat): (d: nat)
    requires align > 0
    ensures 1 <= d <= align && (address + d) % align == 0
  {
    var d := align - address % align;
    assert address + d == (address / align + 1) * align + 0 by {
      assert address == align * (address / align) + address % align;
    }
    RemainderUnique(address + d, align, address / align + 1, 0);
    d
  }
}
