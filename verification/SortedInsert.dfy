/** Sorted insertion: where its bisection lands, and what its block-wise slide does. Both are also
    proved with the two lines repaired: `fixed` says that the bisection moves its upper end to the
    probe, and the slide steps over the eight entries that it moves. */
module SortedInsert {
  import opened Shortlex
  import opened TableSort

  // ---------- the bisection ----------

  /** Where the search over [lo, hi) for a new string of rank `r` ends. As written a probe behind the
      rank sets the exclusive upper end one too low. */
  function Landing(lo: int, hi: int, r: int, fixed: bool): int
    decreases hi - lo
  {
    if lo >= hi then lo
    else
      var mid := (lo + hi) / 2;
      if mid < r then Landing(mid + 1, hi, r, fixed)
      else Landing(lo, UpperEnd(mid, fixed), r, fixed)
  }

  /** The new upper end after a probe at `mid`. */
  function UpperEnd(mid: int, fixed: bool): int {
    if fixed then mid else mid - 1
  }

  lemma LandingStep(lo: int, hi: int, r: int, fixed: bool)
    ensures lo >= hi ==> Landing(lo, hi, r, fixed) == lo
    ensures lo < hi && (lo + hi) / 2 < r ==>
      Landing(lo, hi, r, fixed) == Landing((lo + hi) / 2 + 1, hi, r, fixed)
    ensures lo < hi && (lo + hi) / 2 >= r ==>
      Landing(lo, hi, r, fixed) == Landing(lo, UpperEnd((lo + hi) / 2, fixed), r, fixed)
  {
  }

  /** Does the search as written probe position `r` from an interval that starts before it? */
  predicate ProbesRank(lo: int, hi: int, r: int)
    decreases hi - lo
  {
    if lo >= hi then false
    else
      var mid := (lo + hi) / 2;
      if mid < r then ProbesRank(mid + 1, hi, r)
      else if mid == r then lo < r
      else ProbesRank(lo, mid - 1, r)
  }

  lemma {:induction false} LandsAtEnd(lo: int, hi: int, r: int, fixed: bool)
    requires lo <= hi <= r
    ensures Landing(lo, hi, r, fixed) == hi
    decreases hi - lo
  {
    if lo < hi {
      LandsAtEnd((lo + hi) / 2 + 1, hi, r, fixed);
    }
  }

  /** The repaired search lands on the rank. The one as written does too, except one below it exactly
      when it probes the rank itself from an interval that starts before it. */
  lemma {:induction false} LandingIff(lo: int, hi: int, r: int, fixed: bool)
    requires lo <= r <= hi
    ensures Landing(lo, hi, r, fixed) == if !fixed && ProbesRank(lo, hi, r) then r - 1 else r
    decreases hi - lo
  {
    if lo < hi {
      var mid := (lo + hi) / 2;
      if mid < r {
        LandingIff(mid + 1, hi, r, fixed);
      } else if fixed || mid > r {
        LandingIff(lo, UpperEnd(mid, fixed), r, fixed);
      } else if lo < r {
        LandsAtEnd(lo, mid - 1, r, fixed);
      }
    }
  }

  // ---------- the slide ----------

  const SLIDE_LEN: nat := 8

  /** By how much one round of the slide steps down: as written one entry more than it moves. */
  function StepLen(fixed: bool): nat {
    if fixed then SLIDE_LEN else SLIDE_LEN + 1
  }

  /** Slot `i` of a table of `n` entries is the one that a block of the slide does not reach. */
  predicate Skips(n: int, i: int, fixed: bool) {
    !fixed && (n - i) % 9 == 8
  }

  /** Of the nine slots that one round steps over it is the lowest. */
  lemma SkipsLowest(n: int, last: int, round: nat, i: int, fixed: bool)
    requires last == n - StepLen(fixed) * round && last - StepLen(fixed) < i <= last
    ensures Skips(n, i, fixed) <==> !fixed && i == last - 8
  {
    assert n - i == StepLen(fixed) * round + (last - i);
  }

  /** The table `t` with one new slot at its end, after the slide from `first`: as written every ninth
      entry from the end is skipped. */
  ghost predicate Slid(after: seq<Idx>, t: seq<Idx>, first: nat, fixed: bool)
    requires first <= |t| && |after| == |t| + 1
  {
    && (forall i {:trigger after[i]} :: first < i <= |t| ==>
      after[i] == (if Skips(|t|, i, fixed) then t[i] else t[i - 1]))
    && (forall i {:trigger after[i]} :: 0 <= i <= first && i < |t| ==> after[i] == t[i])
  }

  /** The table with `x` inserted at `r`. */
  function InsertedAt(t: seq<Idx>, r: nat, x: Idx): seq<Idx>
    requires r <= |t|
  {
    t[..r] + [x] + t[r..]
  }

  /** As written the slide runs off the table when its tail is 8 entries, or 9 more, or 18 more, ...:
      the distance to `first` is compared as an unsigned number and turns negative. */
  predicate RunsOff(tail: int, fixed: bool) {
    !fixed && tail % 9 == 8
  }

  /** Is the tail slid up without a gap? As written only fewer than eight entries are. */
  predicate SlidesWhole(tail: int, fixed: bool) {
    fixed || tail < SLIDE_LEN
  }

  /** Landing at `land` and sliding from there inserts `x` at its rank exactly when the landing is
      the rank and the tail is slid as a whole. */
  lemma InsertionIff(t: seq<Idx>, after: seq<Idx>, land: nat, r: nat, x: Idx, fixed: bool)
    requires |after| == |t| + 1 && Distinct(t) && x !in t && r < |t| && (land == r || land == r - 1)
    requires !RunsOff(|t| - land, fixed) && Slid(after, t, land, fixed)
    ensures after[land := x] == InsertedAt(t, r, x) <==> land == r && SlidesWhole(|t| - land, fixed)
  {
    var out, want := after[land := x], InsertedAt(t, r, x);
    if land != r {
      assert out[land] == x && want[land] == t[land];
    } else if SlidesWhole(|t| - land, fixed) {
      WholeTail(t, after, land, x, fixed);
    } else {
      var i := |t| - SLIDE_LEN;
      assert i > land && Skips(|t|, i, fixed);
      assert after[i] == t[i];
      assert out[i] == t[i] && want[i] == t[i - 1];
    }
  }

  /** Every old entry is still there. */
  ghost predicate Keeps(t: seq<Idx>, out: seq<Idx>) {
    forall e :: e in t ==> e in out
  }

  /** As written, with eight or more entries behind the landing one of them is lost. */
  lemma LosesEntry(t: seq<Idx>, after: seq<Idx>, land: nat, x: Idx)
    requires |after| == |t| + 1 && Distinct(t) && x !in t && land < |t|
    requires !RunsOff(|t| - land, false) && Slid(after, t, land, false) && |t| - land >= SLIDE_LEN
    ensures t[|t| - SLIDE_LEN - 1] !in after[land := x]
  {
    var out, k := after[land := x], |t| - SLIDE_LEN - 1;
    forall i | 0 <= i < |out|
      ensures out[i] != t[k]
    {
      if i > land {
        assert after[i] == (if Skips(|t|, i, false) then t[i] else t[i - 1]);
        assert Skips(|t|, k + 1, false) && !Skips(|t|, k, false);
      }
    }
  }

  /** Slid as a whole, the tail makes room at the landing and nowhere else. */
  lemma WholeTail(t: seq<Idx>, after: seq<Idx>, land: nat, x: Idx, fixed: bool)
    requires |after| == |t| + 1 && land < |t| && Slid(after, t, land, fixed) && SlidesWhole(|t| - land, fixed)
    ensures after[land := x] == InsertedAt(t, land, x)
  {
    var out, want := after[land := x], InsertedAt(t, land, x);
    forall i | 0 <= i < |out|
      ensures out[i] == want[i]
    {
      if i > land {
        assert !Skips(|t|, i, fixed);
      }
    }
  }

  /** So every old entry stays exactly when the tail is slid as a whole. */
  lemma KeepsIff(t: seq<Idx>, after: seq<Idx>, land: nat, x: Idx, fixed: bool)
    requires |after| == |t| + 1 && Distinct(t) && x !in t && land < |t|
    requires !RunsOff(|t| - land, fixed) && Slid(after, t, land, fixed)
    ensures Keeps(t, after[land := x]) <==> SlidesWhole(|t| - land, fixed)
  {
    if SlidesWhole(|t| - land, fixed) {
      WholeTail(t, after, land, x, fixed);
      assert t == t[..land] + t[land..];
    } else {
      LosesEntry(t, after, land, x);
      assert t[|t| - SLIDE_LEN - 1] in t;
    }
  }

  /** Moves the entries of `a[first..n]` one up in blocks of eight, back to front. When it runs off it
      has written in front of `first`, and stops here before leaving the array. */
  method Slide(a: array<Idx>, first: nat, n: nat, fixed: bool) returns (ok: bool)
    requires first <= n < a.Length
    modifies a
    ensures ok <==> !RunsOff(n - first, fixed)
    ensures ok ==> Slid(a[..n + 1], old(a[..n]), first, fixed)
    ensures forall i :: n < i < a.Length ==> a[i] == old(a[i])
  {
    hide RunsOff, SlidDownTo, Slid;
    ghost var t := a[..n];
    var last: int := n;
    ghost var round: nat := 0;
    NothingSlid(a[..n + 1], t, fixed);
    // the distance is compared as an unsigned number, so only 0..7 ends the loop
    while !(0 <= last - first < SLIDE_LEN)
      invariant last == n - StepLen(fixed) * round
      invariant last >= first || RunsOff(n - first, fixed)
      invariant last >= first ==> SlidDownTo(a[..n + 1], t, last, fixed)
      invariant forall i :: n < i < a.Length ==> a[i] == old(a[i])
      decreases last - first + a.Length
    {
      ghost var before := a[..n + 1];
      var slide := last - SLIDE_LEN;
      if last == first + SLIDE_LEN {
        OffAt(n, first, last, round, fixed);
      }
      if slide < 0 {
        return false;
      }
      SlideBlock(a, slide);
      if last - StepLen(fixed) >= first {
        OneRound(a[..n + 1], before, t, last, round, fixed);
      }
      last := if fixed then slide else slide - 1;
      round := round + 1;
    }
    ghost var before := a[..n + 1];
    SlidePart(a, first, last);
    LastRound(a[..n + 1], before, t, first, last, round, fixed);
    return true;
  }

  /** Eight entries left is where the slide as written steps past `first`. */
  lemma OffAt(n: nat, first: nat, last: int, round: nat, fixed: bool)
    requires last == n - StepLen(fixed) * round && last == first + SLIDE_LEN
    ensures RunsOff(n - first, fixed) <==> !fixed
  {
  }

  /** Everything above `last` is slid, everything up to it still in place. */
  ghost predicate SlidDownTo(now: seq<Idx>, t: seq<Idx>, last: nat, fixed: bool)
    requires last <= |t| && |now| == |t| + 1
  {
    && (forall i {:trigger now[i]} :: last < i <= |t| ==>
      now[i] == (if Skips(|t|, i, fixed) then t[i] else t[i - 1]))
    && (forall i {:trigger now[i]} :: 0 <= i <= last && i < |t| ==> now[i] == t[i])
  }

  lemma OneRound(now: seq<Idx>, before: seq<Idx>, t: seq<Idx>, last: nat, round: nat, fixed: bool)
    requires |now| == |before| == |t| + 1 && last <= |t| && last == |t| - StepLen(fixed) * round
    requires last >= StepLen(fixed) && SlidDownTo(before, t, last, fixed)
    requires forall i {:trigger now[i]} :: 0 <= i < |now| ==>
      now[i] == if last - 8 < i <= last then before[i - 1] else before[i]
    ensures SlidDownTo(now, t, last - StepLen(fixed), fixed)
  {
    forall i | last - StepLen(fixed) < i <= |t|
      ensures now[i] == (if Skips(|t|, i, fixed) then t[i] else t[i - 1])
    {
      if i > last {
        assert now[i] == before[i];
      } else {
        SkipsLowest(|t|, last, round, i, fixed);
        if i == last - 8 {
          assert now[i] == before[i] == t[i];
        } else {
          assert now[i] == before[i - 1];
          assert before[i - 1] == t[i - 1];
        }
      }
    }
    forall i | 0 <= i <= last - StepLen(fixed)
      ensures now[i] == t[i]
    {
      assert now[i] == before[i];
    }
  }

  lemma NothingSlid(now: seq<Idx>, t: seq<Idx>, fixed: bool)
    requires |now| == |t| + 1 && forall i :: 0 <= i < |t| ==> now[i] == t[i]
    ensures SlidDownTo(now, t, |t|, fixed)
  {
  }

  lemma LastRound(now: seq<Idx>, before: seq<Idx>, t: seq<Idx>, first: nat, last: nat, round: nat, fixed: bool)
    requires |now| == |before| == |t| + 1 && first <= last <= |t| && last - first < 8
    requires last == |t| - StepLen(fixed) * round && SlidDownTo(before, t, last, fixed)
    requires forall i {:trigger now[i]} :: 0 <= i < |now| ==>
      now[i] == if first < i <= last then before[i - 1] else before[i]
    ensures Slid(now, t, first, fixed)
    ensures !RunsOff(|t| - first, fixed)
  {
    forall i | first < i <= last
      ensures !Skips(|t|, i, fixed)
    {
      SkipsLowest(|t|, last, round, i, fixed);
    }
    SkipsLowest(|t|, last, round, first, fixed);
  }

  /** The rest, shorter than a block. */
  method SlidePart(a: array<Idx>, first: nat, last: nat)
    requires first <= last < a.Length
    modifies a
    ensures forall i :: 0 <= i < a.Length ==> a[i] == if first < i <= last then old(a[i - 1]) else old(a[i])
  {
    var sbuf := a[first..last];
    forall k | 0 <= k < last - first {
      a[first + 1 + k] := sbuf[k];
    }
  }

  /** Eight entries through the side buffer to one place further up. */
  method SlideBlock(a: array<Idx>, slide: nat)
    requires slide + SLIDE_LEN < a.Length
    modifies a
    ensures forall i :: 0 <= i < a.Length ==>
      a[i] == if slide < i <= slide + SLIDE_LEN then old(a[i - 1]) else old(a[i])
  {
    var sbuf := a[slide..slide + SLIDE_LEN];
    forall k | 0 <= k < SLIDE_LEN {
      a[slide + 1 + k] := sbuf[k];
    }
  }
}
