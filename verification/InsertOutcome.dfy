/** What the landing and the slide of a sorted insertion come to: when the new table is a
    rearrangement of the right entries, and when it is in order. */
module InsertOutcome {
  import opened Bytes
  import opened Shortlex
  import opened TableSort
  import opened TableOrder
  import opened SortedInsert

  /** The inputs on which sorted insertion works: repaired all; as written a new greatest string, or
      one whose rank the bisection does not hit from further left, with fewer than eight entries
      behind it. */
  predicate InsertsWell(n: nat, r: nat, fixed: bool) {
    fixed || r == n || (!ProbesRank(0, n, r) && n - r < SLIDE_LEN)
  }

  lemma SlideOutcome(t: seq<Idx>, slid: seq<Idx>, pos: nat, r: nat, i: Idx, fixed: bool)
    requires r < |t| && pos == Landing(0, |t|, r, fixed) && pos <= |t| && Distinct(t) && i !in t
    ensures RunsOff(|t| - pos, fixed) ==> !InsertsWell(|t|, r, fixed)
    ensures !RunsOff(|t| - pos, fixed) && |slid| == |t| + 1 && Slid(slid, t, pos, fixed) ==>
      (slid[pos := i] == InsertedAt(t, r, i) <==> InsertsWell(|t|, r, fixed))
  {
    LandingIff(0, |t|, r, fixed);
    if !RunsOff(|t| - pos, fixed) && |slid| == |t| + 1 && Slid(slid, t, pos, fixed) {
      InsertionIff(t, slid, pos, r, i, fixed);
    }
  }

  lemma RunsOffIsNotWell(n: nat, r: nat, fixed: bool)
    requires r < n && RunsOff(n - Landing(0, n, r, fixed), fixed)
    ensures !InsertsWell(n, r, fixed)
  {
    LandingIff(0, n, r, fixed);
  }

  lemma StrsInserted(mem: seq<u8>, t: seq<Idx>, r: nat, i: Idx)
    requires r <= |t|
    ensures Strs(mem, InsertedAt(t, r, i)) == Strs(mem, t)[..r] + [Str(mem, i)] + Strs(mem, t)[r..]
  {
  }

  lemma InsertedMultiset(t: seq<Idx>, r: nat, x: Idx)
    requires r <= |t|
    ensures multiset(InsertedAt(t, r, x)) == multiset(t) + multiset{x}
  {
    assert t == t[..r] + t[r..];
  }

  /** The entries are the old ones and the new one exactly when the tail is slid as a whole. */
  lemma ArrangedIff(t: seq<Idx>, slid: seq<Idx>, pos: nat, i: Idx, layout: seq<Idx>, fixed: bool)
    requires Distinct(t) && i !in t && pos < |t| && multiset(layout) == multiset(t) + multiset{i}
    requires !RunsOff(|t| - pos, fixed) && |slid| == |t| + 1 && Slid(slid, t, pos, fixed)
    ensures multiset(slid[pos := i]) == multiset(layout) <==> SlidesWhole(|t| - pos, fixed)
  {
    if SlidesWhole(|t| - pos, fixed) {
      WholeTail(t, slid, pos, i, fixed);
      InsertedMultiset(t, pos, i);
    } else {
      LosesEntry(t, slid, pos, i);
      var lost := t[|t| - SLIDE_LEN - 1];
      assert lost in multiset(t);
      assert lost !in multiset(slid[pos := i]);
    }
  }

  /** One slot below its rank, the new string stands in front of a smaller one. */
  lemma LowLandingDisorders(mem: seq<u8>, t: seq<Idx>, r: nat, i: Idx)
    requires 0 < r <= |t| && Cmp(Str(mem, t[r - 1]), Str(mem, i)) < 0
    ensures !Sorted(Strs(mem, InsertedAt(t, r - 1, i)))
  {
    var out := InsertedAt(t, r - 1, i);
    assert out[r - 1] == i && out[r] == t[r - 1];
    CmpAntisymmetric(Str(mem, t[r - 1]), Str(mem, i));
  }

  /** `out` holds the entries of `layout`, and its strings are in order. */
  ghost predicate Ordered(mem: seq<u8>, out: seq<Idx>, layout: seq<Idx>) {
    multiset(out) == multiset(layout) && Sorted(Strs(mem, out))
  }

  ghost predicate StrictlyOrdered(mem: seq<u8>, out: seq<Idx>, layout: seq<Idx>) {
    multiset(out) == multiset(layout) && StrictlySorted(Strs(mem, out))
  }

  /** The new table is complete and in order exactly when `InsertsWell`. */
  lemma OrderedIff(mem: seq<u8>, t: seq<Idx>, slid: seq<Idx>, pos: nat, r: nat, i: Idx, layout: seq<Idx>, fixed: bool)
    requires Distinct(t) && i !in t && multiset(layout) == multiset(t) + multiset{i}
    requires Sorted(Strs(mem, t)) && Str(mem, i) !in Strs(mem, t) && r == Rank(Strs(mem, t), Str(mem, i)) < |t|
    requires pos == Landing(0, |t|, r, fixed) && pos < |t|
    requires !RunsOff(|t| - pos, fixed) && |slid| == |t| + 1 && Slid(slid, t, pos, fixed)
    ensures Ordered(mem, slid[pos := i], layout) <==> InsertsWell(|t|, r, fixed)
    ensures InsertsWell(|t|, r, fixed) ==> slid[pos := i] == InsertedAt(t, r, i)
  {
    ArrangedIff(t, slid, pos, i, layout, fixed);
    LandingIff(0, |t|, r, fixed);
    if SlidesWhole(|t| - pos, fixed) {
      WholeTail(t, slid, pos, i, fixed);
      if pos == r {
        InsertAtRankSorted(Strs(mem, t), Str(mem, i));
        StrsInserted(mem, t, r, i);
      } else {
        NewAgainstOld(Strs(mem, t), Str(mem, i), r - 1);
        LowLandingDisorders(mem, t, r, i);
      }
    }
  }

  /** And strictly in order exactly when it also was before. */
  lemma StrictIff(mem: seq<u8>, t: seq<Idx>, r: nat, i: Idx, out: seq<Idx>, layout: seq<Idx>, fixed: bool)
    requires Sorted(Strs(mem, t)) && Str(mem, i) !in Strs(mem, t) && r == Rank(Strs(mem, t), Str(mem, i)) <= |t|
    requires Ordered(mem, out, layout) <==> InsertsWell(|t|, r, fixed)
    requires InsertsWell(|t|, r, fixed) ==> out == InsertedAt(t, r, i)
    ensures StrictlyOrdered(mem, out, layout) <==> InsertsWell(|t|, r, fixed) && StrictlySorted(Strs(mem, t))
  {
    StrictlySortedIff(Strs(mem, out));
    if InsertsWell(|t|, r, fixed) {
      StrsInserted(mem, t, r, i);
      InsertAtRankStrict(Strs(mem, t), Str(mem, i));
    }
  }

  /** What storing `i` in a table `t` of strings `strs` comes to, `out` being the new table. It is a
      rearrangement of `layout`, and keeps every old entry, exactly when the tail behind the landing is
      slid as a whole; it has `i` at the rank, is complete and in order, and (if `strs` was)
      strictly in order, exactly when `InsertsWell`. */
  ghost predicate Placed(mem: seq<u8>, t: seq<Idx>, strs: seq<seq<u8>>, out: seq<Idx>, r: nat, i: Idx,
                         layout: seq<Idx>, fixed: bool)
    requires r <= |t| == |strs|
  {
    && (multiset(out) == multiset(layout) <==> SlidesWhole(|t| - Landing(0, |t|, r, fixed), fixed))
    && (Keeps(t, out) <==> SlidesWhole(|t| - Landing(0, |t|, r, fixed), fixed))
    && (out == InsertedAt(t, r, i) <==> InsertsWell(|t|, r, fixed))
    && (Ordered(mem, out, layout) <==> InsertsWell(|t|, r, fixed))
    && (StrictlyOrdered(mem, out, layout) <==> InsertsWell(|t|, r, fixed) && StrictlySorted(strs))
    && (InsertsWell(|t|, r, fixed) ==> Strs(mem, out) == strs[..r] + [Str(mem, i)] + strs[r..])
  }

  /** The string of rank `r` is new to the sorted table `t`, and `layout` is what the table should hold then. */
  ghost predicate IsNew(mem: seq<u8>, t: seq<Idx>, strs: seq<seq<u8>>, r: nat, i: Idx, layout: seq<Idx>) {
    && Distinct(t) && i !in t && multiset(layout) == multiset(t) + multiset{i}
    && strs == Strs(mem, t) && Sorted(strs) && Str(mem, i) !in strs && r == Rank(strs, Str(mem, i)) <= |t|
  }

  lemma PlacedInside(mem: seq<u8>, t: seq<Idx>, strs: seq<seq<u8>>, slid: seq<Idx>, pos: nat, r: nat, i: Idx,
                     layout: seq<Idx>, fixed: bool)
    requires IsNew(mem, t, strs, r, i, layout) && r < |t|
    requires pos == Landing(0, |t|, r, fixed) && pos < |t|
    requires !RunsOff(|t| - pos, fixed) && |slid| == |t| + 1 && Slid(slid, t, pos, fixed)
    ensures Placed(mem, t, strs, slid[pos := i], r, i, layout, fixed)
  {
    hide Rank, Cmp, Landing, InsertsWell, SlidesWhole, RunsOff, Slid, Sorted, StrictlySorted, Distinct, Keeps;
    hide InsertedAt, Ordered, StrictlyOrdered, Str;
    ArrangedIff(t, slid, pos, i, layout, fixed);
    KeepsIff(t, slid, pos, i, fixed);
    OrderedIff(mem, t, slid, pos, r, i, layout, fixed);
    SlideOutcome(t, slid, pos, r, i, fixed);
    StrictIff(mem, t, r, i, slid[pos := i], layout, fixed);
    StrsInserted(mem, t, r, i);
  }

  lemma PlacedLast(mem: seq<u8>, t: seq<Idx>, strs: seq<seq<u8>>, i: Idx, layout: seq<Idx>, fixed: bool)
    requires IsNew(mem, t, strs, |t|, i, layout)
    ensures Placed(mem, t, strs, t + [i], |t|, i, layout, fixed)
  {
    hide Rank, Cmp, Landing;
    var n := |t|;
    LandsAtEnd(0, n, n, fixed);
    assert InsertedAt(t, n, i) == t + [i];
    assert Keeps(t, t + [i]);
    InsertedMultiset(t, n, i);
    StrsInserted(mem, t, n, i);
    InsertAtRankSorted(strs, Str(mem, i));
    StrictIff(mem, t, n, i, t + [i], layout, fixed);
  }

  // ---------- inputs on which it fails ----------

  /** "a", "c" and a new "b": the search lands on 0, in front of "a". */
  lemma LandingWitness()
    ensures Rank([[97], [99]], [98]) == 1 && Landing(0, 2, 1, false) == 0 && !InsertsWell(2, 1, false)
  {
    var strs: seq<seq<u8>> := [[97], [99]];
    assert strs[..1] == [[97]] && strs[..1][..0] == [];
    assert Cmp([97], [98]) == -1 && Cmp([99], [98]) == 1;
    assert Rank(strs[..1], [98]) == 1;
  }

  /** A new least string: in front of nine entries it costs the first, in front of eight the slide
      leaves the table. */
  lemma SlideWitness()
    ensures Landing(0, 9, 0, false) == 0 && !RunsOff(9, false) && !SlidesWhole(9, false) && !InsertsWell(9, 0, false)
    ensures Landing(0, 8, 0, false) == 0 && RunsOff(8, false)
  {
  }
}
