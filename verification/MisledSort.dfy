/** Insertion sort with a comparator that is right about the intended order except that it may
    also say "less" when the intended order says "greater". */
module MisledSort {
  import opened TableSort

  /** `less` is a strict order up to ties. */
  ghost predicate StrictWeak(less: Order) {
    && (forall x, y :: less(x, y) ==> !less(y, x))
    && (forall x, y, z :: !less(y, x) && !less(z, y) ==> !less(z, x))
  }

  ghost predicate SortedBy(less: Order, t: seq<Idx>) {
    forall i, j :: 0 <= i < j < |t| ==> !less(t[j], t[i])
  }

  ghost predicate UnsortedBy(less: Order, t: seq<Idx>) {
    exists i, j :: 0 <= i < j < |t| && less(t[j], t[i])
  }

  /** On the entries of `t`, `comp` holds where `less` does, and elsewhere at most where `less` holds
      the other way round. */
  ghost predicate Overeager(comp: Order, less: Order, t: seq<Idx>) {
    forall x, y :: x in t && y in t ==> (less(x, y) ==> comp(x, y)) && (comp(x, y) ==> less(x, y) || less(y, x))
  }

  // ---------- the intended sort ----------

  /** How many entries of the sorted `c` the entry `x` stays behind. */
  ghost function Place(less: Order, c: seq<Idx>, x: Idx): (p: nat)
    ensures p <= |c|
    ensures p > 0 ==> !less(x, c[p - 1])
    ensures forall k :: p <= k < |c| ==> less(x, c[k])
  {
    if c == [] then 0
    else if less(x, c[|c| - 1]) then
      var front := c[..|c| - 1];
      var p := Place(less, front, x);
      assert forall k :: 0 <= k < |front| ==> c[k] == front[k];
      p
    else |c|
  }

  lemma InsertAtPlace(less: Order, c: seq<Idx>, x: Idx)
    ensures var p := Place(less, c, x);
      Insert(less, c, x) == c[..p] + [x] + c[p..]
  {
    var p := Place(less, c, x);
    InsertPasses(less, c, x, p);
    if p > 0 {
      assert c[..p][|c[..p]| - 1] == c[p - 1];
    }
    assert Insert(less, c[..p], x) == c[..p] + [x];
  }

  lemma InsertSorted(less: Order, c: seq<Idx>, x: Idx)
    requires StrictWeak(less) && SortedBy(less, c)
    ensures SortedBy(less, Insert(less, c, x))
  {
    InsertAtPlace(less, c, x);
    var p := Place(less, c, x);
    var out := c[..p] + [x] + c[p..];
    forall i, j | 0 <= i < j < |out|
      ensures !less(out[j], out[i])
    {
      if i == p {
        assert less(x, c[j - 1]);
      } else if j == p {
        if i < p - 1 {
          assert !less(c[p - 1], c[i]);
        }
      }
    }
  }

  lemma {:induction false} SortSorted(less: Order, t: seq<Idx>)
    requires StrictWeak(less)
    ensures SortedBy(less, Sort(less, t))
  {
    if t != [] {
      SortSorted(less, t[..|t| - 1]);
      InsertSorted(less, Sort(less, t[..|t| - 1]), t[|t| - 1]);
    }
  }

  lemma SameMembers(less: Order, t: seq<Idx>)
    ensures forall x :: x in Sort(less, t) <==> x in t
  {
    SortIsPermutation(less, t);
    forall x
      ensures x in Sort(less, t) <==> x in t
    {
      assert x in Sort(less, t) <==> x in multiset(Sort(less, t));
      assert x in t <==> x in multiset(t);
    }
  }

  // ---------- the actual sort ----------

  datatype Maybe = None | Some(e: Idx)

  /** The greatest entry not greater than `x`, the latest of several equal ones: the entry that `x`
      should stop behind. One pass over the entries in the order they came. */
  function Nearest(less: Order, front: seq<Idx>, x: Idx): Maybe {
    if front == [] then None
    else
      var n, y := Nearest(less, front[..|front| - 1], x), front[|front| - 1];
      if !less(x, y) && (n.None? || !less(y, n.e)) then Some(y) else n
  }

  lemma {:induction false} NearestMeans(less: Order, front: seq<Idx>, x: Idx)
    requires StrictWeak(less)
    ensures var n := Nearest(less, front, x);
      && (n.None? <==> forall y :: y in front ==> less(x, y))
      && (n.Some? ==> n.e in front && !less(x, n.e) && forall y :: y in front && !less(x, y) ==> !less(n.e, y))
  {
    if front != [] {
      var rest, y := front[..|front| - 1], front[|front| - 1];
      assert front == rest + [y];
      NearestMeans(less, rest, x);
    }
  }

  /** The comparator takes `x` past the entry that it should stop behind. */
  predicate Misled(comp: Order, less: Order, front: seq<Idx>, x: Idx) {
    var n := Nearest(less, front, x);
    n.Some? && comp(x, n.e)
  }

  /** Only one place splits a list like that. */
  lemma PlaceUnique(less: Order, c: seq<Idx>, x: Idx, p: nat)
    requires p <= |c| && (p > 0 ==> !less(x, c[p - 1])) && forall k :: p <= k < |c| ==> less(x, c[k])
    ensures Place(less, c, x) == p
  {
  }

  /** Sorting `y` in moves the place of `x` up exactly when `y` stays in front of it. */
  lemma PlaceAfterInsert(less: Order, c: seq<Idx>, y: Idx, x: Idx)
    requires StrictWeak(less) && SortedBy(less, c)
    ensures var p, q := Place(less, c, x), Place(less, c, y);
      && (less(x, y) ==> p <= q)
      && (!less(x, y) && p > 0 && less(y, c[p - 1]) ==> q < p)
      && (!less(x, y) && (p == 0 || !less(y, c[p - 1])) ==> q == p)
  {
  }

  lemma BeforePlaceAfterInsert(less: Order, c: seq<Idx>, y: Idx, x: Idx)
    requires StrictWeak(less) && SortedBy(less, c)
    ensures var p, q := Place(less, c, x), Place(less, c, y);
      var out := c[..q] + [y] + c[q..];
      var next := if less(x, y) then p else p + 1;
      && Place(less, out, x) == next
      && (next > 0 ==> out[next - 1] == if less(x, y) || (p > 0 && less(y, c[p - 1])) then c[p - 1] else y)
  {
    hide Place;
    PlaceAfterInsert(less, c, y, x);
    var p, q := Place(less, c, x), Place(less, c, y);
    PlaceUnique(less, c[..q] + [y] + c[q..], x, if less(x, y) then p else p + 1);
  }

  /** In the list sorted so far that entry is the one in front of the place of `x`. */
  lemma {:induction false} NearestIsBeforePlace(less: Order, front: seq<Idx>, x: Idx)
    requires StrictWeak(less)
    ensures var c := Sort(less, front);
      var p := Place(less, c, x);
      Nearest(less, front, x) == if p == 0 then None else Some(c[p - 1])
  {
    if front != [] {
      var rest, y := front[..|front| - 1], front[|front| - 1];
      NearestIsBeforePlace(less, rest, x);
      SortSorted(less, rest);
      var c := Sort(less, rest);
      InsertAtPlace(less, c, y);
      BeforePlaceAfterInsert(less, c, y, x);
    }
  }

  lemma InsertUnlessMisled(comp: Order, less: Order, c: seq<Idx>, x: Idx)
    requires Overeager(comp, less, c + [x])
    ensures var p := Place(less, c, x);
      !(p > 0 && comp(x, c[p - 1])) ==> Insert(comp, c, x) == Insert(less, c, x)
    ensures Insert(comp, c, x) == Insert(comp, c[..Place(less, c, x)], x) + c[Place(less, c, x)..]
  {
    hide Place;
    var p := Place(less, c, x);
    forall k | p <= k < |c|
      ensures comp(x, c[k])
    {
      assert x in c + [x] && (c + [x])[k] in c + [x];
    }
    InsertPasses(comp, c, x, p);
    InsertAtPlace(less, c, x);
    if !(p > 0 && comp(x, c[p - 1])) {
      if p > 0 {
        assert c[..p][|c[..p]| - 1] == c[p - 1];
      }
      assert Insert(comp, c[..p], x) == c[..p] + [x];
    }
  }

  /** An insertion splits the list somewhere. */
  lemma {:induction false} InsertSplits(comp: Order, c: seq<Idx>, x: Idx) returns (p: nat)
    ensures p <= |c| && Insert(comp, c, x) == c[..p] + [x] + c[p..]
    decreases |c|
  {
    if c != [] && comp(x, c[|c| - 1]) {
      var last := |c| - 1;
      p := InsertSplits(comp, c[..last], x);
      assert c[..last][..p] == c[..p] && c[p..] == c[..last][p..] + [c[last]];
    } else {
      p := |c|;
      assert c[..p] == c && c[p..] == [];
    }
  }

  /** Misled once, `x` ends up in front of an entry that is less than it. */
  lemma InsertMisled(comp: Order, less: Order, c: seq<Idx>, x: Idx)
    requires Overeager(comp, less, c + [x])
    requires Place(less, c, x) > 0 && comp(x, c[Place(less, c, x) - 1])
    ensures UnsortedBy(less, Insert(comp, c, x))
  {
    var p := Place(less, c, x);
    var y := c[p - 1];
    InsertUnlessMisled(comp, less, c, x);
    assert less(y, x) by {
      assert x in c + [x] && (c + [x])[p - 1] in c + [x];
    }
    var most := c[..p];
    var front := most[..p - 1];
    assert most[p - 1] == y;
    var i := InsertSplits(comp, front, x);
    var moved, out := Insert(comp, front, x), Insert(comp, c, x);
    assert out == moved + [y] + c[p..];
    assert moved[i] == x && |moved| == p;
    assert out[i] == x && out[p] == y;
  }

  /** Later insertions never repair an inversion. */
  lemma InsertKeepsUnsorted(comp: Order, less: Order, c: seq<Idx>, x: Idx)
    requires UnsortedBy(less, c)
    ensures UnsortedBy(less, Insert(comp, c, x))
  {
    var i, j :| 0 <= i < j < |c| && less(c[j], c[i]);
    var p := InsertSplits(comp, c, x);
    var out := Insert(comp, c, x);
    var i', j' := if i < p then i else i + 1, if j < p then j else j + 1;
    assert out[i'] == c[i] && out[j'] == c[j];
  }

  lemma OvereagerOn(comp: Order, less: Order, t: seq<Idx>, u: seq<Idx>)
    requires Overeager(comp, less, t) && forall x :: x in u ==> x in t
    ensures Overeager(comp, less, u)
  {
  }

  lemma SortStep(comp: Order, less: Order, front: seq<Idx>, x: Idx)
    requires StrictWeak(less) && Overeager(comp, less, front + [x])
    requires UnsortedBy(less, Sort(comp, front)) || Sort(comp, front) == Sort(less, front)
    ensures var out := Insert(comp, Sort(comp, front), x);
      UnsortedBy(less, out) || out == Insert(less, Sort(less, front), x)
    ensures UnsortedBy(less, Insert(comp, Sort(comp, front), x)) <==>
      UnsortedBy(less, Sort(comp, front)) || Misled(comp, less, front, x)
  {
    if UnsortedBy(less, Sort(comp, front)) {
      InsertKeepsUnsorted(comp, less, Sort(comp, front), x);
    } else {
      var c := Sort(less, front);
      SameMembers(less, front);
      OvereagerOn(comp, less, front + [x], c + [x]);
      InsertUnlessMisled(comp, less, c, x);
      NearestIsBeforePlace(less, front, x);
      if Misled(comp, less, front, x) {
        InsertMisled(comp, less, c, x);
      } else {
        SortSorted(less, front);
        InsertSorted(less, c, x);
      }
    }
  }

  predicate NeverMisled(comp: Order, less: Order, t: seq<Idx>) {
    t != [] ==> !Misled(comp, less, t[..|t| - 1], t[|t| - 1]) && NeverMisled(comp, less, t[..|t| - 1])
  }

  lemma {:induction false} NeverMisledIff(comp: Order, less: Order, t: seq<Idx>)
    ensures NeverMisled(comp, less, t) <==> forall k :: 0 <= k < |t| ==> !Misled(comp, less, t[..k], t[k])
    decreases |t|
  {
    if t != [] {
      hide Misled;
      var front := t[..|t| - 1];
      NeverMisledIff(comp, less, front);
      forall k | 0 <= k < |front|
        ensures front[..k] == t[..k] && front[k] == t[k]
      {
      }
    }
  }

  lemma {:induction false} AgreeingNeverMisleads(comp: Order, less: Order, t: seq<Idx>)
    requires StrictWeak(less) && forall x, y :: x in t && y in t ==> (comp(x, y) <==> less(x, y))
    ensures NeverMisled(comp, less, t)
    decreases |t|
  {
    if t != [] {
      var front, x := t[..|t| - 1], t[|t| - 1];
      assert forall y :: y in front ==> y in t;
      AgreeingNeverMisleads(comp, less, front);
      NearestMeans(less, front, x);
    }
  }

  /** The actual sort gives the intended order exactly when no entry is misled on its way in,
      and then it gives just what the intended sort gives. */
  lemma {:induction false} SortsIff(comp: Order, less: Order, t: seq<Idx>)
    requires StrictWeak(less) && Overeager(comp, less, t)
    ensures UnsortedBy(less, Sort(comp, t)) <==> !NeverMisled(comp, less, t)
    ensures NeverMisled(comp, less, t) ==> Sort(comp, t) == Sort(less, t)
    decreases |t|
  {
    if t != [] {
      var front, x := t[..|t| - 1], t[|t| - 1];
      assert t == front + [x];
      OvereagerOn(comp, less, t, front);
      SortsIff(comp, less, front);
      SortStep(comp, less, front, x);
    }
  }
}
