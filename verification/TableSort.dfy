/** Table entries, the insertion sort that orders them, and the one that puts them back. */
module TableSort {
  import opened Shortlex

  /** Where a string lies in the buffer. Both fields have 16 bits. */
  datatype Idx = Idx(offset: nat, length: nat)

  type Order = (Idx, Idx) -> bool

  /** `x` moves left past the entries that it is less than. */
  function Insert(less: Order, front: seq<Idx>, x: Idx): seq<Idx> {
    if front == [] then [x]
    else if less(x, front[|front| - 1]) then Insert(less, front[..|front| - 1], x) + [front[|front| - 1]]
    else front + [x]
  }

  function Sort(less: Order, s: seq<Idx>): seq<Idx> {
    if s == [] then [] else Insert(less, Sort(less, s[..|s| - 1]), s[|s| - 1])
  }

  // ---------- in place ----------

  /** Everything behind `j` has been passed by `x`. */
  lemma {:induction false} InsertPasses(less: Order, front: seq<Idx>, x: Idx, j: nat)
    requires j <= |front| && forall k :: j <= k < |front| ==> less(x, front[k])
    ensures Insert(less, front, x) == Insert(less, front[..j], x) + front[j..]
    decreases |front|
  {
    if j == |front| {
      assert front[..j] == front && front[j..] == [];
    } else {
      var last := |front| - 1;
      InsertPasses(less, front[..last], x, j);
      assert front[..last][..j] == front[..j];
      assert front[j..] == front[..last][j..] + [front[last]];
    }
  }

  /** `a` with the entry at `i` moved to `j`, and those in between one up. */
  ghost predicate Moved(after: seq<Idx>, before: seq<Idx>, j: nat, i: nat)
    requires |after| == |before| && j <= i < |before|
  {
    && (forall k :: 0 <= k < j || i < k < |before| ==> after[k] == before[k])
    && after[j] == before[i]
    && (forall k :: j < k <= i ==> after[k] == before[k - 1])
  }

  lemma MovedIsInsert(less: Order, after: seq<Idx>, before: seq<Idx>, j: nat, i: nat)
    requires |after| == |before| && j <= i < |before| && Moved(after, before, j, i)
    requires forall k :: j <= k < i ==> less(before[i], before[k])
    requires j > 0 ==> !less(before[i], before[j - 1])
    ensures after[..i + 1] == Insert(less, before[..i], before[i])
  {
    var front, x := before[..i], before[i];
    InsertPasses(less, front, x, j);
    assert Insert(less, front[..j], x) == front[..j] + [x];
    assert after[..i + 1] == front[..j] + [x] + front[j..];
  }

  /** The inner loop: entry `i` moves left by neighbour swaps. */
  method Sift(a: array<Idx>, i: nat, less: Order) returns (swapped: bool)
    requires i < a.Length
    modifies a
    ensures a[..i + 1] == Insert(less, old(a[..i]), old(a[i]))
    ensures forall k :: i < k < a.Length ==> a[k] == old(a[k])
    ensures !swapped ==> a[..] == old(a[..])
  {
    ghost var before := a[..];
    var j := i;
    swapped := false;
    while j > 0 && less(a[j], a[j - 1])
      invariant 0 <= j <= i
      invariant Moved(a[..], before, j, i)
      invariant forall k :: j <= k < i ==> less(before[i], before[k])
      invariant !swapped ==> a[..] == before
    {
      a[j - 1], a[j] := a[j], a[j - 1];
      j := j - 1;
      swapped := true;
    }
    MovedIsInsert(less, a[..], before, j, i);
    assert before[..i] == old(a[..i]);
    assert a[..][..i + 1] == a[..i + 1];
  }

  /** `insertion_sort`; the short ranges are the source's own special cases. */
  method InsertionSort(a: array<Idx>, n: nat, less: Order) returns (mutated: bool)
    requires n <= a.Length
    modifies a
    ensures a[..n] == Sort(less, old(a[..n]))
    ensures forall k :: n <= k < a.Length ==> a[k] == old(a[k])
    ensures !mutated ==> a[..] == old(a[..])
  {
    ghost var s := a[..n];
    mutated := false;
    SortShort(less, s);
    if n < 2 {
      return;
    }
    if n == 2 {
      if less(a[1], a[0]) {
        a[0], a[1] := a[1], a[0];
        mutated := true;
      }
      return;
    }
    var i := 1;
    assert s[..1] == a[..1];
    SortShort(less, s[..1]);
    while i < n
      invariant 1 <= i <= n
      invariant a[..i] == Sort(less, s[..i])
      invariant forall k :: i <= k < a.Length ==> a[k] == old(a[k])
      invariant !mutated ==> a[..] == old(a[..])
    {
      assert s[..i + 1][..i] == s[..i] && s[..i + 1][i] == a[i];
      var swapped := Sift(a, i, less);
      mutated := mutated || swapped;
      i := i + 1;
    }
    assert s[..n] == s;
  }

  lemma SortShort(less: Order, s: seq<Idx>)
    ensures |s| < 2 ==> Sort(less, s) == s
    ensures |s| == 2 ==> Sort(less, s) == if less(s[1], s[0]) then [s[1], s[0]] else [s[0], s[1]]
  {
    if |s| == 1 {
      assert s[..0] == [];
    } else if |s| == 2 {
      SortShort(less, s[..1]);
      var one := s[..1];
      assert one == [s[0]] && one[..0] == [];
      assert Insert(less, one[..0], s[1]) == [s[1]];
    }
  }

  /** No entry is less than the one in front of it. */
  predicate Still(less: Order, t: seq<Idx>) {
    forall k :: 0 < k < |t| ==> !less(t[k], t[k - 1])
  }

  /** The sort moves nothing exactly when that is so, whatever the comparator. */
  lemma {:induction false} SortMovesNothingIff(less: Order, t: seq<Idx>)
    requires Distinct(t)
    ensures Sort(less, t) == t <==> Still(less, t)
  {
    if t != [] {
      var front, x := t[..|t| - 1], t[|t| - 1];
      SortMovesNothingIff(less, front);
      assert t == front + [x];
      if |t| > 1 && Sort(less, t) == t {
        InsertLastMeans(less, Sort(less, front), front, x);
      }
      assert Still(less, t) <==> Still(less, front) && (|t| > 1 ==> !less(x, t[|t| - 2]));
    }
  }

  /** An entry that comes last was not less than the one in front of it. */
  lemma InsertLastMeans(less: Order, c: seq<Idx>, front: seq<Idx>, x: Idx)
    requires front != [] && x !in front && Insert(less, c, x) == front + [x]
    ensures c == front && !less(x, front[|front| - 1])
  {
    var out := front + [x];
    assert out[|out| - 1] == x;
    if c == [] || !less(x, c[|c| - 1]) {
      assert out == c + [x] && out[..|out| - 1] == c;
    } else {
      var moved, last := Insert(less, c[..|c| - 1], x), c[|c| - 1];
      assert out == moved + [last] && out[..|out| - 1] == moved;
      InsertContains(less, c[..|c| - 1], x);
    }
  }

  lemma InsertContains(less: Order, front: seq<Idx>, x: Idx)
    ensures x in Insert(less, front, x)
  {
    InsertIsPermutation(less, front, x);
    assert x in multiset(Insert(less, front, x));
  }

  predicate ByOffset(x: Idx, y: Idx) {
    x.offset < y.offset
  }

  /** The loop of `unsort`: a hole moves left instead of neighbours being swapped. */
  method UnsortLoop(a: array<Idx>, n: nat)
    requires n <= a.Length
    modifies a
    ensures a[..n] == Sort(ByOffset, old(a[..n]))
    ensures forall k :: n <= k < a.Length ==> a[k] == old(a[k])
  {
    ghost var s := a[..n];
    var i := 0;
    while i < n
      invariant 0 <= i <= n
      invariant a[..i] == Sort(ByOffset, s[..i])
      invariant forall k :: i <= k < a.Length ==> a[k] == old(a[k])
    {
      assert s[..i + 1][..i] == s[..i] && s[..i + 1][i] == a[i];
      UnsortOne(a, i);
      i := i + 1;
    }
    assert s[..n] == s;
  }

  method UnsortOne(a: array<Idx>, i: nat)
    requires i < a.Length
    modifies a
    ensures a[..i + 1] == Insert(ByOffset, old(a[..i]), old(a[i]))
    ensures forall k :: i < k < a.Length ==> a[k] == old(a[k])
  {
    ghost var before := a[..];
    var tmp := a[i];
    var j := i;
    while j > 0 && a[j - 1].offset > tmp.offset
      invariant 0 <= j <= i
      invariant forall k :: 0 <= k < j || i < k < a.Length ==> a[k] == before[k]
      invariant forall k :: j < k <= i ==> a[k] == before[k - 1]
      invariant forall k :: j <= k < i ==> ByOffset(tmp, before[k])
    {
      a[j] := a[j - 1];
      j := j - 1;
    }
    a[j] := tmp;
    MovedIsInsert(ByOffset, a[..], before, j, i);
    assert before[..i] == old(a[..i]);
    assert a[..][..i + 1] == a[..i + 1];
  }

  // ---------- whatever the order: a permutation ----------

  lemma SplitLast(s: seq<Idx>)
    requires s != []
    ensures multiset(s) == multiset(s[..|s| - 1]) + multiset{s[|s| - 1]}
  {
    assert s == s[..|s| - 1] + [s[|s| - 1]];
  }

  lemma {:induction false} InsertIsPermutation(less: Order, front: seq<Idx>, x: Idx)
    ensures multiset(Insert(less, front, x)) == multiset(front) + multiset{x}
  {
    if front != [] && less(x, front[|front| - 1]) {
      var last := |front| - 1;
      InsertIsPermutation(less, front[..last], x);
      SplitLast(front);
    }
  }

  lemma {:induction false} SortIsPermutation(less: Order, s: seq<Idx>)
    ensures multiset(Sort(less, s)) == multiset(s)
  {
    if s != [] {
      var last := |s| - 1;
      SplitLast(s);
      SortIsPermutation(less, s[..last]);
      InsertIsPermutation(less, Sort(less, s[..last]), s[last]);
    }
  }

  // ---------- sorting by offset has one result ----------

  ghost predicate Ascending(s: seq<Idx>) {
    forall i, j :: 0 <= i < j < |s| ==> s[i].offset <= s[j].offset
  }

  ghost predicate StrictlyAscending(s: seq<Idx>) {
    forall i, j :: 0 <= i < j < |s| ==> s[i].offset < s[j].offset
  }

  lemma {:induction false} InsertAscending(front: seq<Idx>, x: Idx)
    requires Ascending(front)
    ensures Ascending(Insert(ByOffset, front, x))
  {
    if front != [] && ByOffset(x, front[|front| - 1]) {
      var last := |front| - 1;
      var rest := Insert(ByOffset, front[..last], x);
      InsertAscending(front[..last], x);
      forall k | 0 <= k < |rest|
        ensures rest[k].offset <= front[last].offset
      {
        InsertIsPermutation(ByOffset, front[..last], x);
        assert rest[k] in multiset(rest);
      }
    }
  }

  lemma {:induction false} SortAscending(s: seq<Idx>)
    ensures Ascending(Sort(ByOffset, s))
  {
    if s != [] {
      SortAscending(s[..|s| - 1]);
      InsertAscending(Sort(ByOffset, s[..|s| - 1]), s[|s| - 1]);
    }
  }

  /** The last entries of two such lists agree. */
  lemma SameLast(s: seq<Idx>, t: seq<Idx>)
    requires Ascending(s) && StrictlyAscending(t) && multiset(s) == multiset(t) && t != []
    ensures |s| == |t| && s[|s| - 1] == t[|t| - 1]
  {
    assert |multiset(s)| == |s| && |multiset(t)| == |t|;
    var last := |t| - 1;
    assert t[last] in multiset(s) && s[last] in multiset(t);
    var i :| 0 <= i < |s| && s[i] == t[last];
    var j :| 0 <= j < |t| && t[j] == s[last];
  }

  /** A strictly ascending list is the only ascending arrangement of its entries. */
  lemma {:induction false} AscendingUnique(s: seq<Idx>, t: seq<Idx>)
    requires Ascending(s) && StrictlyAscending(t) && multiset(s) == multiset(t)
    ensures s == t
    decreases |t|
  {
    if t == [] {
      assert |multiset(s)| == |s|;
    } else {
      SameLast(s, t);
      var last := |t| - 1;
      var s', t' := s[..last], t[..last];
      SplitLast(s);
      SplitLast(t);
      Cancel(multiset(s'), multiset(t'), s[last]);
      AscendingUnique(s', t');
      assert s == s' + [s[last]] && t == t' + [t[last]];
    }
  }

  lemma Cancel(a: multiset<Idx>, b: multiset<Idx>, x: Idx)
    requires a + multiset{x} == b + multiset{x}
    ensures a == b
  {
    assert a == (a + multiset{x}) - multiset{x};
    assert b == (b + multiset{x}) - multiset{x};
  }

  /** Any sort followed by the unsort gives back a list whose offsets were strictly ascending. */
  lemma SortThenUnsort(less: Order, t: seq<Idx>)
    requires StrictlyAscending(t)
    ensures Sort(ByOffset, Sort(less, t)) == t
  {
    SortIsPermutation(less, t);
    UnsortRestores(Sort(less, t), t);
  }

  lemma UnsortRestores(s: seq<Idx>, t: seq<Idx>)
    requires StrictlyAscending(t) && multiset(s) == multiset(t)
    ensures Sort(ByOffset, s) == t
  {
    SortIsPermutation(ByOffset, s);
    SortAscending(s);
    AscendingUnique(Sort(ByOffset, s), t);
  }
}
