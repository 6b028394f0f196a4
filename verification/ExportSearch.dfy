/** Binary search in the sorted export names of a loaded image. */
module ExportSearch {
  import opened Bytes

  ghost predicate AllNulFree(names: seq<seq<u8>>) {
    forall i :: 0 <= i < |names| ==> NulFree(names[i])
  }

  /** In strictly increasing order as the runtime compares strings. */
  ghost predicate Sorted(names: seq<seq<u8>>) {
    AllNulFree(names) && forall i, j :: 0 <= i < j < |names| ==> StrCmp(names[i], names[j]) < 0
  }

  /** In strictly increasing order as the linker sorts them, on unsigned characters. */
  ghost predicate SortedUnsigned(names: seq<seq<u8>>) {
    AllNulFree(names) && forall i, j :: 0 <= i < j < |names| ==> UnsignedStrCmp(names[i], names[j]) < 0
  }

  /** The two orders agree exactly when every pair is decided by characters of one half. */
  lemma SortedIff(names: seq<seq<u8>>)
    requires SortedUnsigned(names)
    ensures Sorted(names) <==> forall i, j :: 0 <= i < j < |names| ==> SameHalf(names[i], names[j])
  {
    forall i, j | 0 <= i < j < |names|
      ensures StrCmp(names[i], names[j]) < 0 <==> SameHalf(names[i], names[j])
    {
      StrCmpSignIff(names[i], names[j]);
    }
  }

  /** Division as in the source language, towards zero. */
  function TruncDiv(x: int, d: int): int
    requires d > 0
  {
    if x < 0 then -(-x / d) else x / d
  }

  /** The middle lies in the interval, and is -1 only when nothing else is left. */
  lemma MiddleInside(f: int, b: int)
    requires -1 <= f <= b
    ensures f <= TruncDiv(b + f, 2) <= b
    ensures TruncDiv(b + f, 2) == -1 <==> b == -1
  {
  }

  lemma Above(names: seq<seq<u8>>, key: seq<u8>, m: nat)
    requires Sorted(names) && NulFree(key) && m < |names| && StrCmp(names[m], key) > 0
    ensures forall i :: m <= i < |names| ==> StrCmp(names[i], key) > 0
  {
    forall i | m < i < |names|
      ensures StrCmp(names[i], key) > 0
    {
      StrCmpAntisymmetric(names[m], key);
      StrCmpAntisymmetric(names[i], key);
      StrCmpTransitive(key, names[m], names[i]);
    }
  }

  /** Where the search over [f, b] ends, -1 when it finds nothing. */
  function Search(names: seq<seq<u8>>, key: seq<u8>, before: seq<u8>, f: int, b: int): int
    requires -1 <= f && b < |names|
    decreases b - f
  {
    if f > b then -1
    else
      MiddleInside(f, b);
      var middle := TruncDiv(b + f, 2);
      var r := StrCmp(if middle >= 0 then names[middle] else before, key);
      if r == 0 then middle
      else if r > 0 then Search(names, key, before, f, middle - 1)
      else Search(names, key, before, middle + 1, b)
  }

  /** Does every name that the search over [f, b] meets on its way to position `q` point towards it? */
  predicate Guided(names: seq<seq<u8>>, key: seq<u8>, q: int, f: int, b: int)
    requires -1 <= f <= q <= b < |names| && 0 <= q
    decreases b - f
  {
    MiddleInside(f, b);
    var middle := TruncDiv(b + f, 2);
    if middle == q then true
    else if middle < q then StrCmp(names[middle], key) < 0 && Guided(names, key, q, middle + 1, b)
    else StrCmp(names[middle], key) > 0 && Guided(names, key, q, f, middle - 1)
  }

  /** What is found is in the interval, and is the key. */
  lemma {:induction false} SearchInside(names: seq<seq<u8>>, key: seq<u8>, before: seq<u8>, f: int, b: int)
    requires -1 <= f && b < |names| && AllNulFree(names) && NulFree(key)
    ensures var pos := Search(names, key, before, f, b);
      pos == -1 || (0 <= pos && f <= pos <= b && names[pos] == key)
    decreases b - f
  {
    if f <= b {
      hide StrCmp, TruncDiv;
      MiddleInside(f, b);
      var middle := TruncDiv(b + f, 2);
      var r := StrCmp(if middle >= 0 then names[middle] else before, key);
      if r > 0 {
        SearchInside(names, key, before, f, middle - 1);
      } else if r < 0 {
        SearchInside(names, key, before, middle + 1, b);
      } else if middle >= 0 {
        StrCmpEqual(names[middle], key);
      }
    }
  }

  /** In any order of the names: one that occurs once is found exactly when the search is guided to it. */
  lemma {:induction false} SearchIff(names: seq<seq<u8>>, key: seq<u8>, before: seq<u8>, q: int, f: int, b: int)
    requires AllNulFree(names) && NulFree(key) && -1 <= f <= q <= b < |names| && 0 <= q && names[q] == key
    requires forall i :: 0 <= i < |names| && i != q ==> names[i] != key
    ensures Search(names, key, before, f, b) == q <==> Guided(names, key, q, f, b)
    decreases b - f
  {
    hide StrCmp, TruncDiv;
    MiddleInside(f, b);
    var middle := TruncDiv(b + f, 2);
    StrCmpEqual(names[middle], key);
    SearchInside(names, key, before, f, middle - 1);
    SearchInside(names, key, before, middle + 1, b);
    if middle < q {
      SearchIff(names, key, before, q, middle + 1, b);
    } else if middle > q {
      SearchIff(names, key, before, q, f, middle - 1);
    }
  }

  lemma {:induction false} GuidedWhenSorted(names: seq<seq<u8>>, key: seq<u8>, q: int, f: int, b: int)
    requires Sorted(names) && -1 <= f <= q <= b < |names| && 0 <= q && names[q] == key
    ensures Guided(names, key, q, f, b)
    decreases b - f
  {
    hide StrCmp, TruncDiv;
    MiddleInside(f, b);
    var middle := TruncDiv(b + f, 2);
    if middle < q {
      GuidedWhenSorted(names, key, q, middle + 1, b);
    } else if middle > q {
      StrCmpAntisymmetric(key, names[middle]);
      GuidedWhenSorted(names, key, q, f, middle - 1);
    }
  }

  /** On sorted names the search is exact. */
  lemma SearchExact(names: seq<seq<u8>>, key: seq<u8>, before: seq<u8>)
    requires Sorted(names) && NulFree(key)
    ensures Search(names, key, before, -1, |names| - 1) == -1 <==> key !in names
  {
    hide StrCmp, Search;
    SearchInside(names, key, before, -1, |names| - 1);
    if key in names {
      var q :| 0 <= q < |names| && names[q] == key;
      OnceWhenSorted(names, q);
      GuidedWhenSorted(names, key, q, -1, |names| - 1);
      SearchIff(names, key, before, q, -1, |names| - 1);
    }
  }

  lemma OnceWhenSorted(names: seq<seq<u8>>, q: nat)
    requires Sorted(names) && q < |names|
    ensures forall i :: 0 <= i < |names| && i != q ==> names[i] != names[q]
  {
    hide StrCmp;
    StrCmpEqual(names[q], names[q]);
  }

  /** Is every name that the search over [f, b] meets on its way to position `q` told from the key by
      characters of one half? */
  predicate MeetsOneHalf(names: seq<seq<u8>>, key: seq<u8>, q: int, f: int, b: int)
    requires -1 <= f <= q <= b < |names| && 0 <= q
    decreases b - f
  {
    MiddleInside(f, b);
    var middle := TruncDiv(b + f, 2);
    if middle == q then true
    else if middle < q then SameHalf(names[middle], key) && MeetsOneHalf(names, key, q, middle + 1, b)
    else SameHalf(names[middle], key) && MeetsOneHalf(names, key, q, f, middle - 1)
  }

  /** In the linker's order that is what guides the search. */
  lemma {:induction false} GuidedIff(names: seq<seq<u8>>, key: seq<u8>, q: int, f: int, b: int)
    requires SortedUnsigned(names) && -1 <= f <= q <= b < |names| && 0 <= q && names[q] == key
    ensures Guided(names, key, q, f, b) <==> MeetsOneHalf(names, key, q, f, b)
    decreases b - f
  {
    hide StrCmp, UnsignedStrCmp, SameHalf, TruncDiv;
    MiddleInside(f, b);
    var middle := TruncDiv(b + f, 2);
    StrCmpSignIff(names[middle], key);
    UnsignedStrCmpAntisymmetric(names[middle], key);
    if middle < q {
      GuidedIff(names, key, q, middle + 1, b);
    } else if middle > q {
      GuidedIff(names, key, q, f, middle - 1);
    }
  }

  /** On a table in the linker's order: the name at `q` is missed exactly when, on the way to it, the
      search meets a name in front of or behind it that is told from it across the halves. */
  lemma MissedIff(names: seq<seq<u8>>, q: nat, before: seq<u8>)
    requires SortedUnsigned(names) && q < |names|
    ensures var pos := Search(names, names[q], before, -1, |names| - 1);
      if MeetsOneHalf(names, names[q], q, -1, |names| - 1) then pos == q else pos == -1
  {
    hide StrCmp, UnsignedStrCmp, Search, Guided, MeetsOneHalf;
    StrCmpSignIff(names[q], names[q]);
    StrCmpEqual(names[q], names[q]);
    SearchInside(names, names[q], before, -1, |names| - 1);
    SearchIff(names, names[q], before, q, -1, |names| - 1);
    GuidedIff(names, names[q], q, -1, |names| - 1);
  }

  /** "a" then 0x80, in the linker's order: the second is there and is not found. */
  lemma UnsignedWitness(before: seq<u8>)
    ensures var names: seq<seq<u8>> := [[97], [0x80]];
      SortedUnsigned(names) && Search(names, [0x80], before, -1, 1) == -1
  {
    var names: seq<seq<u8>> := [[97], [0x80]];
    assert StrCmp(names[0], [0x80]) > 0;
    assert TruncDiv(1 + -1, 2) == 0 && TruncDiv(-1 + -1, 2) == -1;
    assert Search(names, [0x80], before, -1, -1) == -1;
  }

  /** `bsearch`. `before` stands for whatever the entry in front of the table resolves to. On sorted
      names the search is exact, and reads that entry if and only if the key precedes every name,
      once, last. */
  method BSearch(names: seq<seq<u8>>, key: seq<u8>, before: seq<u8>) returns (pos: int, probes: seq<int>)
    requires names != [] && AllNulFree(names) && NulFree(key)
    ensures pos == Search(names, key, before, -1, |names| - 1)
    ensures pos != -1 ==> 0 <= pos < |names| && names[pos] == key
    ensures forall k :: 0 <= k < |probes| ==> -1 <= probes[k] < |names|
    ensures forall k :: 0 <= k < |probes| - 1 ==> probes[k] >= 0
    ensures -1 in probes ==> StrCmp(names[0], key) > 0
    ensures Sorted(names) ==> (pos == -1 <==> key !in names)
    ensures Sorted(names) ==> (-1 in probes <==> StrCmp(key, names[0]) < 0)
  {
    hide StrCmp, Sorted, TruncDiv;
    ghost var target := Search(names, key, before, -1, |names| - 1);
    ghost var below := Sorted(names) && StrCmp(names[0], key) > 0;
    SearchInside(names, key, before, -1, |names| - 1);
    StrCmpAntisymmetric(key, names[0]);
    if Sorted(names) {
      SearchExact(names, key, before);
      if below {
        Above(names, key, 0);
      }
    }
    var f, b := -1, |names| - 1;
    probes := [];
    ghost var low := false;
    while f <= b
      invariant -1 <= f && -2 <= b < |names| && Search(names, key, before, f, b) == target
      invariant b < 0 ==> StrCmp(names[0], key) > 0
      invariant low <==> -1 in probes
      invariant low ==> f > b && StrCmp(names[0], key) > 0
      invariant b < -1 ==> low
      invariant forall k :: 0 <= k < |probes| ==> -1 <= probes[k] < |names|
      invariant forall k :: 0 <= k < |probes| - 1 ==> probes[k] >= 0
      invariant below ==> f == -1 || low
      decreases b - f
    {
      MiddleInside(f, b);
      var middle := TruncDiv(b + f, 2);
      probes := probes + [middle];
      low := middle == -1;
      var r := StrCmp(if middle >= 0 then names[middle] else before, key);
      if r == 0 {
        return middle, probes;
      }
      if r > 0 {
        b := middle - 1;
      } else {
        f := middle + 1;
      }
    }
    return -1, probes;
  }

  datatype Lookup = NotFound | Address(rva: nat)

  /** The exported address of a name: through its position, the ordinal there, and the address
      table; an address of zero counts as absent. On names in any order the answer is that of the
      position where the search ends; on sorted names it is that of the name. */
  method Resolve(names: seq<seq<u8>>, ordinals: seq<nat>, addresses: seq<nat>, key: seq<u8>, before: seq<u8>)
    returns (r: Lookup)
    requires AllNulFree(names) && NulFree(key) && |ordinals| == |names|
    requires forall i :: 0 <= i < |ordinals| ==> ordinals[i] < |addresses|
    ensures var pos := Search(names, key, before, -1, |names| - 1);
      && (pos < 0 ==> r == NotFound)
      && (pos >= 0 ==> pos < |names| && names[pos] == key)
      && (pos >= 0 && addresses[ordinals[pos]] != 0 ==> r == Address(addresses[ordinals[pos]]))
      && (pos >= 0 && addresses[ordinals[pos]] == 0 ==> r == NotFound)
    ensures key !in names ==> r == NotFound
    ensures Sorted(names) ==> forall i :: 0 <= i < |names| && names[i] == key ==>
      (addresses[ordinals[i]] != 0 ==> r == Address(addresses[ordinals[i]])) &&
      (addresses[ordinals[i]] == 0 ==> r == NotFound)
  {
    hide StrCmp, Search, Sorted;
    SearchInside(names, key, before, -1, |names| - 1);
    if names == [] {
      return NotFound;
    }
    if Sorted(names) {
      SearchExact(names, key, before);
      forall i | 0 <= i < |names|
        ensures forall j :: 0 <= j < |names| && j != i ==> names[j] != names[i]
      {
        OnceWhenSorted(names, i);
      }
    }
    var pos, _ := BSearch(names, key, before);
    if pos >= 0 {
      var ord := ordinals[pos];
      if addresses[ord] == 0 {
        return NotFound;
      }
      return Address(addresses[ord]);
    }
    return NotFound;
  }
}
