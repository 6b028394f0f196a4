/** The order of string tables: shorter strings first, equal lengths character by character. */
module Shortlex {
  import opened Bytes

  /** The difference of the first characters that differ, 0 when none do. */
  function CharCmp(a: seq<u8>, b: seq<u8>): int
    requires |a| == |b|
  {
    if a == [] then 0
    else if a[0] != b[0] then Char(a[0]) - Char(b[0])
    else CharCmp(a[1..], b[1..])
  }

  function Cmp(a: seq<u8>, b: seq<u8>): int {
    if |a| != |b| then |a| - |b| else CharCmp(a, b)
  }

  /** `strncmp` on what two pointers see: stops after `n` characters, at a difference, or at a NUL. */
  function StrNCmp(a: seq<u8>, b: seq<u8>, n: nat): int {
    if n == 0 || a == [] || b == [] then 0
    else if a[0] != b[0] then Char(a[0]) - Char(b[0])
    else if a[0] == 0 then 0
    else StrNCmp(a[1..], b[1..], n - 1)
  }

  /** On NUL-free strings of the compared length it is the character-wise comparison. */
  lemma {:induction false} StrNCmpIsCharCmp(a: seq<u8>, b: seq<u8>)
    requires |a| == |b| && NulFree(a)
    ensures StrNCmp(a, b, |a|) == CharCmp(a, b)
  {
    if a != [] {
      StrNCmpIsCharCmp(a[1..], b[1..]);
    }
  }

  function First(s: seq<u8>, n: nat): seq<u8> {
    if n <= |s| then s[..n] else s
  }

  /** On any memory that holds `n` characters or a NUL behind both pointers it compares two C strings of
      at most `n` characters. */
  lemma {:induction false} StrNCmpMeans(a: seq<u8>, b: seq<u8>, n: nat)
    requires (n <= |a| || 0 in a) && (n <= |b| || 0 in b)
    ensures StrNCmp(a, b, n) == StrCmp(UpToNul(First(a, n)), UpToNul(First(b, n)))
  {
    hide StrCmp, UpToNul, First;
    if n == 0 || a[0] != b[0] || a[0] == 0 {
      DecidedAtOnce(a, b, n);
    } else {
      assert a == [a[0]] + a[1..] && b == [b[0]] + b[1..];
      StrNCmpMeans(a[1..], b[1..], n - 1);
      FirstSplit(a, n);
      FirstSplit(b, n);
      ConsStrCmp(a[0], UpToNul(First(a[1..], n - 1)), UpToNul(First(b[1..], n - 1)));
    }
  }

  lemma FirstSplit(s: seq<u8>, n: nat)
    requires n > 0 && s != [] && s[0] != 0
    ensures UpToNul(First(s, n)) == [s[0]] + UpToNul(First(s[1..], n - 1))
  {
    assert First(s, n)[1..] == First(s[1..], n - 1);
  }

  lemma DecidedAtOnce(a: seq<u8>, b: seq<u8>, n: nat)
    requires n == 0 || (a != [] && b != [] && (a[0] != b[0] || a[0] == 0))
    ensures StrNCmp(a, b, n) == StrCmp(UpToNul(First(a, n)), UpToNul(First(b, n)))
  {
  }

  lemma ConsStrCmp(x: u8, a: seq<u8>, b: seq<u8>)
    ensures StrCmp([x] + a, [x] + b) == StrCmp(a, b)
  {
    assert ([x] + a)[1..] == a && ([x] + b)[1..] == b;
  }

  /** It has the sign of the byte-wise comparison exactly when the characters that decide are both
      below 0x80 or both not, and is zero whenever that is. */
  lemma {:induction false} CharCmpSignIff(a: seq<u8>, b: seq<u8>)
    requires |a| == |b|
    ensures Sign(CharCmp(a, b)) == Sign(MemCmp(a, b)) <==> SameHalf(a, b)
    ensures CharCmp(a, b) == 0 <==> MemCmp(a, b) == 0
  {
    if a != [] {
      CharCmpSignIff(a[1..], b[1..]);
    }
  }

  /** A single 0x80 against a single 1. */
  lemma CharCmpWitness()
    ensures CharCmp([0x80], [1]) < 0 < MemCmp([0x80], [1])
  {
  }

  /** Only the first `n` characters count. */
  lemma {:induction false} StrNCmpPrefix(a: seq<u8>, b: seq<u8>, n: nat)
    requires n <= |a| && n <= |b|
    ensures StrNCmp(a, b, n) == StrNCmp(a[..n], b[..n], n)
  {
    if n > 0 {
      assert a[..n][1..] == a[1..][..n - 1] && b[..n][1..] == b[1..][..n - 1];
      StrNCmpPrefix(a[1..], b[1..], n - 1);
    }
  }

  // ---------- a total order ----------

  lemma CmpEqual(a: seq<u8>, b: seq<u8>)
    ensures Cmp(a, b) == 0 <==> a == b
  {
    if |a| == |b| {
      CharCmpSignIff(a, b);
      MemCmpEqual(a, b);
    }
  }

  lemma {:induction false} CharCmpAntisymmetric(a: seq<u8>, b: seq<u8>)
    requires |a| == |b|
    ensures CharCmp(a, b) == -CharCmp(b, a)
  {
    if a != [] && a[0] == b[0] {
      CharCmpAntisymmetric(a[1..], b[1..]);
    }
  }

  lemma CmpAntisymmetric(a: seq<u8>, b: seq<u8>)
    ensures Cmp(a, b) == -Cmp(b, a)
  {
    if |a| == |b| {
      CharCmpAntisymmetric(a, b);
    }
  }

  lemma {:induction false} CharCmpTransitive(a: seq<u8>, b: seq<u8>, c: seq<u8>)
    requires |a| == |b| == |c| && CharCmp(a, b) <= 0 && CharCmp(b, c) <= 0
    ensures CharCmp(a, c) <= 0 && (CharCmp(a, b) < 0 || CharCmp(b, c) < 0 ==> CharCmp(a, c) < 0)
  {
    if a != [] && a[0] == b[0] == c[0] {
      CharCmpTransitive(a[1..], b[1..], c[1..]);
    }
  }

  lemma CmpTransitive(a: seq<u8>, b: seq<u8>, c: seq<u8>)
    requires Cmp(a, b) <= 0 && Cmp(b, c) <= 0
    ensures Cmp(a, c) <= 0 && (Cmp(a, b) < 0 || Cmp(b, c) < 0 ==> Cmp(a, c) < 0)
  {
    if |a| == |b| == |c| {
      CharCmpTransitive(a, b, c);
    }
  }

  // ---------- sorted lists of strings ----------

  ghost predicate Sorted(strs: seq<seq<u8>>) {
    forall i, j :: 0 <= i < j < |strs| ==> Cmp(strs[i], strs[j]) <= 0
  }

  /** How many strings come before `s`. */
  ghost function Rank(strs: seq<seq<u8>>, s: seq<u8>): (r: nat)
    ensures r <= |strs|
  {
    if strs == [] then 0
    else Rank(strs[..|strs| - 1], s) + if Cmp(strs[|strs| - 1], s) < 0 then 1 else 0
  }

  /** In a sorted list the strings before `s` are exactly the first `Rank` ones. */
  lemma {:induction false} RankSplits(strs: seq<seq<u8>>, s: seq<u8>)
    requires Sorted(strs)
    ensures forall i :: 0 <= i < |strs| ==> (Cmp(strs[i], s) < 0 <==> i < Rank(strs, s))
  {
    if strs != [] {
      var last := |strs| - 1;
      RankSplits(strs[..last], s);
      if Cmp(strs[last], s) < 0 {
        forall i | 0 <= i < last
          ensures Cmp(strs[i], s) < 0
        {
          CmpTransitive(strs[i], strs[last], s);
        }
        RankOfAll(strs[..last], s);
      }
    }
  }

  lemma {:induction false} RankOfAll(strs: seq<seq<u8>>, s: seq<u8>)
    requires forall i :: 0 <= i < |strs| ==> Cmp(strs[i], s) < 0
    ensures Rank(strs, s) == |strs|
  {
    if strs != [] {
      RankOfAll(strs[..|strs| - 1], s);
    }
  }

  ghost predicate StrictlySorted(strs: seq<seq<u8>>) {
    forall i, j :: 0 <= i < j < |strs| ==> Cmp(strs[i], strs[j]) < 0
  }

  ghost predicate Distinct<T>(t: seq<T>) {
    forall i, j :: 0 <= i < j < |t| ==> t[i] != t[j]
  }

  /** Strictly sorted is sorted without repetition. */
  lemma StrictlySortedIff(strs: seq<seq<u8>>)
    ensures StrictlySorted(strs) <==> Sorted(strs) && Distinct(strs)
  {
    forall i, j | 0 <= i < j < |strs|
      ensures Cmp(strs[i], strs[j]) == 0 <==> strs[i] == strs[j]
    {
      CmpEqual(strs[i], strs[j]);
    }
  }

  lemma InsertedDistinct<T>(t: seq<T>, r: nat, x: T)
    requires r <= |t| && x !in t
    ensures Distinct(t[..r] + [x] + t[r..]) <==> Distinct(t)
  {
    var out := t[..r] + [x] + t[r..];
    if Distinct(out) {
      forall i, j | 0 <= i < j < |t|
        ensures t[i] != t[j]
      {
        var i', j' := if i < r then i else i + 1, if j < r then j else j + 1;
        assert out[i'] == t[i] && out[j'] == t[j];
      }
    }
  }

  /** Putting a new string at its rank keeps the list sorted. */
  lemma InsertAtRankSorted(strs: seq<seq<u8>>, s: seq<u8>)
    requires Sorted(strs) && s !in strs
    ensures var r := Rank(strs, s);
      Sorted(strs[..r] + [s] + strs[r..])
  {
    var r := Rank(strs, s);
    var out := strs[..r] + [s] + strs[r..];
    forall i, j | 0 <= i < j < |out|
      ensures Cmp(out[i], out[j]) <= 0
    {
      NewAgainstOld(strs, s, if i < r then i else j - 1);
    }
  }

  /** An absent string stands strictly between those before its rank and those from it on. */
  lemma NewAgainstOld(strs: seq<seq<u8>>, s: seq<u8>, k: int)
    requires Sorted(strs) && s !in strs
    ensures 0 <= k < |strs| ==> if k < Rank(strs, s) then Cmp(strs[k], s) < 0 else Cmp(s, strs[k]) < 0
  {
    RankSplits(strs, s);
    if 0 <= k < |strs| {
      CmpEqual(strs[k], s);
      CmpAntisymmetric(strs[k], s);
    }
  }

  /** The list is strictly sorted afterwards exactly if it was before. */
  lemma InsertAtRankStrict(strs: seq<seq<u8>>, s: seq<u8>)
    requires Sorted(strs) && s !in strs
    ensures var r := Rank(strs, s);
      StrictlySorted(strs[..r] + [s] + strs[r..]) <==> StrictlySorted(strs)
  {
    var r := Rank(strs, s);
    InsertAtRankSorted(strs, s);
    InsertedDistinct(strs, r, s);
    StrictlySortedIff(strs);
    StrictlySortedIff(strs[..r] + [s] + strs[r..]);
  }
}
