/** The comparator of the string-table sort as written, and exactly when sorting with it gives
    shortlex order. */
module TableOrder {
  import opened Bytes
  import opened Shortlex
  import opened TableSort
  import opened MisledSort

  function From(mem: seq<u8>, p: nat): seq<u8> {
    if p <= |mem| then mem[p..] else []
  }

  /** The string of an entry. */
  function Str(mem: seq<u8>, i: Idx): seq<u8> {
    if i.offset + i.length <= |mem| then mem[i.offset..i.offset + i.length] else []
  }

  function Strs(mem: seq<u8>, t: seq<Idx>): (r: seq<seq<u8>>)
    ensures |r| == |t| && forall k :: 0 <= k < |t| ==> r[k] == Str(mem, t[k])
  {
    seq(|t|, k requires 0 <= k < |t| => Str(mem, t[k]))
  }

  /** `__comp`: the second length test repeats the first, so a longer left side is compared
      with whatever lies behind the shorter right one. `mem` is the buffer and what follows it. */
  predicate CompAsWritten(mem: seq<u8>, l: Idx, r: Idx) {
    if l.length < r.length then true
    else if r.length > l.length then false
    else if l.length == 0 then false
    else StrNCmp(From(mem, l.offset), From(mem, r.offset), l.length) < 0
  }

  predicate Less(mem: seq<u8>, l: Idx, r: Idx) {
    Cmp(Str(mem, l), Str(mem, r)) < 0
  }

  function AsWritten(mem: seq<u8>): Order {
    (l, r) => CompAsWritten(mem, l, r)
  }

  function Intended(mem: seq<u8>): Order {
    (l, r) => Less(mem, l, r)
  }

  /** An entry of the table: it lies in memory and its string has no NUL in it. */
  predicate Entry(mem: seq<u8>, i: Idx) {
    i.length > 0 && i.offset + i.length <= |mem| && NulFree(Str(mem, i))
  }

  ghost predicate Entries(mem: seq<u8>, t: seq<Idx>) {
    forall k :: 0 <= k < |t| ==> Entry(mem, t[k])
  }

  /** The comparator is right unless its left side is the longer one. */
  lemma AgreesUnlessLonger(mem: seq<u8>, l: Idx, r: Idx)
    requires Entry(mem, l) && Entry(mem, r)
    ensures l.length <= r.length ==> (CompAsWritten(mem, l, r) <==> Less(mem, l, r))
    ensures Less(mem, l, r) ==> CompAsWritten(mem, l, r)
  {
    if l.length == r.length {
      var n := l.length;
      var a, b := From(mem, l.offset), From(mem, r.offset);
      StrNCmpPrefix(a, b, n);
      assert a[..n] == Str(mem, l) && b[..n] == Str(mem, r);
      StrNCmpIsCharCmp(Str(mem, l), Str(mem, r));
    }
  }

  /** What the comparator says in the other case: the left string is compared, as a C string, with the
      same number of characters at the right offset. */
  lemma ComparesBehind(mem: seq<u8>, l: Idx, r: Idx)
    requires Entry(mem, l) && Entry(mem, r) && r.offset + l.length <= |mem| && l.length >= r.length
    ensures CompAsWritten(mem, l, r) <==>
      StrCmp(Str(mem, l), UpToNul(mem[r.offset..r.offset + l.length])) < 0
  {
    var n, a, b := l.length, From(mem, l.offset), From(mem, r.offset);
    StrNCmpMeans(a, b, n);
    UpToNulMeans(Str(mem, l), []);
    assert First(a, n) == Str(mem, l) && First(b, n) == mem[r.offset..r.offset + n];
  }

  /** An entry with a NUL behind its string. */
  predicate Terminated(mem: seq<u8>, i: Idx) {
    Entry(mem, i) && i.offset + i.length < |mem| && mem[i.offset + i.length] == 0
  }

  /** `__comp` on the strings of terminated entries: shorter, or smaller as a C string. */
  predicate WrittenLess(a: seq<u8>, b: seq<u8>) {
    |a| < |b| || StrCmp(a, b) < 0
  }

  lemma ComparesStrings(mem: seq<u8>, l: Idx, r: Idx)
    requires Entry(mem, l) && Terminated(mem, r)
    ensures CompAsWritten(mem, l, r) <==> WrittenLess(Str(mem, l), Str(mem, r))
  {
    var n, a := l.length, From(mem, l.offset);
    if n >= r.length {
      SeenBehind(mem, r, n);
      UpToNulMeans(Str(mem, l), []);
      assert First(a, n) == Str(mem, l);
      StrNCmpMeans(a, From(mem, r.offset), n);
    }
  }

  /** A C string of at most `n` characters at a terminated entry is its string. */
  lemma SeenBehind(mem: seq<u8>, r: Idx, n: nat)
    requires Terminated(mem, r) && n >= r.length
    ensures UpToNul(First(From(mem, r.offset), n)) == Str(mem, r) && 0 in From(mem, r.offset)
  {
    var b, s := From(mem, r.offset), Str(mem, r);
    var rest := b[r.length + 1..];
    assert b[r.length] == 0;
    assert b == s + [0] + rest;
    if n == r.length {
      assert First(b, n) == s;
      UpToNulMeans(s, []);
    } else {
      assert First(b, n) == s + [0] + First(rest, n - r.length - 1);
      UpToNulMeans(s, First(rest, n - r.length - 1));
    }
  }

  // ---------- the sort as written ----------

  lemma IntendedIsStrictWeak(mem: seq<u8>)
    ensures StrictWeak(Intended(mem))
  {
    var less := Intended(mem);
    forall x, y | less(x, y)
      ensures !less(y, x)
    {
      CmpAntisymmetric(Str(mem, x), Str(mem, y));
    }
    forall x, y, z | !less(y, x) && !less(z, y)
      ensures !less(z, x)
    {
      CmpAntisymmetric(Str(mem, x), Str(mem, y));
      CmpAntisymmetric(Str(mem, y), Str(mem, z));
      CmpAntisymmetric(Str(mem, x), Str(mem, z));
      CmpTransitive(Str(mem, x), Str(mem, y), Str(mem, z));
    }
  }

  lemma AsWrittenIsOvereager(mem: seq<u8>, t: seq<Idx>)
    requires Entries(mem, t)
    ensures Overeager(AsWritten(mem), Intended(mem), t)
  {
    var comp, less := AsWritten(mem), Intended(mem);
    forall x, y | x in t && y in t
      ensures (less(x, y) ==> comp(x, y)) && (comp(x, y) ==> less(x, y) || less(y, x))
    {
      AgreesUnlessLonger(mem, x, y);
      CmpAntisymmetric(Str(mem, x), Str(mem, y));
    }
  }

  lemma SortedOrNot(mem: seq<u8>, t: seq<Idx>)
    ensures Sorted(Strs(mem, t)) <==> !UnsortedBy(Intended(mem), t)
  {
    var s, less := Strs(mem, t), Intended(mem);
    forall i, j | 0 <= i < j < |t|
      ensures Cmp(s[i], s[j]) <= 0 <==> !less(t[j], t[i])
    {
      CmpAntisymmetric(s[i], s[j]);
    }
    if !Sorted(s) {
      var i, j :| 0 <= i < j < |s| && Cmp(s[i], s[j]) > 0;
      assert less(t[j], t[i]);
    }
    if UnsortedBy(less, t) {
      var i, j :| 0 <= i < j < |t| && less(t[j], t[i]);
      assert Cmp(s[i], s[j]) > 0;
    }
  }

  /** No string is called less than the one it should come to stand behind: the greatest of the
      earlier ones that is not greater (the latest, if it is there more than once). The comparator
      can only do that when this one is shorter, by what lies behind it in memory. */
  predicate SortsWell(mem: seq<u8>, t: seq<Idx>) {
    NeverMisled(AsWritten(mem), Intended(mem), t)
  }

  /** The sort as written gives shortlex order exactly when no entry is misled on its way in,
      and then it gives just what the intended sort gives. */
  lemma ShortlexIff(mem: seq<u8>, t: seq<Idx>)
    requires Entries(mem, t)
    ensures Sorted(Strs(mem, Sort(AsWritten(mem), t))) <==> SortsWell(mem, t)
    ensures SortsWell(mem, t) ==> Sort(AsWritten(mem), t) == Sort(Intended(mem), t)
  {
    IntendedIsStrictWeak(mem);
    AsWrittenIsOvereager(mem, t);
    SortsIff(AsWritten(mem), Intended(mem), t);
    SortedOrNot(mem, Sort(AsWritten(mem), t));
  }

  /** Does the string at `k` come in front of the one that it should come to stand behind? That is the
      greatest of the earlier ones that are not greater. */
  ghost predicate Passes(strs: seq<seq<u8>>, k: nat)
    requires k < |strs|
  {
    exists j :: 0 <= j < k && IsNearest(strs, k, j) && StrCmp(strs[k], strs[j]) < 0
  }

  ghost predicate IsNearest(strs: seq<seq<u8>>, k: nat, j: nat)
    requires j < k < |strs|
  {
    Cmp(strs[j], strs[k]) <= 0 && forall i :: 0 <= i < k && Cmp(strs[i], strs[k]) <= 0 ==> Cmp(strs[i], strs[j]) <= 0
  }

  ghost predicate NonePasses(strs: seq<seq<u8>>) {
    forall k :: 0 <= k < |strs| ==> !Passes(strs, k)
  }

  ghost predicate AllTerminated(mem: seq<u8>, t: seq<Idx>) {
    forall k :: 0 <= k < |t| ==> Terminated(mem, t[k])
  }

  lemma MisledIff(mem: seq<u8>, t: seq<Idx>, k: nat)
    requires AllTerminated(mem, t) && k < |t|
    ensures Misled(AsWritten(mem), Intended(mem), t[..k], t[k]) <==> Passes(Strs(mem, t), k)
  {
    hide Cmp, StrCmp, StrNCmp;
    var less, front, x, strs := Intended(mem), t[..k], t[k], Strs(mem, t);
    IntendedIsStrictWeak(mem);
    NearestMeans(less, front, x);
    forall a, b
      ensures Cmp(a, b) == -Cmp(b, a)
    {
      CmpAntisymmetric(a, b);
    }
    var n := Nearest(less, front, x);
    forall j | 0 <= j < k && IsNearest(strs, k, j)
      ensures n.Some? && Str(mem, n.e) == strs[j]
    {
      assert t[j] in front && !less(x, t[j]);
      var i :| 0 <= i < k && front[i] == n.e;
      assert strs[i] == Str(mem, n.e);
      CmpEqual(strs[i], strs[j]);
    }
    if n.Some? {
      var i :| 0 <= i < k && front[i] == n.e;
      forall j | 0 <= j < k && Cmp(strs[j], strs[k]) <= 0
        ensures Cmp(strs[j], strs[i]) <= 0
      {
        assert t[j] in front && !less(x, t[j]);
      }
      assert IsNearest(strs, k, i);
      ComparesStrings(mem, x, n.e);
      assert Cmp(strs[i], strs[k]) <= 0;
      assert |strs[i]| <= |strs[k]| by {
        CmpLengths(strs[i], strs[k]);
      }
    }
  }

  lemma CmpLengths(a: seq<u8>, b: seq<u8>)
    requires Cmp(a, b) <= 0
    ensures |a| <= |b|
  {
  }

  /** On a table with terminators, then, whether the sort as written works can be told from the strings: no
      string may come, as a C string, in front of the greatest of the earlier ones that are not greater. */
  lemma TerminatedIff(mem: seq<u8>, t: seq<Idx>)
    requires AllTerminated(mem, t)
    ensures SortsWell(mem, t) <==> NonePasses(Strs(mem, t))
  {
    hide Misled, Passes, NeverMisled;
    NeverMisledIff(AsWritten(mem), Intended(mem), t);
    forall k | 0 <= k < |t|
      ensures Misled(AsWritten(mem), Intended(mem), t[..k], t[k]) <==> Passes(Strs(mem, t), k)
    {
      MisledIff(mem, t, k);
    }
  }

  /** No string is called less than the one in front of it. */
  ghost predicate StillStrings(strs: seq<seq<u8>>) {
    forall k :: 0 < k < |strs| ==> !WrittenLess(strs[k], strs[k - 1])
  }

  lemma StillIff(mem: seq<u8>, t: seq<Idx>)
    requires AllTerminated(mem, t)
    ensures Still(AsWritten(mem), t) <==> StillStrings(Strs(mem, t))
  {
    hide StrCmp, StrNCmp;
    forall k | 0 < k < |t|
      ensures CompAsWritten(mem, t[k], t[k - 1]) <==> WrittenLess(Strs(mem, t)[k], Strs(mem, t)[k - 1])
    {
      ComparesStrings(mem, t[k], t[k - 1]);
    }
  }

  /** Strings of one length are always sorted correctly. */
  lemma SortsOneLength(mem: seq<u8>, t: seq<Idx>, n: nat)
    requires Entries(mem, t) && forall k :: 0 <= k < |t| ==> t[k].length == n
    ensures Sorted(Strs(mem, Sort(AsWritten(mem), t)))
  {
    forall x, y | x in t && y in t
      ensures AsWritten(mem)(x, y) <==> Intended(mem)(x, y)
    {
      AgreesUnlessLonger(mem, x, y);
    }
    IntendedIsStrictWeak(mem);
    AgreeingNeverMisleads(AsWritten(mem), Intended(mem), t);
    ShortlexIff(mem, t);
  }

  /** "b" then "aa", each with its terminator: the longer "aa" is taken past "b". */
  lemma SortWitness()
    ensures var mem: seq<u8> := [98, 0, 97, 97, 0];
      var t := [Idx(0, 1), Idx(2, 2)];
      Sort(AsWritten(mem), t) == [Idx(2, 2), Idx(0, 1)] && !Sorted(Strs(mem, Sort(AsWritten(mem), t)))
  {
    var mem: seq<u8> := [98, 0, 97, 97, 0];
    var t := [Idx(0, 1), Idx(2, 2)];
    assert Str(mem, t[0]) == [98] && Str(mem, t[1]) == [97, 97];
    assert From(mem, 2) == [97, 97, 0] && From(mem, 0)[0] == 98;
    assert CompAsWritten(mem, t[1], t[0]);
    SortShort(AsWritten(mem), t);
    var r := Strs(mem, Sort(AsWritten(mem), t));
    assert Cmp(r[0], r[1]) > 0;
  }

  /** "b" then "cc" stay as they are, and are right so. */
  lemma RightWitness()
    ensures var mem: seq<u8> := [98, 0, 99, 99, 0];
      var t := [Idx(0, 1), Idx(2, 2)];
      Sort(AsWritten(mem), t) == t && Sorted(Strs(mem, t))
  {
    var mem: seq<u8> := [98, 0, 99, 99, 0];
    var t := [Idx(0, 1), Idx(2, 2)];
    assert Str(mem, t[0]) == [98] && Str(mem, t[1]) == [99, 99];
    ComparesStrings(mem, t[1], t[0]);
    SortShort(AsWritten(mem), t);
  }
}
