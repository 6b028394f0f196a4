/** The string table: a buffer that strings are appended to, and an index table that can be
    sorted, searched, inserted into in order, and put back into insertion order. */
module StringTable {
  import opened Bytes
  import opened Shortlex
  import opened TableSort
  import opened TableOrder
  import opened TableLayout
  import opened SortedInsert
  import opened InsertOutcome

  datatype Found = Invalid | Empty | At(idx: Idx)

  /** `Fault`: the slide left the table; what memory holds then is not defined. */
  datatype Status = AtCapacity | Success | AlreadyExists | Fault

  /** A string that ends in a NUL is cut at its first one. */
  function DropNull(s: seq<u8>): seq<u8> {
    if s == [] || s[|s| - 1] != 0 then s else UpToNul(s)
  }

  /** A string that has no NUL inside, or ends in one and is cut at its first. */
  predicate Readable(s: seq<u8>) {
    s == [] || s[|s| - 1] == 0 || NulFree(s)
  }

  /** These are the ones that are free of NULs once they are cut. */
  lemma ReadableIff(s: seq<u8>)
    ensures Readable(s) <==> NulFree(DropNull(s))
  {
    UpToNulIsFree(s);
  }

  /** What is cut: nothing of a string without NULs, and all from the first NUL on of one that ends in one. */
  lemma DropNullMeans(s: seq<u8>, more: seq<u8>)
    requires NulFree(s)
    ensures DropNull(s) == s && DropNull(s + [0]) == s && DropNull(s + [0] + more + [0]) == s
  {
    UpToNulMeans(s, []);
    UpToNulMeans(s, more + [0]);
    assert s + [0] + [] == s + [0];
    assert s + [0] + (more + [0]) == s + [0] + more + [0];
  }

  /** The comparison of both searches: lengths first, contents only when they agree. */
  function Compare(s: seq<u8>, str: seq<u8>): int {
    if |str| != |s| then |s| - |str| else StrNCmp(s, str, |s|)
  }

  lemma CompareIsCmp(s: seq<u8>, str: seq<u8>)
    requires NulFree(s)
    ensures Compare(s, str) == Cmp(s, str) == -Cmp(str, s)
    ensures Compare(s, str) == 0 <==> s == str
  {
    CmpAntisymmetric(s, str);
    CmpEqual(s, str);
    if |s| == |str| {
      StrNCmpIsCharCmp(s, str);
    }
  }

  /** A probe of a sorted list tells where the rest is. */
  lemma ProbeSorted(strs: seq<seq<u8>>, s: seq<u8>, mid: nat)
    requires Sorted(strs) && mid < |strs|
    ensures Cmp(strs[mid], s) < 0 ==> forall i :: 0 <= i <= mid ==> Cmp(strs[i], s) < 0
    ensures Cmp(strs[mid], s) > 0 ==> forall i :: mid <= i < |strs| ==> Cmp(strs[i], s) > 0
  {
    if Cmp(strs[mid], s) < 0 {
      forall i | 0 <= i < mid
        ensures Cmp(strs[i], s) < 0
      {
        CmpTransitive(strs[i], strs[mid], s);
      }
    }
    if Cmp(strs[mid], s) > 0 {
      forall i | mid < i < |strs|
        ensures Cmp(strs[i], s) > 0
      {
        CmpAntisymmetric(strs[mid], s);
        CmpAntisymmetric(strs[i], s);
        CmpTransitive(s, strs[mid], strs[i]);
      }
    }
  }

  /** The strings before `s` are the first `r` ones. */
  ghost predicate Splits(strs: seq<seq<u8>>, s: seq<u8>, r: nat) {
    forall i :: 0 <= i < |strs| ==> (Cmp(strs[i], s) < 0 <==> i < r)
  }

  lemma Absent(strs: seq<seq<u8>>, s: seq<u8>)
    requires forall i :: 0 <= i < |strs| ==> Cmp(strs[i], s) != 0
    ensures s !in strs
  {
    forall i | 0 <= i < |strs|
      ensures strs[i] != s
    {
      CmpEqual(strs[i], s);
    }
  }

  /** A string stored behind a history: its cut entry is the right one exactly while offset and
      length fit, and then it reads as the string. */
  lemma NewStored(history: seq<seq<u8>>, s: seq<u8>, nullTerm: bool)
    requires Storable(history) && s != [] && NulFree(s)
    ensures Storable(history + [s])
    ensures Image(history + [s], nullTerm) == Image(history, nullTerm) + Stored(s, nullTerm)
    ensures var i, intended := NewIdx(|Image(history, nullTerm)|, |s|), Idx(|Image(history, nullTerm)|, |s|);
      && (i == intended <==> |Image(history, nullTerm)| < 0x1_0000 && |s| < 0x1_0000)
      && Str(Image(history + [s], nullTerm), intended) == s
  {
    Appended(history, s, nullTerm);
    NewIdxIff(|Image(history, nullTerm)|, |s|);
    StrOfLast(Image(history, nullTerm), s, Stored(s, nullTerm));
  }

  /** The strings of the used part of one memory read the same in another. */
  ghost predicate ReadsSame(before: seq<u8>, after: seq<u8>, size: nat) {
    forall e: Idx {:trigger Str(after, e)} :: e.offset + e.length <= size ==> Str(after, e) == Str(before, e)
  }

  /** Every entry lies in the used part. */
  ghost predicate InUse(t: seq<Idx>, size: nat) {
    forall k :: 0 <= k < |t| ==> t[k].offset + t[k].length <= size
  }

  lemma ReadsSameStrs(before: seq<u8>, after: seq<u8>, size: nat, t: seq<Idx>)
    requires ReadsSame(before, after, size) && InUse(t, size)
    ensures Strs(after, t) == Strs(before, t)
  {
  }

  /** The contents of a table at one moment. */
  datatype Contents = Contents(entries: seq<Idx>, strs: seq<seq<u8>>, history: seq<seq<u8>>, memory: seq<u8>, size: nat)

  class Table {
    const nullTerm: bool
    const buf: array<u8>
    const tbl: array<Idx>
    const behind: seq<u8>       // what memory holds behind the buffer
    const fixed: bool           // whether the two lines of sorted insertion are repaired
    var bufSize: nat
    var tblSize: nat
    var ksorted: bool
    var isSorted: bool
    var hasEmpty: bool
    ghost var history: seq<seq<u8>>   // every stored string, in order of insertion

    /** The buffer holds the history, string after string. */
    ghost predicate BufferHolds()
      reads this`bufSize, this`tblSize, this`history, buf
    {
      && bufSize <= buf.Length == |behind| && tblSize <= tbl.Length
      && buf[..bufSize] == Image(history, nullTerm) && Storable(history)
    }

    /** ... and the index table is an arrangement of its entries. */
    ghost predicate Arranged()
      reads this`bufSize, this`tblSize, this`history, buf, tbl
    {
      BufferHolds() && multiset(tbl[..tblSize]) == multiset(Layout(history, nullTerm))
    }

    /** A buffer in which every entry fits 16 bits. */
    ghost predicate BufferValid()
      reads this`bufSize, this`tblSize, this`history, buf
    {
      BufferHolds() && buf.Length <= 0xFFFF
    }

    ghost predicate Valid()
      reads this`bufSize, this`tblSize, this`history, buf, tbl
    {
      BufferValid() && multiset(tbl[..tblSize]) == multiset(Layout(history, nullTerm))
    }

    function Memory(): seq<u8>
      reads buf
    {
      buf[..] + behind
    }

    ghost function Entries(): seq<Idx>
      requires tblSize <= tbl.Length
      reads this`tblSize, tbl
    {
      tbl[..tblSize]
    }

    ghost function Strings(): seq<seq<u8>>
      requires tblSize <= tbl.Length
      reads this`tblSize, buf, tbl
    {
      Strs(Memory(), Entries())
    }

    ghost predicate InOrder()
      requires tblSize <= tbl.Length
      reads this`tblSize, buf, tbl
    {
      Sorted(Strings())
    }

    /** ... and no string is in the table twice. */
    ghost predicate StrictlyInOrder()
      requires tblSize <= tbl.Length
      reads this`tblSize, buf, tbl
    {
      StrictlySorted(Strings())
    }

    ghost function Now(): (c: Contents)
      requires tblSize <= tbl.Length
      reads this`bufSize, this`tblSize, this`history, buf, tbl
      ensures |c.entries| == |c.strs| == tblSize
    {
      Contents(Entries(), Strings(), history, Memory(), bufSize)
    }

    /** `isSorted<true>` */
    predicate CountsAsSorted()
      reads this
    {
      isSorted || tblSize < 2
    }

    predicate HasRoom(s: seq<u8>)
      reads this`bufSize, this`tblSize
    {
      tblSize < tbl.Length && bufSize <= buf.Length && buf.Length - bufSize >= |Stored(s, nullTerm)|
    }

    constructor (bufLen: nat, tblLen: nat, nullTerm: bool, fixed: bool, behind: seq<u8>)
      requires |behind| == bufLen
      ensures Arranged() && (bufLen <= 0xFFFF ==> Valid())
      ensures fresh(buf) && fresh(tbl) && buf.Length == bufLen && tbl.Length == tblLen
      ensures history == [] && Entries() == [] && !ksorted && this.nullTerm == nullTerm && this.fixed == fixed
    {
      this.nullTerm, this.fixed, this.behind := nullTerm, fixed, behind;
      buf := new u8[bufLen];
      tbl := new Idx[tblLen](_ => Idx(0, 0));
      bufSize, tblSize := 0, 0;
      ksorted, isSorted, hasEmpty := false, true, false;
      history := [];
    }

    // ---------- what validity gives ----------

    /** Memory begins with the image of the history. */
    lemma MemoryIsImage(i: Idx)
      requires BufferHolds() && i.offset + i.length <= bufSize
      ensures Str(Memory(), i) == Str(Image(history, nullTerm), i)
    {
      assert Memory() == buf[..bufSize] + (buf[bufSize..] + behind);
      StrPrefix(buf[..bufSize], buf[bufSize..] + behind, i);
    }

    /** Every entry is one of the layout's, and its string is one of the history's. */
    lemma EntryOf(e: Idx) returns (k: nat)
      requires Valid() && e in Entries()
      ensures k < |history| && |Layout(history, nullTerm)| == |history| && e == Layout(history, nullTerm)[k]
      ensures e.offset + e.length <= bufSize && Str(Memory(), e) == history[k] && Entry(Memory(), e)
    {
      assert e in multiset(tbl[..tblSize]);
      LayoutLength(history, nullTerm);
      assert e in multiset(Layout(history, nullTerm));
      k :| 0 <= k < |history| && Layout(history, nullTerm)[k] == e;
      EntriesTile(history, nullTerm, k);
      MemoryIsImage(e);
    }

    lemma AllEntries()
      requires Valid()
      ensures TableOrder.Entries(Memory(), Entries())
    {
      forall k | 0 <= k < |Entries()|
        ensures Entry(Memory(), Entries()[k])
      {
        var _ := EntryOf(Entries()[k]);
      }
    }

    /** With terminators there is a NUL behind every entry. */
    lemma AllAreTerminated()
      requires Valid() && nullTerm
      ensures AllTerminated(Memory(), Entries())
    {
      forall i | 0 <= i < |Entries()|
        ensures Terminated(Memory(), Entries()[i])
      {
        var e := Entries()[i];
        var k := EntryOf(e);
        EntriesTerminated(history, k);
        assert Memory()[e.offset + e.length] == buf[..bufSize][e.offset + e.length];
      }
    }

    /** `resolveDirect` */
    method Resolve(i: Idx) returns (s: seq<u8>)
      requires Valid() && i in Entries()
      ensures s == Str(Memory(), i) && s in history && NulFree(s)
    {
      var k := EntryOf(i);
      s := buf[i.offset..i.offset + i.length];
      assert Memory()[i.offset..i.offset + i.length] == buf[i.offset..i.offset + i.length];
    }

    // ---------- appending ----------

    /** Bytes behind the used part do not matter to an entry inside it. */
    lemma StrInPrefix(before: seq<u8>, size: nat, i: Idx)
      requires size <= |before| && size <= buf.Length && buf[..size] == before[..size]
      requires i.offset + i.length <= size
      ensures Str(Memory(), i) == Str(before, i)
    {
      assert Memory() == buf[..size] + (buf[size..] + behind);
      assert before == before[..size] + before[size..];
      StrPrefix(buf[..size], buf[size..] + behind, i);
      StrPrefix(before[..size], before[size..], i);
    }

    /** Whatever lay in the used part of the buffer still reads as it did. */
    twostate predicate SameStrings()
      reads buf
    {
      ReadsSame(old(Memory()), Memory(), old(bufSize))
    }

    /** Bytes, then the terminator. */
    method Put(s: seq<u8>)
      requires bufSize + |Stored(s, nullTerm)| <= buf.Length
      modifies buf
      ensures buf[..bufSize + |Stored(s, nullTerm)|] == old(buf[..bufSize]) + Stored(s, nullTerm)
    {
      var len := |s|;
      forall k | 0 <= k < len {
        buf[bufSize + k] := s[k];
      }
      if nullTerm {
        buf[bufSize + len] := 0;
      }
    }

    method PutKeeping(s: seq<u8>)
      requires bufSize + |Stored(s, nullTerm)| <= buf.Length
      modifies buf
      ensures buf[..bufSize + |Stored(s, nullTerm)|] == old(buf[..bufSize]) + Stored(s, nullTerm)
      ensures SameStrings()
    {
      ghost var memory := Memory();
      assert memory[..bufSize] == buf[..bufSize];
      Put(s);
      assert buf[..bufSize] == buf[..bufSize + |Stored(s, nullTerm)|][..bufSize];
      forall e: Idx | e.offset + e.length <= bufSize
        ensures Str(Memory(), e) == Str(memory, e)
      {
        StrInPrefix(memory, bufSize, e);
      }
    }

    /** `appendDirectIter`, on a buffer of any size: the entry returned is the intended one exactly
        while its offset and length fit 16 bits. */
    method AppendIter(s: seq<u8>) returns (i: Idx)
      requires BufferHolds() && s != [] && NulFree(s) && buf.Length - bufSize >= |Stored(s, nullTerm)|
      modifies this`bufSize, this`history, buf
      ensures BufferHolds() && history == old(history) + [s]
      ensures bufSize == old(bufSize) + |Stored(s, nullTerm)| && SameStrings()
      ensures i == Idx(old(bufSize), |s|) <==> old(bufSize) < 0x1_0000 && |s| < 0x1_0000
      ensures Str(Memory(), Idx(old(bufSize), |s|)) == s
    {
      NewStored(history, s, nullTerm);
      PutKeeping(s);
      i := NewIdx(bufSize, |s|);
      ghost var intended := Idx(bufSize, |s|);
      bufSize := bufSize + |Stored(s, nullTerm)|;
      history := history + [s];
      MemoryIsImage(intended);
    }

    /** `appendDirect`, on a buffer of any size: the table stays an arrangement of the right entries
        exactly while they fit. */
    method AppendAny(s: seq<u8>) returns (i: Idx)
      requires Arranged() && s != [] && NulFree(s) && HasRoom(s)
      modifies this`bufSize, this`tblSize, this`history, buf, tbl
      ensures BufferHolds() && history == old(history) + [s] && Entries() == old(Entries()) + [i] && SameStrings()
      ensures bufSize == old(bufSize) + |Stored(s, nullTerm)| && Str(Memory(), Idx(old(bufSize), |s|)) == s
      ensures i == Idx(old(bufSize), |s|) <==> old(bufSize) < 0x1_0000 && |s| < 0x1_0000
      ensures Arranged() <==> old(bufSize) < 0x1_0000 && |s| < 0x1_0000
    {
      Appended(history, s, nullTerm);
      ghost var intended := Idx(bufSize, |s|);
      ghost var entries := Entries();
      i := AppendIter(s);
      SameSum(multiset(entries), i, intended);
      PushEntry(i);
    }

    method AppendDirect(s: seq<u8>) returns (i: Idx)
      requires Valid() && s != [] && NulFree(s) && HasRoom(s)
      modifies this`bufSize, this`tblSize, this`history, buf, tbl
      ensures Valid() && history == old(history) + [s]
      ensures Entries() == old(Entries()) + [i] && i == Idx(old(bufSize), |s|)
      ensures Strings() == old(Strings()) + [s] && Str(Memory(), i) == s && SameStrings()
      ensures bufSize == old(bufSize) + |Stored(s, nullTerm)|
    {
      ghost var entries := Entries();
      EntriesInUse();
      i := AppendAny(s);
      ReadsSameStrs(old(Memory()), Memory(), old(bufSize), entries);
      StrsSnoc(Memory(), entries, i);
    }

    lemma EntriesInUse()
      requires Valid()
      ensures InUse(Entries(), bufSize)
    {
      forall k | 0 <= k < |Entries()|
        ensures Entries()[k].offset + Entries()[k].length <= bufSize
      {
        var _ := EntryOf(Entries()[k]);
      }
    }

    /** `emplace` on the index table. */
    method PushEntry(i: Idx)
      requires tblSize < tbl.Length
      modifies this`tblSize, tbl
      ensures tblSize == old(tblSize) + 1 && tbl[..tblSize] == old(tbl[..tblSize]) + [i]
    {
      tbl[tblSize] := i;
      tblSize := tblSize + 1;
    }

    // ---------- sorting and unsorting ----------

    method SortEntries()
      requires Valid()
      modifies tbl
      ensures Valid() && Entries() == Sort(AsWritten(Memory()), old(Entries()))
    {
      ghost var before := tbl[..tblSize];
      ghost var less := AsWritten(Memory());
      SortIsPermutation(less, before);
      var _ := InsertionSort(tbl, tblSize, AsWritten(Memory()));
      assert tbl[..tblSize] == Sort(less, before);
    }

    /** `shortlexSort`. The comparator is the one as written; the result is in shortlex order
        exactly when it misleads no entry, which on a table with terminators is told from the strings:
        none of them may come, as a C string, in front of the one it should come to stand behind. */
    method ShortlexSort(keepSorted: bool)
      requires Valid()
      modifies this`ksorted, this`isSorted, tbl
      ensures Valid() && ksorted == keepSorted && isSorted
      ensures Entries() == Sort(AsWritten(Memory()), old(Entries()))
      ensures InOrder() <==> SortsWell(Memory(), old(Entries()))
      ensures nullTerm ==> (InOrder() <==> NonePasses(old(Strings())))
    {
      hide Cmp, Image, Layout, SortsWell, NonePasses;
      AllEntries();
      if nullTerm {
        AllAreTerminated();
        TerminatedIff(Memory(), Entries());
      }
      ShortlexIff(Memory(), Entries());
      ksorted := keepSorted;
      SortEntries();
      isSorted := true;
    }

    method UnsortEntries()
      requires Valid()
      modifies tbl
      ensures Valid() && Entries() == Layout(history, nullTerm)
    {
      ghost var layout := Layout(history, nullTerm);
      LayoutAscending(history, nullTerm);
      UnsortRestores(tbl[..tblSize], layout);
      UnsortLoop(tbl, tblSize);
      assert tbl[..tblSize] == layout;
    }

    /** `unsort` goes back to insertion order exactly when the table counts as sorted or is in
        that order already; otherwise it does nothing to the entries. */
    method Unsort()
      requires Valid()
      modifies this`ksorted, this`isSorted, tbl
      ensures Valid() && !ksorted && !isSorted
      ensures Entries() == if old(CountsAsSorted()) then Layout(history, nullTerm) else old(Entries())
    {
      var countsAsSorted := CountsAsSorted();
      ksorted, isSorted := false, false;
      if countsAsSorted {
        UnsortEntries();
      }
    }

    // ---------- searching ----------

    /** `binarySearch`. What it finds is the string; on a table in order it finds it if it is there. */
    method BinarySearch(s: seq<u8>) returns (r: Found)
      requires Valid() && s != [] && NulFree(s)
      ensures r.Invalid? || (r.At? && r.idx in Entries() && Str(Memory(), r.idx) == s)
      ensures InOrder() ==> (r.Invalid? <==> s !in Strings())
    {
      hide Cmp, Image, Layout;
      ghost var strs := Strings();
      if tblSize == 0 {
        return Invalid;
      }
      if tblSize == 1 {
        assert Entries()[0] == tbl[0] && strs[0] == Str(Memory(), tbl[0]);
        var str := Resolve(tbl[0]);
        if str == s {
          return At(tbl[0]);
        }
        return Invalid;
      }
      var lhs, rhs := 0, tblSize - 1;
      while lhs <= rhs
        invariant 0 <= lhs && rhs < tblSize
        invariant InOrder() ==> forall i :: 0 <= i < lhs && i < tblSize ==> Cmp(strs[i], s) < 0
        invariant InOrder() ==> forall i :: 0 <= i < tblSize && rhs < i ==> Cmp(strs[i], s) > 0
        decreases rhs - lhs
      {
        var mid := (lhs + rhs) / 2;
        var c := Probe(s, mid);
        if c == 0 {
          return At(tbl[mid]);
        }
        if InOrder() {
          ProbeSorted(strs, s, mid);
        }
        if c < 0 {
          rhs := mid - 1;
        } else {
          lhs := mid + 1;
        }
      }
      if InOrder() {
        Absent(strs, s);
      }
      return Invalid;
    }

    /** One comparison against the table. */
    method Probe(s: seq<u8>, mid: nat) returns (c: int)
      requires Valid() && NulFree(s) && mid < tblSize
      ensures c == -Cmp(Strings()[mid], s) && (c == 0 <==> Strings()[mid] == s)
      ensures Strings()[mid] == Str(Memory(), tbl[mid]) && tbl[mid] in Entries()
    {
      assert Entries()[mid] == tbl[mid];
      var str := Resolve(tbl[mid]);
      CompareIsCmp(s, str);
      c := Compare(s, str);
    }

    /** The bisection of `binaryInsert` with the check behind it: it finds the string exactly when
        it is there, and else lands where `Landing` says. */
    method Bisect(s: seq<u8>) returns (hit: bool, pos: nat)
      requires Valid() && InOrder() && s != [] && NulFree(s)
      requires Rank(Strings(), s) < tblSize
      ensures pos < tblSize && (hit <==> s in Strings())
      ensures hit ==> Strings()[pos] == s
      ensures !hit ==> pos == Landing(0, tblSize, Rank(Strings(), s), fixed)
    {
      ghost var strs := Strings();
      RankSplits(strs, s);
      if s in strs {
        PresentAtRank(strs, s);
      }
      hit, pos := BisectRanked(s, strs, Rank(strs, s), s in strs);
    }

    method BisectRanked(s: seq<u8>, ghost strs: seq<seq<u8>>, ghost r: nat, ghost present: bool)
      returns (hit: bool, pos: nat)
      requires Valid() && NulFree(s) && strs == Strings() && r < tblSize
      requires Splits(strs, s, r) && present == (s in strs) && (present ==> strs[r] == s)
      ensures pos < tblSize && hit == present
      ensures hit ==> strs[pos] == s
      ensures !hit ==> pos == Landing(0, tblSize, r, fixed)
    {
      hide Cmp, Image, Layout;
      ghost var target := Landing(0, tblSize, r, fixed);
      var lhs: int, rhs: int := 0, tblSize;
      while lhs < rhs
        invariant 0 <= lhs <= r && rhs <= tblSize
        invariant present ==> r <= rhs
        invariant Landing(lhs, rhs, r, fixed) == target || present
        decreases rhs - lhs
      {
        var mid := (lhs + rhs) / 2;
        var c := ProbeRank(s, mid, strs, r, present);
        if c == 0 {
          return true, mid;
        }
        LandingStep(lhs, rhs, r, fixed);
        if c < 0 {
          rhs := UpperEnd(mid, fixed);
        } else {
          lhs := mid + 1;
        }
      }
      LandingStep(lhs, rhs, r, fixed);
      var c := ProbeRank(s, lhs, strs, r, present);
      return c == 0, lhs;
    }

    /** A comparison says on which side of the rank it was made. */
    method ProbeRank(s: seq<u8>, mid: nat, ghost strs: seq<seq<u8>>, ghost r: nat, ghost present: bool)
      returns (c: int)
      requires Valid() && NulFree(s) && mid < tblSize && strs == Strings() && r < tblSize
      requires Splits(strs, s, r) && present == (s in strs) && (present ==> strs[r] == s)
      ensures c == 0 ==> present && strs[mid] == s
      ensures c > 0 <==> mid < r
      ensures present && mid == r ==> c == 0
    {
      c := Probe(s, mid);
    }

    // ---------- sorted insertion ----------

    /** The entries are all different, and different from the one that the next string gets. */
    lemma EntriesDistinct()
      requires Valid()
      ensures Distinct(Entries())
      ensures forall len :: Idx(bufSize, len) !in Entries()
    {
      LayoutAscending(history, nullTerm);
      PermutedDistinct(Entries(), Layout(history, nullTerm));
      forall len
        ensures Idx(bufSize, len) !in Entries()
      {
        if Idx(bufSize, len) in Entries() {
          var k := EntryOf(Idx(bufSize, len));
        }
      }
    }

    /** Grows the index table and slides its entries up from `pos`. */
    method MakeRoom(pos: nat) returns (ok: bool)
      requires BufferValid() && pos < tblSize < tbl.Length
      modifies this`tblSize, tbl
      ensures BufferValid() && tblSize == old(tblSize) + 1
      ensures ok <==> !RunsOff(old(tblSize) - pos, fixed)
      ensures ok ==> Slid(Entries(), old(Entries()), pos, fixed)
    {
      var n := tblSize;
      tblSize := n + 1;
      ok := Slide(tbl, pos, n, fixed);
    }

    /** The end of `binaryInsert`: makes room at `pos` and stores the string there. `slid` is the
        table between the slide and the store. */
    method SlideIn(s: seq<u8>, pos: nat) returns (i: Idx, ok: bool, ghost slid: seq<Idx>)
      requires Valid() && s != [] && NulFree(s) && HasRoom(s) && pos < tblSize
      modifies this`bufSize, this`tblSize, this`history, buf, tbl
      ensures BufferValid()
      ensures ok <==> !RunsOff(old(tblSize) - pos, fixed)
      ensures !ok ==> history == old(history) && buf[..] == old(buf[..])
      ensures ok ==> history == old(history) + [s] && SameStrings()
      ensures ok ==> i == Idx(old(bufSize), |s|) && Str(Memory(), i) == s
      ensures ok ==>
        |slid| == tblSize == old(tblSize) + 1 && Slid(slid, old(Entries()), pos, fixed) && Entries() == slid[pos := i]
    {
      ok := MakeRoom(pos);
      slid := Entries();
      i := Idx(0, 0);
      if ok {
        i := AppendIter(s);
        tbl[pos] := i;
        assert tbl[..tblSize] == slid[pos := i];
      }
    }

    /** The append case of `binaryInsert`. */
    method AppendLast(s: seq<u8>) returns (i: Idx)
      requires Valid() && InOrder() && s != [] && NulFree(s) && HasRoom(s)
      requires tblSize > 0 ==> Cmp(Strings()[tblSize - 1], s) < 0
      modifies this`bufSize, this`tblSize, this`history, buf, tbl
      ensures Valid() && InOrder() && history == old(history) + [s] && SameStrings()
      ensures Entries() == old(Entries()) + [i] && i == Idx(old(bufSize), |s|) && Strings() == old(Strings()) + [s]
      ensures Str(Memory(), i) == s
      ensures s !in old(Strings()) && Rank(old(Strings()), s) == old(tblSize)
    {
      LastIsGreatest(Strings(), s);
      i := AppendDirect(s);
    }

    /** What `binaryInsert` does with a string that is not there yet: it is stored, pointed to and
        `Placed`, unless the slide faults. */
    ghost predicate NewString(was: Contents, s: seq<u8>, found: Found, status: Status, r: nat)
      requires BufferValid() && r <= |was.entries| == |was.strs|
      reads this, buf, tbl
    {
      var i := Idx(was.size, |s|);
      if status == Success then
        && history == was.history + [s] && ReadsSame(was.memory, Memory(), was.size)
        && found == At(i) && Str(Memory(), i) == s
        && Placed(Memory(), was.entries, was.strs, Entries(), r, i, Layout(history, nullTerm), fixed)
      else
        && status == Fault && !InsertsWell(|was.entries|, r, fixed)
        && RunsOff(|was.entries| - Landing(0, |was.entries|, r, fixed), fixed)
    }

    /** In the table's own terms. It is valid, and keeps every old entry, exactly when the tail
        behind the landing is slid as a whole; it is valid and in order exactly when `InsertsWell`; and it is
        so strictly exactly when, besides, it was strictly in order before. */
    ghost predicate InsertedAsMeant(was: Contents, status: Status, r: nat)
      requires BufferValid() && r <= |was.entries| == |was.strs|
      reads this, buf, tbl
    {
      var n := |was.entries|;
      && (status == Success && Valid() <==> SlidesWhole(n - Landing(0, n, r, fixed), fixed))
      && (status == Success && Keeps(was.entries, Entries()) <==> SlidesWhole(n - Landing(0, n, r, fixed), fixed))
      && (status == Success && Valid() && InOrder() <==> InsertsWell(n, r, fixed))
      && (status == Success && Valid() && StrictlyInOrder() <==> InsertsWell(n, r, fixed) && StrictlySorted(was.strs))
    }

    lemma NewStringMeans(was: Contents, s: seq<u8>, found: Found, status: Status, r: nat)
      requires BufferValid() && r <= |was.entries| == |was.strs| && NewString(was, s, found, status, r)
      ensures InsertedAsMeant(was, status, r)
    {
      hide Rank, Cmp, Image, Layout, Sorted, StrictlySorted, Keeps, ProbesRank;
      LandingIff(0, |was.entries|, r, fixed);
    }

    /** What it does with a string that is there: points to it, and changes nothing. */
    ghost predicate OldString(was: Contents, s: seq<u8>, found: Found, status: Status)
      requires BufferValid()
      reads this, buf, tbl
    {
      && status == AlreadyExists && Valid() && Now() == was
      && found.At? && found.idx in Entries() && Str(Memory(), found.idx) == s
    }

    /** Everything that `binaryInsert` promises; `r` is the rank of the string. */
    ghost predicate Inserted(was: Contents, s: seq<u8>, found: Found, status: Status, r: nat)
      requires BufferValid() && r <= |was.entries| == |was.strs|
      reads this, buf, tbl
    {
      if s in was.strs then OldString(was, s, found, status) else NewString(was, s, found, status, r)
    }

    /** `binaryInsert`, on a table in order. */
    method BinaryInsert(s: seq<u8>) returns (found: Found, status: Status, ghost r: nat)
      requires Valid() && InOrder() && s != [] && NulFree(s) && HasRoom(s)
      modifies this`bufSize, this`tblSize, this`history, buf, tbl
      ensures BufferValid() && r == Rank(old(Strings()), s) <= old(tblSize)
      ensures Inserted(old(Now()), s, found, status, r)
      ensures s !in old(Strings()) ==> InsertedAsMeant(old(Now()), status, r)
    {
      hide Rank, Cmp, Image, Layout, Landing, ProbesRank;
      ghost var was := Now();
      r := Rank(Strings(), s);
      var c := CompareLast(s);
      if c == 0 {
        found, status := Present(s, tblSize - 1, r);
      } else if c > 0 {
        found, status := InsertLast(s, tblSize);
      } else {
        found, status := InsertSearching(s, r);
      }
      if s !in was.strs {
        NewStringMeans(was, s, found, status, r);
      }
    }

    /** The check against the last string; an empty table has none. */
    method CompareLast(s: seq<u8>) returns (c: int)
      requires Valid() && InOrder() && NulFree(s)
      ensures tblSize == 0 ==> c > 0
      ensures tblSize > 0 && c > 0 ==> Cmp(Strings()[tblSize - 1], s) < 0
      ensures c == 0 ==> tblSize > 0 && Strings()[tblSize - 1] == s
      ensures c < 0 ==> Rank(Strings(), s) < tblSize
    {
      c := 1;
      if tblSize > 0 {
        c := Probe(s, tblSize - 1);
        if c < 0 {
          RankBelow(Strings(), s);
        }
      }
    }

    method Present(s: seq<u8>, pos: nat, ghost r: nat) returns (found: Found, status: Status)
      requires Valid() && pos < tblSize && Strings()[pos] == s && r <= tblSize
      ensures Inserted(Now(), s, found, status, r)
    {
      assert Entries()[pos] == tbl[pos];
      return At(tbl[pos]), AlreadyExists;
    }

    method InsertSearching(s: seq<u8>, ghost r: nat) returns (found: Found, status: Status)
      requires Valid() && InOrder() && s != [] && NulFree(s) && HasRoom(s) && r == Rank(Strings(), s) < tblSize
      modifies this`bufSize, this`tblSize, this`history, buf, tbl
      ensures BufferValid() && Inserted(old(Now()), s, found, status, r)
    {
      var hit, pos := Bisect(s);
      if hit {
        found, status := Present(s, pos, r);
      } else {
        found, status := InsertInside(s, pos, r);
      }
    }

    method InsertLast(s: seq<u8>, ghost n: nat) returns (found: Found, status: Status)
      requires Valid() && InOrder() && s != [] && NulFree(s) && HasRoom(s) && n == tblSize
      requires tblSize > 0 ==> Cmp(Strings()[tblSize - 1], s) < 0
      modifies this`bufSize, this`tblSize, this`history, buf, tbl
      ensures BufferValid() && s !in old(Strings()) && Rank(old(Strings()), s) == n
      ensures NewString(old(Now()), s, found, status, n)
    {
      hide Rank, Cmp, Image, Layout;
      ghost var was := Now();
      EntriesDistinct();
      EntriesInUse();
      var i := AppendLast(s);
      LastOutcome(was, s, i);
      found, status := At(i), Success;
    }

    lemma LastOutcome(was: Contents, s: seq<u8>, i: Idx)
      requires Valid() && history == was.history + [s] && ReadsSame(was.memory, Memory(), was.size)
      requires Stores(was, s, i) && Rank(was.strs, s) == |was.entries| && Entries() == was.entries + [i]
      ensures NewString(was, s, At(i), Success, |was.entries|)
    {
      hide Rank, Cmp, Image, Layout;
      NewEntry(was, s, i);
      PlacedLast(Memory(), was.entries, was.strs, i, Layout(history, nullTerm), fixed);
    }

    /** `i` is the entry for storing the new string `s` next, in a table that was in order. */
    ghost predicate Stores(was: Contents, s: seq<u8>, i: Idx)
      reads buf
    {
      && i == Idx(was.size, |s|) && was.size == |Image(was.history, nullTerm)| && Str(Memory(), i) == s
      && multiset(was.entries) == multiset(Layout(was.history, nullTerm)) && InUse(was.entries, was.size)
      && Distinct(was.entries) && i !in was.entries
      && was.strs == Strs(was.memory, was.entries) && Sorted(was.strs) && s !in was.strs
    }

    lemma NewEntry(was: Contents, s: seq<u8>, i: Idx)
      requires BufferValid() && history == was.history + [s] && ReadsSame(was.memory, Memory(), was.size)
      requires Stores(was, s, i) && Rank(was.strs, s) <= |was.entries|
      ensures IsNew(Memory(), was.entries, was.strs, Rank(was.strs, s), i, Layout(history, nullTerm))
    {
      ReadsSameStrs(was.memory, Memory(), was.size, was.entries);
      Appended(was.history, s, nullTerm);
    }

    method InsertInside(s: seq<u8>, pos: nat, ghost r: nat) returns (found: Found, status: Status)
      requires Valid() && InOrder() && s != [] && NulFree(s) && HasRoom(s) && s !in Strings()
      requires r == Rank(Strings(), s) < tblSize && pos == Landing(0, tblSize, r, fixed) && pos < tblSize
      modifies this`bufSize, this`tblSize, this`history, buf, tbl
      ensures BufferValid() && NewString(old(Now()), s, found, status, r)
    {
      hide Rank, Cmp, Image, Layout, Landing, ProbesRank, InsertsWell, RunsOff, Placed, ReadsSame, StoredAt, Stores;
      ghost var was := Now();
      var i, ok, slid := StoreAt(s, pos);
      if !ok {
        RunsOffIsNotWell(|was.entries|, r, fixed);
        FaultOutcome(was, s, r);
        return Invalid, Fault;
      }
      InsideOutcome(was, s, slid, pos, r, i);
      return At(i), Success;
    }

    method StoreAt(s: seq<u8>, pos: nat) returns (i: Idx, ok: bool, ghost slid: seq<Idx>)
      requires Valid() && InOrder() && s != [] && NulFree(s) && HasRoom(s) && s !in Strings() && pos < tblSize
      modifies this`bufSize, this`tblSize, this`history, buf, tbl
      ensures BufferValid() && (ok <==> !RunsOff(old(tblSize) - pos, fixed))
      ensures ok ==> StoredAt(old(Now()), s, slid, pos, i) && i == Idx(old(bufSize), |s|)
    {
      hide Rank, Cmp, Image, Layout, RunsOff, ReadsSame, Sorted;
      EntriesDistinct();
      EntriesInUse();
      i, ok, slid := SlideIn(s, pos);
    }

    lemma FaultOutcome(was: Contents, s: seq<u8>, r: nat)
      requires BufferValid() && r <= |was.entries| == |was.strs|
      ensures
        !InsertsWell(|was.entries|, r, fixed)
        && RunsOff(|was.entries| - Landing(0, |was.entries|, r, fixed), fixed)
        ==> NewString(was, s, Invalid, Fault, r)
    {
      hide RunsOff, InsertsWell, Landing;
    }

    /** The table and buffer once `s` is stored at `pos` of the slid table. */
    ghost predicate StoredAt(was: Contents, s: seq<u8>, slid: seq<Idx>, pos: nat, i: Idx)
      reads this, buf, tbl
    {
      && BufferValid() && history == was.history + [s] && ReadsSame(was.memory, Memory(), was.size)
      && Stores(was, s, i) && |slid| == tblSize == |was.entries| + 1 && pos < |was.entries|
      && Slid(slid, was.entries, pos, fixed) && Entries() == slid[pos := i]
    }

    lemma InsideOutcome(was: Contents, s: seq<u8>, slid: seq<Idx>, pos: nat, r: nat, i: Idx)
      requires BufferValid() && r <= |was.entries| == |was.strs|
      ensures
        StoredAt(was, s, slid, pos, i) && r == Rank(was.strs, s) < |was.entries|
        && pos == Landing(0, |was.entries|, r, fixed) && !RunsOff(|was.entries| - pos, fixed)
        ==> NewString(was, s, At(i), Success, r)
    {
      hide Rank, Cmp, Image, Layout, Landing;
      if StoredAt(was, s, slid, pos, i) && r == Rank(was.strs, s) < |was.entries| &&
         pos == Landing(0, |was.entries|, r, fixed) && !RunsOff(|was.entries| - pos, fixed) {
        NewEntry(was, s, i);
        PlacedInside(Memory(), was.entries, was.strs, slid, pos, r, i, Layout(history, nullTerm), fixed);
      }
    }

    // ---------- insertion ----------

    /** `insert` when the string does not fit: a sorted table can still say that it has it. */
    method InsertFull(s: seq<u8>) returns (found: Found, status: Status)
      requires Valid() && s != [] && NulFree(s)
      ensures status == AlreadyExists || (status == AtCapacity && found == Invalid)
      ensures status == AlreadyExists ==> found.At? && found.idx in Entries() && Str(Memory(), found.idx) == s
      ensures !CountsAsSorted() ==> status == AtCapacity
      ensures CountsAsSorted() && InOrder() ==> (status == AlreadyExists <==> s in Strings())
    {
      if !CountsAsSorted() {
        return Invalid, AtCapacity;
      }
      var curr := BinarySearch(s);
      if curr.Invalid? {
        return Invalid, AtCapacity;
      }
      return curr, AlreadyExists;
    }

    /** A string that fits, in append mode: it goes behind all others, even if it is there already. */
    ghost predicate Added(was: Contents, s: seq<u8>, found: Found, status: Status)
      requires tblSize <= tbl.Length
      reads this, buf, tbl
    {
      && status == Success && !isSorted && history == was.history + [s]
      && found == At(Idx(was.size, |s|)) && Entries() == was.entries + [found.idx] && Str(Memory(), found.idx) == s
    }

    /** A string that does not fit: nothing changes. */
    ghost predicate Kept(was: Contents, s: seq<u8>, found: Found, status: Status)
      requires tblSize <= tbl.Length
      reads this, buf, tbl
    {
      && Now() == was
      && (status == AlreadyExists || (status == AtCapacity && found == Invalid))
      && (status == AlreadyExists ==> found.At? && found.idx in Entries() && Str(Memory(), found.idx) == s)
    }

    method AddString(s: seq<u8>) returns (found: Found, status: Status)
      requires Valid() && s != [] && NulFree(s) && HasRoom(s)
      modifies this`bufSize, this`tblSize, this`history, this`isSorted, buf, tbl
      ensures Valid() && SameStrings() && old(bufSize) <= bufSize
      ensures Added(old(Now()), s, found, status)
    {
      isSorted := false;
      var i := AppendDirect(s);
      return At(i), Success;
    }

    /** `insert` in append mode. */
    method InsertAppend(arg: seq<u8>) returns (found: Found, status: Status)
      requires Valid() && !ksorted && Readable(arg)
      modifies this`bufSize, this`tblSize, this`history, this`isSorted, this`hasEmpty, buf, tbl
      ensures Valid() && SameStrings() && old(bufSize) <= bufSize && old(history) <= history
      ensures hasEmpty == (old(hasEmpty) || DropNull(arg) == [])
      ensures DropNull(arg) == [] ==>
        found == Empty && status == AlreadyExists && hasEmpty && Now() == old(Now()) && isSorted == old(isSorted)
      ensures DropNull(arg) != [] && old(HasRoom(DropNull(arg))) ==> Added(old(Now()), DropNull(arg), found, status)
      ensures DropNull(arg) != [] && !old(HasRoom(DropNull(arg))) ==>
        Kept(old(Now()), DropNull(arg), found, status) && isSorted == old(isSorted)
        && (!old(CountsAsSorted()) ==> status == AtCapacity)
        && (old(CountsAsSorted() && InOrder()) ==> (status == AlreadyExists <==> DropNull(arg) in old(Strings())))
    {
      hide Cmp, Image, Layout, Sorted, UpToNul;
      ReadableIff(arg);
      var s := DropNull(arg);
      if s == [] {
        hasEmpty := true;
        return Empty, AlreadyExists;
      }
      if !HasRoom(s) {
        found, status := InsertFull(s);
      } else {
        found, status := AddString(s);
      }
    }

    /** `insert` on a table that is kept sorted. */
    method InsertSorted(arg: seq<u8>) returns (found: Found, status: Status, ghost r: nat)
      requires Valid() && ksorted && InOrder() && Readable(arg)
      modifies this`bufSize, this`tblSize, this`history, this`hasEmpty, buf, tbl
      ensures BufferValid() && r <= old(tblSize) && ksorted && isSorted == old(isSorted)
      ensures hasEmpty == (old(hasEmpty) || DropNull(arg) == [])
      ensures DropNull(arg) == [] ==>
        found == Empty && status == AlreadyExists && hasEmpty && Valid() && Now() == old(Now())
      ensures DropNull(arg) != [] && old(HasRoom(DropNull(arg))) ==>
        r == Rank(old(Strings()), DropNull(arg)) && Inserted(old(Now()), DropNull(arg), found, status, r)
        && (DropNull(arg) !in old(Strings()) ==> InsertedAsMeant(old(Now()), status, r))
      ensures DropNull(arg) != [] && !old(HasRoom(DropNull(arg))) ==>
        Valid() && Kept(old(Now()), DropNull(arg), found, status)
        && (old(CountsAsSorted()) ==> (status == AlreadyExists <==> DropNull(arg) in old(Strings())))
    {
      hide Rank, Cmp, Image, Layout, Sorted, StrictlySorted, UpToNul;
      ReadableIff(arg);
      var s := DropNull(arg);
      r := 0;
      if s == [] {
        hasEmpty := true;
        return Empty, AlreadyExists, 0;
      }
      if !HasRoom(s) {
        found, status := InsertFull(s);
      } else {
        found, status, r := BinaryInsert(s);
      }
    }
  }

  lemma RankBelow(strs: seq<seq<u8>>, s: seq<u8>)
    requires Sorted(strs) && strs != [] && Cmp(strs[|strs| - 1], s) >= 0
    ensures Rank(strs, s) < |strs|
  {
    RankSplits(strs, s);
  }

  lemma LastIsGreatest(strs: seq<seq<u8>>, s: seq<u8>)
    requires Sorted(strs) && (strs != [] ==> Cmp(strs[|strs| - 1], s) < 0)
    ensures s !in strs && Rank(strs, s) == |strs| && Sorted(strs + [s])
  {
    if strs != [] {
      ProbeSorted(strs, s, |strs| - 1);
    }
    Absent(strs, s);
    RankOfAll(strs, s);
  }

  lemma SameSum(m: multiset<Idx>, i: Idx, j: Idx)
    ensures m + multiset{i} == m + multiset{j} <==> i == j
  {
    if i != j {
      assert (m + multiset{i})[i] == m[i] + 1;
      assert (m + multiset{j})[i] == m[i];
    }
  }

  lemma StrsSnoc(mem: seq<u8>, t: seq<Idx>, i: Idx)
    ensures Strs(mem, t + [i]) == Strs(mem, t) + [Str(mem, i)]
  {
  }

  /** A rearrangement of a strictly ascending list has no entry twice. */
  lemma PermutedDistinct(s: seq<Idx>, t: seq<Idx>)
    requires StrictlyAscending(t) && multiset(s) == multiset(t)
    ensures Distinct(s)
  {
    forall i, j | 0 <= i < j < |s|
      ensures s[i] != s[j]
    {
      if s[i] == s[j] {
        var x := s[i];
        TwiceIn(s, i, j);
        OnceIn(t, x);
      }
    }
  }

  lemma TwiceIn(s: seq<Idx>, i: nat, j: nat)
    requires i < j < |s| && s[i] == s[j]
    ensures multiset(s)[s[i]] >= 2
  {
    assert s == s[..i] + [s[i]] + s[i + 1..];
    assert s[i + 1..][j - i - 1] == s[j];
    assert s[i] in multiset(s[i + 1..]);
  }

  lemma {:induction false} OnceIn(t: seq<Idx>, x: Idx)
    requires StrictlyAscending(t)
    ensures multiset(t)[x] <= 1
  {
    if t != [] {
      var last := |t| - 1;
      OnceIn(t[..last], x);
      SplitLast(t);
      if t[last] == x {
        assert x !in t[..last];
        assert x !in multiset(t[..last]);
      }
    }
  }

  /** A string that is in a sorted list is at its rank. */
  lemma PresentAtRank(strs: seq<seq<u8>>, s: seq<u8>)
    requires Sorted(strs) && s in strs
    ensures Rank(strs, s) < |strs| && strs[Rank(strs, s)] == s
  {
    RankSplits(strs, s);
    var r := Rank(strs, s);
    var q :| 0 <= q < |strs| && strs[q] == s;
    CmpEqual(s, s);
    CmpEqual(strs[r], s);
    if r < q {
      CmpAntisymmetric(strs[r], s);
    }
  }
}
