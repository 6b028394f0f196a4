/** Runs of calls on a string table: in append mode with sorts and unsorts between, and in sorted mode. */
module TableRuns {
  import opened Bytes
  import opened Shortlex
  import opened TableSort
  import opened TableOrder
  import opened TableLayout
  import opened InsertOutcome
  import opened StringTable

  /** What a table can hold, and which version of sorted insertion it has. */
  datatype Limits = Limits(nullTerm: bool, bytes: nat, entries: nat, fixed: bool)

  function LimitsOf(t: Table): Limits {
    Limits(t.nullTerm, t.buf.Length, t.tbl.Length, t.fixed)
  }

  /** Does a string still fit behind `used` bytes and `count` entries? */
  predicate Fits(lim: Limits, used: nat, count: nat, s: seq<u8>) {
    count < lim.entries && used + |Stored(s, lim.nullTerm)| <= lim.bytes
  }

  lemma SizesOf(t: Table)
    requires t.Valid()
    ensures t.bufSize == |Image(t.history, t.nullTerm)| && t.tblSize == |t.history|
  {
    LayoutLength(t.history, t.nullTerm);
    assert |multiset(t.tbl[..t.tblSize])| == |t.tbl[..t.tblSize]|;
    assert |multiset(Layout(t.history, t.nullTerm))| == |Layout(t.history, t.nullTerm)|;
  }

  // ---------- append mode ----------

  datatype Action = Add(s: seq<u8>) | SortOnce | PutBack

  /** The strings stored after one action: a string that fits is added, whatever is there already. */
  function HistoryAfter(lim: Limits, history: seq<seq<u8>>, action: Action): seq<seq<u8>> {
    if action.Add? && DropNull(action.s) != [] &&
       Fits(lim, |Image(history, lim.nullTerm)|, |history|, DropNull(action.s))
    then history + [DropNull(action.s)]
    else history
  }

  /** ... and after the first `n` of a run. */
  function HistoryAt(lim: Limits, history: seq<seq<u8>>, actions: seq<Action>, n: nat): seq<seq<u8>>
    requires n <= |actions|
  {
    if n == 0 then history else HistoryAfter(lim, HistoryAt(lim, history, actions, n - 1), actions[n - 1])
  }

  lemma RoomIff(t: Table, s: seq<u8>)
    requires t.Valid()
    ensures t.HasRoom(s) <==> Fits(LimitsOf(t), |Image(t.history, t.nullTerm)|, |t.history|, s)
  {
    SizesOf(t);
  }

  method ActAdd(t: Table, s: seq<u8>)
    requires t.Valid() && !t.ksorted && Readable(s)
    modifies t, t.buf, t.tbl
    ensures t.Valid() && !t.ksorted && t.history == HistoryAfter(LimitsOf(t), old(t.history), Add(s))
    ensures old(t.bufSize) <= t.bufSize && ReadsSame(old(t.Memory()), t.Memory(), old(t.bufSize))
  {
    hide Image, Layout, UpToNul;
    RoomIff(t, DropNull(s));
    var _, _ := t.InsertAppend(s);
  }

  method Act(t: Table, action: Action)
    requires t.Valid() && !t.ksorted && (action.Add? ==> Readable(action.s))
    modifies t, t.buf, t.tbl
    ensures t.Valid() && !t.ksorted && t.history == HistoryAfter(LimitsOf(t), old(t.history), action)
    ensures old(t.bufSize) <= t.bufSize && ReadsSame(old(t.Memory()), t.Memory(), old(t.bufSize))
  {
    match action
    case Add(s) =>
      ActAdd(t, s);
    case SortOnce =>
      t.ShortlexSort(false);
    case PutBack =>
      t.Unsort();
  }

  /** Over any run of append-mode insertions, sorts and unsorts: the strings stored are those stored
      before and every one added that fitted, in that order; the buffer is exactly these, one behind
      the other; the entries are an arrangement of theirs; and what any entry resolves to never changes. */
  method TableRun(t: Table, actions: seq<Action>)
    requires t.Valid() && !t.ksorted
    requires forall k :: 0 <= k < |actions| && actions[k].Add? ==> Readable(actions[k].s)
    modifies t, t.buf, t.tbl
    ensures t.Valid() && !t.ksorted && t.history == HistoryAt(LimitsOf(t), old(t.history), actions, |actions|)
    ensures ReadsSame(old(t.Memory()), t.Memory(), old(t.bufSize))
  {
    ghost var lim, memory, size, history := LimitsOf(t), t.Memory(), t.bufSize, t.history;
    for k := 0 to |actions|
      invariant t.Valid() && !t.ksorted && t.history == HistoryAt(lim, history, actions, k) && size <= t.bufSize
      invariant ReadsSame(memory, t.Memory(), size)
    {
      Act(t, actions[k]);
    }
  }

  /** Sorting a table of appends and unsorting it at once is the identity. */
  method SortAndBack(t: Table)
    requires t.Valid() && t.Entries() == Layout(t.history, t.nullTerm)
    modifies t, t.tbl
    ensures t.Valid() && t.Entries() == old(t.Entries()) && t.history == old(t.history)
  {
    t.ShortlexSort(false);
    t.Unsort();
  }

  /** An append in between is enough to keep `unsort` from doing anything: the entries are in
      insertion order afterwards exactly when they were before it. */
  method AddAndBack(t: Table, s: seq<u8>) returns (found: Found, status: Status)
    requires t.Valid() && !t.ksorted && DropNull(s) == s != [] && NulFree(s) && t.HasRoom(s)
    modifies t, t.buf, t.tbl
    ensures t.Valid() && t.history == old(t.history) + [s]
    ensures t.Entries() == old(t.Entries()) + [Idx(old(t.bufSize), |s|)]
    ensures t.Entries() == Layout(t.history, t.nullTerm) <==> old(t.Entries() == Layout(t.history, t.nullTerm))
  {
    ghost var entries, history := t.Entries(), t.history;
    Appended(history, s, t.nullTerm);
    LayoutLength(history, t.nullTerm);
    found, status := t.InsertAppend(s);
    assert t.Entries()[..|entries|] == entries;
    t.Unsort();
  }

  lemma InsertionOrder(t: Table)
    requires t.Valid() && t.Entries() == Layout(t.history, t.nullTerm)
    ensures t.nullTerm ==> (Still(AsWritten(t.Memory()), t.Entries()) <==> StillStrings(t.history))
  {
    if t.nullTerm {
      t.AllAreTerminated();
      StillIff(t.Memory(), t.Entries());
      LayoutLength(t.history, t.nullTerm);
      forall k | 0 <= k < |t.history|
        ensures t.Strings()[k] == t.history[k]
      {
        EntriesTile(t.history, t.nullTerm, k);
        t.MemoryIsImage(t.Entries()[k]);
      }
      assert t.Strings() == t.history;
    }
  }

  /** A table of appends that is sorted, added to and unsorted comes back in insertion order exactly
      when, before the sort, no entry was called less than the one in front of it. */
  method SortAddAndBack(t: Table, s: seq<u8>) returns (found: Found, status: Status)
    requires t.Valid() && t.Entries() == Layout(t.history, t.nullTerm)
    requires DropNull(s) == s != [] && NulFree(s) && t.HasRoom(s)
    modifies t, t.buf, t.tbl
    ensures t.Valid() && t.history == old(t.history) + [s]
    ensures t.Entries() == Layout(t.history, t.nullTerm) <==>
      Still(AsWritten(old(t.Memory())), old(t.Entries()))
    ensures t.nullTerm ==> (t.Entries() == Layout(t.history, t.nullTerm) <==> StillStrings(old(t.history)))
  {
    t.EntriesDistinct();
    InsertionOrder(t);
    SortMovesNothingIff(AsWritten(t.Memory()), t.Entries());
    t.ShortlexSort(false);
    found, status := AddAndBack(t, s);
  }

  /** "b" then "a" is a table of appends on which that fails. */
  lemma UnsortWitness()
    ensures var history: seq<seq<u8>> := [[98], [97]];
      !Still(AsWritten(Image(history, false)), Layout(history, false))
  {
    var history: seq<seq<u8>> := [[98], [97]];
    var mem, t := Image(history, false), Layout(history, false);
    EntriesTile(history, false, 0);
    EntriesTile(history, false, 1);
    AgreesUnlessLonger(mem, t[1], t[0]);
    assert CompAsWritten(mem, t[1], t[0]);
  }

  // ---------- sorted mode ----------

  /** The strings of a sorted table, in order, and the bytes they take. */
  datatype View = View(strs: seq<seq<u8>>, used: nat)

  ghost function InsertedInto(strs: seq<seq<u8>>, s: seq<u8>): seq<seq<u8>> {
    var r := Rank(strs, s);
    strs[..r] + [s] + strs[r..]
  }

  /** What one sorted insertion is meant to answer ... */
  ghost function Answer(lim: Limits, v: View, arg: seq<u8>): Status {
    var s := DropNull(arg);
    if s == [] || s in v.strs then AlreadyExists
    else if Fits(lim, v.used, |v.strs|, s) then Success
    else AtCapacity
  }

  /** ... and to leave behind. */
  ghost function After(lim: Limits, v: View, arg: seq<u8>): View {
    var s := DropNull(arg);
    if Answer(lim, v, arg) == Success then View(InsertedInto(v.strs, s), v.used + |Stored(s, lim.nullTerm)|) else v
  }

  /** ... after the first `n` of a run. */
  ghost function ViewAt(lim: Limits, v: View, args: seq<seq<u8>>, n: nat): View
    requires n <= |args|
  {
    if n == 0 then v else After(lim, ViewAt(lim, v, args, n - 1), args[n - 1])
  }

  ghost function AnswerAt(lim: Limits, v: View, args: seq<seq<u8>>, n: nat): Status
    requires n < |args|
  {
    Answer(lim, ViewAt(lim, v, args, n), args[n])
  }

  /** A step that stores a string does it where sorted insertion works; repaired, every one does. */
  ghost predicate StepsWell(lim: Limits, v: View, arg: seq<u8>) {
    Answer(lim, v, arg) == Success ==> InsertsWell(|v.strs|, Rank(v.strs, DropNull(arg)), lim.fixed)
  }

  ghost function ViewOf(t: Table): View
    requires t.tblSize <= t.tbl.Length
    reads t, t.buf, t.tbl
  {
    View(t.Strings(), t.bufSize)
  }

  /** Do the first `n` steps of a run? */
  ghost predicate WellFor(lim: Limits, v: View, args: seq<seq<u8>>, n: int)
    requires n <= |args|
  {
    forall k :: 0 <= k < n ==> StepsWell(lim, ViewAt(lim, v, args, k), args[k])
  }

  ghost predicate RunsWell(lim: Limits, v: View, args: seq<seq<u8>>) {
    WellFor(lim, v, args, |args|)
  }

  lemma FixedRunsWell(lim: Limits, v: View, args: seq<seq<u8>>)
    requires lim.fixed
    ensures RunsWell(lim, v, args)
  {
  }

  ghost predicate Answers(lim: Limits, v: View, args: seq<seq<u8>>, answers: seq<Status>)
    requires |answers| <= |args|
  {
    forall k :: 0 <= k < |answers| ==> answers[k] == AnswerAt(lim, v, args, k)
  }

  /** A table that is kept sorted, and is. */
  ghost predicate KeptSorted(t: Table)
    reads t, t.buf, t.tbl
  {
    t.Valid() && t.ksorted && t.isSorted && t.StrictlyInOrder()
  }

  /** One insertion into a table that is kept sorted: it still is afterwards exactly when `StepsWell`,
      and then the answer and the strings are those meant. */
  method InsertStep(t: Table, arg: seq<u8>) returns (status: Status)
    requires KeptSorted(t) && Readable(arg)
    modifies t, t.buf, t.tbl
    ensures t.BufferValid()
    ensures KeptSorted(t) && status != Fault <==> StepsWell(LimitsOf(t), old(ViewOf(t)), arg)
    ensures StepsWell(LimitsOf(t), old(ViewOf(t)), arg) ==>
      status == Answer(LimitsOf(t), old(ViewOf(t)), arg) && ViewOf(t) == After(LimitsOf(t), old(ViewOf(t)), arg)
  {
    hide Rank, Cmp, Image, Layout, UpToNul, InsertsWell;
    ghost var was, s := t.Now(), DropNull(arg);
    StrictlySortedIff(was.strs);
    SizesOf(t);
    ghost var room := t.HasRoom(s);
    assert room <==> Fits(LimitsOf(t), was.size, |was.strs|, s);
    var found, st, r := t.InsertSorted(arg);
    status := st;
    if s == [] || !room {
      SameView(t, was);
    } else if s in was.strs {
      assert t.OldString(was, s, found, st);
      SameView(t, was);
    } else {
      assert t.NewString(was, s, found, st, r) && t.InsertedAsMeant(was, st, r);
      NewStep(t, was, s, found, st, r);
    }
  }

  lemma SameView(t: Table, was: Contents)
    requires t.tblSize <= t.tbl.Length && t.Now() == was
    ensures ViewOf(t) == View(was.strs, was.size)
    ensures t.StrictlyInOrder() <==> StrictlySorted(was.strs)
  {
  }

  /** The view after a string was stored where sorted insertion works. */
  lemma NewStep(t: Table, was: Contents, s: seq<u8>, found: Found, status: Status, r: nat)
    requires t.BufferValid() && r <= |was.entries| == |was.strs|
    ensures
      t.NewString(was, s, found, status, r) && InsertsWell(|was.entries|, r, t.fixed) && StrictlySorted(was.strs)
      && was.size == |Image(was.history, t.nullTerm)| && r == Rank(was.strs, s)
      ==> t.Valid() && t.StrictlyInOrder() && status == Success
          && ViewOf(t) == View(InsertedInto(was.strs, s), was.size + |Stored(s, t.nullTerm)|)
  {
    hide Rank, Cmp;
    if t.NewString(was, s, found, status, r) && InsertsWell(|was.entries|, r, t.fixed) {
      SizesOf(t);
      Appended(was.history, s, t.nullTerm);
    }
  }

  lemma StepWell(lim: Limits, v: View, args: seq<seq<u8>>, k: nat)
    requires k < |args|
    ensures WellFor(lim, v, args, k + 1) <==>
      WellFor(lim, v, args, k) && StepsWell(lim, ViewAt(lim, v, args, k), args[k])
    ensures ViewAt(lim, v, args, k + 1) == After(lim, ViewAt(lim, v, args, k), args[k])
  {
  }

  lemma NextAnswer(lim: Limits, v: View, args: seq<seq<u8>>, answers: seq<Status>, status: Status)
    requires |answers| < |args| && Answers(lim, v, args, answers) && status == AnswerAt(lim, v, args, |answers|)
    ensures Answers(lim, v, args, answers + [status])
  {
  }

  /** The first `n` calls of a run of sorted insertions, of which at most the last one is not at a place
      where the code inserts well; repaired, any run will do. The table is kept sorted to the end exactly
      when the last one is too, and then every answer is the one meant, and the table holds the strings
      meant, in strict order, as a complete arrangement. */
  method SortedRun(t: Table, args: seq<seq<u8>>, n: nat) returns (answers: seq<Status>)
    requires n <= |args| && KeptSorted(t) && (t.fixed || WellFor(LimitsOf(t), ViewOf(t), args, n - 1))
    requires forall k :: 0 <= k < n ==> Readable(args[k])
    modifies t, t.buf, t.tbl
    ensures t.BufferValid() && |answers| == n
    ensures KeptSorted(t) && Fault !in answers <==> WellFor(LimitsOf(t), old(ViewOf(t)), args, n)
    ensures WellFor(LimitsOf(t), old(ViewOf(t)), args, n) ==>
      ViewOf(t) == ViewAt(LimitsOf(t), old(ViewOf(t)), args, n) &&
      Answers(LimitsOf(t), old(ViewOf(t)), args, answers)
    ensures t.fixed ==> WellFor(LimitsOf(t), old(ViewOf(t)), args, n)
  {
    hide WellFor, StepsWell, Answer, After, StrictlySorted, Image, Layout;
    ghost var lim, v := LimitsOf(t), ViewOf(t);
    WellForMeans(lim, v, args, n);
    answers := [];
    for k := 0 to n
      invariant t.BufferValid() && |answers| == k
      invariant KeptSorted(t) && Fault !in answers <==> WellFor(lim, v, args, k)
      invariant WellFor(lim, v, args, k) ==> ViewOf(t) == ViewAt(lim, v, args, k) && Answers(lim, v, args, answers)
    {
      StepWell(lim, v, args, k);
      var status := InsertStep(t, args[k]);
      if StepsWell(lim, ViewAt(lim, v, args, k), args[k]) {
        NextAnswer(lim, v, args, answers, status);
      }
      answers := answers + [status];
    }
  }

  lemma WellForMeans(lim: Limits, v: View, args: seq<seq<u8>>, n: nat)
    requires n <= |args|
    ensures WellFor(lim, v, args, n) ==> forall k :: 0 <= k <= n ==> WellFor(lim, v, args, k)
    ensures WellFor(lim, v, args, n - 1) ==> forall k :: 0 <= k < n ==> WellFor(lim, v, args, k)
    ensures lim.fixed ==> forall k :: 0 <= k <= n ==> WellFor(lim, v, args, k)
    ensures WellFor(lim, v, args, 0)
  {
  }

  /** A run that is not at such places throughout has a first call that is not, and `SortedRun` speaks
      of the run up to there. So the table is kept sorted after every call exactly when `RunsWell`. */
  lemma {:induction false} FirstLapse(lim: Limits, v: View, args: seq<seq<u8>>, m: nat)
    requires m <= |args|
    ensures WellFor(lim, v, args, m) <==>
      forall n :: 0 < n <= m && WellFor(lim, v, args, n - 1) ==> WellFor(lim, v, args, n)
  {
    hide StepsWell;
    if m > 0 {
      FirstLapse(lim, v, args, m - 1);
    }
  }

  /** Was `s` stored by one of the first `n` insertions? */
  ghost predicate StoredBy(lim: Limits, v: View, args: seq<seq<u8>>, n: nat, s: seq<u8>)
    requires n <= |args|
  {
    exists j :: 0 <= j < n && DropNull(args[j]) == s && AnswerAt(lim, v, args, j) == Success
  }

  lemma StoredByNext(lim: Limits, v: View, args: seq<seq<u8>>, n: nat, s: seq<u8>)
    requires n < |args|
    ensures StoredBy(lim, v, args, n + 1, s) <==>
      StoredBy(lim, v, args, n, s) || (DropNull(args[n]) == s && AnswerAt(lim, v, args, n) == Success)
  {
  }

  lemma AfterHolds(lim: Limits, v: View, arg: seq<u8>, s: seq<u8>)
    ensures s in After(lim, v, arg).strs <==> s in v.strs || (DropNull(arg) == s && Answer(lim, v, arg) == Success)
  {
    InsertedMembers(v.strs, DropNull(arg), s);
  }

  /** What those runs hold: the strings from before and those stored since. */
  lemma {:induction false} RunHolds(lim: Limits, v: View, args: seq<seq<u8>>, n: nat, s: seq<u8>)
    requires n <= |args|
    ensures s in ViewAt(lim, v, args, n).strs <==> s in v.strs || StoredBy(lim, v, args, n, s)
  {
    hide After, Answer, DropNull;
    if n > 0 {
      RunHolds(lim, v, args, n - 1, s);
      StoredByNext(lim, v, args, n - 1, s);
      AfterHolds(lim, ViewAt(lim, v, args, n - 1), args[n - 1], s);
    }
  }

  lemma InsertedMembers(strs: seq<seq<u8>>, s: seq<u8>, x: seq<u8>)
    ensures x in InsertedInto(strs, s) <==> x in strs || x == s
  {
    assert strs == strs[..Rank(strs, s)] + strs[Rank(strs, s)..];
  }

  /** So a nonempty string already exists exactly if it was there at the start or was stored since. */
  lemma AlreadyExistsIff(lim: Limits, v: View, args: seq<seq<u8>>, n: nat)
    requires n < |args| && DropNull(args[n]) != []
    ensures AnswerAt(lim, v, args, n) == AlreadyExists <==>
      DropNull(args[n]) in v.strs || StoredBy(lim, v, args, n, DropNull(args[n]))
  {
    RunHolds(lim, v, args, n, DropNull(args[n]));
  }
}
