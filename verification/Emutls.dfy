/** Emulated thread-local storage: the shared index counter under a lock, and every thread's own
    array of object addresses, as atomic steps of any number of threads on any number of
    control records. Memory is sequentially consistent and allocation succeeds or aborts. */
module Emutls {

  /** Address 0 is the null pointer. */
  type Ptr = nat
  const NULL: Ptr := 0

  const HEADER_WORDS: nat := 2

  /** Elements of a new data array for `index`: header and data together fill whole blocks of 16 words. */
  function NewDataArraySize(index: nat): (size: nat)
    ensures index <= size <= index + 15 && (size + HEADER_WORDS) % 16 == 0
  {
    var rounded := (index + HEADER_WORDS + 15) / 16 * 16;
    rounded - HEADER_WORDS
  }

  /** Growing keeps the old pointers and zeroes the new ones. */
  function Grown(data: seq<Ptr>, size: nat): (r: seq<Ptr>)
    requires |data| <= size
  {
    data + seq(size - |data|, _ => NULL)
  }

  /** Where a call of `__emutls_get_address(c)` stands. */
  datatype Pc =
    | Idle
    | Load(c: nat)                  // about to load the control's index
    | Lock(c: nat)                  // loaded 0, waiting for the mutex
    | Reread(c: nat)                // holds the mutex, about to read the index again
    | Bump(c: nat)                  // read 0, about to increment the counter
    | Publish(c: nat, index: nat)   // about to store the index
    | Unlock(c: nat, index: nat)
    | Array(c: nat, index: nat)     // about to fetch or grow this thread's array
    | Fetch(c: nat, index: nat)     // about to read, and maybe fill, the slot
    | Return(c: nat, address: Ptr)

  /** A thread that has no array yet has an empty one. */
  datatype Thread = Thread(pc: Pc, data: seq<Ptr>)

  /** `count` is the counter, `holder` who has the mutex, `index` the index of every control,
      `next` the next address the allocator gives out, `answers` what was returned so far. */
  datatype State = State(
    count: nat,
    holder: int,
    index: seq<nat>,
    threads: seq<Thread>,
    next: Ptr,
    answers: map<(nat, nat), Ptr>)

  const NOBODY: int := -1

  function Init(controls: nat, threads: nat): State {
    State(0, NOBODY, seq(controls, _ => 0), seq(threads, _ => Thread(Idle, [])), 1, map[])
  }

  predicate InRange(pc: Pc, controls: nat) {
    match pc
    case Idle => true
    case Load(c) => c < controls
    case Lock(c) => c < controls
    case Reread(c) => c < controls
    case Bump(c) => c < controls
    case Publish(c, _) => c < controls
    case Unlock(c, _) => c < controls
    case Array(c, _) => c < controls
    case Fetch(c, _) => c < controls
    case Return(c, _) => c < controls
  }

  predicate HoldsMutex(pc: Pc) {
    pc.Reread? || pc.Bump? || pc.Publish? || pc.Unlock?
  }

  function Goto(s: State, t: nat, pc: Pc): State
    requires t < |s.threads|
  {
    s.(threads := s.threads[t := s.threads[t].(pc := pc)])
  }

  function WithData(s: State, t: nat, data: seq<Ptr>): State
    requires t < |s.threads|
  {
    s.(threads := s.threads[t := s.threads[t].(data := data)])
  }

  /** One step of thread `t`; an idle thread starts a call for control `c`. */
  function Step(s: State, t: nat, c: nat): (r: State)
    requires t < |s.threads| && c < |s.index| && WellFormed(s)
    ensures |r.index| == |s.index| && |r.threads| == |s.threads|
  {
    match s.threads[t].pc
    case Idle => Goto(s, t, Load(c))
    case Load(k) => Goto(s, t, if s.index[k] != 0 then Array(k, s.index[k]) else Lock(k))
    case Lock(k) => if s.holder == NOBODY then Goto(s, t, Reread(k)).(holder := t) else s
    case Reread(k) => Goto(s, t, if s.index[k] != 0 then Unlock(k, s.index[k]) else Bump(k))
    case Bump(k) => Goto(s, t, Publish(k, s.count + 1)).(count := s.count + 1)
    case Publish(k, i) => Goto(s, t, Unlock(k, i)).(index := s.index[k := i])
    case Unlock(k, i) => Goto(s, t, Array(k, i)).(holder := NOBODY)
    case Array(k, i) =>
      var data := s.threads[t].data;
      var ready := if i > |data| then WithData(s, t, Grown(data, NewDataArraySize(i))) else s;
      Goto(ready, t, Fetch(k, i))
    case Fetch(k, i) =>
      var data := s.threads[t].data;
      if data[i - 1] == NULL then
        Goto(WithData(s, t, data[i - 1 := s.next]), t, Return(k, s.next)).(next := s.next + 1)
      else
        Goto(s, t, Return(k, data[i - 1]))
    case Return(k, p) => Goto(s, t, Idle).(answers := s.answers[(t, k) := p])
  }

  /** What a step needs to be defined: calls are for existing controls, and a thread about to
      read its slot has an array that covers it. */
  predicate WellFormed(s: State) {
    forall t :: 0 <= t < |s.threads| ==>
      InRange(s.threads[t].pc, |s.index|) &&
      (s.threads[t].pc.Fetch? ==> 1 <= s.threads[t].pc.index <= |s.threads[t].data|)
  }

  // ---------- what every step keeps ----------

  ghost predicate Mutex(s: State) {
    forall t :: 0 <= t < |s.threads| ==> (HoldsMutex(s.threads[t].pc) <==> s.holder == t)
  }

  /** Nonzero indices are distinct and at most the counter; the number being handed out is new. */
  ghost predicate Indices(s: State) {
    && (forall c :: 0 <= c < |s.index| ==> s.index[c] <= s.count)
    && (forall c, d :: 0 <= c < |s.index| && 0 <= d < |s.index| && c != d && s.index[c] != 0 ==>
      s.index[c] != s.index[d])
  }

  /** What a thread remembers about its control's index is still so. */
  ghost predicate Remembers(s: State, pc: Pc)
    requires InRange(pc, |s.index|)
  {
    match pc
    case Bump(c) => s.index[c] == 0
    case Publish(c, i) => s.index[c] == 0 && i == s.count && 0 < i && i !in s.index
    case Unlock(c, i) => s.index[c] == i != 0
    case Array(c, i) => s.index[c] == i != 0
    case Fetch(c, i) => s.index[c] == i != 0
    case _ => true
  }

  ghost predicate Memories(s: State)
    requires WellFormed(s)
  {
    forall t :: 0 <= t < |s.threads| ==> Remembers(s, s.threads[t].pc)
  }

  ghost predicate Holds(s: State, t: nat, k: nat, p: Ptr) {
    t < |s.threads| && k < |s.threads[t].data| && s.threads[t].data[k] == p
  }

  /** Every object belongs to one slot of one thread, and was handed out by the allocator. */
  ghost predicate Objects(s: State) {
    && 0 < s.next
    && (forall t: nat, k: nat, p: Ptr :: Holds(s, t, k, p) ==> p < s.next)
    && (forall t: nat, k: nat, u: nat, l: nat, p: Ptr :: Holds(s, t, k, p) && Holds(s, u, l, p) && p != NULL ==>
      t == u && k == l)
  }

  /** `p` is what thread `t` has for control `c`. */
  ghost predicate IsAddress(s: State, t: nat, c: nat, p: Ptr) {
    c < |s.index| && s.index[c] != 0 && p != NULL && Holds(s, t, s.index[c] - 1, p)
  }

  ghost predicate Answers(s: State)
    requires WellFormed(s)
  {
    && (forall t, c :: (t, c) in s.answers ==> IsAddress(s, t, c, s.answers[(t, c)]))
    && (forall t :: 0 <= t < |s.threads| && s.threads[t].pc.Return? ==>
        IsAddress(s, t, s.threads[t].pc.c, s.threads[t].pc.address))
  }

  ghost predicate Inv(s: State) {
    WellFormed(s) && Mutex(s) && Indices(s) && NoGaps(s) && Memories(s) && Objects(s) && Answers(s)
  }

  /** Every number that was handed out is the index of a control, or on its way into one. */
  ghost predicate NoGaps(s: State) {
    forall n :: 1 <= n <= s.count ==>
      n in s.index || (0 <= s.holder < |s.threads| && s.threads[s.holder].pc.Publish? &&
                       s.threads[s.holder].pc.index == n)
  }

  lemma InitInv(controls: nat, threads: nat)
    ensures Inv(Init(controls, threads))
  {
  }

  /** Slots and indices that a step leaves alone: objects stay where they are, indices stay as they are. */
  ghost predicate Extends(s: State, r: State) {
    && |s.index| == |r.index| && |s.threads| == |r.threads|
    && (forall c :: 0 <= c < |s.index| && s.index[c] != 0 ==> r.index[c] == s.index[c])
    && (forall t: nat, k: nat, p: Ptr :: Holds(s, t, k, p) && p != NULL ==> Holds(r, t, k, p))
  }

  lemma StepExtends(s: State, t: nat, c: nat)
    requires Inv(s) && t < |s.threads| && c < |s.index|
    ensures Extends(s, Step(s, t, c))
  {
  }

  lemma StepWellFormed(s: State, t: nat, c: nat)
    requires Inv(s) && t < |s.threads| && c < |s.index|
    ensures WellFormed(Step(s, t, c)) && Mutex(Step(s, t, c))
  {
  }

  lemma StepIndices(s: State, t: nat, c: nat)
    requires Inv(s) && t < |s.threads| && c < |s.index|
    ensures Indices(Step(s, t, c))
  {
    assert Remembers(s, s.threads[t].pc);
  }

  lemma StepNoGaps(s: State, t: nat, c: nat)
    requires Inv(s) && t < |s.threads| && c < |s.index|
    ensures NoGaps(Step(s, t, c))
  {
    var r := Step(s, t, c);
    forall n | 1 <= n <= r.count
      ensures n in r.index || (0 <= r.holder < |r.threads| && r.threads[r.holder].pc.Publish? &&
                               r.threads[r.holder].pc.index == n)
    {
      assert Remembers(s, s.threads[t].pc);
      if n in s.index {
        var d :| 0 <= d < |s.index| && s.index[d] == n;
        assert r.index[d] == n;
      } else if s.threads[t].pc.Publish? {
        assert r.index[s.threads[t].pc.c] == n;
      }
    }
  }

  /** Only the holder of the mutex moves the counter or an index, so nobody else's memory goes stale. */
  lemma StepMemories(s: State, t: nat, c: nat)
    requires Inv(s) && t < |s.threads| && c < |s.index|
    requires WellFormed(Step(s, t, c))
    ensures Memories(Step(s, t, c))
  {
    var r := Step(s, t, c);
    assert Remembers(s, s.threads[t].pc);
    forall u | 0 <= u < |r.threads|
      ensures Remembers(r, r.threads[u].pc)
    {
      assert Remembers(s, s.threads[u].pc);
      if u != t {
        assert r.threads[u] == s.threads[u];
      }
    }
  }

  lemma StepObjects(s: State, t: nat, c: nat)
    requires Inv(s) && t < |s.threads| && c < |s.index|
    ensures Objects(Step(s, t, c))
  {
    var r := Step(s, t, c);
    forall u: nat, k: nat, p: Ptr | Holds(r, u, k, p)
      ensures p == NULL || Holds(s, u, k, p) || (p == s.next && u == t && s.threads[t].pc.Fetch? &&
        k == s.threads[t].pc.index - 1)
      ensures p < r.next
    {
      assert p == NULL || Holds(s, u, k, p) || (p == s.next && u == t && s.threads[t].pc.Fetch? &&
        k == s.threads[t].pc.index - 1);
    }
  }

  lemma StepAnswers(s: State, t: nat, c: nat)
    requires Inv(s) && t < |s.threads| && c < |s.index|
    requires WellFormed(Step(s, t, c))
    ensures Answers(Step(s, t, c))
  {
    var r := Step(s, t, c);
    StepExtends(s, t, c);
    forall u: nat, k: nat | (u, k) in r.answers
      ensures IsAddress(r, u, k, r.answers[(u, k)])
    {
      RecordedAnswer(s, t, c, u, k);
      AddressKept(s, r, u, k, r.answers[(u, k)]);
    }
    forall u: nat | u < |r.threads| && r.threads[u].pc.Return?
      ensures IsAddress(r, u, r.threads[u].pc.c, r.threads[u].pc.address)
    {
      if u == t {
        FetchAnswers(s, t, c);
      } else {
        AddressKept(s, r, u, s.threads[u].pc.c, s.threads[u].pc.address);
      }
    }
  }

  /** A recorded answer was recorded before, or is the one thread `t` was about to return. */
  lemma RecordedAnswer(s: State, t: nat, c: nat, u: nat, k: nat)
    requires Inv(s) && t < |s.threads| && c < |s.index|
    requires (u, k) in Step(s, t, c).answers
    ensures IsAddress(s, u, k, Step(s, t, c).answers[(u, k)])
  {
  }

  lemma AddressKept(s: State, r: State, t: nat, c: nat, p: Ptr)
    requires Extends(s, r) && IsAddress(s, t, c, p)
    ensures IsAddress(r, t, c, p)
  {
  }

  /** The address about to be returned is the one in the thread's slot for the control. */
  lemma FetchAnswers(s: State, t: nat, c: nat)
    requires Inv(s) && t < |s.threads| && c < |s.index|
    requires Step(s, t, c).threads[t].pc.Return?
    ensures var r := Step(s, t, c);
      IsAddress(r, t, r.threads[t].pc.c, r.threads[t].pc.address)
  {
    assert Remembers(s, s.threads[t].pc);
  }

  lemma StepInv(s: State, t: nat, c: nat)
    requires Inv(s) && t < |s.threads| && c < |s.index|
    ensures Inv(Step(s, t, c))
  {
    StepWellFormed(s, t, c);
    StepIndices(s, t, c);
    StepNoGaps(s, t, c);
    StepMemories(s, t, c);
    StepObjects(s, t, c);
    StepAnswers(s, t, c);
  }

  // ---------- runs ----------

  /** One entry per step: the thread that moves and the control it calls for if it was idle. */
  predicate Schedule(s: State, schedule: seq<(nat, nat)>) {
    forall k :: 0 <= k < |schedule| ==> schedule[k].0 < |s.threads| && schedule[k].1 < |s.index|
  }

  lemma ExtendsTransitive(a: State, b: State, c: State)
    requires Extends(a, b) && Extends(b, c)
    ensures Extends(a, c)
  {
  }

  ghost function Run(s: State, schedule: seq<(nat, nat)>): (r: State)
    requires Inv(s) && Schedule(s, schedule)
    ensures Inv(r) && |r.index| == |s.index| && |r.threads| == |s.threads|
    decreases schedule
  {
    if schedule == [] then s
    else
      var (t, c) := schedule[0];
      StepInv(s, t, c);
      Run(Step(s, t, c), schedule[1..])
  }

  /** No run changes an index or a non-null pointer once it is there. */
  lemma {:induction false} RunExtends(s: State, schedule: seq<(nat, nat)>)
    requires Inv(s) && Schedule(s, schedule)
    ensures Extends(s, Run(s, schedule))
    decreases schedule
  {
    if schedule != [] {
      var (t, c) := schedule[0];
      StepInv(s, t, c);
      StepExtends(s, t, c);
      RunExtends(Step(s, t, c), schedule[1..]);
      ExtendsTransitive(s, Step(s, t, c), Run(s, schedule));
    }
  }

  ghost function Start(controls: nat, threads: nat): (s: State)
    ensures Inv(s) && |s.index| == controls && |s.threads| == threads
  {
    InitInv(controls, threads);
    Init(controls, threads)
  }

  // ---------- results, for any number of controls and threads and every interleaving ----------

  /** Nonzero indices are distinct and lie in 1..counter, and never change once given; while nobody has
      the mutex they are all of 1..counter. */
  lemma IndicesUniqueAndStable(controls: nat, threads: nat, first: seq<(nat, nat)>, more: seq<(nat, nat)>)
    requires Schedule(Start(controls, threads), first) && Schedule(Start(controls, threads), more)
    ensures var s := Run(Start(controls, threads), first);
      var r := Run(s, more);
      && (forall c :: 0 <= c < controls && s.index[c] != 0 ==> 1 <= s.index[c] <= s.count)
      && (forall c, d :: 0 <= c < controls && 0 <= d < controls && c != d && s.index[c] != 0 ==>
        s.index[c] != s.index[d])
      && (forall c :: 0 <= c < controls && s.index[c] != 0 ==> r.index[c] == s.index[c])
      && (s.holder == NOBODY ==> forall n :: 1 <= n <= s.count ==> n in s.index)
  {
    RunExtends(Run(Start(controls, threads), first), more);
  }

  /** Every later call of one thread for one control returns what the first one returned. */
  lemma SameAddressEveryTime(
    controls: nat, threads: nat, first: seq<(nat, nat)>, more: seq<(nat, nat)>, t: nat, c: nat)
    requires Schedule(Start(controls, threads), first) && Schedule(Start(controls, threads), more)
    requires (t, c) in Run(Start(controls, threads), first).answers
    ensures var s := Run(Start(controls, threads), first);
      var r := Run(s, more);
      && (t < threads && r.threads[t].pc.Return? && r.threads[t].pc.c == c ==>
        r.threads[t].pc.address == s.answers[(t, c)])
      && ((t, c) in r.answers ==> r.answers[(t, c)] == s.answers[(t, c)])
  {
    var s := Run(Start(controls, threads), first);
    var r := Run(s, more);
    RunExtends(s, more);
    AddressKept(s, r, t, c, s.answers[(t, c)]);
  }

  /** Different threads or different controls get different, non-null addresses. */
  lemma DistinctAddresses(controls: nat, threads: nat, schedule: seq<(nat, nat)>, t: nat, c: nat, u: nat, d: nat)
    requires Schedule(Start(controls, threads), schedule)
    requires (t, c) in Run(Start(controls, threads), schedule).answers
    requires (u, d) in Run(Start(controls, threads), schedule).answers
    ensures var s := Run(Start(controls, threads), schedule);
      s.answers[(t, c)] != NULL && (s.answers[(t, c)] == s.answers[(u, d)] ==> t == u && c == d)
  {
    var s := Run(Start(controls, threads), schedule);
    assert IsAddress(s, t, c, s.answers[(t, c)]) && IsAddress(s, u, d, s.answers[(u, d)]);
  }

  /** One step of a thread on its array: every pointer stays in its slot, and new slots are null. An array
      that covers the index stays as it is; a new one is the smallest that does and fills its blocks. */
  lemma GrowthKeepsPointers(s: State, t: nat, c: nat, k: nat)
    requires Inv(s) && t < |s.threads| && c < |s.index| && s.threads[t].pc.Array?
    ensures var data := s.threads[t].data;
      var grown := Step(s, t, c).threads[t].data;
      && s.threads[t].pc.index <= |grown| && |data| <= |grown|
      && (k < |data| ==> grown[k] == data[k])
      && (|data| <= k < |grown| ==> grown[k] == NULL)
      && (if s.threads[t].pc.index <= |data| then grown == data
          else |grown| <= s.threads[t].pc.index + 15 && (|grown| + 2) % 16 == 0)
  {
  }

  // ---------- calls and their answers ----------

  /** The control that a call in progress is for. */
  function Control(pc: Pc): nat
    requires !pc.Idle?
  {
    pc.c
  }

  /** The run up to the moment when thread `t` is idle. */
  ghost function UntilIdle(s: State, t: nat, schedule: seq<(nat, nat)>): (r: State)
    requires Inv(s) && Schedule(s, schedule) && t < |s.threads|
    ensures Inv(r) && |r.index| == |s.index| && |r.threads| == |s.threads|
    decreases schedule
  {
    if schedule == [] || s.threads[t].pc.Idle? then s
    else
      var (u, d) := schedule[0];
      StepInv(s, u, d);
      UntilIdle(Step(s, u, d), t, schedule[1..])
  }

  lemma {:induction false} UntilIdleIsRun(s: State, t: nat, schedule: seq<(nat, nat)>) returns (n: nat)
    requires Inv(s) && Schedule(s, schedule) && t < |s.threads|
    ensures n <= |schedule| && UntilIdle(s, t, schedule) == Run(s, schedule[..n])
    ensures n < |schedule| ==> UntilIdle(s, t, schedule).threads[t].pc.Idle?
    decreases schedule
  {
    if schedule == [] || s.threads[t].pc.Idle? {
      n := 0;
    } else {
      var (u, d) := schedule[0];
      StepInv(s, u, d);
      n := UntilIdleIsRun(Step(s, u, d), t, schedule[1..]);
      n := n + 1;
      assert schedule[..n][1..] == schedule[1..][..n - 1];
    }
  }

  /** Thread `t` has the same answers in both states, except perhaps for control `c`. */
  ghost predicate SameAnswers(s: State, r: State, t: nat, c: nat) {
    forall d: nat :: d != c ==>
      ((t, d) in r.answers <==> (t, d) in s.answers) &&
      ((t, d) in s.answers ==> r.answers[(t, d)] == s.answers[(t, d)])
  }

  lemma StepOfCall(s: State, t: nat, c: nat, u: nat, d: nat)
    requires Inv(s) && t < |s.threads| && u < |s.threads| && d < |s.index|
    requires !s.threads[t].pc.Idle? && Control(s.threads[t].pc) == c
    ensures var r := Step(s, u, d);
      && SameAnswers(s, r, t, c)
      && (if r.threads[t].pc.Idle? then (t, c) in r.answers else Control(r.threads[t].pc) == c)
  {
  }

  lemma {:induction false} CallRuns(s: State, t: nat, c: nat, schedule: seq<(nat, nat)>)
    requires Inv(s) && Schedule(s, schedule) && t < |s.threads|
    requires if s.threads[t].pc.Idle? then (t, c) in s.answers else Control(s.threads[t].pc) == c
    ensures var r := UntilIdle(s, t, schedule);
      && SameAnswers(s, r, t, c)
      && (if r.threads[t].pc.Idle? then (t, c) in r.answers else Control(r.threads[t].pc) == c)
    decreases schedule
  {
    if schedule != [] && !s.threads[t].pc.Idle? {
      var (u, d) := schedule[0];
      StepOfCall(s, t, c, u, d);
      StepInv(s, u, d);
      CallRuns(Step(s, u, d), t, c, schedule[1..]);
    }
  }

  /** A call is answered for the control it is made for, whatever the other threads do: until the caller
      is idle again it is busy with that control, and what it has recorded then is the address of its
      own object for it, and nothing else. */
  lemma CallIsAnswered(s: State, t: nat, c: nat, schedule: seq<(nat, nat)>)
    requires Inv(s) && t < |s.threads| && c < |s.index| && s.threads[t].pc.Idle? && Schedule(s, schedule)
    ensures Inv(Step(s, t, c))
    ensures var r := UntilIdle(Step(s, t, c), t, schedule);
      && SameAnswers(s, r, t, c)
      && (if r.threads[t].pc.Idle? then (t, c) in r.answers && IsAddress(r, t, c, r.answers[(t, c)])
          else Control(r.threads[t].pc) == c)
  {
    StepInv(s, t, c);
    CallRuns(Step(s, t, c), t, c, schedule);
  }

  // ---------- calls end ----------

  /** How many steps a call still takes if it does not have to wait. */
  function Remaining(s: State, pc: Pc): nat
    requires InRange(pc, |s.index|)
  {
    match pc
    case Idle => 0
    case Load(c) => if s.index[c] != 0 then 4 else 9
    case Lock(_) => 8
    case Reread(_) => 7
    case Bump(_) => 6
    case Publish(_, _) => 5
    case Unlock(_, _) => 4
    case Array(_, _) => 3
    case Fetch(_, _) => 2
    case Return(_, _) => 1
  }

  /** Does a step of thread `t` do nothing, as another thread has the mutex? */
  predicate Waits(s: State, t: nat)
    requires t < |s.threads|
  {
    s.threads[t].pc.Lock? && s.holder != NOBODY
  }

  lemma OwnProgress(s: State, t: nat, d: nat)
    requires t < |s.threads| && d < |s.index| && WellFormed(s) && WellFormed(Step(s, t, d))
    requires !s.threads[t].pc.Idle? && !Waits(s, t)
    ensures var r := Step(s, t, d);
      Remaining(r, r.threads[t].pc) < Remaining(s, s.threads[t].pc)
  {
    hide WellFormed, Grown, NewDataArraySize;
  }

  lemma OthersProgress(s: State, r: State, pc: Pc)
    requires InRange(pc, |s.index|) && Extends(s, r)
    ensures Remaining(r, pc) <= Remaining(s, pc)
  {
  }

  /** Each step of a thread that does not wait brings its call nearer to the end, from which no step of
      another thread takes it away; and it waits only for a thread that does not. */
  lemma Progress(s: State, t: nat, u: nat, d: nat)
    requires Inv(s) && t < |s.threads| && u < |s.threads| && d < |s.index| && !s.threads[t].pc.Idle?
    ensures WellFormed(Step(s, u, d))
    ensures var r := Step(s, u, d);
      && (u == t && !Waits(s, t) ==> Remaining(r, r.threads[t].pc) < Remaining(s, s.threads[t].pc))
      && (u == t && Waits(s, t) ==> r == s)
      && (u != t ==> r.threads[t] == s.threads[t] && Remaining(r, r.threads[t].pc) <= Remaining(s, s.threads[t].pc))
    ensures Waits(s, t) && 0 <= s.holder < |s.threads| ==> s.holder != t && !Waits(s, s.holder)
  {
    hide Remaining, Indices, NoGaps, Memories, Objects, Answers;
    StepInv(s, u, d);
    if u != t {
      StepExtends(s, u, d);
      OthersProgress(s, Step(s, u, d), s.threads[t].pc);
    } else if !Waits(s, t) {
      OwnProgress(s, t, d);
    }
  }

  /** How often thread `t` moves. */
  function Moves(schedule: seq<(nat, nat)>, t: nat): nat {
    if schedule == [] then 0 else (if schedule[0].0 == t then 1 else 0) + Moves(schedule[1..], t)
  }

  /** A call that is past the lock, or will not come to it. */
  predicate Lockless(s: State, pc: Pc)
    requires InRange(pc, |s.index|)
  {
    match pc
    case Load(c) => s.index[c] != 0
    case Array(_, _) | Fetch(_, _) | Return(_, _) | Idle => true
    case _ => false
  }

  lemma {:induction false} LocklessEnds(s: State, t: nat, schedule: seq<(nat, nat)>)
    requires Inv(s) && t < |s.threads| && Schedule(s, schedule) && Lockless(s, s.threads[t].pc)
    requires Remaining(s, s.threads[t].pc) <= Moves(schedule, t)
    ensures UntilIdle(s, t, schedule).threads[t].pc.Idle?
    decreases schedule
  {
    if !s.threads[t].pc.Idle? {
      var (u, d) := schedule[0];
      StepInv(s, u, d);
      StepExtends(s, u, d);
      Progress(s, t, u, d);
      LocklessEnds(Step(s, u, d), t, schedule[1..]);
    }
  }

  /** A call for a control that has its index never waits: whatever the other threads do and whoever has the
      mutex, it is answered once the caller has moved five times. */
  lemma IndexedCallEnds(s: State, t: nat, c: nat, schedule: seq<(nat, nat)>)
    requires Inv(s) && t < |s.threads| && c < |s.index| && s.threads[t].pc.Idle? && Schedule(s, schedule)
    requires s.index[c] != 0 && Moves(schedule, t) >= 4
    ensures Inv(Step(s, t, c))
    ensures var r := UntilIdle(Step(s, t, c), t, schedule);
      r.threads[t].pc.Idle? && (t, c) in r.answers && IsAddress(r, t, c, r.answers[(t, c)])
  {
    CallIsAnswered(s, t, c, schedule);
    LocklessEnds(Step(s, t, c), t, schedule);
  }

  /** Thread `t` moves alone. */
  function Alone(t: nat, c: nat, n: nat): seq<(nat, nat)> {
    seq(n, _ => (t, c))
  }

  lemma {:induction false} AloneEnds(s: State, t: nat, c: nat, n: nat)
    requires Inv(s) && t < |s.threads| && c < |s.index| && (s.holder == NOBODY || s.holder == t)
    requires Remaining(s, s.threads[t].pc) <= n
    ensures UntilIdle(s, t, Alone(t, c, n)).threads[t].pc.Idle?
    decreases n
  {
    if !s.threads[t].pc.Idle? {
      StepInv(s, t, c);
      Progress(s, t, t, c);
      AloneEnds(Step(s, t, c), t, c, n - 1);
      assert Alone(t, c, n)[1..] == Alone(t, c, n - 1);
    }
  }

  /** Any call ends: with the mutex free, a thread that moves alone is answered within ten steps. */
  lemma CallEnds(s: State, t: nat, c: nat)
    requires Inv(s) && t < |s.threads| && c < |s.index| && s.threads[t].pc.Idle? && s.holder == NOBODY
    ensures Inv(Step(s, t, c))
    ensures var r := UntilIdle(Step(s, t, c), t, Alone(t, c, 9));
      r.threads[t].pc.Idle? && (t, c) in r.answers && IsAddress(r, t, c, r.answers[(t, c)])
  {
    CallIsAnswered(s, t, c, Alone(t, c, 9));
    AloneEnds(Step(s, t, c), t, c, 9);
  }
}
