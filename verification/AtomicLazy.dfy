/** The test-and-test-and-set lock and the lazy initialiser built on it, as the atomic steps of
    any number of concurrent calls. A schedule says which call moves next; memory is
    sequentially consistent. */
module AtomicLazy {

  /** Where one call of `ctor` stands. */
  datatype Pc =
    | Start       // about to load the flag
    | TryLock     // about to compare-and-swap the lock word
    | Spin        // reading the lock word until it looks free
    | Locked      // holds the lock, constructor not begun
    | Building    // inside the constructor
    | Built       // constructor finished, flag not stored
    | Published   // flag stored, lock not released
    | FastDone    // returned after loading true
    | SlowDone    // returned after going through the lock

  /** `ready` is the flag, `locked` the lock word, `completed` the constructor runs that have finished. */
  datatype State = State(ready: bool, locked: bool, completed: nat, calls: seq<Pc>)

  predicate HoldsLock(pc: Pc) {
    pc.Locked? || pc.Building? || pc.Built? || pc.Published?
  }

  /** The call has gone past its first step, and not to the return. */
  predicate LoadedFalse(pc: Pc) {
    pc.TryLock? || pc.Spin? || HoldsLock(pc) || pc.SlowDone?
  }

  /** The call's own constructor run has finished. */
  predicate Constructed(pc: Pc) {
    pc.Built? || pc.Published? || pc.SlowDone?
  }

  predicate Done(pc: Pc) {
    pc.FastDone? || pc.SlowDone?
  }

  function Init(n: nat): State {
    State(false, false, 0, seq(n, _ => Start))
  }

  /** One step of call `i`. With `recheck` the flag is loaded again under the lock, which the
      source does not do. */
  function Step(s: State, i: nat, recheck: bool): State
    requires i < |s.calls|
  {
    match s.calls[i]
    case Start => Move(s, i, if s.ready then FastDone else TryLock)
    case TryLock => if s.locked then Move(s, i, Spin) else Move(s, i, Locked).(locked := true)
    case Spin => Move(s, i, if s.locked then Spin else TryLock)
    case Locked => Move(s, i, if recheck && s.ready then Published else Building)
    case Building => Move(s, i, Built).(completed := s.completed + 1)
    case Built => Move(s, i, Published).(ready := true)
    case Published => Move(s, i, SlowDone).(locked := false)
    case FastDone => s
    case SlowDone => s
  }

  function Move(s: State, i: nat, pc: Pc): State
    requires i < |s.calls|
  {
    s.(calls := s.calls[i := pc])
  }

  predicate Schedule(schedule: seq<nat>, n: nat) {
    forall k :: 0 <= k < |schedule| ==> schedule[k] < n
  }

  function Run(s: State, schedule: seq<nat>, recheck: bool): (r: State)
    requires Schedule(schedule, |s.calls|)
    ensures |r.calls| == |s.calls|
    decreases schedule
  {
    if schedule == [] then s else Run(Step(s, schedule[0], recheck), schedule[1..], recheck)
  }

  // ---------- counting calls ----------

  function CountWhere(p: Pc -> bool, calls: seq<Pc>): nat {
    if calls == [] then 0 else (if p(calls[0]) then 1 else 0) + CountWhere(p, calls[1..])
  }

  lemma {:induction false} CountUpdate(p: Pc -> bool, calls: seq<Pc>, i: nat, pc: Pc)
    requires i < |calls|
    ensures CountWhere(p, calls[i := pc]) ==
      CountWhere(p, calls) - (if p(calls[i]) then 1 else 0) + if p(pc) then 1 else 0
  {
    if i > 0 {
      assert calls[i := pc][1..] == calls[1..][i - 1 := pc];
      CountUpdate(p, calls[1..], i - 1, pc);
    } else {
      assert calls[0 := pc][1..] == calls[1..];
    }
  }

  lemma {:induction false} CountNone(p: Pc -> bool, calls: seq<Pc>)
    requires forall i :: 0 <= i < |calls| ==> !p(calls[i])
    ensures CountWhere(p, calls) == 0
  {
    if calls != [] {
      CountNone(p, calls[1..]);
    }
  }

  lemma {:induction false} CountSome(p: Pc -> bool, calls: seq<Pc>, i: nat)
    requires i < |calls| && p(calls[i])
    ensures CountWhere(p, calls) > 0
  {
    if i > 0 {
      CountSome(p, calls[1..], i - 1);
    }
  }

  lemma {:induction false} CountMonotone(p: Pc -> bool, q: Pc -> bool, calls: seq<Pc>)
    requires forall pc :: p(pc) ==> q(pc)
    ensures CountWhere(p, calls) <= CountWhere(q, calls)
  {
    if calls != [] {
      CountMonotone(p, q, calls[1..]);
    }
  }

  lemma {:induction false} CountSame(p: Pc -> bool, q: Pc -> bool, calls: seq<Pc>)
    requires forall i :: 0 <= i < |calls| ==> (p(calls[i]) <==> q(calls[i]))
    ensures CountWhere(p, calls) == CountWhere(q, calls)
  {
    if calls != [] {
      CountSame(p, q, calls[1..]);
    }
  }

  // ---------- what every step keeps ----------

  ghost predicate Mutex(s: State) {
    && (forall i, j :: 0 <= i < |s.calls| && 0 <= j < |s.calls| && HoldsLock(s.calls[i]) && HoldsLock(s.calls[j]) ==>
      i == j)
    && (s.locked <==> exists i :: 0 <= i < |s.calls| && HoldsLock(s.calls[i]))
  }

  lemma StepKeepsMutex(s: State, i: nat, recheck: bool)
    requires Mutex(s) && i < |s.calls|
    ensures Mutex(Step(s, i, recheck))
  {
    var t := Step(s, i, recheck);
    if t.locked {
      if HoldsLock(t.calls[i]) {
      } else {
        var j :| 0 <= j < |s.calls| && HoldsLock(s.calls[j]);
        assert HoldsLock(t.calls[j]);
      }
    }
  }

  /** The source as written. */
  ghost predicate Inv(s: State) {
    && Mutex(s)
    && s.completed == CountWhere(Constructed, s.calls)
    && (s.ready ==> s.completed > 0)
    && (forall i :: 0 <= i < |s.calls| && (Done(s.calls[i]) || s.calls[i].Published?) ==> s.ready)
  }

  lemma StepKeepsInv(s: State, i: nat)
    requires Inv(s) && i < |s.calls|
    ensures Inv(Step(s, i, false))
  {
    var t := Step(s, i, false);
    StepKeepsMutex(s, i, false);
    CountUpdate(Constructed, s.calls, i, t.calls[i]);
    if s.calls[i].Built? {
      CountSome(Constructed, s.calls, i);
    }
  }

  lemma InitInv(n: nat)
    ensures Inv(Init(n)) && InvRecheck(Init(n))
  {
    CountNone(Constructed, Init(n).calls);
  }

  lemma {:induction false} RunKeepsInv(s: State, schedule: seq<nat>)
    requires Inv(s) && Schedule(schedule, |s.calls|)
    ensures Inv(Run(s, schedule, false))
    decreases schedule
  {
    if schedule != [] {
      StepKeepsInv(s, schedule[0]);
      RunKeepsInv(Step(s, schedule[0], false), schedule[1..]);
    }
  }

  // ---------- results ----------

  /** For any number of calls and every interleaving: at most one call holds the lock, at most
      one constructor is running, and no call returns before some constructor run has finished. */
  lemma Safety(n: nat, schedule: seq<nat>)
    requires Schedule(schedule, n)
    ensures var s := Run(Init(n), schedule, false);
      && (forall i, j :: 0 <= i < n && 0 <= j < n && HoldsLock(s.calls[i]) && HoldsLock(s.calls[j]) ==> i == j)
      && (forall i, j :: 0 <= i < n && 0 <= j < n && s.calls[i].Building? && s.calls[j].Building? ==> i == j)
      && (forall i :: 0 <= i < n && Done(s.calls[i]) ==> s.completed > 0)
  {
    InitInv(n);
    RunKeepsInv(Init(n), schedule);
  }

  lemma {:induction false} RunAppend(s: State, a: seq<nat>, b: seq<nat>, recheck: bool)
    requires Schedule(a, |s.calls|) && Schedule(b, |s.calls|)
    ensures Schedule(a + b, |s.calls|)
    ensures Run(s, a + b, recheck) == Run(Run(s, a, recheck), b, recheck)
    decreases a
  {
    if a == [] {
      assert a + b == b;
    } else {
      RunAppend(Step(s, a[0], recheck), a[1..], b, recheck);
      assert (a + b)[1..] == a[1..] + b;
    }
  }

  /** A call that comes when the flag is set returns at once, in its one step, whatever the others do. */
  lemma {:induction false} FastPath(s: State, schedule: seq<nat>, i: nat, recheck: bool)
    requires s.ready && i < |s.calls| && (s.calls[i].Start? || s.calls[i].FastDone?) && Schedule(schedule, |s.calls|)
    ensures var r := Run(s, schedule, recheck);
      r.ready && r.calls[i] == if i in schedule then FastDone else s.calls[i]
    decreases schedule
  {
    if schedule != [] {
      FastPath(Step(s, schedule[0], recheck), schedule[1..], i, recheck);
      assert schedule == [schedule[0]] + schedule[1..];
    }
  }

  /** So once the flag is set, it stays so, and a call that has not begun yet never gets past its first step. */
  lemma FastOnceReady(n: nat, a: seq<nat>, b: seq<nat>, i: nat, recheck: bool)
    requires Schedule(a, n) && Schedule(b, n) && i < n
    requires Run(Init(n), a, recheck).ready && Run(Init(n), a, recheck).calls[i] == Start
    ensures Schedule(a + b, n)
    ensures var r := Run(Init(n), a + b, recheck);
      r.ready && r.calls[i] == if i in b then FastDone else Start
  {
    RunAppend(Init(n), a, b, recheck);
    FastPath(Run(Init(n), a, recheck), b, i, recheck);
  }

  /** How many calls begin before the flag is set. */
  function EarlyCalls(s: State, schedule: seq<nat>): nat
    requires Schedule(schedule, |s.calls|)
    decreases schedule
  {
    if schedule == [] then 0
    else
      (if s.calls[schedule[0]].Start? && !s.ready then 1 else 0) +
      EarlyCalls(Step(s, schedule[0], false), schedule[1..])
  }

  lemma StepPastStart(s: State, i: nat)
    requires i < |s.calls|
    ensures var t := Step(s, i, false);
      && t.calls == s.calls[i := t.calls[i]]
      && (LoadedFalse(t.calls[i]) <==> LoadedFalse(s.calls[i]) || (s.calls[i].Start? && !s.ready))
  {
  }

  /** They are the ones that go through the lock. */
  lemma {:induction false} EarlyAreSlow(s: State, schedule: seq<nat>)
    requires Schedule(schedule, |s.calls|)
    ensures CountWhere(LoadedFalse, Run(s, schedule, false).calls) ==
      CountWhere(LoadedFalse, s.calls) + EarlyCalls(s, schedule)
    decreases schedule
  {
    if schedule != [] {
      hide Step, LoadedFalse;
      var i := schedule[0];
      StepPastStart(s, i);
      assert !LoadedFalse(Start);
      CountUpdate(LoadedFalse, s.calls, i, Step(s, i, false).calls[i]);
      EarlyAreSlow(Step(s, i, false), schedule[1..]);
    }
  }

  /** Constructions never outnumber the calls that begin before the flag is set, and catch up with them
      in the end: the object is built exactly once if and only if exactly one call begins before that. */
  lemma OncePerFalseLoad(n: nat, schedule: seq<nat>)
    requires Schedule(schedule, n)
    ensures var s := Run(Init(n), schedule, false);
      && s.completed <= EarlyCalls(Init(n), schedule)
      && ((forall i :: 0 <= i < n ==> Done(s.calls[i])) ==> s.completed == EarlyCalls(Init(n), schedule))
  {
    InitInv(n);
    RunKeepsInv(Init(n), schedule);
    var s := Run(Init(n), schedule, false);
    CountNone(LoadedFalse, Init(n).calls);
    EarlyAreSlow(Init(n), schedule);
    CountMonotone(Constructed, LoadedFalse, s.calls);
    if forall i :: 0 <= i < n ==> Done(s.calls[i]) {
      CountSame(Constructed, LoadedFalse, s.calls);
    }
  }

  // ---------- calls end ----------

  /** How many steps a call still takes if it does not have to wait. */
  function Remaining(ready: bool, pc: Pc): nat {
    match pc
    case Start => if ready then 1 else 6
    case Spin => 6
    case TryLock => 5
    case Locked => 4
    case Building => 3
    case Built => 2
    case Published => 1
    case FastDone | SlowDone => 0
  }

  predicate Waits(s: State, i: nat)
    requires i < |s.calls|
  {
    s.locked && (s.calls[i].TryLock? || s.calls[i].Spin?)
  }

  /** A call waits only while another one holds the lock, which does not wait itself, and spends that
      time reading the lock word; else each of its steps brings it nearer to its end, from which no step
      of another call takes it away. */
  lemma Progress(s: State, i: nat, j: nat, recheck: bool)
    requires Mutex(s) && i < |s.calls| && j < |s.calls| && !Done(s.calls[i])
    ensures var t := Step(s, j, recheck);
      && Remaining(t.ready, t.calls[i]) <= Remaining(s.ready, s.calls[i]) + (if j == i && Waits(s, i) then 1 else 0)
      && (j == i && Waits(s, i) ==> t == Move(s, i, Spin))
      && (j == i && !Waits(s, i) ==> Remaining(t.ready, t.calls[i]) < Remaining(s.ready, s.calls[i]))
    ensures Waits(s, i) ==> exists k :: 0 <= k < |s.calls| && k != i && HoldsLock(s.calls[k]) && !Waits(s, k)
  {
    if Waits(s, i) {
      var k :| 0 <= k < |s.calls| && HoldsLock(s.calls[k]);
      assert k != i && !Waits(s, k);
    }
  }

  /** Call `i` moves alone. */
  function Alone(i: nat, n: nat): seq<nat> {
    seq(n, _ => i)
  }

  /** A call that moves alone with the lock free, or held by itself, returns within six steps. */
  lemma {:induction false} CallEnds(s: State, i: nat, n: nat, recheck: bool)
    requires Mutex(s) && i < |s.calls| && (!s.locked || HoldsLock(s.calls[i]))
    requires Remaining(s.ready, s.calls[i]) <= n
    ensures Remaining(s.ready, s.calls[i]) <= 6
    ensures Done(Run(s, Alone(i, n), recheck).calls[i])
    decreases n
  {
    if n > 0 {
      StepKeepsMutex(s, i, recheck);
      assert Alone(i, n)[1..] == Alone(i, n - 1);
      if !Done(s.calls[i]) {
        Progress(s, i, i, recheck);
      }
      CallEnds(Step(s, i, recheck), i, n - 1, recheck);
    }
  }

  lemma WitnessLoads()
    ensures Run(Init(2), [0, 1], false) == State(false, false, 0, [TryLock, TryLock])
  {
    var s := Init(2);
    assert s.calls == [Start, Start];
    assert Step(Step(s, 0, false), 1, false).calls == [TryLock, TryLock];
    RunAppend(s, [0], [1], false);
    assert [0] + [1] == [0, 1];
  }

  /** From the lock into the constructor. */
  lemma Enters(s: State, i: nat)
    requires i < |s.calls| && s.calls[i].TryLock? && !s.locked
    ensures Schedule([i, i], |s.calls|)
    ensures Run(s, [i, i], false) == State(s.ready, true, s.completed, s.calls[i := Building])
  {
    var r := Step(s, i, false);
    assert [i, i][1..] == [i] && [i][1..] == [];
    assert Run(r, [i], false) == Run(Step(r, i, false), [], false);
    assert s.calls[i := Locked][i := Building] == s.calls[i := Building];
  }

  /** From the constructor to the return. */
  lemma Leaves(s: State, i: nat)
    requires i < |s.calls| && s.calls[i].Building? && s.locked
    ensures Schedule([i, i, i], |s.calls|)
    ensures Run(s, [i, i, i], false) == State(true, false, s.completed + 1, s.calls[i := SlowDone])
  {
    var r := Step(s, i, false);
    var t := Step(r, i, false);
    assert [i, i, i][1..] == [i, i] && [i, i][1..] == [i] && [i][1..] == [];
    assert Run(r, [i, i], false) == Run(t, [i], false) == Run(Step(t, i, false), [], false);
    assert s.calls[i := Built][i := Published][i := SlowDone] == s.calls[i := SlowDone];
  }

  /** Two calls that both load false construct twice, the second time over an object whose
      reference the first call has already returned. */
  lemma TwiceWitness()
    ensures exists a, b ::
      && Schedule(a, 2) && Schedule(b, 2)
      && Run(Init(2), a, false) == State(true, true, 1, [SlowDone, Building])
      && Run(Run(Init(2), a, false), b, false) == State(true, false, 2, [SlowDone, SlowDone])
  {
    WitnessLoads();
    var s := State(false, false, 0, [TryLock, TryLock]);
    Enters(s, 0);
    var s' := State(false, true, 0, [Building, TryLock]);
    assert s.calls[0 := Building] == s'.calls;
    Leaves(s', 0);
    var t := State(true, false, 1, [SlowDone, TryLock]);
    assert s'.calls[0 := SlowDone] == t.calls;
    Enters(t, 1);
    var t' := State(true, true, 1, [SlowDone, Building]);
    assert t.calls[1 := Building] == t'.calls;
    Leaves(t', 1);
    assert t'.calls[1 := SlowDone] == [SlowDone, SlowDone];
    RunAppend(s, [0, 0], [0, 0, 0], false);
    RunAppend(s, [0, 0] + [0, 0, 0], [1, 1], false);
    RunAppend(Init(2), [0, 1], [0, 0] + [0, 0, 0] + [1, 1], false);
    var a := [0, 1] + ([0, 0] + [0, 0, 0] + [1, 1]);
    assert Run(Init(2), a, false) == State(true, true, 1, [SlowDone, Building]);
  }

  // ---------- with the flag loaded again under the lock ----------

  ghost predicate InvRecheck(s: State) {
    && Mutex(s)
    && (s.ready ==> s.completed == 1)
    && (!s.ready && s.completed > 0 ==>
        s.completed == 1 && exists i :: 0 <= i < |s.calls| && s.calls[i].Built?)
    && (forall i :: 0 <= i < |s.calls| && (Done(s.calls[i]) || s.calls[i].Published?) ==> s.ready)
    && (forall i :: 0 <= i < |s.calls| && s.calls[i].Building? ==> !s.ready && s.completed == 0)
    && (forall i :: 0 <= i < |s.calls| && s.calls[i].Built? ==> !s.ready && s.completed == 1)
  }

  lemma StepKeepsInvRecheck(s: State, i: nat)
    requires InvRecheck(s) && i < |s.calls|
    ensures InvRecheck(Step(s, i, true))
  {
    var t := Step(s, i, true);
    StepKeepsMutex(s, i, true);
    if !t.ready && t.completed > 0 {
      if s.calls[i].Building? {
        assert t.calls[i].Built?;
      } else {
        var j :| 0 <= j < |s.calls| && s.calls[j].Built?;
        assert HoldsLock(s.calls[j]);
        assert t.calls[j].Built?;
      }
    }
  }

  lemma {:induction false} RunKeepsInvRecheck(s: State, schedule: seq<nat>)
    requires InvRecheck(s) && Schedule(schedule, |s.calls|)
    ensures InvRecheck(Run(s, schedule, true))
    decreases schedule
  {
    if schedule != [] {
      StepKeepsInvRecheck(s, schedule[0]);
      RunKeepsInvRecheck(Step(s, schedule[0], true), schedule[1..]);
    }
  }

  /** With that one test added, construction happens at most once in every run, exactly once
      as soon as any call has returned, and never while a reference is out. */
  lemma RecheckIsOnce(n: nat, schedule: seq<nat>)
    requires Schedule(schedule, n)
    ensures var s := Run(Init(n), schedule, true);
      && s.completed <= 1
      && (forall i :: 0 <= i < n && Done(s.calls[i]) ==> s.completed == 1)
      && (forall i, j :: 0 <= i < n && 0 <= j < n && Done(s.calls[i]) ==> !s.calls[j].Building?)
  {
    InitInv(n);
    RunKeepsInvRecheck(Init(n), schedule);
  }
}
