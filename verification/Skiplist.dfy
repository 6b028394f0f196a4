/** Raw slots handed out through a bitmap, and the handles that own them. */
module Skiplist {
  import opened Bits
  import opened BitList

  /** A raw slot holds nothing until a constructor has run on it. */
  datatype Slot<T> = Raw | Built(value: T)

  /** `OutOfBounds`: the chosen slot lies behind the storage, where the source writes all the same. */
  datatype InsertResult = At(slot: nat) | OutOfBounds

  ghost predicate LeastFree(live: set<nat>, v: nat) {
    v !in live && forall j: nat :: j < v ==> j in live
  }

  lemma LeastFreeUnique(live: set<nat>, v: nat, w: nat)
    requires LeastFree(live, v) && LeastFree(live, w)
    ensures v == w
  {
  }

  /** Pigeonhole: the least free index is at most the number of live slots. */
  lemma LeastFreeBound(live: set<nat>, v: nat)
    requires LeastFree(live, v)
    ensures v <= |live|
  {
    SubsetSize(Prefix(v), live);
  }

  /** The indices below `n`. */
  ghost function Prefix(n: nat): (s: set<nat>)
    ensures |s| == n && forall j: nat :: j in s <==> j < n
  {
    if n == 0 then {} else Prefix(n - 1) + {n - 1}
  }

  lemma {:induction false} SubsetSize(s: set<nat>, t: set<nat>)
    requires s <= t
    ensures |s| <= |t| && (|s| == |t| ==> s == t)
    decreases s
  {
    if s != {} {
      var x :| x in s;
      SubsetSize(s - {x}, t - {x});
      assert s == s - {x} + {x};
      assert t == t - {x} + {x};
    }
  }

  /** With every live index below `n`, the least free one is in range exactly when some slot is free. */
  lemma LeastFreeInRange(live: set<nat>, v: nat, n: nat)
    requires LeastFree(live, v) && forall i :: i in live ==> i < n
    ensures v <= n && |live| <= n && (v < n <==> |live| < n)
  {
    LeastFreeBound(live, v);
    SubsetSize(live, Prefix(n));
    if v < n {
      assert v in Prefix(n);
    }
  }

  /** The bitmap has a clear bit behind the last slot. */
  lemma LastWordHasSpare(words: seq<nat>, n: nat)
    requires |words| == n / PER_WORD + 1 && forall i :: i in Members(words) ==> i < n
    ensures words[|words| - 1] != Pow2(PER_WORD) - 1
  {
    var i := PER_WORD * |words| - 1;
    assert i !in Members(words) && i / PER_WORD == |words| - 1 && i % PER_WORD == PER_WORD - 1;
    LargestHasAllBits(PER_WORD, PER_WORD - 1);
  }

  /** Every index below `n` is in the list. */
  ghost predicate AllHad(words: seq<nat>, n: nat) {
    forall j: nat :: j < n ==> Has(words, j)
  }

  lemma FullWord(words: seq<nat>, i: nat)
    requires i < |words| && words[i] == Pow2(PER_WORD) - 1 && AllHad(words, PER_WORD * i)
    ensures AllHad(words, PER_WORD * (i + 1))
  {
    forall j: nat | PER_WORD * i <= j < PER_WORD * (i + 1)
      ensures Has(words, j)
    {
      LargestHasAllBits(PER_WORD, j % PER_WORD);
      assert j / PER_WORD == i;
    }
  }

  lemma FirstClear(words: seq<nat>, i: nat)
    requires i < |words| && IsWord(words[i]) && words[i] != Pow2(PER_WORD) - 1 && AllHad(words, PER_WORD * i)
    ensures FindEmptySlot(words[i]) >= 0 && LeastFree(Members(words), i * PER_WORD + FindEmptySlot(words[i]))
  {
    hide FindEmptySlot, Pow2;
    EmptySlotIsLowestClear(words[i]);
    var v := i * PER_WORD + FindEmptySlot(words[i]);
    assert v / PER_WORD == i && v % PER_WORD == v - PER_WORD * i;
    forall j: nat | j < v
      ensures j in Members(words)
    {
      if j >= PER_WORD * i {
        assert j / PER_WORD == i && j % PER_WORD == j - PER_WORD * i;
      }
      assert Has(words, j);
    }
  }

  function Count(m: map<nat, nat>, i: nat): nat {
    if i in m then m[i] else 0
  }

  function Counted(m: map<nat, nat>, i: nat): map<nat, nat> {
    m[i := Count(m, i) + 1]
  }

  class Skiplist<T> {
    const capacity: nat
    const bits: BitList
    const data: array<Slot<T>>
    ghost var built: map<nat, nat>       // how often each slot was constructed
    ghost var destroyed: map<nat, nat>   // ... and destructed

    /** Bits and storage agree: a bit is set exactly on a built slot, and never behind the storage. */
    ghost predicate Valid()
      reads data, bits.data
    {
      bits.Valid() && bits.size == capacity && data.Length == capacity &&
      (forall i :: i in bits.Set() ==> i < capacity) &&
      (forall i :: 0 <= i < capacity ==> (data[i].Built? <==> i in bits.Set()))
    }

    ghost function Live(): set<nat>
      reads bits.data
    {
      bits.Set()
    }

    constructor (n: nat)
      ensures Valid() && fresh(data) && fresh(bits.data) && capacity == n && Live() == {}
      ensures built == map[] && destroyed == map[]
    {
      built, destroyed := map[], map[];
      capacity := n;
      data := new Slot<T>[n](_ => Raw);
      bits := new BitList(n);
    }

    /** Placement construction; running it on a built slot would lose the old value. */
    method Construct(v: nat, x: T)
      requires v < data.Length && data[v].Raw?
      modifies data, this`built
      ensures data[..] == old(data[..])[v := Built(x)] && built == Counted(old(built), v)
    {
      data[v] := Built(x);
      built := Counted(built, v);
    }

    /** The destructor needs a built slot. */
    method Destruct(v: nat)
      requires v < data.Length && data[v].Built?
      modifies data, this`destroyed
      ensures data[..] == old(data[..])[v := Raw] && destroyed == Counted(old(destroyed), v)
    {
      data[v] := Raw;
      destroyed := Counted(destroyed, v);
    }

    /** The slot that `insertRaw` settles on. The final `nullptr` is never reached: the bitmap
        always has a word with clear bits behind the last slot. */
    method ChooseSlot() returns (v: nat)
      requires Valid()
      ensures LeastFree(Live(), v)
    {
      hide FindEmptySlot, Pow2;
      ghost var words := bits.data[..];
      assert Live() == Members(words) && |words| == capacity / PER_WORD + 1;
      LastWordHasSpare(words, capacity);
      var i := 0;
      while bits.data[i] == Pow2(PER_WORD) - 1
        invariant i < |words| && words == bits.data[..]
        invariant AllHad(words, PER_WORD * i)
        decreases |words| - i
      {
        FullWord(words, i);
        i := i + 1;
      }
      FirstClear(words, i);
      v := i * PER_WORD + FindEmptySlot(bits.data[i]);
    }

    /** Takes the least free slot; it is in range exactly when fewer than all slots are live. */
    method InsertRaw(x: T) returns (r: InsertResult)
      requires Valid()
      modifies data, bits.data, this`built
      ensures Valid()
      ensures built == if r.At? then Counted(old(built), r.slot) else old(built)
      ensures r.OutOfBounds? <==> |old(Live())| == capacity
      ensures r.At? ==> r.slot < capacity && r.slot <= |old(Live())| && LeastFree(old(Live()), r.slot)
      ensures r.At? ==> Live() == old(Live()) + {r.slot} && data[..] == old(data[..])[r.slot := Built(x)]
      ensures r.OutOfBounds? ==> Live() == old(Live()) && data[..] == old(data[..])
    {
      hide Pow2, Members;
      var v := ChooseSlot();
      LeastFreeBound(Live(), v);
      LeastFreeInRange(Live(), v, capacity);
      if v >= capacity {
        return OutOfBounds;
      }
      Construct(v, x);
      bits.Assign(v, true);
      return At(v);
    }

    /** Succeeds exactly on a live slot. A pointer from outside the storage is the caller's error. */
    method EraseRaw(p: Ref) returns (ok: bool)
      requires Valid() && (p.To? ==> p.slot < capacity)
      modifies data, bits.data, this`destroyed
      ensures Valid()
      ensures ok <==> p.To? && p.slot in old(Live())
      ensures destroyed == if ok then Counted(old(destroyed), p.slot) else old(destroyed)
      ensures ok ==> Live() == old(Live()) - {p.slot} && data[..] == old(data[..])[p.slot := Raw]
      ensures !ok ==> Live() == old(Live()) && data[..] == old(data[..])
    {
      hide Pow2, Members;
      if p.Null? {
        return false;
      }
      var live := bits.Get(p.slot);
      if !live {
        return false;
      }
      bits.Assign(p.slot, false);
      Destruct(p.slot);
      return true;
    }

    /** The list's own destructor: every slot still live is destructed, once. */
    method DestroyAll()
      requires Valid()
      modifies data, this`destroyed
      ensures forall i :: 0 <= i < capacity ==> data[i].Raw?
      ensures forall i: nat :: Count(destroyed, i) == Count(old(destroyed), i) + if i in Live() then 1 else 0
    {
      hide Pow2, Members;
      for i := 0 to capacity
        invariant forall j :: 0 <= j < i ==> data[j].Raw?
        invariant forall j :: i <= j < capacity ==> (data[j].Built? <==> j in Live())
        invariant forall j: nat ::
          Count(destroyed, j) == Count(old(destroyed), j) + if j < i && j in Live() then 1 else 0
      {
        var live := bits.Get(i);
        if live {
          Destruct(i);
        }
      }
    }
  }

  /** A list for one value, asked for two: as written the second is constructed behind the storage. */
  method FullWitness<T>(x: T, y: T) returns (first: InsertResult, second: InsertResult)
    ensures first == At(0) && second == OutOfBounds
  {
    var list := new Skiplist<T>(1);
    first := list.InsertRaw(x);
    second := list.InsertRaw(y);
  }

  /** What a handle points to. */
  datatype Ref = Null | To(slot: nat)

  class Handle<T> {
    var data: Ref
    const list: Skiplist<T>

    constructor (data: Ref, list: Skiplist<T>)
      ensures this.data == data && this.list == list
    {
      this.data, this.list := data, list;
    }

    /** Moving leaves the source empty. */
    constructor Move(h: Handle<T>)
      modifies h
      ensures data == old(h.data) && h.data == Null && list == h.list
    {
      data, list := h.data, h.list;
      new;
      h.data := Null;
    }

    method Erase() returns (ok: bool)
      requires list.Valid() && (data.To? ==> data.slot < list.capacity)
      modifies this, list.data, list.bits.data, list`destroyed
      ensures list.Valid() && data == Null
      ensures ok <==> old(data).To? && old(data).slot in old(list.Live())
      ensures list.destroyed == if ok then Counted(old(list.destroyed), old(data).slot) else old(list.destroyed)
      ensures list.Live() == if ok then old(list.Live()) - {old(data).slot} else old(list.Live())
    {
      ok := list.EraseRaw(data);
      data := Null;
    }
  }

  // ---------- runs ----------

  /** A list and its handles, these by name; per slot, how often it was constructed and destructed. */
  datatype Pool = Pool(
    capacity: nat,
    live: set<nat>,
    handles: map<nat, Ref>,
    built: map<nat, nat>,
    destroyed: map<nat, nat>)

  datatype Op =
    | Insert(h: nat, slot: nat)
    | MoveTo(from: nat, to: nat)
    | EraseBy(h: nat)
    | Drop(h: nat)

  function Release(p: Pool, r: Ref): Pool {
    if r.To? && r.slot in p.live then
      p.(live := p.live - {r.slot}, destroyed := Counted(p.destroyed, r.slot))
    else p
  }

  /** An operation that the list and the handles allow in state `p`: new handles get new names,
      and an insertion needs a free slot and gets the least one. */
  ghost predicate Enabled(p: Pool, op: Op) {
    match op
    case Insert(h, slot) => h !in p.handles && LeastFree(p.live, slot) && slot < p.capacity
    case MoveTo(from, to) => from in p.handles && to !in p.handles
    case EraseBy(h) => h in p.handles
    case Drop(h) => h in p.handles
  }

  function Step(p: Pool, op: Op): Pool {
    match op
    case Insert(h, slot) =>
      p.(live := p.live + {slot}, handles := p.handles[h := To(slot)], built := Counted(p.built, slot))
    case MoveTo(from, to) =>
      if from in p.handles then p.(handles := p.handles[to := p.handles[from]][from := Null]) else p
    case EraseBy(h) =>
      if h in p.handles then Release(p, p.handles[h]).(handles := p.handles[h := Null]) else p
    case Drop(h) =>
      if h in p.handles then Release(p, p.handles[h]).(handles := p.handles - {h}) else p
  }

  function Run(p: Pool, ops: seq<Op>): Pool
    decreases ops
  {
    if ops == [] then p else Run(Step(p, ops[0]), ops[1..])
  }

  ghost predicate AllEnabled(p: Pool, ops: seq<Op>)
    decreases ops
  {
    ops != [] ==> Enabled(p, ops[0]) && AllEnabled(Step(p, ops[0]), ops[1..])
  }

  ghost predicate Owns(p: Pool, h: nat, i: nat) {
    h in p.handles && p.handles[h] == To(i)
  }

  /** Every live slot has exactly one owner, and has been constructed once more than destructed;
      every other slot equally often. */
  ghost predicate Owned(p: Pool) {
    && (forall h, i :: Owns(p, h, i) ==> i in p.live)
    && (forall h, k, i :: Owns(p, h, i) && Owns(p, k, i) ==> h == k)
    && (forall i :: i in p.live ==> exists h :: Owns(p, h, i))
    && Balanced(p)
  }

  ghost predicate Balanced(p: Pool) {
    forall i :: Count(p.built, i) == Count(p.destroyed, i) + if i in p.live then 1 else 0
  }

  /** Who owns slot `i` after a step. */
  ghost function OwnerAfter(op: Op, owner: nat, i: nat): nat {
    match op
    case Insert(h, slot) => if i == slot then h else owner
    case MoveTo(from, to) => if owner == from then to else owner
    case EraseBy(_) => owner
    case Drop(_) => owner
  }

  lemma OwnedBefore(p: Pool, op: Op, h: nat, i: nat)
    requires Owned(p) && Enabled(p, op) && Owns(Step(p, op), h, i)
    ensures Owns(p, OwnerBefore(op, h), i) || (op.Insert? && h == op.h && i == op.slot)
    ensures i in Step(p, op).live
  {
    if op.EraseBy? || op.Drop? {
      assert h != op.h && Owns(p, h, i);
      assert !Owns(p, op.h, i);
    }
  }

  lemma OwnedAfter(p: Pool, op: Op, i: nat)
    requires Owned(p) && Enabled(p, op) && i in Step(p, op).live
    ensures exists h :: Owns(Step(p, op), h, i)
  {
    if op.Insert? && i == op.slot {
      assert Owns(Step(p, op), op.h, i);
    } else {
      var owner :| Owns(p, owner, i);
      assert Owns(Step(p, op), OwnerAfter(op, owner, i), i);
    }
  }

  lemma StepBalanced(p: Pool, op: Op)
    requires Owned(p) && Enabled(p, op)
    ensures Balanced(Step(p, op))
  {
  }

  lemma StepOwned(p: Pool, op: Op)
    requires Owned(p) && Enabled(p, op)
    ensures Owned(Step(p, op))
  {
    var q := Step(p, op);
    forall h, i | Owns(q, h, i)
      ensures i in q.live
    {
      OwnedBefore(p, op, h, i);
    }
    forall h, k, i | Owns(q, h, i) && Owns(q, k, i)
      ensures h == k
    {
      OwnedBefore(p, op, h, i);
      OwnedBefore(p, op, k, i);
    }
    forall i | i in q.live
      ensures exists h :: Owns(q, h, i)
    {
      OwnedAfter(p, op, i);
    }
    StepBalanced(p, op);
  }

  /** Who owned the slot that `h` owns after a step. */
  ghost function OwnerBefore(op: Op, h: nat): nat {
    if op.MoveTo? && h == op.to then op.from else h
  }

  /** Over any run each slot's destructor has run exactly once per finished lifetime, and once
      all handles are dropped, exactly once per construction. */
  lemma {:induction false} RunOwned(p: Pool, ops: seq<Op>)
    requires Owned(p) && AllEnabled(p, ops)
    ensures var q := Run(p, ops);
      Owned(q) && (q.handles.Keys == {} ==> q.live == {} && forall i :: Count(q.built, i) == Count(q.destroyed, i))
    decreases ops
  {
    if ops != [] {
      StepOwned(p, ops[0]);
      RunOwned(Step(p, ops[0]), ops[1..]);
    }
  }

  /** A handle that still points somewhere always erases: nobody else can have freed its slot. */
  lemma EraseSucceeds(p: Pool, ops: seq<Op>, h: nat)
    requires Owned(p) && AllEnabled(p, ops)
    requires h in Run(p, ops).handles
    ensures var q := Run(p, ops);
      q.handles[h].To? <==> Step(q, EraseBy(h)).live != q.live
  {
    RunOwned(p, ops);
    var q := Run(p, ops);
    if q.handles[h].To? {
      assert Owns(q, h, q.handles[h].slot);
      assert q.handles[h].slot !in Step(q, EraseBy(h)).live;
    }
  }

  // ---------- runs of the list and its handles ----------

  ghost function Refs<T>(handles: map<nat, Handle<T>>): map<nat, Ref>
    reads handles.Values
  {
    map h | h in handles :: handles[h].data
  }

  ghost function PoolOf<T>(list: Skiplist<T>, handles: map<nat, Handle<T>>): Pool
    reads list, list.bits.data, handles.Values
  {
    Pool(list.capacity, list.Live(), Refs(handles), list.built, list.destroyed)
  }

  /** A list and all the handles to it. */
  ghost predicate Managed<T>(list: Skiplist<T>, handles: map<nat, Handle<T>>)
    reads list, list.data, list.bits.data, handles.Values
  {
    list.Valid() && Owned(PoolOf(list, handles)) && Separate(list, handles)
  }

  /** Every handle belongs to the list, and no two names to one handle. */
  ghost predicate Separate<T>(list: Skiplist<T>, handles: map<nat, Handle<T>>) {
    && (forall h :: h in handles ==> handles[h].list == list)
    && (forall h, k :: h in handles && k in handles && h != k ==> handles[h] != handles[k])
  }

  lemma SeparateWith<T>(list: Skiplist<T>, handles: map<nat, Handle<T>>, h: nat, handle: Handle<T>)
    requires Separate(list, handles) && handle.list == list && handle !in handles.Values
    ensures Separate(list, handles[h := handle])
    ensures handles[h := handle].Values - handles.Values <= {handle}
  {
  }

  lemma RefsWith<T>(handles: map<nat, Handle<T>>, h: nat, handle: Handle<T>)
    ensures Refs(handles[h := handle]) == Refs(handles)[h := handle.data]
  {
  }

  /** The calls behind one operation have the effect of the step. */
  method Apply<T>(list: Skiplist<T>, handles: map<nat, Handle<T>>, op: Op, x: T) returns (after: map<nat, Handle<T>>)
    requires Managed(list, handles) && Enabled(PoolOf(list, handles), op)
    modifies list.data, list.bits.data, list`built, list`destroyed, handles.Values
    ensures Managed(list, after) && fresh(after.Values - handles.Values)
    ensures PoolOf(list, after) == Step(old(PoolOf(list, handles)), op)
  {
    hide Owned, Step, Separate, Pow2, Members;
    StepOwned(PoolOf(list, handles), op);
    match op
    case Insert(h, slot) =>
      after := ApplyInsert(list, handles, h, slot, x);
    case MoveTo(from, to) =>
      after := ApplyMove(list, handles, from, to);
    case EraseBy(h) =>
      ApplyErase(list, handles, h);
      after := handles;
    case Drop(h) =>
      after := ApplyDrop(list, handles, h);
  }

  method ApplyInsert<T>(list: Skiplist<T>, handles: map<nat, Handle<T>>, h: nat, ghost slot: nat, x: T)
    returns (after: map<nat, Handle<T>>)
    requires Managed(list, handles) && Enabled(PoolOf(list, handles), Insert(h, slot))
    modifies list.data, list.bits.data, list`built
    ensures list.Valid() && Separate(list, after) && fresh(after.Values - handles.Values)
    ensures PoolOf(list, after) == Step(old(PoolOf(list, handles)), Insert(h, slot))
  {
    ghost var pool := PoolOf(list, handles);
    hide Owned, LeastFree, Separate, Counted, Refs, Pow2, Members;
    LeastFreeInRange(list.Live(), slot, list.capacity);
    var r := list.InsertRaw(x);
    LeastFreeUnique(pool.live, r.slot, slot);
    var handle := new Handle<T>(To(r.slot), list);
    SeparateWith(list, handles, h, handle);
    RefsWith(handles, h, handle);
    assert Refs(handles) == pool.handles;
    after := handles[h := handle];
  }

  method ApplyMove<T>(list: Skiplist<T>, handles: map<nat, Handle<T>>, from: nat, to: nat)
    returns (after: map<nat, Handle<T>>)
    requires Managed(list, handles) && Enabled(PoolOf(list, handles), MoveTo(from, to))
    modifies handles[from]
    ensures list.Valid() && Separate(list, after) && fresh(after.Values - handles.Values)
    ensures PoolOf(list, after) == Step(old(PoolOf(list, handles)), MoveTo(from, to))
  {
    hide Pow2, Members;
    ghost var pool := PoolOf(list, handles);
    var handle := new Handle<T>.Move(handles[from]);
    SeparateWith(list, handles, to, handle);
    after := handles[to := handle];
    assert Refs(after) == pool.handles[to := pool.handles[from]][from := Null];
  }

  method ApplyErase<T>(list: Skiplist<T>, handles: map<nat, Handle<T>>, h: nat)
    requires Managed(list, handles) && h in handles
    modifies list.data, list.bits.data, list`destroyed, handles[h]
    ensures list.Valid() && PoolOf(list, handles) == Step(old(PoolOf(list, handles)), EraseBy(h))
  {
    hide Pow2, Members;
    ghost var pool := PoolOf(list, handles);
    assert pool.handles[h].To? ==> Owns(pool, h, pool.handles[h].slot);
    hide Owned, Separate, Counted;
    var ok := handles[h].Erase();
    assert Refs(handles) == pool.handles[h := Null];
  }

  method ApplyDrop<T>(list: Skiplist<T>, handles: map<nat, Handle<T>>, h: nat) returns (after: map<nat, Handle<T>>)
    requires Managed(list, handles) && h in handles
    modifies list.data, list.bits.data, list`destroyed, handles[h]
    ensures list.Valid() && Separate(list, after) && after.Values <= handles.Values
    ensures PoolOf(list, after) == Step(old(PoolOf(list, handles)), Drop(h))
  {
    hide Pow2, Members;
    ghost var pool := PoolOf(list, handles);
    ApplyErase(list, handles, h);
    after := map k | k in handles && k != h :: handles[k];
    assert Refs(after) == pool.handles - {h};
  }

  /** Any run of calls has the effect of the run of their steps, and every slot keeps its one owner. */
  method PoolRun<T>(list: Skiplist<T>, handles: map<nat, Handle<T>>, ops: seq<Op>, x: T)
    returns (after: map<nat, Handle<T>>)
    requires Managed(list, handles) && AllEnabled(PoolOf(list, handles), ops)
    modifies list.data, list.bits.data, list`built, list`destroyed, handles.Values
    ensures Managed(list, after) && fresh(after.Values - handles.Values)
    ensures PoolOf(list, after) == Run(old(PoolOf(list, handles)), ops)
    decreases |ops|
  {
    hide Managed, Enabled, Step;
    if ops == [] {
      return handles;
    }
    var next := Apply(list, handles, ops[0], x);
    after := PoolRun(list, next, ops[1..], x);
  }

  /** From an empty list over any run of calls to the list's own destructor: each slot has been
      destructed exactly as often as constructed. */
  method Lifetimes<T>(capacity: nat, ops: seq<Op>, x: T) returns (list: Skiplist<T>)
    requires AllEnabled(Pool(capacity, {}, map[], map[], map[]), ops)
    ensures forall i: nat :: Count(list.built, i) == Count(list.destroyed, i)
  {
    list := new Skiplist<T>(capacity);
    var handles: map<nat, Handle<T>> := map[];
    assert PoolOf(list, handles) == Pool(capacity, {}, map[], map[], map[]);
    var after := PoolRun(list, handles, ops, x);
    assert Balanced(PoolOf(list, after));
    list.DestroyAll();
  }
}
