/** Whole runs: any interleaving of system calls, user stores and forks over many tasks.
    A task's state is an abstract memory (live address to contents) beside its list of regions. */
module Traces {
  import opened Basics
  import opened Words
  import opened Regions
  import opened Laws
  import opened HeapBytes

  /** `heap` is None while the task's `tso_mm` is NULL; tasks with equal `space` run in one address space. */
  datatype TaskView = TaskView(heap: Option<Heap>, live: map<nat, seq<byte>>, space: nat)

  datatype SysView = SysView(tasks: seq<TaskView>, strategy: Strategy)

  /** `base` is where vm_mmap would put the mapping, should this call be the task's first; `holder` is the task whose
      mapping a store at address `at` reaches; `vm` says whether the fork passes CLONE_VM. */
  datatype Op =
    | OpAlloc(n: ulong, base: ulong)
    | OpFree(addr: ulong)
    | OpWrite(holder: nat, at: ulong, b: byte)
    | OpSwitch(to: Strategy)
    | OpFork(vm: bool)

  datatype Event = Event(task: nat, op: Op)

  datatype Outcome = Allocated(addr: nat) | Refused | FreeCode(code: int) | NullMapping | Done

  /** vm_mmap returns a usable range; sizes, addresses and strategy numbers may be anything. */
  predicate Legal(op: Op) {
    op.OpAlloc? ==> 0 < op.base && op.base + INITIAL_SIZE < WORD
  }

  function Mapped(heap: Option<Heap>, base: nat): Heap {
    if heap.Some? then heap.value else Heap(base, INITIAL_SIZE, [])
  }

  /** The task whose allocator and memory an event works on. */
  function Subject(e: Event): nat { if e.op.OpWrite? then e.op.holder else e.task }

  /** The event breaks no list: an allocation is sound, a store lies in the mapping and misses every header. */
  predicate Proceeds(v: TaskView, s: Strategy, op: Op) {
    match op
    case OpAlloc(n, base) => Sound(Mapped(v.heap, base), n, s)
    case OpWrite(_, at, _) => v.heap.Some? && InMapping(v.heap.value, at) && OffHeaders(v.live.Keys, at)
    case _ => true
  }

  /** The event can go ahead: a store, moreover, reaches the mapping of a task in the storing task's address space. */
  predicate Enabled(a: SysView, e: Event) {
    && e.task < |a.tasks| && Subject(e) < |a.tasks|
    && a.tasks[Subject(e)].space == a.tasks[e.task].space
    && Proceeds(a.tasks[Subject(e)], a.strategy, e.op)
  }

  // ----- the specification: one step, one run -----

  /** An unsound allocation or a stray store has no step: a run ends there. */
  ghost predicate TaskStep(v: TaskView, s: Strategy, op: Op, o: Outcome, v': TaskView) {
    && Proceeds(v, s, op)
    && v'.space == v.space
    && match op
       case OpAlloc(n, base) =>
         var (h', r) := CodeAlloc(Mapped(v.heap, base), n, s);
         && v'.heap == Some(h')
         && (match r
             case None => o == Refused && v'.live == v.live
             case Some(a) => o == Allocated(a) && Extends(v.live, v'.live, a, n))
       case OpFree(addr) =>
         if v.heap == None then o == NullMapping && v' == v
         else
           var (h', code) := Release(v.heap.value, addr);
           o == FreeCode(code) && v'.heap == Some(h') && v'.live == v.live - {addr as nat}
       case OpWrite(_, at, b) => o == Done && v' == v.(live := Stored(v.live, at, b))
       case _ => o == Done && v' == v
  }

  /** A forked task has no mapping; without CLONE_VM its address space is a new one. */
  function Child(a: SysView, e: Event): TaskView
    requires e.task < |a.tasks| && e.op.OpFork?
  {
    TaskView(None, map[], if e.op.vm then a.tasks[e.task].space else |a.tasks|)
  }

  ghost predicate SysStep(a: SysView, e: Event, o: Outcome, a': SysView) {
    && Enabled(a, e)
    && a'.strategy == (if e.op.OpSwitch? then e.op.to else a.strategy)
    && |a'.tasks| == |a.tasks| + (if e.op.OpFork? then 1 else 0)
    && TaskStep(a.tasks[Subject(e)], a.strategy, e.op, o, a'.tasks[Subject(e)])
    && (forall t | 0 <= t < |a.tasks| && t != Subject(e) :: a'.tasks[t] == a.tasks[t])
    && (e.op.OpFork? ==> a'.tasks[|a.tasks|] == Child(a, e))
  }

  ghost predicate Trace(states: seq<SysView>, es: seq<Event>, os: seq<Outcome>) {
    && |states| == |es| + 1
    && |os| == |es|
    && forall i | 0 <= i < |es| :: SysStep(states[i], es[i], os[i], states[i + 1])
  }

  lemma TraceStart(a: SysView, es: seq<Event>)
    ensures Trace([a], es[..0], [])
  {
  }

  lemma TraceSnoc(states: seq<SysView>, es: seq<Event>, i: nat, os: seq<Outcome>, o: Outcome, a: SysView)
    requires i < |es| && Trace(states, es[..i], os) && SysStep(states[i], es[i], o, a)
    ensures Trace(states + [a], es[..i + 1], os + [o])
  {
    hide SysStep;
    var states', es', os' := states + [a], es[..i + 1], os + [o];
    forall j | 0 <= j < i + 1
      ensures SysStep(states'[j], es'[j], os'[j], states'[j + 1])
    {
      if j < i {
        assert SysStep(states[j], es[..i][j], os[j], states[j + 1]);
      }
    }
  }

  lemma TraceTail(states: seq<SysView>, es: seq<Event>, os: seq<Outcome>, i: nat)
    requires Trace(states, es, os) && i <= |es|
    ensures Trace(states[i..], es[i..], os[i..])
  {
    forall j | 0 <= j < |es| - i
      ensures SysStep(states[i..][j], es[i..][j], os[i..][j], states[i..][j + 1])
    {
      assert SysStep(states[i + j], es[i + j], os[i + j], states[i + j + 1]);
    }
  }

  // ----- every reachable state is coherent -----

  /** Region k's block is in the abstract memory, with contents of the region's size. */
  ghost predicate Held(h: Heap, live: map<nat, seq<byte>>, k: nat)
    requires k < |h.regions|
  {
    var a := PayloadStart(h.regions[k]);
    a in live && |live[a]| == h.regions[k].size
  }

  /** The abstract memory holds exactly the live regions, each with contents of its size. */
  ghost predicate Coherent(v: TaskView) {
    match v.heap
    case None => v.live == map[]
    case Some(h) =>
      && WellFormed(h)
      && (forall a :: a in v.live <==> IsLive(h.regions, a))
      && (forall k | 0 <= k < |h.regions| :: Held(h, v.live, k))
  }

  lemma AllocCoherent(v: TaskView, h: Heap, k: nat, n: nat, v': TaskView)
    requires v.heap == Some(h) && Coherent(v)
    requires k <= |h.regions| && Gap(h, k) >= RegionSize(n)
    requires v'.heap == Some(InsertAt(h, k, n)) && Extends(v.live, v'.live, Left(h, k) + HEADER, n)
    ensures Coherent(v')
  {
    InsertWellFormed(h, k, n);
    InsertedIsNew(h, k, n);
    var h' := InsertAt(h, k, n);
    hide WellFormed, InsertAt, Gap, Left, IsLive;
    InsertIndex(h, k, n, k);
    forall j | 0 <= j < |h'.regions|
      ensures Held(h', v'.live, j)
    {
      InsertIndex(h, k, n, j);
      if j != k {
        assert Held(h, v.live, if j < k then j else j - 1);
      }
    }
  }

  lemma ReleaseCoherent(v: TaskView, h: Heap, addr: nat, v': TaskView)
    requires v.heap == Some(h) && Coherent(v)
    requires v'.heap == Some(Release(h, addr).0) && v'.live == v.live - {addr}
    ensures Coherent(v')
  {
    ReleaseExactly(h, addr);
    hide WellFormed, RemoveAt, Release, IsLive, Held;
    var h' := Release(h, addr).0;
    forall j | 0 <= j < |h'.regions|
      ensures Held(h', v'.live, j)
    {
      if IsLive(h.regions, addr) {
        HeldAfterRelease(v, h, IndexOf(h.regions, addr), j);
      } else {
        IndexIs(h, j);
        StillHeld(h, v.live, addr, j);
      }
    }
  }

  lemma StillHeld(h: Heap, live: map<nat, seq<byte>>, addr: nat, j: nat)
    requires j < |h.regions| && Held(h, live, j) && PayloadStart(h.regions[j]) != addr
    ensures Held(h, live - {addr}, j)
  {
  }

  lemma HeldAfterRelease(v: TaskView, h: Heap, k: nat, j: nat)
    requires v.heap == Some(h) && Coherent(v) && k < |h.regions|
    requires j < |Release(h, PayloadStart(h.regions[k])).0.regions|
    ensures var a := PayloadStart(h.regions[k]); Held(Release(h, a).0, v.live - {a}, j)
  {
    hide WellFormed, Release, IsLive, RemoveAt;
    ReleaseLive(h, k);
    LiveIndex(h, k);
    RemoveIndex(h, k, j);
    assert Held(h, v.live, if j < k then j else j + 1);
  }

  lemma RefusedOrPlaced(h: Heap, n: ulong, s: Strategy)
    requires WellFormed(h) && Sound(h, n, s)
    ensures CodeAlloc(h, n, s).1 == None ==> CodeAlloc(h, n, s).0 == h
    ensures CodeAlloc(h, n, s).1.Some? ==>
              && Place(h, RegionSize32(n), s).Some?
              && var k := Place(h, RegionSize32(n), s).value;
              && Gap(h, k) >= RegionSize(n)
              && CodeAlloc(h, n, s) == (InsertAt(h, k, n), Some(Left(h, k) + HEADER))
  {
    hide WellFormed, Gap, InsertAt, Place, Sound;
    CodeAllocSoundExactly(h, n, s);
    if CodeAlloc(h, n, s).1.Some? {
      InsertWellFormed(h, Place(h, RegionSize32(n), s).value, n);
    }
  }

  lemma StepCoherent(v: TaskView, s: Strategy, op: Op, o: Outcome, v': TaskView)
    requires Coherent(v) && Legal(op) && TaskStep(v, s, op, o, v')
    ensures Coherent(v')
  {
    hide WellFormed, Sound, CodeAlloc, Release, Gap, InsertAt, Left, Place, IsLive, Extends;
    match op {
      case OpAlloc(n, base) =>
        var h := Mapped(v.heap, base);
        FreshCoherent(v, base);
        RefusedOrPlaced(h, n, s);
        if CodeAlloc(h, n, s).1.Some? {
          AllocCoherent(v.(heap := Some(h)), h, Place(h, RegionSize32(n), s).value, n, v');
        } else {
          assert v' == v.(heap := Some(h));
        }
      case OpFree(addr) =>
        if v.heap.Some? {
          ReleaseCoherent(v, v.heap.value, addr, v');
        }
      case OpWrite(_, at, b) =>
        WriteCoherent(v, at, b);
      case _ =>
    }
  }

  lemma FreshCoherent(v: TaskView, base: nat)
    requires Coherent(v) && 0 < base && base + INITIAL_SIZE < WORD
    ensures Coherent(v.(heap := Some(Mapped(v.heap, base))))
  {
  }

  lemma WriteCoherent(v: TaskView, at: nat, b: byte)
    requires Coherent(v)
    ensures v.heap.Some? ==> Coherent(v.(live := Stored(v.live, at, b)))
  {
    hide WellFormed, IsLive;
    if v.heap.Some? {
      var h, live' := v.heap.value, Stored(v.live, at, b);
      forall j | 0 <= j < |h.regions|
        ensures Held(h, live', j)
      {
        assert Held(h, v.live, j);
      }
    }
  }

  ghost predicate AllCoherent(a: SysView) {
    forall t | 0 <= t < |a.tasks| :: Coherent(a.tasks[t])
  }

  /** Every state of every run keeps the heap invariant and the abstract memory of every task in step. */
  lemma {:induction false} RunCoherent(states: seq<SysView>, es: seq<Event>, os: seq<Outcome>, i: nat)
    requires Trace(states, es, os) && AllCoherent(states[0])
    requires forall j | 0 <= j < |es| :: Legal(es[j].op)
    requires i <= |es|
    ensures AllCoherent(states[i])
  {
    hide Coherent, TaskStep, Proceeds;
    if i == 0 {
    } else {
      RunCoherent(states, es, os, i - 1);
      var a, e, a' := states[i - 1], es[i - 1], states[i];
      assert SysStep(a, e, os[i - 1], a');
      var t := Subject(e);
      StepCoherent(a.tasks[t], a.strategy, e.op, os[i - 1], a'.tasks[t]);
      if e.op.OpFork? {
        NewTaskCoherent(a, e);
      }
    }
  }

  lemma NewTaskCoherent(a: SysView, e: Event)
    requires e.task < |a.tasks| && e.op.OpFork?
    ensures Coherent(Child(a, e))
  {
  }

  /** What coherence means to a user, with no mention of the region list: blocks lie apart, headers between them. */
  lemma BlocksApart(v: TaskView, a: nat, b: nat)
    requires Coherent(v) && a in v.live && b in v.live && a < b
    ensures a + |v.live[a]| + HEADER <= b
    ensures v.heap.value.start + HEADER <= a && b + |v.live[b]| <= v.heap.value.start + v.heap.value.size
  {
    var h := v.heap.value;
    Disjoint(h);
    assert Held(h, v.live, IndexOf(h.regions, a)) && Held(h, v.live, IndexOf(h.regions, b));
  }

  // ----- which events have a step, and what a caller sees of it -----

  /** In coherent states the events that have no step are: an allocation that leaves its heap ill formed, and a store
      to a task that does not exist, is in another address space or has no mapping, or to an address outside that
      mapping or in one of its headers. Every release, strategy switch and fork has a step. */
  lemma EnabledExactly(a: SysView, e: Event)
    requires AllCoherent(a) && e.task < |a.tasks|
    requires e.op.OpAlloc? ==> 0 < e.op.base && e.op.base + INITIAL_SIZE < WORD
    ensures !Enabled(a, e)
        <==> match e.op
             case OpAlloc(n, base) =>
               var heap := a.tasks[e.task].heap;
               !WellFormed(CodeAlloc(if heap.Some? then heap.value else Heap(base, INITIAL_SIZE, []), n, a.strategy).0)
             case OpWrite(holder, at, b) =>
               || holder >= |a.tasks|
               || a.tasks[holder].space != a.tasks[e.task].space
               || a.tasks[holder].heap == None
               || var h := a.tasks[holder].heap.value;
                  || !(h.start <= at < h.start + h.size)
                  || exists k | 0 <= k < |h.regions| :: h.regions[k].addr <= at < h.regions[k].addr + 8
             case _ => false
  {
    hide WellFormed, Sound, CodeAlloc, Payloads;
    match e.op {
      case OpAlloc(n, base) =>
        var v := a.tasks[e.task];
        assert Coherent(v);
        FreshCoherent(v, base);
        CodeAllocSoundExactly(Mapped(v.heap, base), n, a.strategy);
      case OpWrite(holder, at, b) =>
        if holder < |a.tasks| && a.tasks[holder].heap.Some? {
          var v := a.tasks[holder];
          assert Coherent(v);
          HeadersBelowBlocks(v, v.heap.value, at);
        }
      case _ =>
    }
  }

  lemma HeadersBelowBlocks(v: TaskView, h: Heap, at: nat)
    requires Coherent(v) && v.heap == Some(h)
    ensures OffHeaders(v.live.Keys, at)
        <==> !exists k | 0 <= k < |h.regions| :: h.regions[k].addr <= at < h.regions[k].addr + 8
  {
    hide WellFormed;
    if k :| 0 <= k < |h.regions| && h.regions[k].addr <= at < h.regions[k].addr + 8 {
      assert Held(h, v.live, k);
      assert PayloadStart(h.regions[k]) in v.live.Keys;
    } else {
      forall a | a in v.live.Keys
        ensures !(a - HEADER <= at < a)
      {
        var k := IndexOf(h.regions, a);
        assert h.regions[k].addr + 8 == a;
      }
    }
  }

  /** A step from a coherent state, as its caller sees it. An allocation is refused iff no gap serves it, and otherwise
      returns a new block of the size asked for; a release drops the block named, and returns 0 iff there is one or
      just one block is live; a store changes one byte. No other block is touched. */
  lemma WhatCallersSee(v: TaskView, s: Strategy, op: Op, o: Outcome, v': TaskView)
    requires Coherent(v) && TaskStep(v, s, op, o, v')
    requires op.OpAlloc? ==> 0 < op.base && op.base + INITIAL_SIZE < WORD
    ensures match op
            case OpAlloc(n, base) =>
              var h := if v.heap.Some? then v.heap.value else Heap(base, INITIAL_SIZE, []);
              && (o == Refused
                  <==> if h.regions == [] then (n + 8) % 0x1_0000_0000 > h.size
                       else forall j | 0 <= j <= |h.regions| :: Gap(h, j) <= (n + 8) % 0x1_0000_0000)
              && (o == Refused ==> v'.live == v.live)
              && (o != Refused ==>
                    && o.Allocated? && o.addr !in v.live
                    && v'.live.Keys == v.live.Keys + {o.addr} && |v'.live[o.addr]| == n
                    && forall a | a in v.live :: v'.live[a] == v.live[a])
            case OpFree(addr) =>
              && (o == NullMapping <==> v.heap == None)
              && (v.heap.Some? ==>
                    o == FreeCode(if addr as nat in v.live || |v.heap.value.regions| == 1 then 0 else -1))
              && v'.live.Keys == v.live.Keys - {addr as nat}
              && forall a | a in v.live && a != addr :: v'.live[a] == v.live[a]
            case OpWrite(_, at, b) =>
              && o == Done && v'.heap == v.heap && v'.live.Keys == v.live.Keys
              && forall a | a in v.live ::
                   && |v'.live[a]| == |v.live[a]|
                   && forall i | 0 <= i < |v.live[a]| :: v'.live[a][i] == if a + i == at then b else v.live[a][i]
            case _ => o == Done && v' == v
  {
    hide WellFormed, Sound, CodeAlloc, Release, Payloads, Gap;
    match op {
      case OpAlloc(n, base) =>
        FreshCoherent(v, base);
        var k := AllocLands(Mapped(v.heap, base), n, s);
      case OpFree(addr) =>
        if v.heap.Some? {
          ReleaseExactly(v.heap.value, addr);
        }
      case _ =>
    }
  }

  // ----- payload bytes change only by stores into them -----

  /** A store into task t's block of n bytes at `addr`. */
  predicate StoresInto(e: Event, t: nat, addr: nat, n: nat) {
    e.op.OpWrite? && e.op.holder == t && addr <= e.op.at < addr + n
  }

  /** The contents `c` of task t's block `addr` after the stores into it among `es`, and nothing else. */
  function Replay(es: seq<Event>, t: nat, addr: nat, c: seq<byte>): (r: seq<byte>)
    ensures |r| == |c|
    decreases |es|
  {
    if es == [] then c
    else
      var e := es[0];
      Replay(es[1..], t, addr, if StoresInto(e, t, addr, |c|) then c[e.op.at - addr := e.op.b] else c)
  }

  lemma BlockKept(a: SysView, e: Event, o: Outcome, a': SysView, t: nat, addr: nat)
    requires SysStep(a, e, o, a')
    requires t < |a.tasks| && addr in a.tasks[t].live
    requires e.task == t && e.op.OpFree? ==> e.op.addr != addr
    ensures t < |a'.tasks| && addr in a'.tasks[t].live
    ensures var c := a.tasks[t].live[addr];
            a'.tasks[t].live[addr] == if StoresInto(e, t, addr, |c|) then c[e.op.at - addr := e.op.b] else c
  {
    hide CodeAlloc, Release, Proceeds;
  }

  /** Over any run in which its owner does not free it, a block stays live and holds exactly what was stored into it:
      no allocation, release, strategy switch or fork, of this task or another, touches a payload byte. */
  lemma {:induction false} OnlyStoresChange(states: seq<SysView>, es: seq<Event>, os: seq<Outcome>, t: nat, addr: nat)
    requires Trace(states, es, os)
    requires t < |states[0].tasks| && addr in states[0].tasks[t].live
    requires forall i | 0 <= i < |es| :: es[i].task == t && es[i].op.OpFree? ==> es[i].op.addr != addr
    ensures t < |states[|es|].tasks| && addr in states[|es|].tasks[t].live
    ensures states[|es|].tasks[t].live[addr] == Replay(es, t, addr, states[0].tasks[t].live[addr])
    decreases |es|
  {
    hide SysStep;
    if es == [] {
    } else {
      assert SysStep(states[0], es[0], os[0], states[1]);
      BlockKept(states[0], es[0], os[0], states[1], t, addr);
      TraceTail(states, es, os, 1);
      OnlyStoresChange(states[1..], es[1..], os[1..], t, addr);
    }
  }

  lemma SpacesKept(a: SysView, e: Event, o: Outcome, a': SysView, t: nat)
    requires SysStep(a, e, o, a') && t < |a.tasks|
    ensures t < |a'.tasks| && a'.tasks[t].space == a.tasks[t].space
  {
    hide CodeAlloc, Release, Proceeds;
  }

  lemma {:induction false} SpacesStay(states: seq<SysView>, es: seq<Event>, os: seq<Outcome>, i: nat, j: nat, t: nat)
    requires Trace(states, es, os) && i <= j <= |es| && t < |states[i].tasks|
    ensures t < |states[j].tasks| && states[j].tasks[t].space == states[i].tasks[t].space
    decreases j - i
  {
    hide SysStep;
    if i == j {
    } else {
      SpacesStay(states, es, os, i, j - 1, t);
      assert SysStep(states[j - 1], es[j - 1], os[j - 1], states[j]);
      SpacesKept(states[j - 1], es[j - 1], os[j - 1], states[j], t);
    }
  }

  /** A run in which no task of its address space stores into it, and its owner does not free it, leaves a block
      byte for byte as it was, whatever tasks of other address spaces do. */
  lemma OtherSpacesHarmless(states: seq<SysView>, es: seq<Event>, os: seq<Outcome>, t: nat, addr: nat)
    requires Trace(states, es, os)
    requires t < |states[0].tasks| && addr in states[0].tasks[t].live
    requires forall i | 0 <= i < |es| :: es[i].task == t && es[i].op.OpFree? ==> es[i].op.addr != addr
    requires forall i | 0 <= i < |es| && StoresInto(es[i], t, addr, |states[0].tasks[t].live[addr]|) ::
               es[i].task < |states[i].tasks| ==> states[i].tasks[es[i].task].space != states[0].tasks[t].space
    ensures t < |states[|es|].tasks| && addr in states[|es|].tasks[t].live
    ensures states[|es|].tasks[t].live[addr] == states[0].tasks[t].live[addr]
  {
    var c := states[0].tasks[t].live[addr];
    OnlyStoresChange(states, es, os, t, addr);
    forall i | 0 <= i < |es|
      ensures !StoresInto(es[i], t, addr, |c|)
    {
      assert SysStep(states[i], es[i], os[i], states[i + 1]);
      SpacesStay(states, es, os, 0, i, t);
    }
    NothingStored(es, t, addr, c);
  }

  lemma {:induction false} NothingStored(es: seq<Event>, t: nat, addr: nat, c: seq<byte>)
    requires forall i | 0 <= i < |es| :: !StoresInto(es[i], t, addr, |c|)
    ensures Replay(es, t, addr, c) == c
    decreases |es|
  {
    if es == [] {
    } else {
      NothingStored(es[1..], t, addr, c);
    }
  }

  // ----- each task runs as if it were alone -----

  function SoloStep(heap: Option<Heap>, s: Strategy, op: Op): (Option<Heap>, Strategy, Outcome) {
    match op
    case OpAlloc(n, base) =>
      var (h', r) := CodeAlloc(Mapped(heap, base), n, s);
      (Some(h'), s, if r.Some? then Allocated(r.value) else Refused)
    case OpFree(addr) =>
      if heap == None then (heap, s, NullMapping)
      else var (h', code) := Release(heap.value, addr); (Some(h'), s, FreeCode(code))
    case OpSwitch(to) => (heap, to, Done)
    case _ => (heap, s, Done)
  }

  function SoloRun(heap: Option<Heap>, s: Strategy, ops: seq<Op>): (Option<Heap>, Strategy, seq<Outcome>)
    decreases |ops|
  {
    if ops == [] then (heap, s, [])
    else
      var (h1, s1, o) := SoloStep(heap, s, ops[0]);
      var (h2, s2, os) := SoloRun(h1, s1, ops[1..]);
      (h2, s2, [o] + os)
  }

  /** Task t's own allocations and releases, and everybody's strategy switches. */
  predicate Concerns(e: Event, t: nat) {
    e.op.OpSwitch? || (e.task == t && (e.op.OpAlloc? || e.op.OpFree?))
  }

  function ProjectOps(es: seq<Event>, t: nat): seq<Op>
    decreases |es|
  {
    if es == [] then [] else (if Concerns(es[0], t) then [es[0].op] else []) + ProjectOps(es[1..], t)
  }

  function ProjectOutcomes(es: seq<Event>, os: seq<Outcome>, t: nat): seq<Outcome>
    requires |es| == |os|
    decreases |es|
  {
    if es == [] then [] else (if Concerns(es[0], t) then [os[0]] else []) + ProjectOutcomes(es[1..], os[1..], t)
  }

  lemma SoloTask(v: TaskView, s: Strategy, op: Op, o: Outcome, v': TaskView)
    requires TaskStep(v, s, op, o, v')
    ensures op.OpAlloc? || op.OpFree? ==> SoloStep(v.heap, s, op) == (v'.heap, s, o)
    ensures !op.OpAlloc? && !op.OpFree? ==> v'.heap == v.heap && o == Done
  {
  }

  /** A step is a solo step of task t's if it concerns t, and otherwise leaves t's list and the strategy. */
  lemma SoloAgrees(a: SysView, e: Event, o: Outcome, a': SysView, t: nat)
    requires SysStep(a, e, o, a') && t < |a.tasks|
    ensures t < |a'.tasks|
    ensures if Concerns(e, t) then SoloStep(a.tasks[t].heap, a.strategy, e.op) == (a'.tasks[t].heap, a'.strategy, o)
            else a'.tasks[t].heap == a.tasks[t].heap && a'.strategy == a.strategy
  {
    hide TaskStep, Proceeds;
    SoloTask(a.tasks[Subject(e)], a.strategy, e.op, o, a'.tasks[Subject(e)]);
  }

  lemma {:induction false} ProjectionFromStart(states: seq<SysView>, es: seq<Event>, os: seq<Outcome>, t: nat)
    requires Trace(states, es, os) && t < |states[0].tasks|
    ensures t < |states[|es|].tasks|
    ensures SoloRun(states[0].tasks[t].heap, states[0].strategy, ProjectOps(es, t))
         == (states[|es|].tasks[t].heap, states[|es|].strategy, ProjectOutcomes(es, os, t))
    decreases |es|
  {
    hide SysStep, SoloStep, Concerns;
    if es == [] {
    } else {
      assert SysStep(states[0], es[0], os[0], states[1]);
      SoloAgrees(states[0], es[0], os[0], states[1], t);
      TraceTail(states, es, os, 1);
      ProjectionFromStart(states[1..], es[1..], os[1..], t);
      if Concerns(es[0], t) {
        assert ProjectOps(es, t)[1..] == ProjectOps(es[1..], t);
      } else {
        assert ProjectOps(es, t) == ProjectOps(es[1..], t);
        assert ProjectOutcomes(es, os, t) == ProjectOutcomes(es[1..], os[1..], t);
      }
    }
  }

  /** From any point of any run on, a task's list, counter and returned addresses are those of running only its own
      calls and everybody's switches. A task forked just before starts with no mapping, whatever its parent had. */
  lemma Projection(states: seq<SysView>, es: seq<Event>, os: seq<Outcome>, i: nat, t: nat)
    requires Trace(states, es, os) && i <= |es| && t < |states[i].tasks|
    ensures t < |states[|es|].tasks|
    ensures SoloRun(states[i].tasks[t].heap, states[i].strategy, ProjectOps(es[i..], t))
         == (states[|es|].tasks[t].heap, states[|es|].strategy, ProjectOutcomes(es[i..], os[i..], t))
    ensures i > 0 && es[i - 1].op.OpFork? && t == |states[i].tasks| - 1 ==> states[i].tasks[t].heap == None
  {
    TraceTail(states, es, os, i);
    ProjectionFromStart(states[i..], es[i..], os[i..], t);
    if i > 0 {
      assert SysStep(states[i - 1], es[i - 1], os[i - 1], states[i]);
    }
  }

  // ----- mappings are never shared -----

  predicate Apart(g: Heap, h: Heap) {
    g.start + g.size <= h.start || h.start + h.size <= g.start
  }

  /** Tasks t and u, if they run in one address space, have no byte of their mappings in common. */
  ghost predicate Separate(a: SysView, t: nat, u: nat)
    requires t < |a.tasks| && u < |a.tasks|
  {
    a.tasks[t].space == a.tasks[u].space && a.tasks[t].heap.Some? && a.tasks[u].heap.Some? ==>
      Apart(a.tasks[t].heap.value, a.tasks[u].heap.value)
  }

  ghost predicate NoSharing(a: SysView) {
    forall t, u | 0 <= t < u < |a.tasks| :: Separate(a, t, u)
  }

  /** vm_mmap returns a range that no mapping in the caller's address space overlaps. */
  ghost predicate FreshBase(a: SysView, e: Event) {
    e.op.OpAlloc? && e.task < |a.tasks| && a.tasks[e.task].heap == None ==>
      forall u | 0 <= u < |a.tasks| && a.tasks[u].heap.Some? && a.tasks[u].space == a.tasks[e.task].space ::
        Apart(Heap(e.op.base, INITIAL_SIZE, []), a.tasks[u].heap.value)
  }

  /** No step moves a mapping or a task to another address space. */
  lemma RangeKept(v: TaskView, s: Strategy, op: Op, o: Outcome, v': TaskView)
    requires TaskStep(v, s, op, o, v')
    ensures v'.space == v.space
    ensures v'.heap.Some? ==>
              var h' := v'.heap.value;
              if v.heap.Some? then h'.start == v.heap.value.start && h'.size == v.heap.value.size
              else op.OpAlloc? && h'.start == op.base && h'.size == INITIAL_SIZE
  {
  }

  lemma StepNeverShares(a: SysView, e: Event, o: Outcome, a': SysView, t: nat, u: nat)
    requires SysStep(a, e, o, a') && NoSharing(a) && FreshBase(a, e)
    requires t < u < |a'.tasks|
    ensures Separate(a', t, u)
  {
    hide TaskStep, Proceeds;
    RangeKept(a.tasks[Subject(e)], a.strategy, e.op, o, a'.tasks[Subject(e)]);
    if u < |a.tasks| {
      assert Separate(a, t, u);
    }
  }

  /** So a store reaches the mapping of one task only. */
  lemma HolderIsUnique(a: SysView, t: nat, u: nat, at: nat)
    requires NoSharing(a) && t < |a.tasks| && u < |a.tasks| && a.tasks[t].space == a.tasks[u].space
    requires a.tasks[t].heap.Some? && InMapping(a.tasks[t].heap.value, at)
    requires a.tasks[u].heap.Some? && InMapping(a.tasks[u].heap.value, at)
    ensures t == u
  {
    assert t < u ==> Separate(a, t, u);
    assert u < t ==> Separate(a, u, t);
  }

  /** However forks and calls interleave, tasks of one address space never hold overlapping mappings. */
  lemma {:induction false} NeverShared(states: seq<SysView>, es: seq<Event>, os: seq<Outcome>, i: nat)
    requires Trace(states, es, os) && NoSharing(states[0]) && i <= |es|
    requires forall j | 0 <= j < |es| :: FreshBase(states[j], es[j])
    ensures NoSharing(states[i])
  {
    hide SysStep, FreshBase, Separate;
    if i == 0 {
    } else {
      NeverShared(states, es, os, i - 1);
      assert SysStep(states[i - 1], es[i - 1], os[i - 1], states[i]);
      assert FreshBase(states[i - 1], es[i - 1]);
      forall t, u | 0 <= t < u < |states[i].tasks|
        ensures Separate(states[i], t, u)
      {
        StepNeverShares(states[i - 1], es[i - 1], os[i - 1], states[i], t, u);
      }
    }
  }

  /** Two tasks of any run from boot share an address space only through forks that pass CLONE_VM. */
  lemma {:induction false} SpacesByFork(states: seq<SysView>, es: seq<Event>, os: seq<Outcome>, i: nat)
    requires Trace(states, es, os) && i <= |es|
    requires forall t | 0 <= t < |states[0].tasks| :: states[0].tasks[t].space < |states[0].tasks|
    ensures forall t | 0 <= t < |states[i].tasks| :: states[i].tasks[t].space < |states[i].tasks|
    ensures i > 0 && es[i - 1].op.OpFork? ==>
              var parent, child := es[i - 1].task, |states[i].tasks| - 1;
              forall t | 0 <= t < child ::
                states[i].tasks[t].space == states[i].tasks[child].space <==>
                es[i - 1].op.vm && states[i].tasks[t].space == states[i].tasks[parent].space
  {
    hide TaskStep, Proceeds;
    if i == 0 {
    } else {
      SpacesByFork(states, es, os, i - 1);
      var a, e := states[i - 1], es[i - 1];
      assert SysStep(a, e, os[i - 1], states[i]);
      RangeKept(a.tasks[Subject(e)], a.strategy, e.op, os[i - 1], states[i].tasks[Subject(e)]);
    }
  }
}
