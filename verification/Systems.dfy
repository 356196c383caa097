/** Tasks, each with its own `tso_mm`, and the one global strategy; a driver that runs any list of events on them. */
module Systems {
  import opened Basics
  import opened Words
  import opened Regions
  import opened Laws
  import opened HeapBytes
  import opened Mappings
  import opened Traces

  class Task {
    /** Tasks with equal `space` share their `mm`. */
    const space: nat
    /** NULL until the first allocation. */
    var tsoMm: Mapping?
    /** What the user program remembers: the addresses of the blocks it holds. */
    var held: set<nat>

    /** As copy_process leaves it. */
    constructor (space: nat)
      ensures Valid() && tsoMm == null && View() == TaskView(None, map[], space)
      ensures fresh(Footprint())
    {
      this.space := space;
      tsoMm := null;
      held := {};
    }

    ghost predicate Valid()
      reads this, tsoMm, if tsoMm != null then {tsoMm.mem} else {}
    {
      && (tsoMm == null ==> held == {})
      && (tsoMm != null ==> tsoMm.Valid() && held == tsoMm.Blocks().Keys)
    }

    ghost function Footprint(): set<object>
      reads this
    {
      {this} + if tsoMm == null then {} else {tsoMm, tsoMm.mem}
    }

    ghost function View(): TaskView
      requires Valid()
      reads this, tsoMm, if tsoMm != null then {tsoMm.mem} else {}
    {
      if tsoMm == null then TaskView(None, map[], space) else TaskView(Some(tsoMm.H()), tsoMm.Blocks(), space)
    }

    /** `sound` comes from a test made before the call; after an unsound call nothing is known of the task. */
    method SysAlloc(n: ulong, base: ulong, s: Strategy) returns (o: Outcome, sound: bool)
      requires Valid() && Legal(OpAlloc(n, base))
      modifies Footprint()
      ensures fresh(Footprint() - old(Footprint()))
      ensures sound <==> Proceeds(old(View()), s, OpAlloc(n, base))
      ensures sound ==> Valid() && TaskStep(old(View()), s, OpAlloc(n, base), o, View())
    {
      hide CodeAlloc, Sound, Mapping.Valid, Mapping.H, Mapping.Blocks, Mapping.Guarded, Extends;
      hide PrevAddr, ChangedOnly, Place;
      if tsoMm == null {
        tsoMm := new Mapping(base);
      }
      assert tsoMm.H() == Mapped(old(View()).heap, base) && tsoMm.Blocks() == old(View()).live;
      assert tsoMm.Valid() && held == tsoMm.Blocks().Keys;
      ghost var blocks := tsoMm.Blocks();
      tsoMm.GuardDecides(n, s);
      var guarded := tsoMm.Guarded(n, s);
      var code, address, outside, _ := tsoMm.SysAlloc(n, s);
      if outside || (code == 0 && !guarded) {
        return Refused, false;
      }
      if code != 0 {
        return Refused, true;
      }
      OneMoreKey(blocks, tsoMm.Blocks(), address, n);
      held := held + {address as nat};
      return Allocated(address), true;
    }

    method SysFree(addr: ulong) returns (o: Outcome)
      requires Valid()
      modifies Footprint()
      ensures Valid() && fresh(Footprint() - old(Footprint()))
      ensures TaskStep(old(View()), FIRST_FIT, OpFree(addr), o, View())
    {
      hide Release, Mapping.Valid, Mapping.H, Mapping.Blocks, ReleaseFrame;
      if tsoMm == null {
        return NullMapping;
      }
      var code := tsoMm.SysFree(addr);
      held := held - {addr as nat};
      return FreeCode(code);
    }

    /** A store, by this task or another of its address space; nothing is done if it would not proceed. */
    method UserWrite(holder: nat, at: ulong, b: byte) returns (o: Outcome, proceeds: bool)
      requires Valid()
      modifies Footprint()
      ensures Valid() && fresh(Footprint() - old(Footprint()))
      ensures proceeds <==> Proceeds(old(View()), FIRST_FIT, OpWrite(holder, at, b))
      ensures proceeds ==> TaskStep(old(View()), FIRST_FIT, OpWrite(holder, at, b), o, View())
      ensures !proceeds ==> View() == old(View())
    {
      hide Mapping.Valid, Mapping.Blocks, OffHeaders, Stored;
      if tsoMm == null || !(tsoMm.start <= at < tsoMm.start + tsoMm.size) || !OffHeaders(held, at) {
        return Done, false;
      }
      ghost var blocks := tsoMm.Blocks();
      tsoMm.UserWrite(at, b);
      SameKeys(blocks, at, b);
      return Done, true;
    }

    /** What an event does to the task it works on; the rest of a switch or a fork happens elsewhere. */
    method Perform(op: Op, s: Strategy) returns (o: Outcome, sound: bool)
      requires Valid() && Legal(op)
      modifies Footprint()
      ensures fresh(Footprint() - old(Footprint()))
      ensures sound <==> Proceeds(old(View()), s, op)
      ensures sound ==> Valid() && TaskStep(old(View()), s, op, o, View())
      ensures !sound && !op.OpAlloc? ==> Valid() && View() == old(View())
    {
      hide Valid, View, CodeAlloc, Sound, Release, Extends, InMapping, OffHeaders, Stored;
      sound := true;
      match op {
        case OpAlloc(n, base) => o, sound := SysAlloc(n, base, s);
        case OpFree(addr) => o := SysFree(addr);
        case OpWrite(holder, at, b) => o, sound := UserWrite(holder, at, b);
        case _ => o := Done;
      }
    }
  }

  lemma OneMoreKey(blocks: map<nat, seq<byte>>, blocks': map<nat, seq<byte>>, a: nat, n: nat)
    requires Extends(blocks, blocks', a, n)
    ensures blocks'.Keys == blocks.Keys + {a}
  {
  }

  lemma SameKeys(blocks: map<nat, seq<byte>>, at: nat, b: byte)
    ensures Stored(blocks, at, b).Keys == blocks.Keys
  {
  }

  /** How many tasks exist before event i, one task having booted. */
  function TasksBefore(es: seq<Event>, i: nat): nat
    requires i <= |es|
  {
    if i == 0 then 1 else TasksBefore(es, i - 1) + if es[i - 1].op.OpFork? then 1 else 0
  }

  /** Tasks own separate objects, and each, `broken` ones aside, looks as the abstract system says. */
  ghost predicate MatchBut(tasks: seq<Task>, strategy: Strategy, a: SysView, broken: set<nat>)
    reads *
  {
    && a.strategy == strategy
    && |a.tasks| == |tasks|
    && (forall t | 0 <= t < |tasks| && t !in broken :: tasks[t].Valid() && tasks[t].View() == a.tasks[t])
    && (forall t, u | 0 <= t < u < |tasks| :: tasks[t].Footprint() !! tasks[u].Footprint())
  }

  ghost predicate Match(tasks: seq<Task>, strategy: Strategy, a: SysView)
    reads *
  {
    MatchBut(tasks, strategy, a, {})
  }

  const BOOTED: SysView := SysView([TaskView(None, map[], 0)], FIRST_FIT)

  method Boot() returns (tasks: seq<Task>)
    ensures |tasks| == 1 && Match(tasks, FIRST_FIT, BOOTED)
    ensures fresh(tasks[0].Footprint())
  {
    var init := new Task(0);
    tasks := [init];
  }

  /** The task whose memory an event may leave unreadable when it does not go ahead. */
  function Harmed(e: Event): set<nat> { if e.op.OpAlloc? then {e.task} else {} }

  /** The part of an event that its subject performs; every other task is left as it was. */
  method Advance(tasks: seq<Task>, strategy: Strategy, e: Event, ghost a: SysView)
    returns (o: Outcome, sound: bool, ghost v: TaskView)
    requires Match(tasks, strategy, a) && Legal(e.op) && Subject(e) < |tasks|
    modifies tasks[Subject(e)].Footprint()
    ensures sound <==> Proceeds(a.tasks[Subject(e)], strategy, e.op)
    ensures sound ==>
              && TaskStep(a.tasks[Subject(e)], a.strategy, e.op, o, v)
              && Match(tasks, strategy, a.(tasks := a.tasks[Subject(e) := v]))
    ensures !sound ==> MatchBut(tasks, strategy, a, Harmed(e))
    ensures forall t, x | 0 <= t < |tasks| && x in tasks[t].Footprint() ::
              fresh(x) || x in old(tasks[t].Footprint())
  {
    hide TaskStep, Task.Valid, Task.View, Proceeds;
    var t := Subject(e);
    o, sound := tasks[t].Perform(e.op, strategy);
    if sound {
      v := tasks[t].View();
    } else {
      v := a.tasks[t];
    }
  }

  method Step(tasks: seq<Task>, strategy: Strategy, e: Event, ghost a: SysView)
    returns (o: Outcome, sound: bool, tasks': seq<Task>, strategy': Strategy, ghost a': SysView)
    requires Match(tasks, strategy, a) && Legal(e.op) && e.task < |tasks|
    modifies if Subject(e) < |tasks| then tasks[Subject(e)].Footprint() else {}
    ensures |a.tasks| == |tasks| && (sound <==> Enabled(a, e))
    ensures sound ==> Match(tasks', strategy', a') && SysStep(a, e, o, a')
    ensures sound ==> |tasks'| == |tasks| + if e.op.OpFork? then 1 else 0
    ensures !sound ==> tasks' == tasks && strategy' == strategy && MatchBut(tasks, strategy, a, Harmed(e))
    ensures forall t, x | 0 <= t < |tasks'| && x in tasks'[t].Footprint() ::
              fresh(x) || (t < |tasks| && x in old(tasks[t].Footprint()))
  {
    hide TaskStep, SysStep, Task.Valid, Task.View, Proceeds, MatchBut, Task.Footprint, After;
    tasks', strategy', a' := tasks, strategy, a;
    Aligned(tasks, strategy, a, e.task);
    var subject := Subject(e);
    if subject >= |tasks| {
      return Done, false, tasks, strategy, a;
    }
    Aligned(tasks, strategy, a, subject);
    if tasks[subject].space != tasks[e.task].space {
      return Done, false, tasks, strategy, a;
    }
    var space := if e.op.OpFork? && !e.op.vm then |tasks| else tasks[e.task].space;
    ghost var v;
    o, sound, v := Advance(tasks, strategy, e, a);
    if !sound {
      return;
    }
    a' := After(a, e, v);
    AfterIsStep(a, e, o, v);
    AfterIs(a, e, v);
    ghost var b := a.(tasks := a.tasks[subject := v]);
    if e.op.OpSwitch? {
      strategy' := e.op.to;
      Switched(tasks, strategy, b, strategy');
    } else if e.op.OpFork? {
      tasks' := AddTask(tasks, strategy, b, space);
    }
  }

  lemma Aligned(tasks: seq<Task>, strategy: Strategy, a: SysView, t: nat)
    requires Match(tasks, strategy, a) && t < |tasks|
    ensures |a.tasks| == |tasks| && a.strategy == strategy && a.tasks[t].space == tasks[t].space
  {
    assert tasks[t].Valid() && tasks[t].View() == a.tasks[t];
  }

  lemma Switched(tasks: seq<Task>, strategy: Strategy, a: SysView, to: Strategy)
    requires Match(tasks, strategy, a)
    ensures Match(tasks, to, a.(strategy := to))
  {
  }

  /** A task more, with no mapping. */
  method AddTask(tasks: seq<Task>, strategy: Strategy, ghost a: SysView, space: nat) returns (tasks': seq<Task>)
    requires Match(tasks, strategy, a)
    ensures |tasks'| == |tasks| + 1 && tasks'[..|tasks|] == tasks
    ensures fresh(tasks'[|tasks|].Footprint())
    ensures Match(tasks', strategy, a.(tasks := a.tasks + [TaskView(None, map[], space)]))
  {
    hide Task.Valid, Task.View;
    var child := new Task(space);
    tasks' := tasks + [child];
  }

  ghost function After(a: SysView, e: Event, v: TaskView): SysView
    requires e.task < |a.tasks| && Subject(e) < |a.tasks|
  {
    SysView(a.tasks[Subject(e) := v] + (if e.op.OpFork? then [Child(a, e)] else []),
            if e.op.OpSwitch? then e.op.to else a.strategy)
  }

  lemma AfterIs(a: SysView, e: Event, v: TaskView)
    requires e.task < |a.tasks| && Subject(e) < |a.tasks|
    ensures var b := a.(tasks := a.tasks[Subject(e) := v]);
            After(a, e, v)
            == if e.op.OpSwitch? then b.(strategy := e.op.to)
               else if e.op.OpFork? then b.(tasks := b.tasks + [Child(a, e)])
               else b
  {
  }

  lemma AfterIsStep(a: SysView, e: Event, o: Outcome, v: TaskView)
    requires Enabled(a, e) && TaskStep(a.tasks[Subject(e)], a.strategy, e.op, o, v)
    ensures SysStep(a, e, o, After(a, e, v))
  {
    hide TaskStep, Proceeds;
  }

  /** Run `es` from boot: one task, no mapping, first fit. Each task reaches its state in a run of the specification.
      The run goes on to the end of `es`, or to the first unsound allocation or stray store. The first harms no task
      but its own; the second is not carried out. */
  method Run(es: seq<Event>)
    returns (os: seq<Outcome>, tasks: seq<Task>, strategy: Strategy, done: nat, ghost states: seq<SysView>)
    requires forall i | 0 <= i < |es| :: es[i].task < TasksBefore(es, i)
    requires forall i | 0 <= i < |es| && es[i].op.OpAlloc? :: 0 < es[i].op.base && es[i].op.base + INITIAL_SIZE < WORD
    ensures done <= |es| && Trace(states, es[..done], os) && states[0] == BOOTED
    ensures |tasks| == |states[done].tasks| && strategy == states[done].strategy
    ensures forall t | 0 <= t < |tasks| && !(done < |es| && es[done].op.OpAlloc? && t == es[done].task) ::
              tasks[t].Valid() && tasks[t].View() == states[done].tasks[t]
    ensures done < |es| ==>
              var a, e := states[done], es[done];
              && e.task < |a.tasks|
              && match e.op
                 case OpAlloc(n, base) =>
                   var heap := a.tasks[e.task].heap;
                   var h := if heap.Some? then heap.value else Heap(base, INITIAL_SIZE, []);
                   !WellFormed(CodeAlloc(h, n, a.strategy).0)
                 case OpWrite(holder, at, b) =>
                   || holder >= |a.tasks|
                   || a.tasks[holder].space != a.tasks[e.task].space
                   || a.tasks[holder].heap == None
                   || var h := a.tasks[holder].heap.value;
                      || !(h.start <= at < h.start + h.size)
                      || exists k | 0 <= k < |h.regions| :: h.regions[k].addr <= at < h.regions[k].addr + 8
                 case _ => false
  {
    hide MatchBut, Trace, Enabled, CodeAlloc, WellFormed, Task.Valid, Task.View;
    os, tasks, strategy, done, states := RunWhileEnabled(es);
    ReachableCoherent(states, es, os, done);
    Matched(tasks, strategy, states[done], if done < |es| then Harmed(es[done]) else {});
    if done < |es| {
      EnabledExactly(states[done], es[done]);
    }
  }

  /** The driver's loop. */
  method RunWhileEnabled(es: seq<Event>)
    returns (os: seq<Outcome>, tasks: seq<Task>, strategy: Strategy, done: nat, ghost states: seq<SysView>)
    requires forall i | 0 <= i < |es| :: Legal(es[i].op) && es[i].task < TasksBefore(es, i)
    ensures done <= |es| && Trace(states, es[..done], os) && |states| == done + 1 && states[0] == BOOTED
    ensures done == |es| ==> MatchBut(tasks, strategy, states[done], {})
    ensures done < |es| ==>
              && es[done].task < |states[done].tasks| && !Enabled(states[done], es[done])
              && MatchBut(tasks, strategy, states[done], Harmed(es[done]))
  {
    hide MatchBut, SysStep, Task.Footprint, Legal, Trace, Enabled;
    tasks := Boot();
    strategy := FIRST_FIT;
    os := [];
    states := [BOOTED];
    TraceStart(states[0], es);
    for i := 0 to |es|
      invariant |os| == i && |states| == i + 1
      invariant states[0] == BOOTED
      invariant Match(tasks, strategy, states[i]) && |tasks| == TasksBefore(es, i)
      invariant forall t, x | 0 <= t < |tasks| && x in tasks[t].Footprint() :: fresh(x)
      invariant Trace(states, es[..i], os)
    {
      var o, sound;
      ghost var a';
      o, sound, tasks, strategy, a' := Step(tasks, strategy, es[i], states[i]);
      if !sound {
        done := i;
        return;
      }
      TraceSnoc(states, es, i, os, o, a');
      os := os + [o];
      states := states + [a'];
    }
    done := |es|;
  }

  lemma Matched(tasks: seq<Task>, strategy: Strategy, a: SysView, broken: set<nat>)
    requires MatchBut(tasks, strategy, a, broken)
    ensures |tasks| == |a.tasks| && strategy == a.strategy
    ensures forall t | 0 <= t < |tasks| && t !in broken :: tasks[t].Valid() && tasks[t].View() == a.tasks[t]
  {
  }

  lemma ReachableCoherent(states: seq<SysView>, es: seq<Event>, os: seq<Outcome>, i: nat)
    requires i <= |es| && Trace(states, es[..i], os) && states[0] == BOOTED
    requires forall j | 0 <= j < |es| :: Legal(es[j].op)
    ensures AllCoherent(states[i])
  {
    hide Trace, Legal;
    RunCoherent(states, es[..i], os, i);
  }

  /** In every state a run reaches, following `next` words through a task's memory from its first region meets NULL
      after exactly the live regions, at rising addresses, each with header and payload inside the mapping and apart
      from the others; no amount of fuel makes the walk longer. */
  lemma EveryWalkEnds(tasks: seq<Task>, strategy: Strategy, a: SysView, t: nat, fuel: nat)
    requires Match(tasks, strategy, a) && t < |tasks| && tasks[t].tsoMm != null
    requires |a.tasks[t].heap.value.regions| <= fuel
    ensures var m, h := tasks[t].tsoMm, a.tasks[t].heap.value;
            var w := Walk(m.mem[..], m.start, m.firstRegion, fuel);
            && |w| == |h.regions|
            && (forall i | 0 <= i < |w| :: w[i] == h.regions[i].addr)
            && (forall i, j | 0 <= i < j < |w| :: w[i] < w[j] && End(h.regions[i]) <= w[j])
            && (forall i | 0 <= i < |w| :: m.start <= w[i] && End(h.regions[i]) <= m.start + m.size)
  {
    var m := tasks[t].tsoMm;
    assert tasks[t].Valid() && tasks[t].View() == a.tasks[t];
    WalkReachesNull(m.H(), m.mem[..], m.firstRegion, fuel);
    Disjoint(m.H());
  }
}
