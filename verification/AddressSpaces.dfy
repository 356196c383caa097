/** Runs of the allocator beside runs of copy_process: the address spaces that the first assume are the `mm`s that
    the second hands out. */
module AddressSpaces {
  import opened Basics
  import T = Traces
  import P = Processes

  /** `ids[t]` is the task_struct of task t of the allocator's runs, a task with an mm; address spaces and `mm`s
      divide the tasks alike. */
  ghost predicate Alike(a: T.SysView, k: P.State, ids: seq<nat>) {
    && |ids| == |a.tasks|
    && (forall t | 0 <= t < |ids| :: KnownAt(a, k, ids, t))
    && (forall t, u | 0 <= t < u < |ids| :: AlikeAt(a, k, ids, t, u))
  }

  ghost predicate KnownAt(a: T.SysView, k: P.State, ids: seq<nat>, t: nat)
    requires t < |ids| == |a.tasks|
  {
    ids[t] in k.structs && k.structs[ids[t]].mm != 0 && a.tasks[t].space < |a.tasks|
  }

  ghost predicate AlikeAt(a: T.SysView, k: P.State, ids: seq<nat>, t: nat, u: nat)
    requires t < |ids| == |a.tasks| && u < |ids|
  {
    ids[t] in k.structs && ids[u] in k.structs &&
    (a.tasks[t].space == a.tasks[u].space <==> k.structs[ids[t]].mm == k.structs[ids[u]].mm)
  }

  /** The call of copy_process that a fork event stands for. */
  ghost predicate Stands(e: T.Event, k: P.State, r: P.Request, ids: seq<nat>) {
    && P.Sane(k, r) && P.Admitted(k, r)
    && e.task < |ids| && r.current == ids[e.task]
    && (e.op.OpFork? ==> (e.op.vm <==> P.CLONE_VM in r.flags))
  }

  /** A fork keeps address spaces and `mm`s alike; the new task has no mapping in either account. */
  lemma ForkKeepsAlike(a: T.SysView, e: T.Event, o: T.Outcome, a': T.SysView, k: P.State, r: P.Request, ids: seq<nat>)
    requires T.SysStep(a, e, o, a') && e.op.OpFork?
    requires Alike(a, k, ids) && P.Inv(k) && Stands(e, k, r, ids)
    ensures Alike(a', P.CopyProcess(k, r), ids + [r.freshTask])
    ensures a'.tasks[|a.tasks|].heap == None && P.CopyProcess(k, r).structs[r.freshTask].tsoMm == 0
  {
    hide P.Inv, P.Admitted, P.CopyProcess, T.TaskStep, T.Proceeds;
    var k', ids' := P.CopyProcess(k, r), ids + [r.freshTask];
    P.CopyProcessKeepsInv(k, r);
    assert KnownAt(a, k, ids, e.task);
    P.NewTaskMm(k, r, r.current);
    SpacesSame(a, e, o, a');
    forall t | 0 <= t < |ids'|
      ensures KnownAt(a', k', ids', t)
    {
      assert t < |ids| ==> KnownAt(a, k, ids, t);
      assert KnownAt(a, k, ids, e.task);
    }
    forall t, u | 0 <= t < u < |ids'|
      ensures AlikeAt(a', k', ids', t, u)
    {
      assert KnownAt(a, k, ids, t);
      if u < |ids| {
        assert KnownAt(a, k, ids, u) && AlikeAt(a, k, ids, t, u);
      } else {
        P.NewTaskMm(k, r, ids[t]);
        WithParent(a, k, ids, t, e.task);
      }
    }
  }

  lemma WithParent(a: T.SysView, k: P.State, ids: seq<nat>, t: nat, u: nat)
    requires Alike(a, k, ids) && t < |ids| && u < |ids|
    ensures AlikeAt(a, k, ids, t, u)
  {
    assert KnownAt(a, k, ids, t) && KnownAt(a, k, ids, u);
    assert t < u ==> AlikeAt(a, k, ids, t, u);
    assert u < t ==> AlikeAt(a, k, ids, u, t);
  }

  lemma SpacesSame(a: T.SysView, e: T.Event, o: T.Outcome, a': T.SysView)
    requires T.SysStep(a, e, o, a')
    ensures |a'.tasks| == |a.tasks| + if e.op.OpFork? then 1 else 0
    ensures forall t | 0 <= t < |a.tasks| :: a'.tasks[t].space == a.tasks[t].space
    ensures e.op.OpFork? ==> a'.tasks[|a.tasks|] == T.Child(a, e)
  {
    forall t | 0 <= t < |a.tasks|
      ensures a'.tasks[t].space == a.tasks[t].space
    {
      T.SpacesKept(a, e, o, a', t);
    }
  }

  /** Any other event keeps them alike too, no task_struct being touched. */
  lemma OtherKeepsAlike(a: T.SysView, e: T.Event, o: T.Outcome, a': T.SysView, k: P.State, ids: seq<nat>)
    requires T.SysStep(a, e, o, a') && !e.op.OpFork? && Alike(a, k, ids)
    ensures Alike(a', k, ids)
  {
    SpacesSame(a, e, o, a');
    hide T.SysStep;
    forall t | 0 <= t < |ids|
      ensures KnownAt(a', k, ids, t)
    {
      assert KnownAt(a, k, ids, t);
    }
    forall t, u | 0 <= t < u < |ids|
      ensures AlikeAt(a', k, ids, t, u)
    {
      assert AlikeAt(a, k, ids, t, u);
    }
  }

  /** Two runs side by side, from boot: each fork event of the one is a successful call of copy_process in the other,
      by the same task and with the same CLONE_VM, and adds the new task to `ids`; no other event is one. */
  ghost predicate SideBySide(states: seq<T.SysView>, es: seq<T.Event>, os: seq<T.Outcome>,
                             ks: seq<P.State>, rs: seq<P.Request>, ids: seq<seq<nat>>) {
    && T.Trace(states, es, os)
    && |ks| == |ids| == |es| + 1 && |rs| == |es|
    && states[0].tasks == [T.TaskView(None, map[], 0)] && ks[0] == P.BOOT && ids[0] == [1]
    && forall i | 0 <= i < |es| :: Together(es[i], ks[i], rs[i], ids[i], ks[i + 1], ids[i + 1])
  }

  ghost predicate Together(e: T.Event, k: P.State, r: P.Request, ids: seq<nat>, k': P.State, ids': seq<nat>) {
    if e.op.OpFork? then Stands(e, k, r, ids) && k' == P.CopyProcess(k, r) && ids' == ids + [r.freshTask]
    else k' == k && ids' == ids
  }

  /** In every state of two such runs, tasks share an address space exactly when they share an mm. */
  lemma {:induction false} SpacesAreMms(states: seq<T.SysView>, es: seq<T.Event>, os: seq<T.Outcome>,
                                        ks: seq<P.State>, rs: seq<P.Request>, ids: seq<seq<nat>>, i: nat)
    requires SideBySide(states, es, os, ks, rs, ids) && i <= |es|
    ensures P.Inv(ks[i]) && Alike(states[i], ks[i], ids[i])
  {
    if i == 0 {
      P.BootInv();
    } else {
      hide P.Inv, P.Sane, P.Admitted, Alike, T.SysStep, Stands;
      SpacesAreMms(states, es, os, ks, rs, ids, i - 1);
      var a, e, k := states[i - 1], es[i - 1], ks[i - 1];
      assert T.SysStep(a, e, os[i - 1], states[i]);
      assert Together(e, k, rs[i - 1], ids[i - 1], ks[i], ids[i]);
      if e.op.OpFork? {
        StandsFor(e, k, rs[i - 1], ids[i - 1]);
        P.CopyProcessKeepsInv(k, rs[i - 1]);
        ForkKeepsAlike(a, e, os[i - 1], states[i], k, rs[i - 1], ids[i - 1]);
      } else {
        OtherKeepsAlike(a, e, os[i - 1], states[i], k, ids[i - 1]);
      }
    }
  }

  lemma StandsFor(e: T.Event, k: P.State, r: P.Request, ids: seq<nat>)
    requires Stands(e, k, r, ids)
    ensures P.Sane(k, r) && r.current in k.structs && P.Admitted(k, r)
  {
  }
}
