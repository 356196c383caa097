/** fork.c as a table of kernel objects: tasks, what they point at, and the reference counts kept for those objects.
    Identifiers stand for pointers, 0 for NULL. A table holds exactly the objects allocated from its slab cache. */
module Processes {

  const EINVAL: int := -22
  const ENOMEM: int := -12
  const EAGAIN: int := -11
  const ERESTARTNOINTR: int := -513

  datatype CloneFlag =
    | CLONE_VM | CLONE_FS | CLONE_FILES | CLONE_SIGHAND | CLONE_THREAD | CLONE_PARENT
    | CLONE_NEWNS | CLONE_NEWUSER | CLONE_NEWPID

  /** What a task acquires that no other task counts. */
  datatype Part = CREDS | DELAYACCT | MEMPOLICY | PERF | AUDIT | SEMUNDO | NAMESPACES | IO_CONTEXT

  datatype Task = Task(
    mm: nat, fs: nat, files: nat, sighand: nat, signal: nat,
    pid: nat, tgid: nat, groupLeader: nat, exitSignal: int, realParent: nat,
    tsoMm: nat, owned: set<Part>)

  datatype Signal = Signal(nrThreads: nat, live: nat, sigcnt: nat, unkillable: bool)

  datatype State = State(
    structs: map<nat, Task>,
    mmUsers: map<nat, nat>,
    fsUsers: map<nat, nat>,
    filesCounts: map<nat, nat>,
    sighandCounts: map<nat, nat>,
    signals: map<nat, Signal>,
    pids: set<nat>,
    processes: nat,
    nrThreads: nat,
    totalForks: nat)

  /** The calls that can fail out of sight, in the order copy_process makes them. */
  datatype Call =
    | SECURITY_TASK_CREATE | DUP_TASK_STRUCT | COPY_CREDS | MPOL_DUP | SCHED_FORK | PERF_EVENT_INIT | AUDIT_ALLOC
    | COPY_SEMUNDO | DUP_FD | COPY_FS_STRUCT | ALLOC_SIGHAND | ALLOC_SIGNAL
    | ALLOCATE_MM | MM_INIT | DUP_MMAP | GET_BINFMT | COPY_NAMESPACES | COPY_IO | COPY_THREAD | ALLOC_PID

  /** One call of copy_process: its arguments, and what the parts of the kernel not modelled answer.
      `fresh*` is the object a slab cache would hand out. */
  datatype Request = Request(
    current: nat,
    flags: set<CloneFlag>,
    csignal: nat,
    fail: Call -> int,
    otherPidNs: bool,
    overRlimitAllowed: bool,
    rlimitNproc: nat,
    maxThreads: int,
    fsInExec: bool,
    hasIoContext: bool,
    signalPending: bool,
    childReaper: bool,
    freshTask: nat, freshMm: nat, freshFs: nat, freshFiles: nat, freshSighand: nat, freshSignal: nat, freshPid: nat)

  /** What the slab caches and the pid allocator promise about a request, and that its caller exists. */
  ghost predicate Sane(k: State, r: Request) {
    && r.current in k.structs
    && r.freshTask != 0 && r.freshTask !in k.structs
    && r.freshMm != 0 && r.freshMm !in k.mmUsers
    && r.freshFs != 0 && r.freshFs !in k.fsUsers
    && r.freshFiles != 0 && r.freshFiles !in k.filesCounts
    && r.freshSighand != 0 && r.freshSighand !in k.sighandCounts
    && r.freshSignal != 0 && r.freshSignal !in k.signals
    && r.freshPid != 0 && r.freshPid !in k.pids
  }

  /** Nothing more is asked of a request than that its caller exists and its fresh objects are new. */
  lemma SaneExactly(k: State, r: Request)
    ensures Sane(k, r)
        <==> && r.current in k.structs
             && 0 !in {r.freshTask, r.freshMm, r.freshFs, r.freshFiles, r.freshSighand, r.freshSignal, r.freshPid}
             && r.freshTask !in k.structs && r.freshMm !in k.mmUsers && r.freshFs !in k.fsUsers
             && r.freshFiles !in k.filesCounts && r.freshSighand !in k.sighandCounts && r.freshSignal !in k.signals
             && r.freshPid !in k.pids
  {
  }

  // ----- which requests succeed -----

  predicate BadFlags(k: State, r: Request)
    requires r.current in k.structs
  {
    || {CLONE_NEWNS, CLONE_FS} <= r.flags
    || {CLONE_NEWUSER, CLONE_FS} <= r.flags
    || (CLONE_THREAD in r.flags && CLONE_SIGHAND !in r.flags)
    || (CLONE_SIGHAND in r.flags && CLONE_VM !in r.flags)
    || (CLONE_PARENT in r.flags && Unkillable(k, k.structs[r.current].signal))
    || (CLONE_SIGHAND in r.flags && (CLONE_NEWUSER in r.flags || CLONE_NEWPID in r.flags || r.otherPidNs))
  }

  predicate Unkillable(k: State, signal: nat) { signal in k.signals && k.signals[signal].unkillable }

  // The code each step reports, 0 if it passes; the call as a whole reports the first one that is not 0.

  function First(a: int, b: int): int { if a != 0 then a else b }

  function When(failed: bool, code: int): int { if failed then code else 0 }

  function EntryError(k: State, r: Request): int {
    First(r.fail(SECURITY_TASK_CREATE),
    First(When(r.fail(DUP_TASK_STRUCT) != 0, ENOMEM),
    First(When(k.processes >= r.rlimitNproc && !r.overRlimitAllowed, EAGAIN),
    First(When(r.fail(COPY_CREDS) < 0, r.fail(COPY_CREDS)),
          When(k.nrThreads >= r.maxThreads, EAGAIN)))))
  }

  /** What is set up before anything shared is copied. */
  function SetupError(r: Request): int {
    First(r.fail(MPOL_DUP),
    First(r.fail(SCHED_FORK),
    First(r.fail(PERF_EVENT_INIT),
    First(r.fail(AUDIT_ALLOC),
          r.fail(COPY_SEMUNDO)))))
  }

  function FilesError(cur: Task, r: Request): int {
    if cur.files == 0 || CLONE_FILES in r.flags then 0 else r.fail(DUP_FD)
  }

  function FsError(r: Request): int {
    if CLONE_FS in r.flags then When(r.fsInExec, EAGAIN) else When(r.fail(COPY_FS_STRUCT) != 0, ENOMEM)
  }

  function SighandError(r: Request): int {
    When(CLONE_SIGHAND !in r.flags && r.fail(ALLOC_SIGHAND) != 0, ENOMEM)
  }

  function SignalError(r: Request): int {
    When(CLONE_THREAD !in r.flags && r.fail(ALLOC_SIGNAL) != 0, ENOMEM)
  }

  predicate MmDuplicates(r: Request) {
    r.fail(ALLOCATE_MM) == r.fail(MM_INIT) == r.fail(DUP_MMAP) == r.fail(GET_BINFMT) == 0
  }

  function MmError(cur: Task, r: Request): int {
    When(cur.mm != 0 && CLONE_VM !in r.flags && !MmDuplicates(r), ENOMEM)
  }

  /** Each of files, fs, sighand, signal and mm is shared, absent, or copied. */
  function CopyError(k: State, r: Request): int
    requires r.current in k.structs
  {
    var cur := k.structs[r.current];
    First(FilesError(cur, r), First(FsError(r), First(SighandError(r), First(SignalError(r), MmError(cur, r)))))
  }

  function IoError(r: Request): int { When(r.hasIoContext && r.fail(COPY_IO) != 0, ENOMEM) }

  function FinishError(r: Request): int {
    First(r.fail(COPY_NAMESPACES),
    First(IoError(r),
    First(r.fail(COPY_THREAD),
    First(r.fail(ALLOC_PID),
          When(r.signalPending, ERESTARTNOINTR)))))
  }

  /** What copy_process returns: 0, or the code of the first step that fails. */
  function Verdict(k: State, r: Request): int
    requires r.current in k.structs
  {
    First(When(BadFlags(k, r), EINVAL),
    First(EntryError(k, r),
    First(SetupError(r),
    First(CopyError(k, r),
          FinishError(r)))))
  }

  predicate Admitted(k: State, r: Request)
    requires r.current in k.structs
  {
    Verdict(k, r) == 0
  }

  /** Success as a list of conditions in no particular order. */
  lemma AdmittedExactly(k: State, r: Request)
    requires r.current in k.structs
    ensures var cur := k.structs[r.current];
            Admitted(k, r) <==>
              && !BadFlags(k, r)
              && (forall c | c in {SECURITY_TASK_CREATE, DUP_TASK_STRUCT, MPOL_DUP, SCHED_FORK, PERF_EVENT_INIT,
                                   AUDIT_ALLOC, COPY_SEMUNDO, COPY_NAMESPACES, COPY_THREAD, ALLOC_PID} ::
                    r.fail(c) == 0)
              && r.fail(COPY_CREDS) >= 0
              && (k.processes < r.rlimitNproc || r.overRlimitAllowed)
              && k.nrThreads < r.maxThreads
              && (cur.files == 0 || CLONE_FILES in r.flags || r.fail(DUP_FD) == 0)
              && (if CLONE_FS in r.flags then !r.fsInExec else r.fail(COPY_FS_STRUCT) == 0)
              && (CLONE_SIGHAND in r.flags || r.fail(ALLOC_SIGHAND) == 0)
              && (CLONE_THREAD in r.flags || r.fail(ALLOC_SIGNAL) == 0)
              && (cur.mm == 0 || CLONE_VM in r.flags || MmDuplicates(r))
              && (r.hasIoContext ==> r.fail(COPY_IO) == 0)
              && !r.signalPending
  {
  }

  /** The code returned, step by step in the order of the source: that of the first step that fails. */
  lemma FirstFailure(k: State, r: Request)
    requires r.current in k.structs
    ensures var cur := k.structs[r.current];
            Verdict(k, r)
            == if CLONE_NEWNS in r.flags && CLONE_FS in r.flags then -22
               else if CLONE_NEWUSER in r.flags && CLONE_FS in r.flags then -22
               else if CLONE_THREAD in r.flags && CLONE_SIGHAND !in r.flags then -22
               else if CLONE_SIGHAND in r.flags && CLONE_VM !in r.flags then -22
               else if CLONE_PARENT in r.flags && cur.signal in k.signals && k.signals[cur.signal].unkillable then -22
               else if CLONE_SIGHAND in r.flags && CLONE_NEWUSER in r.flags then -22
               else if CLONE_SIGHAND in r.flags && CLONE_NEWPID in r.flags then -22
               else if CLONE_SIGHAND in r.flags && r.otherPidNs then -22
               else if r.fail(SECURITY_TASK_CREATE) != 0 then r.fail(SECURITY_TASK_CREATE)
               else if r.fail(DUP_TASK_STRUCT) != 0 then -12
               else if k.processes >= r.rlimitNproc && !r.overRlimitAllowed then -11
               else if r.fail(COPY_CREDS) < 0 then r.fail(COPY_CREDS)
               else if k.nrThreads >= r.maxThreads then -11
               else if r.fail(MPOL_DUP) != 0 then r.fail(MPOL_DUP)
               else if r.fail(SCHED_FORK) != 0 then r.fail(SCHED_FORK)
               else if r.fail(PERF_EVENT_INIT) != 0 then r.fail(PERF_EVENT_INIT)
               else if r.fail(AUDIT_ALLOC) != 0 then r.fail(AUDIT_ALLOC)
               else if r.fail(COPY_SEMUNDO) != 0 then r.fail(COPY_SEMUNDO)
               else if cur.files != 0 && CLONE_FILES !in r.flags && r.fail(DUP_FD) != 0 then r.fail(DUP_FD)
               else if CLONE_FS in r.flags && r.fsInExec then -11
               else if CLONE_FS !in r.flags && r.fail(COPY_FS_STRUCT) != 0 then -12
               else if CLONE_SIGHAND !in r.flags && r.fail(ALLOC_SIGHAND) != 0 then -12
               else if CLONE_THREAD !in r.flags && r.fail(ALLOC_SIGNAL) != 0 then -12
               else if cur.mm != 0 && CLONE_VM !in r.flags && r.fail(ALLOCATE_MM) != 0 then -12
               else if cur.mm != 0 && CLONE_VM !in r.flags && r.fail(MM_INIT) != 0 then -12
               else if cur.mm != 0 && CLONE_VM !in r.flags && r.fail(DUP_MMAP) != 0 then -12
               else if cur.mm != 0 && CLONE_VM !in r.flags && r.fail(GET_BINFMT) != 0 then -12
               else if r.fail(COPY_NAMESPACES) != 0 then r.fail(COPY_NAMESPACES)
               else if r.hasIoContext && r.fail(COPY_IO) != 0 then -12
               else if r.fail(COPY_THREAD) != 0 then r.fail(COPY_THREAD)
               else if r.fail(ALLOC_PID) != 0 then r.fail(ALLOC_PID)
               else if r.signalPending then -513
               else 0
  {
  }

  // ----- what success leaves behind -----

  /** Count one more reference to `o`; the first one creates the table entry. */
  function Take(m: map<nat, nat>, o: nat): map<nat, nat> {
    if o == 0 then m else m[o := if o in m then m[o] + 1 else 1]
  }

  /** Drop a reference; the last one frees the object. */
  function Put(m: map<nat, nat>, o: nat): map<nat, nat>
    requires o in m
  {
    if m[o] <= 1 then m - {o} else m[o := m[o] - 1]
  }

  lemma PutUndoesTake(m: map<nat, nat>, o: nat)
    requires o != 0 && o in m ==> m[o] > 0
    ensures o != 0 ==> o in Take(m, o) && Put(Take(m, o), o) == m
  {
  }

  /** What a task's group leader sends its parent on exit. */
  function LeaderSignal(k: State, t: Task): int {
    if t.groupLeader in k.structs then k.structs[t.groupLeader].exitSignal else 0
  }

  function Child(k: State, r: Request): Task
    requires r.current in k.structs
  {
    var cur := k.structs[r.current];
    var thread := CLONE_THREAD in r.flags;
    Task(
      if cur.mm == 0 then 0 else if CLONE_VM in r.flags then cur.mm else r.freshMm,
      if CLONE_FS in r.flags then cur.fs else r.freshFs,
      if cur.files == 0 then 0 else if CLONE_FILES in r.flags then cur.files else r.freshFiles,
      if CLONE_SIGHAND in r.flags then cur.sighand else r.freshSighand,
      if thread then cur.signal else r.freshSignal,
      r.freshPid,
      if thread then cur.tgid else r.freshPid,
      if thread then cur.groupLeader else r.freshTask,
      if thread then -1 else if CLONE_PARENT in r.flags then LeaderSignal(k, cur) else r.csignal,
      if CLONE_PARENT in r.flags || thread then cur.realParent else r.current,
      0,
      Parts(14, r))
  }

  /** The parts held after n acquisitions of the main line; see Stage. */
  function Parts(n: nat, r: Request): set<Part> {
      (if n >= 1 then {CREDS} else {})
    + (if n >= 2 then {DELAYACCT} else {})
    + (if n >= 3 then {MEMPOLICY} else {})
    + (if n >= 4 then {PERF} else {})
    + (if n >= 5 then {AUDIT} else {})
    + (if n >= 6 then {SEMUNDO} else {})
    + (if n >= 12 then {NAMESPACES} else {})
    + (if n >= 13 && r.hasIoContext then {IO_CONTEXT} else {})
  }

  function TakeSignal(k: State, r: Request): map<nat, Signal>
    requires r.current in k.structs
  {
    var s := k.structs[r.current].signal;
    if CLONE_THREAD !in r.flags then k.signals[r.freshSignal := Signal(1, 1, 1, r.childReaper)]
    else if s in k.signals then
      var g := k.signals[s];
      k.signals[s := g.(nrThreads := g.nrThreads + 1, live := g.live + 1, sigcnt := g.sigcnt + 1)]
    else k.signals
  }

  function Forked(k: State, r: Request): State
    requires r.current in k.structs
  {
    var c := Child(k, r);
    State(
      k.structs[r.freshTask := c],
      Take(k.mmUsers, c.mm),
      Take(k.fsUsers, c.fs),
      Take(k.filesCounts, c.files),
      Take(k.sighandCounts, c.sighand),
      TakeSignal(k, r),
      k.pids + {r.freshPid},
      k.processes + 1,
      k.nrThreads + 1,
      k.totalForks + 1)
  }

  /** One call of copy_process: a success adds one task, a failure changes nothing at all. */
  function CopyProcess(k: State, r: Request): State
    requires r.current in k.structs
  {
    if Admitted(k, r) then Forked(k, r) else k
  }

  // ----- reference counts equal references -----

  datatype Kind = MM | FS | FILES | SIGHAND | SIGNAL

  function Ref(t: Task, kind: Kind): nat {
    match kind
    case MM => t.mm
    case FS => t.fs
    case FILES => t.files
    case SIGHAND => t.sighand
    case SIGNAL => t.signal
  }

  function Counts(k: State, kind: Kind): map<nat, nat> {
    match kind
    case MM => k.mmUsers
    case FS => k.fsUsers
    case FILES => k.filesCounts
    case SIGHAND => k.sighandCounts
    case SIGNAL => map s | s in k.signals :: k.signals[s].sigcnt
  }

  function Users(structs: map<nat, Task>, kind: Kind, o: nat): set<nat> {
    set t | t in structs && Ref(structs[t], kind) == o
  }

  /** Every object is counted once for each task that points at it, and none is kept without a task. */
  ghost predicate Balanced(k: State, kind: Kind) {
    && (forall o | o in Counts(k, kind) :: o != 0 && Counts(k, kind)[o] == |Users(k.structs, kind, o)| > 0)
    && (forall t | t in k.structs && Ref(k.structs[t], kind) != 0 :: Ref(k.structs[t], kind) in Counts(k, kind))
  }

  lemma UsersStep(structs: map<nat, Task>, kind: Kind, p: nat, t: Task, o: nat)
    requires p !in structs
    ensures p !in Users(structs, kind, o)
    ensures Users(structs[p := t], kind, o) == Users(structs, kind, o) + if Ref(t, kind) == o then {p} else {}
  {
    hide Ref;
    forall x | x in structs
      ensures structs[p := t][x] == structs[x]
    {
    }
  }

  lemma OneMoreUser(structs: map<nat, Task>, kind: Kind, p: nat, t: Task, o: nat)
    requires p !in structs
    ensures |Users(structs[p := t], kind, o)| == |Users(structs, kind, o)| + if Ref(t, kind) == o then 1 else 0
  {
    hide Users, Ref;
    UsersStep(structs, kind, p, t, o);
  }

  lemma NoUsers(k: State, kind: Kind, o: nat)
    requires Balanced(k, kind) && o != 0 && o !in Counts(k, kind)
    ensures |Users(k.structs, kind, o)| == 0
  {
    assert Users(k.structs, kind, o) == {};
  }

  lemma TakeBalances(k: State, k': State, kind: Kind, p: nat, t: Task)
    requires Balanced(k, kind) && p !in k.structs
    requires k'.structs == k.structs[p := t]
    requires Counts(k', kind) == Take(Counts(k, kind), Ref(t, kind))
    ensures Balanced(k', kind)
  {
    forall o | o in Counts(k', kind)
      ensures o != 0 && Counts(k', kind)[o] == |Users(k'.structs, kind, o)| > 0
    {
      OneMoreUser(k.structs, kind, p, t, o);
      if o !in Counts(k, kind) {
        NoUsers(k, kind, o);
      }
    }
  }

  // ----- the sharing hierarchy -----

  /** Same signal implies same sighand, which implies same mm; same signal, leader and tgid are one relation. */
  ghost predicate Shares(a: Task, b: Task) {
    && (a.signal == b.signal ==> a.sighand == b.sighand)
    && (a.sighand == b.sighand ==> a.mm == b.mm)
    && (a.signal == b.signal <==> a.groupLeader == b.groupLeader)
    && (a.groupLeader == b.groupLeader <==> a.tgid == b.tgid)
  }

  ghost predicate Related(k: State, t: nat, u: nat)
    requires t in k.structs && u in k.structs
  {
    Shares(k.structs[t], k.structs[u]) && (k.structs[t].pid == k.structs[u].pid ==> t == u)
  }

  ghost predicate Hierarchy(k: State) {
    forall t, u {:trigger Related(k, t, u)} | t in k.structs && u in k.structs :: Related(k, t, u)
  }

  ghost predicate LedAt(k: State, t: nat)
    requires t in k.structs
  {
    var a := k.structs[t];
    && t != 0 && a.pid in k.pids && a.tgid in k.pids
    && a.fs != 0 && a.sighand != 0 && a.signal != 0
    && a.groupLeader in k.structs
    && k.structs[a.groupLeader].exitSignal >= 0
    && (a.exitSignal >= 0 <==> a.groupLeader == t)
    && (a.groupLeader == t ==> a.tgid == a.pid)
  }

  ghost predicate WellLed(k: State) {
    forall t {:trigger LedAt(k, t)} | t in k.structs :: LedAt(k, t)
  }

  ghost predicate SignalCountersAgree(k: State) {
    forall s | s in k.signals :: k.signals[s].nrThreads == k.signals[s].live == k.signals[s].sigcnt
  }

  ghost predicate Inv(k: State) {
    && (forall kind: Kind :: Balanced(k, kind))
    && SignalCountersAgree(k)
    && Hierarchy(k)
    && WellLed(k)
    && k.nrThreads == k.processes == |k.structs|
  }

  lemma ForkKeepsBalance(k: State, r: Request, kind: Kind)
    requires Inv(k) && Sane(k, r)
    ensures Balanced(Forked(k, r), kind)
  {
    var k', c := Forked(k, r), Child(k, r);
    assert LedAt(k, r.current);
    assert Balanced(k, kind);
    assert Balanced(k, SIGNAL);
    ForkTakes(k, r, kind);
    hide Balanced, Child, Counts, Take;
    TakeBalances(k, k', kind, r.freshTask, c);
  }

  lemma SignalIsCounted(k: State, t: nat)
    requires Balanced(k, SIGNAL) && t in k.structs && LedAt(k, t)
    ensures k.structs[t].signal in Counts(k, SIGNAL)
  {
  }

  lemma ForkTakes(k: State, r: Request, kind: Kind)
    requires Sane(k, r) && Balanced(k, SIGNAL) && LedAt(k, r.current)
    ensures Counts(Forked(k, r), kind) == Take(Counts(k, kind), Ref(Child(k, r), kind))
  {
    hide Parts, Balanced;
    var signal := k.structs[r.current].signal;
    if kind == SIGNAL {
      SignalIsCounted(k, r.current);
      assert signal in Counts(k, SIGNAL);
      assert Counts(Forked(k, r), SIGNAL) == Take(Counts(k, SIGNAL), Child(k, r).signal);
    }
  }

  lemma KnownReferences(k: State, t: nat, u: nat)
    requires Inv(k) && t in k.structs && u in k.structs
    ensures Related(k, t, u)
    ensures var a := k.structs[t];
            && a.signal in k.signals && a.sighand in k.sighandCounts
            && a.pid in k.pids && a.tgid in k.pids && a.groupLeader in k.structs
  {
    assert LedAt(k, t);
    assert Balanced(k, SIGNAL) && Balanced(k, SIGHAND);
    assert k.structs[t].signal in Counts(k, SIGNAL) && k.structs[t].sighand in Counts(k, SIGHAND);
  }

  lemma ForkRelates(k: State, r: Request, t: nat)
    requires Inv(k) && Sane(k, r) && !BadFlags(k, r) && t in k.structs
    ensures Shares(k.structs[t], Child(k, r)) && Shares(Child(k, r), k.structs[t])
    ensures k.structs[t].pid != r.freshPid
  {
    hide Inv, Parts, Unkillable, LeaderSignal;
    KnownReferences(k, t, r.current);
  }

  lemma ForkKeepsHierarchy(k: State, r: Request)
    requires Inv(k) && Sane(k, r) && !BadFlags(k, r)
    ensures Hierarchy(Forked(k, r))
  {
    var k' := Forked(k, r);
    forall t, u | t in k'.structs && u in k'.structs
      ensures Related(k', t, u)
    {
      if t != r.freshTask {
        ForkRelates(k, r, t);
      }
      if u != r.freshTask {
        ForkRelates(k, r, u);
        if t != r.freshTask {
          assert Related(k, t, u);
        }
      }
    }
  }

  lemma ForkKeepsLeaders(k: State, r: Request)
    requires Inv(k) && Sane(k, r)
    ensures WellLed(Forked(k, r)) && SignalCountersAgree(Forked(k, r))
  {
    var k' := Forked(k, r);
    assert LedAt(k, r.current);
    forall t | t in k'.structs
      ensures LedAt(k', t)
    {
      if t != r.freshTask {
        assert LedAt(k, t);
      } else {
        assert LedAt(k, k.structs[r.current].groupLeader);
      }
    }
  }

  /** Balanced counts and the sharing hierarchy survive every call, successful or not; a new task has no
      allocator mapping and no other task is changed. */
  lemma CopyProcessKeepsInv(k: State, r: Request)
    requires Inv(k) && Sane(k, r)
    ensures Inv(CopyProcess(k, r))
    ensures Admitted(k, r) ==> CopyProcess(k, r).structs[r.freshTask].tsoMm == 0
    ensures forall t | t in k.structs :: t in CopyProcess(k, r).structs && CopyProcess(k, r).structs[t] == k.structs[t]
  {
    assert LedAt(k, r.current);
    if Admitted(k, r) {
      forall kind: Kind
        ensures Balanced(Forked(k, r), kind)
      {
        ForkKeepsBalance(k, r, kind);
      }
      ForkKeepsHierarchy(k, r);
      ForkKeepsLeaders(k, r);
    }
  }

  // ----- whole runs from boot -----

  /** One task, its own leader, with a user mm and no allocator mapping. */
  const BOOT: State :=
    State(map[1 := Task(1, 1, 1, 1, 1, 1, 1, 1, 0, 1, 0, {})],
          map[1 := 1], map[1 := 1], map[1 := 1], map[1 := 1], map[1 := Signal(1, 1, 1, false)],
          {1}, 1, 1, 0)

  lemma BootInv()
    ensures Inv(BOOT)
  {
    forall kind: Kind
      ensures Balanced(BOOT, kind)
    {
      assert Users(BOOT.structs, kind, 1) == {1};
    }
    assert forall t | t in BOOT.structs :: LedAt(BOOT, t);
  }

  ghost predicate ForkRun(states: seq<State>, rs: seq<Request>) {
    && |states| == |rs| + 1
    && states[0] == BOOT
    && forall i | 0 <= i < |rs| ::
         && Sane(states[i], rs[i])
         && states[i + 1] == CopyProcess(states[i], rs[i])
  }

  lemma {:induction false} RunKeepsInv(states: seq<State>, rs: seq<Request>, i: nat)
    requires ForkRun(states, rs) && i <= |rs|
    ensures Inv(states[i])
  {
    if i == 0 {
      BootInv();
    } else {
      RunKeepsInv(states, rs, i - 1);
      CopyProcessKeepsInv(states[i - 1], rs[i - 1]);
    }
  }

  /** In every reachable set of tasks: same signal implies same sighand, which implies same mm; and same signal,
      same group leader and same tgid are one relation. */
  lemma SharingHierarchy(states: seq<State>, rs: seq<Request>, i: nat, t: nat, u: nat)
    requires ForkRun(states, rs) && i <= |rs|
    requires t in states[i].structs && u in states[i].structs
    ensures var a, b := states[i].structs[t], states[i].structs[u];
            && (a.signal == b.signal ==> a.sighand == b.sighand)
            && (a.sighand == b.sighand ==> a.mm == b.mm)
            && (a.signal == b.signal <==> a.groupLeader == b.groupLeader)
            && (a.groupLeader == b.groupLeader <==> a.tgid == b.tgid)
            && (a.pid == b.pid <==> t == u)
  {
    RunKeepsInv(states, rs, i);
    assert Related(states[i], t, u);
  }

  /** In every reachable state an object's count is the number of tasks pointing at it, no object is counted that no
      task has and none is left out, and the two system-wide counts are the number of tasks. */
  lemma CountsAreReferences(states: seq<State>, rs: seq<Request>, i: nat, o: nat)
    requires ForkRun(states, rs) && i <= |rs| && o != 0
    ensures var k := states[i];
            var mm := set t | t in k.structs && k.structs[t].mm == o;
            var fs := set t | t in k.structs && k.structs[t].fs == o;
            var files := set t | t in k.structs && k.structs[t].files == o;
            var sighand := set t | t in k.structs && k.structs[t].sighand == o;
            && (o in k.mmUsers <==> mm != {}) && (o in k.mmUsers ==> k.mmUsers[o] == |mm|)
            && (o in k.fsUsers <==> fs != {}) && (o in k.fsUsers ==> k.fsUsers[o] == |fs|)
            && (o in k.filesCounts <==> files != {}) && (o in k.filesCounts ==> k.filesCounts[o] == |files|)
            && (o in k.sighandCounts <==> sighand != {}) && (o in k.sighandCounts ==> k.sighandCounts[o] == |sighand|)
            && k.processes == k.nrThreads == |k.structs|
  {
    var k := states[i];
    RunKeepsInv(states, rs, i);
    UsersAre(k, o);
    hide Balanced, Hierarchy, WellLed, Users, Counts;
    CountedExactly(k, MM, o);
    CountedExactly(k, FS, o);
    CountedExactly(k, FILES, o);
    CountedExactly(k, SIGHAND, o);
  }

  /** So are all three counts of a signal. */
  lemma SignalsCountThreads(states: seq<State>, rs: seq<Request>, i: nat, o: nat)
    requires ForkRun(states, rs) && i <= |rs| && o != 0
    ensures var k := states[i];
            var signal := set t | t in k.structs && k.structs[t].signal == o;
            && (o in k.signals <==> signal != {})
            && (o in k.signals ==>
                  k.signals[o].nrThreads == k.signals[o].live == k.signals[o].sigcnt == |signal|)
  {
    var k := states[i];
    RunKeepsInv(states, rs, i);
    UsersAre(k, o);
    SignalCounts(k, o);
    hide Balanced, Hierarchy, WellLed, Users, Counts;
    CountedExactly(k, SIGNAL, o);
  }

  lemma CountedExactly(k: State, kind: Kind, o: nat)
    requires Balanced(k, kind) && o != 0
    ensures o in Counts(k, kind) <==> Users(k.structs, kind, o) != {}
    ensures o in Counts(k, kind) ==> Counts(k, kind)[o] == |Users(k.structs, kind, o)|
  {
    if t :| t in Users(k.structs, kind, o) {
      assert Ref(k.structs[t], kind) == o;
    }
  }

  lemma UsersAre(k: State, o: nat)
    ensures Users(k.structs, MM, o) == set t | t in k.structs && k.structs[t].mm == o
    ensures Users(k.structs, FS, o) == set t | t in k.structs && k.structs[t].fs == o
    ensures Users(k.structs, FILES, o) == set t | t in k.structs && k.structs[t].files == o
    ensures Users(k.structs, SIGHAND, o) == set t | t in k.structs && k.structs[t].sighand == o
    ensures Users(k.structs, SIGNAL, o) == set t | t in k.structs && k.structs[t].signal == o
    ensures Counts(k, MM) == k.mmUsers && Counts(k, FS) == k.fsUsers && Counts(k, FILES) == k.filesCounts
    ensures Counts(k, SIGHAND) == k.sighandCounts
  {
  }

  lemma SignalCounts(k: State, o: nat)
    requires SignalCountersAgree(k)
    ensures o in Counts(k, SIGNAL) <==> o in k.signals
    ensures o in k.signals ==>
              k.signals[o].nrThreads == k.signals[o].live == k.signals[o].sigcnt == Counts(k, SIGNAL)[o]
  {
  }

  // ----- what a new task shares, and what it is given -----

  /** No old task has the object that a slab cache hands out. */
  lemma FreshIsNobodys(k: State, r: Request, t: nat)
    requires Inv(k) && Sane(k, r) && t in k.structs
    ensures var u := k.structs[t];
            && u.mm != r.freshMm && u.fs != r.freshFs && u.files != r.freshFiles
            && u.sighand != r.freshSighand && u.signal != r.freshSignal
            && u.pid != r.freshPid && u.tgid != r.freshPid && u.groupLeader != r.freshTask
            && u.groupLeader in k.structs
  {
    assert LedAt(k, t);
    forall kind: Kind
      ensures Ref(k.structs[t], kind) != 0 ==> Ref(k.structs[t], kind) in Counts(k, kind)
    {
      assert Balanced(k, kind);
    }
    hide Balanced, Hierarchy, WellLed;
    RefsAre(k.structs[t]);
  }

  lemma RefsAre(t: Task)
    ensures Ref(t, MM) == t.mm && Ref(t, FS) == t.fs && Ref(t, FILES) == t.files
    ensures Ref(t, SIGHAND) == t.sighand && Ref(t, SIGNAL) == t.signal
  {
  }

  /** Beside any old task t: the new task shares each object with t exactly when the flag for it is passed and t has
      its parent's; it has an mm or files only if its parent has. */
  lemma NewTaskShares(k: State, r: Request, t: nat)
    requires Inv(k) && Sane(k, r) && Admitted(k, r) && t in k.structs
    ensures r.freshTask in CopyProcess(k, r).structs
    ensures var c, u, p := CopyProcess(k, r).structs[r.freshTask], k.structs[t], k.structs[r.current];
            && (c.fs == u.fs <==> CLONE_FS in r.flags && u.fs == p.fs)
            && (c.files != 0 <==> p.files != 0)
            && (p.files != 0 ==> (c.files == u.files <==> CLONE_FILES in r.flags && u.files == p.files))
            && (c.sighand == u.sighand <==> CLONE_SIGHAND in r.flags && u.sighand == p.sighand)
            && (c.signal == u.signal <==> CLONE_THREAD in r.flags && u.signal == p.signal)
            && (c.groupLeader == u.groupLeader <==> CLONE_THREAD in r.flags && u.groupLeader == p.groupLeader)
            && (c.tgid == u.tgid <==> CLONE_THREAD in r.flags && u.tgid == p.tgid)
            && (c.mm != 0 <==> p.mm != 0)
            && (p.mm != 0 ==> (c.mm == u.mm <==> CLONE_VM in r.flags && u.mm == p.mm))
            && c.pid != u.pid
  {
    FreshIsNobodys(k, r, t);
    hide Inv, Admitted, Parts;
  }

  /** A call adds just one task and one to each counter, or changes nothing, according to its verdict. */
  lemma AddsOneTask(k: State, r: Request)
    requires Inv(k) && Sane(k, r)
    ensures r.current in k.structs && (Admitted(k, r) <==> Verdict(k, r) == 0)
    ensures Verdict(k, r) != 0 ==> CopyProcess(k, r) == k
    ensures var k' := CopyProcess(k, r);
            Verdict(k, r) == 0 ==>
              && k'.structs.Keys == k.structs.Keys + {r.freshTask}
              && (forall t | t in k.structs :: k'.structs[t] == k.structs[t])
              && k'.processes == k.processes + 1 && k'.nrThreads == k.nrThreads + 1
              && k'.totalForks == k.totalForks + 1
              && k'.pids == k.pids + {r.freshPid}
  {
    hide Inv, Verdict, Child, Take, TakeSignal;
  }

  /** What the flags and the arguments make of the rest of a new task. */
  lemma NewTaskIdentity(k: State, r: Request)
    requires Inv(k) && Sane(k, r) && Admitted(k, r)
    ensures k.structs[r.current].groupLeader in k.structs && r.freshTask in CopyProcess(k, r).structs
    ensures var c, p := CopyProcess(k, r).structs[r.freshTask], k.structs[r.current];
            var thread := CLONE_THREAD in r.flags;
            && c.pid == r.freshPid
            && (!thread ==> c.groupLeader == r.freshTask && c.tgid == c.pid)
            && (thread ==> c.exitSignal == -1)
            && (!thread && CLONE_PARENT in r.flags ==> c.exitSignal == k.structs[p.groupLeader].exitSignal)
            && (!thread && CLONE_PARENT !in r.flags ==> c.exitSignal == r.csignal)
            && c.realParent == (if thread || CLONE_PARENT in r.flags then p.realParent else r.current)
            && c.owned == {CREDS, DELAYACCT, MEMPOLICY, PERF, AUDIT, SEMUNDO, NAMESPACES}
                          + (if r.hasIoContext then {IO_CONTEXT} else {})
            && c.tsoMm == 0
  {
    KnownReferences(k, r.current, r.current);
    AllParts(r);
    hide Inv, Verdict, Take, TakeSignal, Parts;
  }

  lemma AllParts(r: Request)
    ensures Parts(14, r)
         == {CREDS, DELAYACCT, MEMPOLICY, PERF, AUDIT, SEMUNDO, NAMESPACES}
            + (if r.hasIoContext then {IO_CONTEXT} else {})
  {
  }

  /** A new process starts a signal of its own, unkillable if it reaps its namespace; no old signal changes in that. */
  lemma NewTaskSignal(k: State, r: Request)
    requires Inv(k) && Sane(k, r) && Admitted(k, r)
    ensures forall s | s in k.signals ::
              s in CopyProcess(k, r).signals && CopyProcess(k, r).signals[s].unkillable == k.signals[s].unkillable
    ensures CLONE_THREAD !in r.flags ==>
              var k' := CopyProcess(k, r);
              && r.freshTask in k'.structs && k'.structs[r.freshTask].signal in k'.signals
              && k'.signals[k'.structs[r.freshTask].signal].unkillable == r.childReaper
  {
    hide Inv, Verdict, Take, Parts;
  }

  /** A task forked by one with an mm starts with no allocator mapping, and shares the mm of an old task iff the fork
      passes CLONE_VM and the old task shares its parent's. */
  lemma NewTaskMm(k: State, r: Request, t: nat)
    requires Inv(k) && Sane(k, r) && Admitted(k, r)
    requires k.structs[r.current].mm != 0 && t in k.structs
    ensures var k' := CopyProcess(k, r);
            && r.freshTask in k'.structs
            && k'.structs[r.freshTask].tsoMm == 0 && k'.structs[r.freshTask].mm != 0
            && (k'.structs[t].mm == k'.structs[r.freshTask].mm
                <==> CLONE_VM in r.flags && k.structs[t].mm == k.structs[r.current].mm)
  {
    hide Inv, Admitted, Sane, CopyProcess;
    AddsOneTask(k, r);
    NewTaskShares(k, r, t);
    NewTaskIdentity(k, r);
  }
}
