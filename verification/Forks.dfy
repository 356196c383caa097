/** copy_process as it runs: tables updated step by step, and a ladder of labels that undoes what was done. */
module Forks {
  import opened Processes

  /** The new task struct after n acquisitions of the main line, all of them successful. */
  function Partial(k0: State, r: Request, n: nat): Task
    requires r.current in k0.structs
  {
    var cur, c := k0.structs[r.current], Child(k0, r);
    cur.(owned := Parts(n, r),
         files := if n >= 7 then c.files else cur.files,
         fs := if n >= 8 then c.fs else cur.fs,
         sighand := if n >= 9 then c.sighand else cur.sighand,
         signal := if n >= 10 then c.signal else cur.signal,
         mm := if n >= 11 then c.mm else cur.mm)
  }

  /** What is held after n acquisitions: 1 creds, 2 delay accounting, 3 memory policy, 4 perf, 5 audit, 6 semundo,
      7 files, 8 fs, 9 sighand, 10 signal, 11 mm, 12 namespaces, 13 io context, 14 pid.
      Fields of the new task not yet acquired may hold anything. */
  ghost predicate Stage(k0: State, k: State, r: Request, n: nat)
    requires Sane(k0, r)
  {
    var c, p := Child(k0, r), r.freshTask;
    && p in k.structs
    && k.structs == k0.structs[p := k.structs[p]]
    && var t := k.structs[p];
    && t.owned == Parts(n, r)
    && (n >= 7 ==> t.files == c.files)
    && (n >= 8 ==> t.fs == c.fs)
    && (n >= 9 ==> t.sighand == c.sighand)
    && (n >= 10 ==> t.signal == c.signal)
    && (n >= 11 ==> t.mm == c.mm)
    && k == k0.(structs := k.structs,
                processes := if n >= 1 then k0.processes + 1 else k0.processes,
                filesCounts := if n >= 7 then Take(k0.filesCounts, c.files) else k0.filesCounts,
                fsUsers := if n >= 8 then Take(k0.fsUsers, c.fs) else k0.fsUsers,
                sighandCounts := if n >= 9 then Take(k0.sighandCounts, c.sighand) else k0.sighandCounts,
                signals := if n >= 10 && CLONE_THREAD !in r.flags then NewSignal(k0, r) else k0.signals,
                mmUsers := if n >= 11 then Take(k0.mmUsers, c.mm) else k0.mmUsers,
                pids := if n >= 14 then k0.pids + {r.freshPid} else k0.pids)
  }

  function NewSignal(k0: State, r: Request): map<nat, Signal> {
    k0.signals[r.freshSignal := Signal(1, 1, 1, false)]
  }

  /** Copying shared objects and taking a pid add no part. */
  lemma PartsSettled(r: Request)
    ensures Parts(7, r) == Parts(8, r) == Parts(9, r) == Parts(10, r) == Parts(11, r) == Parts(6, r)
    ensures Parts(14, r) == Parts(13, r)
  {
  }

  /** The parent's references are to live objects, as the invariant says of every task. */
  ghost predicate Ready(k0: State, r: Request) {
    && Sane(k0, r)
    && var cur := k0.structs[r.current];
    && cur.groupLeader in k0.structs && k0.structs[cur.groupLeader].exitSignal >= 0
    && (cur.mm != 0 ==> cur.mm in k0.mmUsers && k0.mmUsers[cur.mm] > 0)
    && cur.fs != 0 && cur.fs in k0.fsUsers && k0.fsUsers[cur.fs] > 0
    && (cur.files != 0 ==> cur.files in k0.filesCounts && k0.filesCounts[cur.files] > 0)
    && cur.sighand != 0 && cur.sighand in k0.sighandCounts && k0.sighandCounts[cur.sighand] > 0
    && cur.signal in k0.signals
  }

  lemma InvMakesReady(k0: State, r: Request)
    requires Inv(k0) && Sane(k0, r)
    ensures Ready(k0, r)
  {
    assert LedAt(k0, r.current);
    assert Balanced(k0, MM) && Balanced(k0, FS) && Balanced(k0, FILES) && Balanced(k0, SIGHAND) && Balanced(k0, SIGNAL);
    assert k0.structs[r.current].signal in Counts(k0, SIGNAL);
  }

  /** Acquisitions that touch nothing shared. */
  predicate PlainStep(n: nat, part: Part) {
    match part
    case DELAYACCT => n == 1
    case MEMPOLICY => n == 2
    case PERF => n == 3
    case AUDIT => n == 4
    case SEMUNDO => n == 5
    case NAMESPACES => n == 11
    case _ => false
  }

  lemma PlainPart(n: nat, part: Part, r: Request)
    requires PlainStep(n, part)
    ensures Parts(n + 1, r) == Parts(n, r) + {part} && Parts(n, r) == Parts(n + 1, r) - {part}
  {
  }

  class Kernel {
    var structs: map<nat, Task>
    var mmUsers: map<nat, nat>
    var fsUsers: map<nat, nat>
    var filesCounts: map<nat, nat>
    var sighandCounts: map<nat, nat>
    var signals: map<nat, Signal>
    var pids: set<nat>
    var processes: nat
    var nrThreads: nat
    var totalForks: nat

    ghost function S(): State
      reads this
    {
      State(structs, mmUsers, fsUsers, filesCounts, sighandCounts, signals, pids, processes, nrThreads, totalForks)
    }

    constructor ()
      ensures S() == BOOT
    {
      structs := BOOT.structs;
      mmUsers, fsUsers, filesCounts := BOOT.mmUsers, BOOT.fsUsers, BOOT.filesCounts;
      sighandCounts, signals := BOOT.sighandCounts, BOOT.signals;
      pids, processes, nrThreads, totalForks := BOOT.pids, BOOT.processes, BOOT.nrThreads, BOOT.totalForks;
    }

    /** Holding n acquisitions, on the way to undoing them. */
    ghost predicate Holds(k0: State, r: Request, n: nat)
      reads this
    {
      Ready(k0, r) && Stage(k0, S(), r, n)
    }

    /** Holding n acquisitions, on the main line. */
    ghost predicate On(k0: State, r: Request, n: nat)
      reads this
    {
      Ready(k0, r) && Stage(k0, S(), r, n) && structs[r.freshTask] == Partial(k0, r, n)
    }

    method CheckFlags(r: Request) returns (err: int)
      requires Ready(S(), r)
      ensures err == When(BadFlags(S(), r), EINVAL)
    {
      if CLONE_NEWNS in r.flags && CLONE_FS in r.flags {
        return EINVAL;
      }
      if CLONE_NEWUSER in r.flags && CLONE_FS in r.flags {
        return EINVAL;
      }
      if CLONE_THREAD in r.flags && CLONE_SIGHAND !in r.flags {
        return EINVAL;
      }
      if CLONE_SIGHAND in r.flags && CLONE_VM !in r.flags {
        return EINVAL;
      }
      if CLONE_PARENT in r.flags && signals[structs[r.current].signal].unkillable {
        return EINVAL;
      }
      if CLONE_SIGHAND in r.flags {
        if CLONE_NEWUSER in r.flags || CLONE_NEWPID in r.flags || r.otherPidNs {
          return EINVAL;
        }
      }
      return 0;
    }

    // ----- steps of the main line -----

    method DupTaskStruct(r: Request)
      requires Ready(S(), r)
      modifies this`structs
      ensures On(old(S()), r, 0)
    {
      structs := structs[r.freshTask := structs[r.current].(owned := {})];
    }

    method CopyCreds(r: Request, ghost k0: State)
      requires On(k0, r, 0)
      modifies this`structs, this`processes
      ensures On(k0, r, 1)
    {
      processes := processes + 1;
      structs := structs[r.freshTask := structs[r.freshTask].(owned := structs[r.freshTask].owned + {CREDS})];
    }

    method Own(part: Part, r: Request, ghost n: nat, ghost k0: State)
      requires On(k0, r, n) && PlainStep(n, part)
      modifies this`structs
      ensures On(k0, r, n + 1)
    {
      hide Parts;
      PlainPart(n, part, r);
      structs := structs[r.freshTask := structs[r.freshTask].(owned := structs[r.freshTask].owned + {part})];
    }

    method CopyFiles(r: Request, ghost k0: State) returns (err: int)
      requires On(k0, r, 6)
      modifies this`structs, this`filesCounts
      ensures err == FilesError(k0.structs[r.current], r)
      ensures if err == 0 then On(k0, r, 7) else Holds(k0, r, 6)
    {
      hide Parts, TakeSignal, Inv;
      PartsSettled(r);
      var oldf := structs[r.current].files;
      if oldf == 0 {
        return 0;
      }
      if CLONE_FILES in r.flags {
        filesCounts := filesCounts[oldf := filesCounts[oldf] + 1];
        return 0;
      }
      if r.fail(DUP_FD) != 0 {
        return r.fail(DUP_FD);
      }
      filesCounts := filesCounts[r.freshFiles := 1];
      structs := structs[r.freshTask := structs[r.freshTask].(files := r.freshFiles)];
      return 0;
    }

    method CopyFs(r: Request, ghost k0: State) returns (err: int)
      requires On(k0, r, 7)
      modifies this`structs, this`fsUsers
      ensures err == FsError(r)
      ensures if err == 0 then On(k0, r, 8) else Holds(k0, r, 7)
    {
      hide Parts, TakeSignal, Inv;
      PartsSettled(r);
      var fs := structs[r.current].fs;
      if CLONE_FS in r.flags {
        if r.fsInExec {
          return EAGAIN;
        }
        fsUsers := fsUsers[fs := fsUsers[fs] + 1];
        return 0;
      }
      if r.fail(COPY_FS_STRUCT) != 0 {
        structs := structs[r.freshTask := structs[r.freshTask].(fs := 0)];
        return ENOMEM;
      }
      fsUsers := fsUsers[r.freshFs := 1];
      structs := structs[r.freshTask := structs[r.freshTask].(fs := r.freshFs)];
      return 0;
    }

    method CopySighand(r: Request, ghost k0: State) returns (err: int)
      requires On(k0, r, 8)
      modifies this`structs, this`sighandCounts
      ensures err == SighandError(r)
      ensures if err == 0 then On(k0, r, 9) else Holds(k0, r, 8)
    {
      hide Parts, TakeSignal, Inv;
      PartsSettled(r);
      if CLONE_SIGHAND in r.flags {
        var sighand := structs[r.current].sighand;
        sighandCounts := sighandCounts[sighand := sighandCounts[sighand] + 1];
        return 0;
      }
      if r.fail(ALLOC_SIGHAND) != 0 {
        structs := structs[r.freshTask := structs[r.freshTask].(sighand := 0)];
        return ENOMEM;
      }
      structs := structs[r.freshTask := structs[r.freshTask].(sighand := r.freshSighand)];
      sighandCounts := sighandCounts[r.freshSighand := 1];
      return 0;
    }

    method CopySignal(r: Request, ghost k0: State) returns (err: int)
      requires On(k0, r, 9)
      modifies this`structs, this`signals
      ensures err == SignalError(r)
      ensures if err == 0 then On(k0, r, 10) else Holds(k0, r, 9)
    {
      hide Parts, TakeSignal, Inv;
      PartsSettled(r);
      if CLONE_THREAD in r.flags {
        return 0;
      }
      if r.fail(ALLOC_SIGNAL) != 0 {
        structs := structs[r.freshTask := structs[r.freshTask].(signal := 0)];
        return ENOMEM;
      }
      structs := structs[r.freshTask := structs[r.freshTask].(signal := r.freshSignal)];
      signals := signals[r.freshSignal := Signal(1, 1, 1, false)];
      return 0;
    }

    method MmPut(mm: nat)
      requires mm in mmUsers && mmUsers[mm] > 0
      modifies this`mmUsers
      ensures mmUsers == Put(old(mmUsers), mm)
    {
      mmUsers := mmUsers[mm := mmUsers[mm] - 1];
      if mmUsers[mm] == 0 {
        mmUsers := mmUsers - {mm};
      }
    }

    /** dup_mm: a fresh mm with one user, or NULL and nothing left behind. */
    method DupMm(r: Request) returns (mm: nat)
      requires r.freshMm != 0 && r.freshMm !in mmUsers
      modifies this`mmUsers
      ensures mm != 0 <==> MmDuplicates(r)
      ensures if mm == 0 then mmUsers == old(mmUsers) else mm == r.freshMm && mmUsers == old(mmUsers)[mm := 1]
    {
      if r.fail(ALLOCATE_MM) != 0 {
        return 0;
      }
      mmUsers := mmUsers[r.freshMm := 1];
      if r.fail(MM_INIT) != 0 {
        mmUsers := mmUsers - {r.freshMm};
        return 0;
      }
      if r.fail(DUP_MMAP) != 0 || r.fail(GET_BINFMT) != 0 {
        MmPut(r.freshMm);
        return 0;
      }
      return r.freshMm;
    }

    method CopyMm(r: Request, ghost k0: State) returns (err: int)
      requires On(k0, r, 10)
      modifies this`structs, this`mmUsers
      ensures err == MmError(k0.structs[r.current], r)
      ensures if err == 0 then On(k0, r, 11) else Holds(k0, r, 10)
    {
      hide Parts, TakeSignal, Inv;
      PartsSettled(r);
      structs := structs[r.freshTask := structs[r.freshTask].(mm := 0)];
      var mm := structs[r.current].mm;
      if mm == 0 {
        return 0;
      }
      if CLONE_VM in r.flags {
        mmUsers := mmUsers[mm := mmUsers[mm] + 1];
      } else {
        mm := DupMm(r);
        if mm == 0 {
          return ENOMEM;
        }
      }
      structs := structs[r.freshTask := structs[r.freshTask].(mm := mm)];
      return 0;
    }

    method CopyIo(r: Request, ghost k0: State) returns (err: int)
      requires On(k0, r, 12)
      modifies this`structs
      ensures err == IoError(r)
      ensures if err == 0 then On(k0, r, 13) else Holds(k0, r, 12)
    {
      if !r.hasIoContext {
        return 0;
      }
      if r.fail(COPY_IO) != 0 {
        return ENOMEM;
      }
      structs := structs[r.freshTask := structs[r.freshTask].(owned := structs[r.freshTask].owned + {IO_CONTEXT})];
      return 0;
    }

    method AllocPid(r: Request, ghost k0: State)
      requires On(k0, r, 13)
      modifies this`pids
      ensures On(k0, r, 14)
    {
      hide Parts, TakeSignal, Inv;
      PartsSettled(r);
      pids := pids + {r.freshPid};
    }

    // ----- steps of the unwind ladder -----

    method FreePid(r: Request, ghost k0: State)
      requires Holds(k0, r, 14)
      modifies this`pids
      ensures Holds(k0, r, 13)
    {
      hide Parts, TakeSignal, Inv;
      PartsSettled(r);
      pids := pids - {r.freshPid};
    }

    method Disown(part: Part, r: Request, ghost n: nat, ghost k0: State)
      requires Holds(k0, r, n + 1) && PlainStep(n, part)
      modifies this`structs
      ensures Holds(k0, r, n)
    {
      hide Parts;
      PlainPart(n, part, r);
      structs := structs[r.freshTask := structs[r.freshTask].(owned := structs[r.freshTask].owned - {part})];
    }

    method ExitIo(r: Request, ghost k0: State)
      requires Holds(k0, r, 13)
      modifies this`structs
      ensures Holds(k0, r, 12)
    {
      if IO_CONTEXT in structs[r.freshTask].owned {
        structs := structs[r.freshTask := structs[r.freshTask].(owned := structs[r.freshTask].owned - {IO_CONTEXT})];
      }
    }

    method CleanupMm(r: Request, ghost k0: State)
      requires Holds(k0, r, 11)
      modifies this`mmUsers
      ensures Holds(k0, r, 10)
    {
      hide Parts, TakeSignal, Inv;
      PartsSettled(r);
      PutUndoesTake(k0.mmUsers, structs[r.freshTask].mm);
      if structs[r.freshTask].mm != 0 {
        MmPut(structs[r.freshTask].mm);
      }
    }

    method CleanupSignal(r: Request, ghost k0: State)
      requires Holds(k0, r, 10)
      modifies this`signals
      ensures Holds(k0, r, 9)
    {
      hide Parts, TakeSignal, Inv;
      PartsSettled(r);
      if CLONE_THREAD !in r.flags {
        signals := signals - {structs[r.freshTask].signal};
      }
    }

    /** __cleanup_sighand. */
    method CleanupSighand(r: Request, ghost k0: State)
      requires Holds(k0, r, 9)
      modifies this`sighandCounts
      ensures Holds(k0, r, 8)
    {
      hide Parts, TakeSignal, Inv;
      PartsSettled(r);
      var sighand := structs[r.freshTask].sighand;
      PutUndoesTake(k0.sighandCounts, sighand);
      sighandCounts := sighandCounts[sighand := sighandCounts[sighand] - 1];
      if sighandCounts[sighand] == 0 {
        sighandCounts := sighandCounts - {sighand};
      }
    }

    method ExitFs(r: Request, ghost k0: State)
      requires Holds(k0, r, 8)
      modifies this`structs, this`fsUsers
      ensures Holds(k0, r, 7)
    {
      hide Parts, TakeSignal, Inv;
      PartsSettled(r);
      var fs := structs[r.freshTask].fs;
      PutUndoesTake(k0.fsUsers, fs);
      if fs != 0 {
        structs := structs[r.freshTask := structs[r.freshTask].(fs := 0)];
        fsUsers := Put(fsUsers, fs);
      }
    }

    method ExitFiles(r: Request, ghost k0: State)
      requires Holds(k0, r, 7)
      modifies this`structs, this`filesCounts
      ensures Holds(k0, r, 6)
    {
      hide Parts, TakeSignal, Inv;
      PartsSettled(r);
      var files := structs[r.freshTask].files;
      PutUndoesTake(k0.filesCounts, files);
      if files != 0 {
        structs := structs[r.freshTask := structs[r.freshTask].(files := 0)];
        filesCounts := Put(filesCounts, files);
      }
    }

    method ExitCreds(r: Request, ghost k0: State)
      requires Holds(k0, r, 1)
      modifies this`structs, this`processes
      ensures Holds(k0, r, 0)
    {
      processes := processes - 1;
      structs := structs[r.freshTask := structs[r.freshTask].(owned := structs[r.freshTask].owned - {CREDS})];
    }

    /** free_task: nothing that the task acquired may still be held. */
    method FreeTask(r: Request, ghost k0: State)
      requires Holds(k0, r, 0)
      modifies this`structs
      ensures S() == k0
    {
      assert structs[r.freshTask].owned == {};
      structs := structs - {r.freshTask};
    }

    // ----- the point of no return -----

    /** Pid, exit signal, group leader, thread group and parent. */
    method SetIdentity(r: Request, ghost k0: State)
      requires On(k0, r, 14)
      modifies this`structs
      ensures Holds(k0, r, 14)
      ensures structs[r.freshTask] == Child(k0, r).(tsoMm := k0.structs[r.current].tsoMm)
    {
      hide Parts, TakeSignal, Inv;
      PartsSettled(r);
      var p, cur := r.freshTask, structs[r.current];
      var t := structs[p].(pid := r.freshPid);
      if CLONE_THREAD in r.flags {
        t := t.(exitSignal := -1, groupLeader := cur.groupLeader, tgid := cur.tgid);
      } else {
        var signal := if CLONE_PARENT in r.flags then structs[cur.groupLeader].exitSignal else r.csignal;
        t := t.(exitSignal := signal, groupLeader := p, tgid := r.freshPid);
      }
      var parent := if CLONE_PARENT in r.flags || CLONE_THREAD in r.flags then cur.realParent else r.current;
      structs := structs[p := t.(realParent := parent)];
    }

    /** Make the task visible: a leader may become its namespace's reaper, a thread is counted in its group's signal. */
    method Attach(r: Request, ghost k0: State)
      requires Ready(k0, r) && r.freshTask in structs
      requires structs[r.freshTask].signal == Child(k0, r).signal
      requires structs[r.freshTask].exitSignal >= 0 <==> CLONE_THREAD !in r.flags
      requires structs[r.freshTask].exitSignal < 0 ==>
                 r.current in structs && structs[r.current] == k0.structs[r.current]
      requires signals == if CLONE_THREAD !in r.flags then NewSignal(k0, r) else k0.signals
      modifies this`signals, this`nrThreads
      ensures signals == TakeSignal(k0, r) && nrThreads == old(nrThreads) + 1
    {
      if structs[r.freshTask].exitSignal >= 0 {
        if r.childReaper {
          var s := structs[r.freshTask].signal;
          signals := signals[s := signals[s].(unkillable := true)];
        }
      } else {
        var s := structs[r.current].signal;
        signals := signals[s := signals[s].(nrThreads := signals[s].nrThreads + 1)];
        signals := signals[s := signals[s].(live := signals[s].live + 1)];
        signals := signals[s := signals[s].(sigcnt := signals[s].sigcnt + 1)];
      }
      nrThreads := nrThreads + 1;
    }

    /** From "ok, now we should be set up" to the return, with the allocator's hook as the last word. */
    method Publish(r: Request, ghost k0: State)
      requires On(k0, r, 14)
      modifies this
      ensures S() == Forked(k0, r)
    {
      hide Parts, TakeSignal, Inv;
      PartsSettled(r);
      SetIdentity(r, k0);
      Attach(r, k0);
      totalForks := totalForks + 1;
      structs := structs[r.freshTask := structs[r.freshTask].(tsoMm := 0)];
    }

    // ----- copy_process, in four stretches of one ladder -----
    // A label closes the block that may jump to it; the undo code below it falls through outwards.

    /** From copy_namespaces to the return, and the ladder above bad_fork_cleanup_mm. */
    method Finish(r: Request, ghost k0: State) returns (err: int)
      requires On(k0, r, 11)
      modifies this
      ensures err == FinishError(r)
      ensures if err == 0 then S() == Forked(k0, r) else Holds(k0, r, 11)
    {
      hide Stage, Partial, Ready, Inv, Forked, Parts, BadFlags, Sane, Child;
      label bad_fork_cleanup_mm: {
        err := r.fail(COPY_NAMESPACES);
        if err != 0 { break bad_fork_cleanup_mm; }
        Own(NAMESPACES, r, 11, k0);
        label bad_fork_cleanup_namespaces: {
          err := CopyIo(r, k0);
          if err != 0 { break bad_fork_cleanup_namespaces; }
          label bad_fork_cleanup_io: {
            err := r.fail(COPY_THREAD);
            if err != 0 { break bad_fork_cleanup_io; }
            err := r.fail(ALLOC_PID);
            if err != 0 { break bad_fork_cleanup_io; }
            AllocPid(r, k0);
            label bad_fork_free_pid: {
              if r.signalPending {
                err := ERESTARTNOINTR;
                break bad_fork_free_pid;
              }
              Publish(r, k0);
              return 0;
            }
            FreePid(r, k0);
          }
          ExitIo(r, k0);
        }
        Disown(NAMESPACES, r, 11, k0);
      }
    }

    /** From copy_files to copy_mm, and the ladder between bad_fork_cleanup_mm and bad_fork_cleanup_semundo. */
    method CopyShared(r: Request, ghost k0: State) returns (err: int)
      requires On(k0, r, 6)
      modifies this
      ensures err == First(CopyError(k0, r), FinishError(r))
      ensures if err == 0 then S() == Forked(k0, r) else Holds(k0, r, 6)
    {
      hide Stage, Partial, Ready, Inv, Forked, Parts, BadFlags, Sane, Child, FinishError;
      label bad_fork_cleanup_semundo: {
        err := CopyFiles(r, k0);
        if err != 0 { break bad_fork_cleanup_semundo; }
        label bad_fork_cleanup_files: {
          err := CopyFs(r, k0);
          if err != 0 { break bad_fork_cleanup_files; }
          label bad_fork_cleanup_fs: {
            err := CopySighand(r, k0);
            if err != 0 { break bad_fork_cleanup_fs; }
            label bad_fork_cleanup_sighand: {
              err := CopySignal(r, k0);
              if err != 0 { break bad_fork_cleanup_sighand; }
              label bad_fork_cleanup_signal: {
                err := CopyMm(r, k0);
                if err != 0 { break bad_fork_cleanup_signal; }
                err := Finish(r, k0);
                if err == 0 { return; }
                CleanupMm(r, k0);
              }
              CleanupSignal(r, k0);
            }
            CleanupSighand(r, k0);
          }
          ExitFs(r, k0);
        }
        ExitFiles(r, k0);
      }
    }

    /** From mpol_dup to copy_semundo, and the ladder between bad_fork_cleanup_semundo and
        bad_fork_cleanup_threadgroup_lock. */
    method SetUp(r: Request, ghost k0: State) returns (err: int)
      requires On(k0, r, 2)
      modifies this
      ensures err == First(SetupError(r), First(CopyError(k0, r), FinishError(r)))
      ensures if err == 0 then S() == Forked(k0, r) else Holds(k0, r, 2)
    {
      hide Stage, Partial, Ready, Inv, Forked, Parts, BadFlags, Sane, Child, CopyError, FinishError;
      label bad_fork_cleanup_threadgroup_lock: {
        err := r.fail(MPOL_DUP);
        if err != 0 { break bad_fork_cleanup_threadgroup_lock; }
        Own(MEMPOLICY, r, 2, k0);
        label bad_fork_cleanup_policy: {
          err := r.fail(SCHED_FORK);
          if err != 0 { break bad_fork_cleanup_policy; }
          err := r.fail(PERF_EVENT_INIT);
          if err != 0 { break bad_fork_cleanup_policy; }
          Own(PERF, r, 3, k0);
          label bad_fork_cleanup_perf: {
            err := r.fail(AUDIT_ALLOC);
            if err != 0 { break bad_fork_cleanup_perf; }
            Own(AUDIT, r, 4, k0);
            label bad_fork_cleanup_audit: {
              err := r.fail(COPY_SEMUNDO);
              if err != 0 { break bad_fork_cleanup_audit; }
              Own(SEMUNDO, r, 5, k0);
              err := CopyShared(r, k0);
              if err == 0 { return; }
              Disown(SEMUNDO, r, 5, k0);
            }
            Disown(AUDIT, r, 4, k0);
          }
          Disown(PERF, r, 3, k0);
        }
        Disown(MEMPOLICY, r, 2, k0);
      }
    }

    lemma CountersKept(r: Request, k0: State)
      requires On(k0, r, 1)
      ensures nrThreads == k0.nrThreads
    {
    }

    /** copy_process: one task more, or nothing changed. */
    method CopyProcess(r: Request) returns (err: int)
      requires Inv(S()) && Sane(S(), r)
      modifies this
      ensures S() == Processes.CopyProcess(old(S()), r) && Inv(S())
      ensures err == Verdict(old(S()), r)
      ensures err != 0 ==> S() == old(S())
      ensures err == 0 ==> structs.Keys == old(structs).Keys + {r.freshTask}
    {
      hide Stage, Partial, Ready, Inv, Forked, Parts, BadFlags, Sane, Child, SetupError, CopyError, FinishError;
      ghost var k0 := S();
      InvMakesReady(k0, r);
      CopyProcessKeepsInv(k0, r);
      AddsOneTask(k0, r);
      err := CheckFlags(r);
      if err != 0 {
        return;
      }
      label fork_out: {
        err := r.fail(SECURITY_TASK_CREATE);
        if err != 0 { break fork_out; }
        err := ENOMEM;
        if r.fail(DUP_TASK_STRUCT) != 0 { break fork_out; }
        DupTaskStruct(r);
        label bad_fork_free: {
          err := EAGAIN;
          if processes >= r.rlimitNproc && !r.overRlimitAllowed { break bad_fork_free; }
          err := r.fail(COPY_CREDS);
          if err < 0 { break bad_fork_free; }
          CopyCreds(r, k0);
          CountersKept(r, k0);
          label bad_fork_cleanup_count: {
            err := EAGAIN;
            if nrThreads >= r.maxThreads { break bad_fork_cleanup_count; }
            Own(DELAYACCT, r, 1, k0);
            err := SetUp(r, k0);
            if err == 0 { return; }
            Disown(DELAYACCT, r, 1, k0);
          }
          ExitCreds(r, k0);
        }
        FreeTask(r, k0);
      }
    }
  }
}
