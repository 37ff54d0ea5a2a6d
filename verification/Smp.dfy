/**
 * The kernel on several CPUs: kern/spinlock.c, kern/trap.c, kern/sched.c, the
 * environment life cycle of kern/env.c and blocking IPC of kern/syscall.c, as a state
 * machine.
 *
 * A step is one access to the lock, one xchg, one trap or return, or all that one kernel
 * entry does to envs[] and cpu_env: those are only touched under the lock, as MutualExclusion
 * below shows.
 */
module Smp {
  import opened Basics
  import opened Scheduler
  import opened Wrappers
  import EnvIds

  // ------------------------------------------------------------------- states

  /** A slot of envs[].  epoch counts its allocations. */
  datatype Env = Env(id: int, status: Status, recving: bool, wantsPage: bool, value: int, from: int, perm: int, epoch: nat)

  /** How a CPU got to the lock: at boot, from user mode, or from a halt. */
  datatype Entry = Boot | Syscall | Wake(user: bool)

  datatype Exit = ToUser | ToHalt

  /** Where a CPU is. */
  datatype Pc =
    | User                     // running the code of cpu_env
    | Idle                     // in sched_halt's loop
    | Entering(user: bool)     // in trap(), before the xchg on cpu_status
    | Check(k: Entry)          // in spin_lock, before holding() reads lock->locked
    | CheckCpu(k: Entry)       // holding() has seen lock->locked set
    | Spin(k: Entry)           // before the xchg on lock->locked
    | Acquired(k: Entry)       // after it, before lock->cpu is set
    | Kernel(k: Entry)         // between spin_lock and spin_unlock
    | Release(x: Exit)         // in spin_unlock, before holding()
    | ReleaseXchg(x: Exit)     // lock->cpu is cleared, before the xchg
    | Returning                // in env_pop_tf, before the iret
    | Monitor                  // no environment left: in the kernel monitor for good
    | Panic

  datatype Cpu = Cpu(pc: Pc, env: Option<nat>, halted: bool)

  /** A message that arrived, or an environment that started to wait for one. */
  datatype Event = Waits(slot: nat, epoch: nat) | Arrives(slot: nat, epoch: nat, value: int, from: int, perm: int)

  /** lock->locked, lock->cpu, cpus[] and envs[]; log is the history of IPC. */
  datatype State = State(locked: bool, holder: Option<nat>, cpus: seq<Cpu>, envs: seq<Env>, log: seq<Event>)

  function Statuses(s: State): Table
    requires |s.envs| == 1024
  {
    seq(1024, i requires 0 <= i < 1024 => s.envs[i].status)
  }

  function SetCpu(s: State, c: nat, cpu: Cpu): State
    requires c < |s.cpus|
  {
    s.(cpus := s.cpus[c := cpu])
  }

  function SetPc(s: State, c: nat, pc: Pc): State
    requires c < |s.cpus|
  {
    SetCpu(s, c, s.cpus[c].(pc := pc))
  }

  function SetEnv(s: State, j: nat, e: Env): State
    requires j < |s.envs|
  {
    s.(envs := s.envs[j := e])
  }

  // -------------------------------------------------- the lock and the entries

  /** One step of a CPU outside the critical section, or on its way in or out. */
  function LockStep(s: State, c: nat): State
    requires c < |s.cpus|
  {
    var cpu := s.cpus[c];
    match cpu.pc
    case User => SetPc(s, c, Entering(true))
    case Idle => SetPc(s, c, Entering(false))
    case Entering(user) =>
      var pc := if cpu.halted then Check(Wake(user)) else if user then Check(Syscall) else Kernel(Wake(false));
      SetCpu(s, c, cpu.(pc := pc, halted := false))
    case Check(k) => SetPc(s, c, if s.locked then CheckCpu(k) else Spin(k))
    case CheckCpu(k) => SetPc(s, c, if s.holder == Some(c) then Panic else Spin(k))
    case Spin(k) => if s.locked then s else SetPc(s.(locked := true), c, Acquired(k))
    case Acquired(k) =>
      var pc := if k == Wake(true) then Check(Syscall) else Kernel(k);
      SetPc(s.(holder := Some(c)), c, pc)
    case Kernel(_) => s
    case Release(x) =>
      if s.locked && s.holder == Some(c) then SetPc(s.(holder := None), c, ReleaseXchg(x)) else SetPc(s, c, Panic)
    case ReleaseXchg(x) => SetPc(s.(locked := false), c, if x == ToUser then Returning else Idle)
    case Returning => SetPc(s, c, User)
    case Monitor => s
    case Panic => s
  }

  // ------------------------------------------------- scheduling and environments

  /** env_run. */
  function EnvRun(s: State, c: nat, j: nat): State
    requires c < |s.cpus| && j < |s.envs| && (s.cpus[c].env.Some? ==> s.cpus[c].env.value < |s.envs|)
  {
    var cur := s.cpus[c].env;
    if cur.Some? && s.envs[cur.value].id == s.envs[j].id then SetPc(s, c, Release(ToUser))
    else
      var s1 := if cur.Some? && s.envs[cur.value].status == Running
                then SetEnv(s, cur.value, s.envs[cur.value].(status := Runnable)) else s;
      SetCpu(SetEnv(s1, j, s1.envs[j].(status := Running)), c, s.cpus[c].(pc := Release(ToUser), env := Some(j)))
  }

  /** sched_halt. */
  function Halt(s: State, c: nat): State
    requires c < |s.cpus|
  {
    if forall j | 0 <= j < |s.envs| :: s.envs[j].status == Free || s.envs[j].status == NotRunnable
    then SetPc(s, c, Monitor)
    else SetCpu(s, c, Cpu(Release(ToHalt), None, true))
  }

  /** sched_yield. */
  function Yield(s: State, c: nat): State
    requires c < |s.cpus| && |s.envs| == 1024 && (s.cpus[c].env.Some? ==> s.cpus[c].env.value < 1024)
  {
    var cur := s.cpus[c].env;
    var j := Choose(Statuses(s), if cur.Some? then cur.value else 0);
    if j >= 0 then EnvRun(s, c, j)
    else if cur.Some? && s.envs[cur.value].status == Running then EnvRun(s, c, cur.value)
    else Halt(s, c)
  }

  /** env_free, and the clearing of cpu_env that follows where cpu_env is freed. */
  function FreeCurrent(s: State, c: nat): State
    requires c < |s.cpus| && s.cpus[c].env.Some? && s.cpus[c].env.value < |s.envs|
  {
    var j := s.cpus[c].env.value;
    SetCpu(SetEnv(s, j, s.envs[j].(status := Free)), c, s.cpus[c].(env := None))
  }

  /** env_alloc of slot j. */
  function Alloc(s: State, j: nat, status: Status): State
    requires j < |s.envs|
  {
    var e := s.envs[j];
    SetEnv(s, j, e.(id := EnvIds.NextId(e.id, j), status := status, recving := false, epoch := e.epoch + 1))
  }

  /** What a sender offers: nothing, a page with some permissions, bad arguments, or a page there is no table for. */
  datatype Offer = NoPage | Page(perm: int) | BadPage | NoRoom(perm: int)

  /** What a kernel entry is about. */
  datatype Op =
    | Other                              // anything that leaves envs[] and cpu_env alone
    | Resched                            // sys_yield, or the clock
    | Exofork(j: nat)
    | Create(j: nat)
    | SetStatus(j: nat, status: Status)
    | Destroy(j: nat)
    | Recv(wantsPage: bool)
    | Send(j: nat, value: int, offer: Offer)

  /** sys_ipc_try_send fails. */
  predicate SendFails(e: Env, offer: Offer) {
    !e.recving || offer == BadPage || (offer.NoRoom? && e.wantsPage)
  }

  function SentPerm(e: Env, offer: Offer): int {
    if offer.Page? && e.wantsPage then offer.perm else 0
  }

  function Deliver(s: State, c: nat, j: nat, value: int, offer: Offer): State
    requires c < |s.cpus| && j < |s.envs| && s.cpus[c].env.Some? && s.cpus[c].env.value < |s.envs|
  {
    var e, from := s.envs[j], s.envs[s.cpus[c].env.value].id;
    var perm := SentPerm(e, offer);
    SetEnv(s, j, e.(recving := false, value := value, from := from, perm := perm, status := Runnable))
      .(log := s.log + [Arrives(j, e.epoch, value, from, perm)])
  }

  /** trap, from just after the lock is taken to the start of spin_unlock. */
  function KernelStep(s: State, c: nat, op: Op): State
    requires c < |s.cpus| && |s.envs| == 1024 && s.cpus[c].pc.Kernel?
    requires s.cpus[c].env.Some? ==> s.cpus[c].env.value < 1024
    requires CanDo(s, c, op)
  {
    if s.cpus[c].pc.k == Syscall then
      if s.cpus[c].env == None then SetPc(s, c, Panic)
      else if s.envs[s.cpus[c].env.value].status == Dying then Yield(FreeCurrent(s, c), c)
      else Dispatch(s, c, op)
    else if s.cpus[c].pc.k == Boot && op.Create? then Alloc(s, op.j, Runnable)
    else Yield(s, c)
  }

  /** The end of trap: back to cpu_env if that makes sense. */
  function Resume(s: State, c: nat): State
    requires c < |s.cpus| && |s.envs| == 1024 && (s.cpus[c].env.Some? ==> s.cpus[c].env.value < 1024)
  {
    var cur := s.cpus[c].env;
    if cur.Some? && s.envs[cur.value].status == Running then EnvRun(s, c, cur.value) else Yield(s, c)
  }

  /** trap_dispatch and the end of trap. */
  function Dispatch(s: State, c: nat, op: Op): State
    requires c < |s.cpus| && |s.envs| == 1024 && s.cpus[c].env.Some? && s.cpus[c].env.value < 1024
    requires CanDo(s, c, op)
  {
    var cur := s.cpus[c].env.value;
    match op
    case Other => Resume(s, c)
    case Resched => Yield(s, c)
    case Exofork(j) => Resume(Alloc(s, j, NotRunnable), c)
    case Create(j) => Resume(Alloc(s, j, Runnable), c)
    case SetStatus(j, status) => Resume(SetEnv(s, j, s.envs[j].(status := status)), c)
    case Destroy(j) =>
      if s.envs[j].status == Running && j != cur then Resume(SetEnv(s, j, s.envs[j].(status := Dying)), c)
      else if j == cur then Yield(FreeCurrent(s, c), c)
      else Resume(SetEnv(s, j, s.envs[j].(status := Free)), c)
    case Recv(wantsPage) =>
      var e := s.envs[cur].(recving := true, wantsPage := wantsPage, status := NotRunnable);
      Yield(SetEnv(s, cur, e).(log := s.log + [Waits(cur, e.epoch)]), c)
    case Send(j, value, offer) =>
      if SendFails(s.envs[j], offer) then Resume(s, c) else Resume(Deliver(s, c, j, value, offer), c)
  }

  /** What the callers check first: slots come from the free list, and ids name environments that exist. */
  predicate CanDo(s: State, c: nat, op: Op)
  {
    match op
    case Exofork(j) => j < |s.envs| && s.envs[j].status == Free
    case Create(j) => j < |s.envs| && s.envs[j].status == Free
    case SetStatus(j, status) => j < |s.envs| && s.envs[j].status != Free && status in {Runnable, NotRunnable}
    case Destroy(j) => j < |s.envs| && s.envs[j].status != Free
    case Send(j, _, _) => j < |s.envs| && s.envs[j].status != Free
    case _ => true
  }

  predicate OtherRunnable(s: State, j: nat) {
    exists e | 0 <= e < |s.envs| :: e != j && s.envs[e].status == Runnable
  }

  /**
   * The guards under which the kernel is safe.  sys_env_set_status is used on an
   * environment that is on no CPU, and not to wake one that waits for a message; or by an
   * environment on itself, and then not to become RUNNABLE with no other RUNNABLE.
   * env_destroy is not used on one that is already dying.
   */
  predicate Guarded(s: State, c: nat, op: Op) {
    match op
    case SetStatus(j, status) =>
      c < |s.cpus| && j < |s.envs| ==>
        if s.cpus[c].env == Some(j) then status == NotRunnable || OtherRunnable(s, j)
        else s.envs[j].status !in {Running, Dying} && !(s.envs[j].recving && status == Runnable)
    case Destroy(j) => j < |s.envs| ==> s.envs[j].status != Dying
    case _ => true
  }

  /** A step of CPU c: op matters in the kernel. */
  function Step(s: State, c: nat, op: Op): State
    requires c < |s.cpus| && |s.envs| == 1024 && (s.cpus[c].env.Some? ==> s.cpus[c].env.value < 1024)
    requires CanDo(s, c, op)
  {
    if s.cpus[c].pc.Kernel? then KernelStep(s, c, op) else LockStep(s, c)
  }

  // --------------------------------------------------------------- the invariant

  /** Between the xchg that takes the lock and the one that gives it back. */
  predicate InLock(pc: Pc) {
    pc.Acquired? || pc.Kernel? || pc.Release? || pc.ReleaseXchg? || pc.Monitor?
  }

  /** Where lock->cpu is this CPU. */
  predicate Owns(pc: Pc) {
    pc.Kernel? || pc.Release? || pc.Monitor?
  }

  ghost predicate LockedBy(s: State, c: nat) {
    c < |s.cpus| && InLock(s.cpus[c].pc)
  }

  /** At most one CPU is inside, exactly when the lock is set; lock->cpu never names another. */
  ghost predicate LockOk(s: State) {
    && (s.locked <==> exists c {:trigger LockedBy(s, c)} :: LockedBy(s, c))
    && (forall c, d {:trigger LockedBy(s, c), LockedBy(s, d)} | LockedBy(s, c) && LockedBy(s, d) :: c == d)
    && (forall c | 0 <= c < |s.cpus| :: Owns(s.cpus[c].pc) <==> s.holder == Some(c))
    && (s.holder.Some? ==> s.holder.value < |s.cpus|)
  }

  /** The environment and the cpu_status that go with where a CPU is. */
  predicate Shape(cpu: Cpu) {
    match cpu.pc
    case User => cpu.env.Some? && !cpu.halted
    case Returning => cpu.env.Some? && !cpu.halted
    case Idle => cpu.env == None && cpu.halted
    case Entering(user) => if user then cpu.env.Some? && !cpu.halted else cpu.env == None && cpu.halted
    case Check(k) => EntryShape(cpu, k)
    case CheckCpu(k) => EntryShape(cpu, k)
    case Spin(k) => EntryShape(cpu, k)
    case Acquired(k) => EntryShape(cpu, k)
    case Kernel(k) => EntryShape(cpu, k)
    case Release(x) => if x == ToUser then cpu.env.Some? && !cpu.halted else cpu.env == None && cpu.halted
    case ReleaseXchg(x) => if x == ToUser then cpu.env.Some? && !cpu.halted else cpu.env == None && cpu.halted
    case Monitor => true
    case Panic => false
  }

  predicate EntryShape(cpu: Cpu, k: Entry) {
    !cpu.halted && (if k == Syscall then cpu.env.Some? else cpu.env == None && k != Wake(true))
  }

  /** The environment of a CPU is RUNNING or DYING, never freed. */
  predicate CpuOk(s: State, c: nat)
    requires |s.envs| == 1024
  {
    c < |s.cpus| ==>
      && Shape(s.cpus[c])
      && (s.cpus[c].env.Some? ==>
            s.cpus[c].env.value < 1024 &&
            (!s.cpus[c].pc.Monitor? ==> s.envs[s.cpus[c].env.value].status in {Running, Dying}))
  }

  /** No two CPUs have the same environment. */
  ghost predicate OneCpuEach(s: State) {
    forall c, d | 0 <= c < |s.cpus| && 0 <= d < |s.cpus| && s.cpus[c].env.Some? && s.cpus[c].env == s.cpus[d].env :: c == d
  }

  ghost predicate OnCpu(s: State, j: nat) {
    exists c {:trigger s.cpus[c]} :: 0 <= c < |s.cpus| && s.cpus[c].env == Some(j)
  }

  ghost predicate EnvOk(s: State, j: nat)
    requires |s.envs| == 1024
  {
    j < 1024 ==>
      && (s.envs[j].status in {Running, Dying} ==> OnCpu(s, j))
      && (s.envs[j].status != Free ==> s.envs[j].epoch > 0)
      && s.envs[j].id == EnvIds.NthId(j, s.envs[j].epoch)
      && (s.envs[j].recving && s.envs[j].status != Free ==> s.envs[j].status == NotRunnable)
  }

  ghost predicate Safe(s: State) {
    && |s.envs| == 1024 && LockOk(s) && OneCpuEach(s)
    && (forall c: nat {:trigger CpuOk(s, c)} :: CpuOk(s, c))
    && (forall j: nat {:trigger EnvOk(s, j)} :: EnvOk(s, j))
  }

  // --------------------------------------------------------------- lock steps

  /** Replacing CPU c's place, with the lock in the right state, keeps everything else. */
  lemma MoveSafe(s: State, c: nat, s': State)
    requires Safe(s) && c < |s.cpus| && !s.cpus[c].pc.Monitor?
    requires |s'.cpus| == |s.cpus| && s'.cpus == s.cpus[c := s'.cpus[c]] && s'.envs == s.envs
    requires s'.cpus[c].env == s.cpus[c].env && Shape(s'.cpus[c]) && LockOk(s')
    ensures Safe(s')
  {
    assert CpuOk(s, c);
    forall d: nat ensures CpuOk(s', d) {
      assert CpuOk(s, d);
    }
    forall j: nat ensures EnvOk(s', j) {
      assert EnvOk(s, j);
      if OnCpu(s, j) {
        var d :| 0 <= d < |s.cpus| && s.cpus[d].env == Some(j);
        assert s'.cpus[d].env == Some(j);
      }
    }
  }

  /** A step outside the lock that stays outside. */
  lemma OutsideLockOk(s: State, c: nat, s': State)
    requires LockOk(s) && c < |s.cpus| && |s'.cpus| == |s.cpus| && s'.cpus == s.cpus[c := s'.cpus[c]]
    requires s'.locked == s.locked && s'.holder == s.holder
    requires InLock(s'.cpus[c].pc) == InLock(s.cpus[c].pc) && Owns(s'.cpus[c].pc) == Owns(s.cpus[c].pc)
    ensures LockOk(s')
  {
    forall d: nat ensures LockedBy(s', d) == LockedBy(s, d) {
    }
    if s.locked {
      var d :| LockedBy(s, d);
      assert LockedBy(s', d);
    }
  }

  lemma AcquireOk(s: State, c: nat, pc: Pc)
    requires LockOk(s) && c < |s.cpus| && !s.locked && pc.Acquired?
    ensures LockOk(SetPc(s.(locked := true), c, pc))
  {
    var s' := SetPc(s.(locked := true), c, pc);
    assert !LockedBy(s, c);
    forall d: nat | LockedBy(s', d) ensures d == c {
      assert !LockedBy(s, d);
    }
    assert LockedBy(s', c);
  }

  lemma ReleaseOk(s: State, c: nat, pc: Pc)
    requires LockOk(s) && c < |s.cpus| && s.cpus[c].pc.ReleaseXchg? && !InLock(pc)
    ensures LockOk(SetPc(s.(locked := false), c, pc))
  {
    var s' := SetPc(s.(locked := false), c, pc);
    assert LockedBy(s, c);
    forall d: nat ensures !LockedBy(s', d) {
      assert LockedBy(s', d) ==> LockedBy(s, d);
    }
  }

  lemma HolderOk(s: State, c: nat, pc: Pc, holder: Option<nat>)
    requires LockOk(s) && c < |s.cpus| && InLock(s.cpus[c].pc) && InLock(pc)
    requires holder == if Owns(pc) then Some(c) else None
    ensures LockOk(SetPc(s.(holder := holder), c, pc))
  {
    var s' := SetPc(s.(holder := holder), c, pc);
    assert LockedBy(s, c) && LockedBy(s', c);
    forall d: nat | LockedBy(s', d) ensures LockedBy(s, d) {
    }
    forall d: nat | d < |s.cpus| && d != c ensures !Owns(s.cpus[d].pc) {
      assert Owns(s.cpus[d].pc) ==> LockedBy(s, d);
    }
  }

  lemma InsideStepSafe(s: State, c: nat)
    requires Safe(s) && c < |s.cpus| && (s.cpus[c].pc.Acquired? || s.cpus[c].pc.Release? || s.cpus[c].pc.ReleaseXchg?)
    ensures Safe(LockStep(s, c))
  {
    var cpu, s' := s.cpus[c], LockStep(s, c);
    assert CpuOk(s, c);
    match cpu.pc {
      case Acquired(k) =>
        HolderOk(s, c, Kernel(k), Some(c));
        MoveSafe(s, c, s');
      case Release(x) =>
        assert LockedBy(s, c);
        HolderOk(s, c, ReleaseXchg(x), None);
        MoveSafe(s, c, s');
      case ReleaseXchg(x) =>
        ReleaseOk(s, c, if x == ToUser then Returning else Idle);
        MoveSafe(s, c, s');
    }
  }

  lemma EntryStepSafe(s: State, c: nat)
    requires Safe(s) && c < |s.cpus|
    requires s.cpus[c].pc.Entering? || s.cpus[c].pc.Check? || s.cpus[c].pc.CheckCpu? || s.cpus[c].pc.Spin?
    ensures Safe(LockStep(s, c))
  {
    var cpu, s' := s.cpus[c], LockStep(s, c);
    assert CpuOk(s, c);
    if cpu.pc.Spin? {
      if !s.locked {
        AcquireOk(s, c, Acquired(cpu.pc.k));
        MoveSafe(s, c, s');
      }
    } else {
      OutsideLockOk(s, c, s');
      MoveSafe(s, c, s');
    }
  }

  /** Steps of the lock and of the kernel entry keep the kernel safe; no panic of spinlock.c is reached. */
  lemma LockStepSafe(s: State, c: nat)
    requires Safe(s) && c < |s.cpus|
    ensures Safe(LockStep(s, c))
  {
    var pc := s.cpus[c].pc;
    if pc.Acquired? || pc.Release? || pc.ReleaseXchg? {
      InsideStepSafe(s, c);
    } else if pc.Entering? || pc.Check? || pc.CheckCpu? || pc.Spin? {
      EntryStepSafe(s, c);
    } else if pc.User? || pc.Idle? || pc.Returning? {
      assert CpuOk(s, c);
      OutsideLockOk(s, c, LockStep(s, c));
      MoveSafe(s, c, LockStep(s, c));
    } else {
      assert CpuOk(s, c);
    }
  }

  // -------------------------------------------------------------- kernel steps

  /** In the middle of the kernel: the CPU's environment is RUNNING, waits for a message, or is gone. */
  ghost predicate Mid(s: State, c: nat) {
    && |s.envs| == 1024 && c < |s.cpus| && s.cpus[c].pc.Kernel? && !s.cpus[c].halted
    && LockOk(s) && OneCpuEach(s)
    && (forall d: nat {:trigger CpuOk(s, d)} | d != c :: CpuOk(s, d))
    && (forall j: nat {:trigger EnvOk(s, j)} :: EnvOk(s, j))
    && (s.cpus[c].env.Some? ==>
          s.cpus[c].env.value < 1024 && s.envs[s.cpus[c].env.value].status in {Running, NotRunnable})
  }

  /** The environments of the other CPUs are RUNNING or DYING, and not this CPU's. */
  lemma OtherCpu(s: State, c: nat, d: nat)
    requires Mid(s, c) && d < |s.cpus| && d != c && s.cpus[d].env.Some?
    ensures s.cpus[d].env.value < 1024 && s.envs[s.cpus[d].env.value].status in {Running, Dying}
    ensures s.cpus[d].env != s.cpus[c].env
  {
    assert CpuOk(s, d);
    assert LockedBy(s, c) && (LockedBy(s, d) ==> c == d);
  }

  /** Two environments that exist have the same id only if they are in the same slot. */
  lemma IdTellsSlot(s: State, i: nat, j: nat)
    requires |s.envs| == 1024 && i < 1024 && j < 1024 && EnvOk(s, i) && EnvOk(s, j)
    requires s.envs[i].status != Free && s.envs[j].status != Free && s.envs[i].id == s.envs[j].id
    ensures i == j
  {
    EnvIds.IssuedIdIsWellFormed(i, s.envs[i].epoch);
    EnvIds.IssuedIdIsWellFormed(j, s.envs[j].epoch);
  }

  /** What env_run and sched_halt do to the rest, given what becomes of this CPU's environment. */
  lemma LeaveSafe(s: State, c: nat, s': State)
    requires Mid(s, c) && |s'.envs| == 1024 && s'.locked == s.locked && s'.holder == s.holder
    requires |s'.cpus| == |s.cpus| && s'.cpus == s.cpus[c := s'.cpus[c]]
    requires InLock(s'.cpus[c].pc) && Owns(s'.cpus[c].pc) && CpuOk(s', c)
    requires forall d | 0 <= d < |s.cpus| && d != c && s.cpus[d].env.Some? ::
               s.cpus[d].env.value < 1024 && s'.envs[s.cpus[d].env.value] == s.envs[s.cpus[d].env.value]
               && s'.cpus[c].env != s.cpus[d].env
    requires forall j: nat {:trigger EnvOk(s', j)} :: EnvOk(s', j)
    ensures Safe(s')
  {
    OutsideLockOk(s, c, s');
    forall d: nat ensures CpuOk(s', d) {
      if d != c {
        assert CpuOk(s, d);
      }
    }
  }

  lemma StillOn(s: State, s': State, c: nat, j: nat)
    requires c < |s.cpus| && |s'.cpus| == |s.cpus| && s'.cpus == s.cpus[c := s'.cpus[c]] && OnCpu(s, j) && s.cpus[c].env != Some(j)
    ensures OnCpu(s', j)
  {
    var d :| 0 <= d < |s.cpus| && s.cpus[d].env == Some(j);
    assert s'.cpus[d].env == Some(j);
  }

  lemma EnvRunSafe(s: State, c: nat, j: nat)
    requires Mid(s, c) && j < 1024
    requires s.envs[j].status == Runnable || (s.cpus[c].env == Some(j) && s.envs[j].status == Running)
    ensures Safe(EnvRun(s, c, j))
  {
    var cur, s' := s.cpus[c].env, EnvRun(s, c, j);
    assert EnvOk(s, j);
    if cur.Some? {
      assert EnvOk(s, cur.value);
      if s.envs[cur.value].id == s.envs[j].id {
        IdTellsSlot(s, cur.value, j);
      }
    }
    forall d | 0 <= d < |s.cpus| && d != c && s.cpus[d].env.Some?
      ensures s.cpus[d].env.value < 1024 && s'.envs[s.cpus[d].env.value] == s.envs[s.cpus[d].env.value]
      ensures s'.cpus[c].env != s.cpus[d].env
    {
      OtherCpu(s, c, d);
    }
    forall i: nat ensures EnvOk(s', i) {
      assert EnvOk(s, i);
      if i < 1024 && s'.envs[i].status in {Running, Dying} {
        if i == j {
          assert s'.cpus[c].env == Some(j);
        } else if cur != Some(i) {
          StillOn(s, s', c, i);
        }
      }
    }
    LeaveSafe(s, c, s');
  }

  lemma HaltSafe(s: State, c: nat)
    requires Mid(s, c) && (s.cpus[c].env.Some? ==> s.envs[s.cpus[c].env.value].status == NotRunnable)
    ensures Safe(Halt(s, c)) && |Halt(s, c).cpus| == |s.cpus|
    ensures Halt(s, c).cpus[c].pc.Monitor? <==> forall j | 0 <= j < 1024 :: s.envs[j].status == Free || s.envs[j].status == NotRunnable
    ensures !Halt(s, c).cpus[c].pc.Monitor? ==> Halt(s, c).cpus[c] == Cpu(Release(ToHalt), None, true)
  {
    var s' := Halt(s, c);
    forall d | 0 <= d < |s.cpus| && d != c && s.cpus[d].env.Some?
      ensures s.cpus[d].env.value < 1024 && s'.cpus[c].env != s.cpus[d].env
    {
      OtherCpu(s, c, d);
    }
    forall i: nat ensures EnvOk(s', i) {
      assert EnvOk(s, i);
      if i < 1024 && s'.envs[i].status in {Running, Dying} {
        StillOn(s, s', c, i);
      }
    }
    LeaveSafe(s, c, s');
  }

  lemma YieldSafe(s: State, c: nat)
    requires Mid(s, c)
    ensures Safe(Yield(s, c))
  {
    var cur := s.cpus[c].env;
    var j := Choose(Statuses(s), if cur.Some? then cur.value else 0);
    if j >= 0 {
      assert Statuses(s)[j] == Runnable;
      EnvRunSafe(s, c, j);
    } else if cur.Some? && s.envs[cur.value].status == Running {
      EnvRunSafe(s, c, cur.value);
    } else {
      HaltSafe(s, c);
    }
  }

  lemma ResumeSafe(s: State, c: nat)
    requires Mid(s, c)
    ensures Safe(Resume(s, c))
  {
    var cur := s.cpus[c].env;
    if cur.Some? && s.envs[cur.value].status == Running {
      EnvRunSafe(s, c, cur.value);
    } else {
      YieldSafe(s, c);
    }
  }

  /** On entry to the kernel with an environment that is not dying, or with none. */
  lemma SafeIsMid(s: State, c: nat)
    requires Safe(s) && c < |s.cpus| && s.cpus[c].pc.Kernel?
    requires s.cpus[c].env.Some? && s.cpus[c].env.value < 1024 ==> s.envs[s.cpus[c].env.value].status != Dying
    ensures Mid(s, c)
  {
    assert CpuOk(s, c);
  }

  /** An environment that is neither RUNNING nor DYING is on no other CPU. */
  lemma OffOtherCpus(s: State, c: nat, j: nat)
    requires Mid(s, c) && j < 1024 && s.envs[j].status !in {Running, Dying}
    ensures forall d | 0 <= d < |s.cpus| && d != c :: s.cpus[d].env != Some(j)
  {
    forall d | 0 <= d < |s.cpus| && d != c ensures s.cpus[d].env != Some(j) {
      if s.cpus[d].env.Some? {
        OtherCpu(s, c, d);
      }
    }
  }

  /** Replacing one environment record. */
  lemma EditMid(s: State, c: nat, j: nat, e: Env, s': State)
    requires Mid(s, c) && j < 1024 && s' == SetEnv(s, j, e).(log := s'.log)
    requires e.id == EnvIds.NthId(j, e.epoch) && (e.status != Free ==> e.epoch > 0)
    requires e.recving && e.status != Free ==> e.status == NotRunnable
    requires e.status in {Running, Dying} ==> OnCpu(s, j)
    requires e.status in {Running, Dying} || s.envs[j].status !in {Running, Dying} || s.cpus[c].env == Some(j)
    requires s.cpus[c].env == Some(j) ==> e.status in {Running, NotRunnable}
    ensures Mid(s', c)
  {
    if s.envs[j].status !in {Running, Dying} {
      OffOtherCpus(s, c, j);
    }
    forall d: nat | d != c ensures CpuOk(s', d) {
      assert CpuOk(s, d);
      if d < |s.cpus| && s.cpus[d].env.Some? {
        OtherCpu(s, c, d);
      }
    }
    forall i: nat ensures EnvOk(s', i) {
      assert EnvOk(s, i);
      if i < 1024 && OnCpu(s, i) {
        var d :| 0 <= d < |s.cpus| && s.cpus[d].env == Some(i);
        assert s'.cpus[d].env == Some(i);
      }
    }
    assert forall d: nat :: LockedBy(s', d) == LockedBy(s, d);
  }

  /** A CPU frees its own environment: it is on no other, so nothing else notices. */
  lemma FreeCurrentMid(s: State, c: nat)
    requires Safe(s) && c < |s.cpus| && s.cpus[c].pc.Kernel? && s.cpus[c].env.Some? && s.cpus[c].env.value < 1024
    ensures Mid(FreeCurrent(s, c), c)
  {
    var j, s' := s.cpus[c].env.value, FreeCurrent(s, c);
    assert CpuOk(s, c) && LockedBy(s, c);
    forall d: nat | d != c ensures CpuOk(s', d) {
      assert CpuOk(s, d);
      assert LockedBy(s, d) ==> d == c;
    }
    forall i: nat ensures EnvOk(s', i) {
      assert EnvOk(s, i);
      if i < 1024 && s'.envs[i].status in {Running, Dying} {
        StillOn(s, s', c, i);
      }
    }
    OutsideLockOk(s, c, s');
  }

  lemma AllocMid(s: State, c: nat, j: nat, status: Status)
    requires Mid(s, c) && j < 1024 && s.envs[j].status == Free && status in {Runnable, NotRunnable}
    ensures Mid(Alloc(s, j, status), c)
  {
    assert EnvOk(s, j);
    var e := s.envs[j];
    EditMid(s, c, j, e.(id := EnvIds.NextId(e.id, j), status := status, recving := false, epoch := e.epoch + 1), Alloc(s, j, status));
  }

  /** Every system call ends in sched_yield or at the end of trap, from a state in which only this CPU is in the middle of something. */
  lemma DispatchVia(s: State, c: nat, op: Op) returns (s1: State)
    requires Safe(s) && c < |s.cpus| && s.cpus[c].pc.Kernel? && s.cpus[c].env.Some? && s.cpus[c].env.value < 1024
    requires s.envs[s.cpus[c].env.value].status != Dying && CanDo(s, c, op) && Guarded(s, c, op)
    ensures Mid(s1, c) && (Dispatch(s, c, op) == Yield(s1, c) || Dispatch(s, c, op) == Resume(s1, c))
  {
    SafeIsMid(s, c);
    assert CpuOk(s, c);
    var cur := s.cpus[c].env.value;
    assert s.envs[cur].status == Running && EnvOk(s, cur);
    s1 := s;
    match op {
      case Other =>
      case Resched =>
      case Exofork(j) =>
        AllocMid(s, c, j, NotRunnable);
        s1 := Alloc(s, j, NotRunnable);
      case Create(j) =>
        AllocMid(s, c, j, Runnable);
        s1 := Alloc(s, j, Runnable);
      case SetStatus(j, status) => s1 := SetStatusVia(s, c, j, status);
      case Destroy(j) => s1 := DestroyVia(s, c, j);
      case Recv(wantsPage) =>
        var e := s.envs[cur].(recving := true, wantsPage := wantsPage, status := NotRunnable);
        s1 := SetEnv(s, cur, e).(log := s.log + [Waits(cur, e.epoch)]);
        EditMid(s, c, cur, e, s1);
      case Send(j, value, offer) => s1 := SendVia(s, c, j, value, offer);
    }
  }

  lemma DispatchSafe(s: State, c: nat, op: Op)
    requires Safe(s) && c < |s.cpus| && s.cpus[c].pc.Kernel? && s.cpus[c].env.Some? && s.cpus[c].env.value < 1024
    requires s.envs[s.cpus[c].env.value].status != Dying && CanDo(s, c, op) && Guarded(s, c, op)
    ensures Safe(Dispatch(s, c, op))
  {
    var s1 := DispatchVia(s, c, op);
    YieldSafe(s1, c);
    ResumeSafe(s1, c);
  }

  lemma SetStatusVia(s: State, c: nat, j: nat, status: Status) returns (s1: State)
    requires Mid(s, c) && CanDo(s, c, SetStatus(j, status)) && Guarded(s, c, SetStatus(j, status))
    requires s.cpus[c].env.Some? && s.envs[s.cpus[c].env.value].status == Running
    ensures Mid(s1, c) && (Dispatch(s, c, SetStatus(j, status)) == Yield(s1, c) || Dispatch(s, c, SetStatus(j, status)) == Resume(s1, c))
  {
    assert EnvOk(s, j);
    var e := s.envs[j].(status := status);
    if s.cpus[c].env == Some(j) && status == Runnable {
      SelfRunnable(s, c);
      s1 := s;
    } else {
      s1 := SetEnv(s, j, e);
      EditMid(s, c, j, e, s1);
    }
  }

  /** An environment that makes itself RUNNABLE while another is: the same as a yield. */
  lemma SelfRunnable(s: State, c: nat)
    requires Mid(s, c) && s.cpus[c].env.Some? && s.envs[s.cpus[c].env.value].status == Running
    requires OtherRunnable(s, s.cpus[c].env.value)
    ensures var j := s.cpus[c].env.value;
            Yield(SetEnv(s, j, s.envs[j].(status := Runnable)), c) == Yield(s, c)
  {
    var cur := s.cpus[c].env.value;
    var s1 := SetEnv(s, cur, s.envs[cur].(status := Runnable));
    var e :| 0 <= e < |s.envs| && e != cur && s.envs[e].status == Runnable;
    assert Statuses(s1) == Statuses(s)[cur := Runnable];
    OwnIsLast(Statuses(s), cur, e);
    CloserEachTime(Statuses(s), cur, e);
    var j := Choose(Statuses(s), cur);
    assert s.envs[j].status == Runnable && EnvOk(s, j) && EnvOk(s, cur);
    assert s.envs[cur].id != s.envs[j].id by {
      if s.envs[cur].id == s.envs[j].id { IdTellsSlot(s, cur, j); }
    }
    assert s1.envs[j] == s.envs[j];
    assert EnvRun(s1, c, j).envs == EnvRun(s, c, j).envs;
  }

  lemma DestroyVia(s: State, c: nat, j: nat) returns (s1: State)
    requires Safe(s) && Mid(s, c) && CanDo(s, c, Destroy(j)) && s.envs[j].status != Dying
    requires s.cpus[c].env.Some? && s.envs[s.cpus[c].env.value].status == Running
    ensures Mid(s1, c) && (Dispatch(s, c, Destroy(j)) == Yield(s1, c) || Dispatch(s, c, Destroy(j)) == Resume(s1, c))
  {
    var cur := s.cpus[c].env.value;
    assert EnvOk(s, j);
    if j == cur {
      FreeCurrentMid(s, c);
      s1 := FreeCurrent(s, c);
    } else {
      var e := s.envs[j].(status := if s.envs[j].status == Running then Dying else Free);
      s1 := SetEnv(s, j, e);
      EditMid(s, c, j, e, s1);
    }
  }

  lemma SendVia(s: State, c: nat, j: nat, value: int, offer: Offer) returns (s1: State)
    requires Mid(s, c) && CanDo(s, c, Send(j, value, offer))
    requires s.cpus[c].env.Some? && s.envs[s.cpus[c].env.value].status == Running
    ensures Mid(s1, c) && Dispatch(s, c, Send(j, value, offer)) == Resume(s1, c)
  {
    if SendFails(s.envs[j], offer) {
      s1 := s;
    } else {
      assert EnvOk(s, j) && EnvOk(s, s.cpus[c].env.value);
      s1 := Deliver(s, c, j, value, offer);
      EditMid(s, c, j, s1.envs[j], s1);
    }
  }

  /** A kernel entry, from taking the lock to giving it back, keeps the kernel safe under the guards. */
  lemma KernelStepSafe(s: State, c: nat, op: Op)
    requires Safe(s) && c < |s.cpus| && s.cpus[c].pc.Kernel? && CanDo(s, c, op) && Guarded(s, c, op)
    ensures s.cpus[c].env.Some? ==> s.cpus[c].env.value < 1024
    ensures Safe(KernelStep(s, c, op))
  {
    assert CpuOk(s, c);
    if s.cpus[c].pc.k == Syscall {
      if s.envs[s.cpus[c].env.value].status == Dying {
        FreeCurrentMid(s, c);
        YieldSafe(FreeCurrent(s, c), c);
      } else {
        DispatchSafe(s, c, op);
      }
    } else {
      SafeIsMid(s, c);
      if s.cpus[c].pc.k == Boot && op.Create? {
        AllocMid(s, c, op.j, Runnable);
        BackToSafe(Alloc(s, op.j, Runnable), c);
      } else {
        YieldSafe(s, c);
      }
    }
  }

  lemma BackToSafe(s: State, c: nat)
    requires Mid(s, c) && s.cpus[c].env == None && CpuOk(s, c)
    ensures Safe(s)
  {
  }

  // ---------------------------------------------------------------------- runs

  /** At boot: every CPU is about to take the lock, and there are no environments. */
  ghost predicate Initial(s: State) {
    && !s.locked && s.holder == None && |s.envs| == 1024 && s.log == []
    && (forall c | 0 <= c < |s.cpus| :: s.cpus[c] == Cpu(Check(Boot), None, false))
    && (forall j | 0 <= j < 1024 ::
          s.envs[j].id == 0 && s.envs[j].status == Free && s.envs[j].epoch == 0 && !s.envs[j].recving)
  }

  datatype Move = Move(c: nat, op: Op)

  ghost predicate StepOk(s: State, m: Move, s': State) {
    && m.c < |s.cpus| && |s.envs| == 1024 && (s.cpus[m.c].env.Some? ==> s.cpus[m.c].env.value < 1024)
    && CanDo(s, m.c, m.op) && Guarded(s, m.c, m.op) && s' == Step(s, m.c, m.op)
  }

  /** Any interleaving of the CPUs. */
  ghost predicate Execution(ss: seq<State>, ms: seq<Move>) {
    && |ss| == |ms| + 1 && Initial(ss[0])
    && forall i {:trigger ms[i]} | 0 <= i < |ms| :: StepOk(ss[i], ms[i], ss[i + 1])
  }

  lemma InitialSafe(s: State)
    requires Initial(s)
    ensures Safe(s)
  {
    forall c: nat ensures !LockedBy(s, c) && CpuOk(s, c) {
    }
    forall j: nat ensures EnvOk(s, j) {
    }
  }

  lemma StepSafe(s: State, m: Move, s': State)
    requires Safe(s) && StepOk(s, m, s')
    ensures Safe(s')
  {
    if s.cpus[m.c].pc.Kernel? {
      KernelStepSafe(s, m.c, m.op);
    } else {
      LockStepSafe(s, m.c);
    }
  }

  /** Every state of every interleaving is safe. */
  lemma {:induction false} AlwaysSafe(ss: seq<State>, ms: seq<Move>, i: nat)
    requires Execution(ss, ms) && i < |ss|
    ensures Safe(ss[i])
  {
    if i == 0 {
      InitialSafe(ss[0]);
    } else {
      AlwaysSafe(ss, ms, i - 1);
      assert StepOk(ss[i - 1], ms[i - 1], ss[i]);
      StepSafe(ss[i - 1], ms[i - 1], ss[i]);
    }
  }

  /**
   * What that means: at most one CPU is between lock and unlock; lock->cpu names only a
   * CPU that is; the panics of spinlock.c and the assertion on curenv cannot fail; no two
   * CPUs have the same environment; and a CPU in user mode runs an environment that is
   * RUNNING or DYING, so it has not been freed.
   */
  lemma MutualExclusion(ss: seq<State>, ms: seq<Move>, i: nat, c: nat, d: nat)
    requires Execution(ss, ms) && i < |ss| && c < |ss[i].cpus| && d < |ss[i].cpus|
    ensures var s := ss[i];
            && (InLock(s.cpus[c].pc) && InLock(s.cpus[d].pc) ==> c == d)
            && (InLock(s.cpus[c].pc) ==> s.locked)
            && (s.holder == Some(c) ==> InLock(s.cpus[c].pc))
            && s.cpus[c].pc != Panic
            && (s.cpus[c].pc == Kernel(Syscall) ==> s.cpus[c].env.Some?)
            && (s.cpus[c].env.Some? && s.cpus[c].env == s.cpus[d].env ==> c == d)
            && (s.cpus[c].pc == User ==>
                  s.cpus[c].env.Some? && s.cpus[c].env.value < |s.envs|
                  && s.envs[s.cpus[c].env.value].status in {Running, Dying})
  {
    AlwaysSafe(ss, ms, i);
    assert CpuOk(ss[i], c) && CpuOk(ss[i], d);
    assert LockedBy(ss[i], c) <==> InLock(ss[i].cpus[c].pc);
    assert LockedBy(ss[i], d) <==> InLock(ss[i].cpus[d].pc);
  }

  // ---------------------------------------------------------------- progress

  /** A CPU that finds the lock free and is not disturbed gets it and enters the kernel. */
  lemma AcquiresFreeLock(s: State, c: nat, k: Entry)
    requires Safe(s) && c < |s.cpus| && s.cpus[c].pc == Check(k) && !s.locked
    ensures LockStep(LockStep(LockStep(s, c), c), c) == SetPc(s.(locked := true, holder := Some(c)), c, Kernel(k))
  {
    assert CpuOk(s, c);
    var s1 := LockStep(s, c);
    assert s1 == SetPc(s, c, Spin(k));
    var s2 := LockStep(s1, c);
    assert s2.cpus == s.cpus[c := s.cpus[c].(pc := Acquired(k))];
    assert LockStep(s2, c).cpus == s.cpus[c := s.cpus[c].(pc := Kernel(k))];
  }

  /** A CPU that leaves the kernel gives the lock back and goes where it was bound. */
  lemma ReleasesLock(s: State, c: nat, x: Exit)
    requires Safe(s) && c < |s.cpus| && s.cpus[c].pc == Release(x)
    ensures LockStep(LockStep(s, c), c) ==
            SetPc(s.(locked := false, holder := None), c, if x == ToUser then Returning else Idle)
  {
    assert LockedBy(s, c);
    var s1 := LockStep(s, c);
    assert s1.cpus == s.cpus[c := s.cpus[c].(pc := ReleaseXchg(x))];
    assert LockStep(s1, c).cpus == s.cpus[c := s.cpus[c].(pc := if x == ToUser then Returning else Idle)];
  }

  /** Where a CPU can be when it is through with the kernel. */
  ghost predicate Leaves(s: State, c: nat) {
    && |s.envs| == 1024 && c < |s.cpus|
    && var cpu := s.cpus[c];
       || (cpu.pc.Monitor? && forall j | 0 <= j < 1024 :: s.envs[j].status in {Free, NotRunnable})
       || (cpu.pc == Release(ToUser) && cpu.env.Some? && cpu.env.value < 1024 && s.envs[cpu.env.value].status == Running)
       || (&& cpu.pc == Release(ToHalt) && cpu.env == None && cpu.halted
           && (forall j | 0 <= j < 1024 :: s.envs[j].status != Runnable)
           && (exists j :: 0 <= j < 1024 && s.envs[j].status in {Running, Dying}))
  }

  lemma YieldLeaves(s: State, c: nat)
    requires Mid(s, c)
    ensures Leaves(Yield(s, c), c) && Leaves(Resume(s, c), c)
  {
    if exists e | 0 <= e < 1024 :: s.envs[e].status == Runnable {
      var e :| 0 <= e < 1024 && s.envs[e].status == Runnable;
      YieldTakesNext(s, c, e);
      YieldKeepsTable(s, c);
    } else {
      YieldStops(s, c);
    }
  }

  lemma YieldKeepsTable(s: State, c: nat)
    requires Mid(s, c)
    ensures |Yield(s, c).envs| == 1024 && |Yield(s, c).cpus| == |s.cpus|
  {
  }

  /**
   * How a kernel entry ends: in the monitor iff every environment is free or cannot run;
   * otherwise on the way to an environment that is RUNNING, or to a halt, with no
   * environment, nothing RUNNABLE and somebody RUNNING or DYING elsewhere.  (The boot CPU
   * goes on in the kernel after it has created an environment.)
   */
  lemma KernelLeaves(s: State, c: nat, op: Op)
    requires Safe(s) && c < |s.cpus| && s.cpus[c].pc.Kernel? && CanDo(s, c, op) && Guarded(s, c, op)
    ensures s.cpus[c].env.Some? ==> s.cpus[c].env.value < 1024
    ensures var s' := KernelStep(s, c, op);
            && Safe(s') && |s'.cpus| == |s.cpus|
            && (s'.cpus[c].pc.Monitor? <==> forall j | 0 <= j < 1024 :: s'.envs[j].status == Free || s'.envs[j].status == NotRunnable)
            && (s'.cpus[c].pc == Release(ToUser) ==>
                  s'.cpus[c].env.Some? && s'.cpus[c].env.value < 1024 && s'.envs[s'.cpus[c].env.value].status == Running)
            && (s'.cpus[c].pc == Release(ToHalt) ==>
                  && s'.cpus[c].env == None && s'.cpus[c].halted
                  && (forall j | 0 <= j < 1024 :: s'.envs[j].status != Runnable)
                  && (exists j :: 0 <= j < 1024 && (s'.envs[j].status == Running || s'.envs[j].status == Dying)))
            && (s'.cpus[c].pc.Monitor? || s'.cpus[c].pc.Release? || (s.cpus[c].pc.k == Boot && op.Create? && s'.cpus[c].pc.Kernel?))
  {
    KernelStepSafe(s, c, op);
    KernelOnlyCpu(s, c, op);
    assert CpuOk(s, c);
    var s' := KernelStep(s, c, op);
    if s.cpus[c].pc.k == Boot && op.Create? {
      assert s'.envs[op.j].status == Runnable;
    } else {
      EntryLeaves(s, c, op);
    }
  }

  lemma EntryLeaves(s: State, c: nat, op: Op)
    requires Safe(s) && c < |s.cpus| && s.cpus[c].pc.Kernel? && CanDo(s, c, op) && Guarded(s, c, op)
    requires s.cpus[c].pc.k != Boot || !op.Create?
    ensures s.cpus[c].env.Some? ==> s.cpus[c].env.value < 1024
    ensures Leaves(KernelStep(s, c, op), c)
  {
    assert CpuOk(s, c);
    if s.cpus[c].pc.k != Syscall {
      SafeIsMid(s, c);
      YieldLeaves(s, c);
    } else if s.envs[s.cpus[c].env.value].status == Dying {
      FreeCurrentMid(s, c);
      YieldLeaves(FreeCurrent(s, c), c);
    } else {
      var s1 := DispatchVia(s, c, op);
      YieldLeaves(s1, c);
    }
  }

  /** From a trap to the lock: the entry of trap and the steps of spin_lock. */
  function Enter(s: State, c: nat): State
    requires c < |s.cpus|
  {
    LockStep(LockStep(LockStep(LockStep(s, c), c), c), c)
  }

  /** The steps of spin_unlock. */
  function Unlock(s: State, c: nat): State
    requires c < |s.cpus|
  {
    LockStep(LockStep(s, c), c)
  }

  /** The CPU is in the kernel with the lock, and nothing else has happened since s. */
  ghost predicate Entered(s: State, s': State, c: nat) {
    && Safe(s') && c < |s.cpus| && c < |s'.cpus| && s.cpus[c].pc.Entering? && s'.envs == s.envs && s'.log == s.log
    && s'.cpus[c].pc == Kernel(if s.cpus[c].pc.user then Syscall else Wake(false)) && s'.cpus[c].env == s.cpus[c].env
    && (s'.cpus[c].env.Some? ==> s'.cpus[c].env.value < 1024) && s'.locked && s'.holder == Some(c)
  }

  lemma EnterWorks(s: State, c: nat)
    requires Safe(s) && c < |s.cpus| && s.cpus[c].pc.Entering? && !s.locked
    ensures Entered(s, Enter(s, c), c)
  {
    assert CpuOk(s, c);
    var k := if s.cpus[c].pc.user then Syscall else Wake(false);
    var t := LockStep(s, c);
    LockStepSafe(s, c);
    assert t.cpus[c].pc == Check(k);
    AcquiresFreeLock(t, c, k);
    LockStepSafe(t, c);
    LockStepSafe(LockStep(t, c), c);
    LockStepSafe(LockStep(LockStep(t, c), c), c);
    assert Enter(s, c) == SetPc(t.(locked := true, holder := Some(c)), c, Kernel(k));
  }

  /** The CPU is on its way to an environment or a halt, the lock is free, and nothing else has happened since s. */
  ghost predicate Done(s: State, s': State, c: nat) {
    Safe(s') && !s'.locked && s'.holder == None && s'.envs == s.envs && s'.log == s.log && c < |s'.cpus| && s'.cpus[c].pc in {Returning, Idle}
  }

  lemma UnlockWorks(s: State, c: nat)
    requires Safe(s) && c < |s.cpus| && s.cpus[c].pc.Release?
    ensures Done(s, Unlock(s, c), c)
  {
    ReleasesLock(s, c, s.cpus[c].pc.x);
    LockStepSafe(s, c);
    LockStepSafe(LockStep(s, c), c);
  }

  /**
   * A kernel entry completes: a CPU that traps while the lock is free, and is not disturbed,
   * takes the lock in four steps, does what it came for in one, and has given the lock
   * back two steps later, on its way to an environment that is RUNNING, or to a halt with
   * none; unless every environment is free or cannot run, and it stays in the monitor.
   */
  lemma EntryCompletes(s: State, c: nat, op: Op)
    requires Safe(s) && c < |s.cpus| && s.cpus[c].pc.Entering? && !s.locked && CanDo(s, c, op) && Guarded(s, c, op)
    ensures Entered(s, Enter(s, c), c) && CanDo(Enter(s, c), c, op)
    ensures var s' := KernelStep(Enter(s, c), c, op);
            && c < |s'.cpus| && Safe(s')
            && if forall j | 0 <= j < 1024 :: s'.envs[j].status == Free || s'.envs[j].status == NotRunnable
               then s'.cpus[c].pc.Monitor?
               else
                 var s'' := Unlock(s', c);
                 && c < |s''.cpus| && Done(s', s'', c)
                 && (s''.cpus[c].pc == Returning ==>
                       s''.cpus[c].env.Some? && s''.cpus[c].env.value < 1024 && s''.envs[s''.cpus[c].env.value].status == Running)
                 && (s''.cpus[c].pc == Idle ==> s''.cpus[c].env == None && s''.cpus[c].halted)
  {
    EnterWorks(s, c);
    KernelLeaves(Enter(s, c), c, op);
    var s' := KernelStep(Enter(s, c), c, op);
    if s'.cpus[c].pc.Release? {
      UnlockWorks(s', c);
      ReleasesLock(s', c, s'.cpus[c].pc.x);
    }
  }

  /**
   * The whole round trip: a CPU in user mode, or idle, that traps while the lock is free and
   * is not disturbed ends in user mode with an environment that is RUNNING, or idle with
   * none, and the lock is free again; unless every environment is free or cannot run.
   */
  lemma TrapRoundTrip(s: State, c: nat, op: Op) returns (trapped: State, inside: State, done: State, left: State, end: State)
    requires Safe(s) && c < |s.cpus| && (s.cpus[c].pc == User || s.cpus[c].pc == Idle) && !s.locked
    requires CanDo(s, c, op) && Guarded(s, c, op)
    ensures c < |trapped.cpus| && c < |inside.cpus| && c < |done.cpus| && c < |left.cpus| && c < |end.cpus|
    ensures |inside.envs| == |done.envs| == 1024 && CanDo(inside, c, op)
    ensures trapped == LockStep(s, c)
    ensures inside == Enter(trapped, c) && Entered(trapped, inside, c)
    ensures inside.cpus[c].pc == Kernel(if s.cpus[c].pc == User then Syscall else Wake(false))
    ensures done == KernelStep(inside, c, op)
    ensures (forall j | 0 <= j < 1024 :: done.envs[j].status == Free || done.envs[j].status == NotRunnable) ==> done.cpus[c].pc.Monitor?
    ensures !(forall j | 0 <= j < 1024 :: done.envs[j].status == Free || done.envs[j].status == NotRunnable) ==>
              && left == Unlock(done, c) && end == (if left.cpus[c].pc == Idle then left else LockStep(left, c))
              && !end.locked && end.envs == done.envs
              && ((&& end.cpus[c].pc == User && end.cpus[c].env.Some? && end.cpus[c].env.value < 1024
                   && end.envs[end.cpus[c].env.value].status == Running)
                  || (end.cpus[c].pc == Idle && end.cpus[c].env == None && end.cpus[c].halted))
  {
    assert CpuOk(s, c);
    trapped := LockStep(s, c);
    LockStepSafe(s, c);
    EntryCompletes(trapped, c, op);
    inside := Enter(trapped, c);
    done := KernelStep(inside, c, op);
    left, end := done, done;
    if exists j | 0 <= j < 1024 :: !(done.envs[j].status == Free || done.envs[j].status == NotRunnable) {
      left := Unlock(done, c);
      end := Arrive(left, c);
    }
  }

  /** The end of the way out: the iret, or the loop of sched_halt. */
  lemma Arrive(s: State, c: nat) returns (end: State)
    requires c < |s.cpus| && (s.cpus[c].pc == Returning || s.cpus[c].pc == Idle)
    ensures end == (if s.cpus[c].pc == Idle then s else LockStep(s, c)) && end.locked == s.locked && end.envs == s.envs
    ensures |end.cpus| == |s.cpus| && end.cpus[c] == s.cpus[c].(pc := if s.cpus[c].pc == Idle then Idle else User)
  {
    end := if s.cpus[c].pc == Idle then s else LockStep(s, c);
  }

  /** Every environment but these two is as it was. */
  ghost predicate OthersSame(s: State, s': State, a: Option<nat>, b: Option<nat>) {
    |s'.envs| == |s.envs| && forall e | 0 <= e < |s.envs| && Some(e) != a && Some(e) != b :: s'.envs[e] == s.envs[e]
  }

  function Descheduled(e: Env): Env {
    if e.status == Running then e.(status := Runnable) else e
  }

  /** env_run of a RUNNABLE environment: it runs, and the CPU's own becomes RUNNABLE if it was RUNNING. */
  lemma RunsIt(s: State, c: nat, j: nat)
    requires Mid(s, c) && j < 1024 && s.envs[j].status == Runnable
    ensures var s', cur := EnvRun(s, c, j), s.cpus[c].env;
            && s'.cpus[c] == s.cpus[c].(pc := Release(ToUser), env := Some(j))
            && s'.envs[j] == s.envs[j].(status := Running) && OthersSame(s, s', cur, Some(j))
            && (cur.Some? ==> cur != Some(j) && s'.envs[cur.value] == Descheduled(s.envs[cur.value]))
  {
    var cur := s.cpus[c].env;
    assert EnvOk(s, j);
    if cur.Some? {
      assert EnvOk(s, cur.value);
      if s.envs[cur.value].id == s.envs[j].id {
        IdTellsSlot(s, cur.value, j);
      }
    }
  }

  /**
   * sched_yield when something is RUNNABLE: the CPU takes the first such environment
   * after its own in circular order.
   */
  lemma YieldTakesNext(s: State, c: nat, e: nat)
    requires Mid(s, c) && e < 1024 && s.envs[e].status == Runnable
    ensures var s', cur := Yield(s, c), s.cpus[c].env;
            var at := if cur.Some? then cur.value else 0;
            && s'.cpus[c].pc == Release(ToUser) && s'.cpus[c].env.Some? && s'.cpus[c].env.value < 1024
            && s.envs[s'.cpus[c].env.value].status == Runnable && s'.envs[s'.cpus[c].env.value].status == Running
            && Distance(at, s'.cpus[c].env.value) <= Distance(at, e)
            && OthersSame(s, s', cur, s'.cpus[c].env)
  {
    var cur := s.cpus[c].env;
    var at := if cur.Some? then cur.value else 0;
    assert Statuses(s)[e] == Runnable;
    CloserEachTime(Statuses(s), at, e);
    var j := Choose(Statuses(s), at);
    assert s.envs[j].status == Runnable;
    RunsIt(s, c, j);
  }

  /** sched_yield when nothing is: the CPU goes on with its own environment if that is RUNNING, and stops otherwise. */
  lemma YieldStops(s: State, c: nat)
    requires Mid(s, c) && forall e | 0 <= e < 1024 :: s.envs[e].status != Runnable
    ensures var cur := s.cpus[c].env;
            var s' := Yield(s, c);
            && s' == s.(cpus := s.cpus[c := s'.cpus[c]])
            && s'.cpus[c] ==
               if cur.Some? && s.envs[cur.value].status == Running then s.cpus[c].(pc := Release(ToUser))
               else if forall e | 0 <= e < 1024 :: s.envs[e].status == Free || s.envs[e].status == NotRunnable
               then s.cpus[c].(pc := Monitor)
               else Cpu(Release(ToHalt), None, true)
  {
    var cur := s.cpus[c].env;
    NothingIffNone(Statuses(s), if cur.Some? then cur.value else 0);
    assert forall e | 0 <= e < 1024 :: Statuses(s)[e] == s.envs[e].status;
    if cur.Some? && s.envs[cur.value].status == Running {
      assert Yield(s, c) == SetPc(s, c, Release(ToUser));
    } else {
      assert Yield(s, c) == Halt(s, c);
      HaltIs(s, c);
    }
  }

  lemma HaltIs(s: State, c: nat)
    requires c < |s.cpus| && |s.envs| == 1024
    ensures Halt(s, c) == s.(cpus := s.cpus[c :=
              if forall e | 0 <= e < 1024 :: s.envs[e].status == Free || s.envs[e].status == NotRunnable
              then s.cpus[c].(pc := Monitor) else Cpu(Release(ToHalt), None, true)])
  {
  }

  /** Nobody can run, so a CPU in the monitor has nothing to wait for. */
  ghost predicate MonitorOk(s: State, c: nat) {
    c < |s.cpus| && s.cpus[c].pc.Monitor? ==>
      |s.envs| == 1024 && forall j | 0 <= j < 1024 :: s.envs[j].status == Free || s.envs[j].status == NotRunnable
  }

  lemma StepMonitor(s: State, m: Move, s': State, c: nat)
    requires Safe(s) && StepOk(s, m, s') && MonitorOk(s, c)
    ensures MonitorOk(s', c)
  {
    StepOfOther(s, m, s', c);
    if s.cpus[m.c].pc.Kernel? {
      KernelLeaves(s, m.c, m.op);
      assert LockedBy(s, m.c);
      assert c != m.c ==> !LockedBy(s, c);
    }
  }

  /** In every interleaving, a CPU is in the monitor only when every environment is free or cannot run. */
  lemma {:induction false} MonitorMeansIdle(ss: seq<State>, ms: seq<Move>, i: nat, c: nat)
    requires Execution(ss, ms) && i < |ss| && c < |ss[i].cpus|
    ensures ss[i].cpus[c].pc.Monitor? ==>
              |ss[i].envs| == 1024 && forall j | 0 <= j < 1024 :: ss[i].envs[j].status == Free || ss[i].envs[j].status == NotRunnable
  {
    if i > 0 {
      AlwaysSafe(ss, ms, i - 1);
      assert StepOk(ss[i - 1], ms[i - 1], ss[i]);
      StepOfOther(ss[i - 1], ms[i - 1], ss[i], c);
      MonitorMeansIdle(ss, ms, i - 1, c);
      StepMonitor(ss[i - 1], ms[i - 1], ss[i], c);
    }
  }

  // -------------------------------------------------------------- round robin

  /** Environment e waits for a CPU, and CPU c has some environment. */
  ghost predicate Waiting(s: State, c: nat, e: nat) {
    && |s.envs| == 1024 && c < |s.cpus| && e < 1024 && s.envs[e].status == Runnable
    && s.cpus[c].env.Some? && s.cpus[c].env.value < 1024
  }

  /** How far the search of CPU c is from e. */
  function ToGo(s: State, c: nat, e: nat): nat
    requires c < |s.cpus| && e < 1024 && s.cpus[c].env.Some? && s.cpus[c].env.value < 1024
  {
    Distance(s.cpus[c].env.value, e)
  }

  /** If e is still RUNNABLE after a yield, it was before, and the CPU's search has come nearer to it if it has moved. */
  lemma YieldNearer(s: State, c: nat, e: nat)
    requires |s.envs| == 1024 && c < |s.cpus| && e < 1024 && s.cpus[c].env.Some? && s.cpus[c].env.value < 1024
    requires s.cpus[c].env != Some(e) && Waiting(Yield(s, c), c, e)
    ensures var s' := Yield(s, c); s'.cpus[c].env == s.cpus[c].env || ToGo(s', c, e) < ToGo(s, c, e)
  {
    var a := s.cpus[c].env.value;
    assert Statuses(s)[e] == s.envs[e].status == Runnable;
    CloserEachTime(Statuses(s), a, e);
  }

  /** A freed environment stays free over the yield that follows. */
  lemma YieldLeavesFree(s: State, c: nat, a: nat)
    requires |s.envs| == 1024 && c < |s.cpus| && a < 1024 && s.cpus[c].env == None && s.envs[a].status == Free
    ensures |Yield(s, c).envs| == 1024 && Yield(s, c).envs[a].status == Free
  {
    var j := Choose(Statuses(s), 0);
    assert j >= 0 ==> Statuses(s)[j] == Runnable;
  }

  /** At most CPU c is changed. */
  ghost predicate OnlyCpu(s: State, s': State, c: nat) {
    |s'.cpus| == |s.cpus| && forall d {:trigger s'.cpus[d]} | 0 <= d < |s.cpus| && d != c :: s'.cpus[d] == s.cpus[d]
  }

  lemma YieldOnlyCpu(s: State, c: nat)
    requires c < |s.cpus| && |s.envs| == 1024 && (s.cpus[c].env.Some? ==> s.cpus[c].env.value < 1024)
    ensures OnlyCpu(s, Yield(s, c), c) && OnlyCpu(s, Resume(s, c), c)
  {
  }

  lemma DispatchOnlyCpu(s: State, c: nat, op: Op)
    requires c < |s.cpus| && |s.envs| == 1024 && s.cpus[c].env.Some? && s.cpus[c].env.value < 1024 && CanDo(s, c, op)
    ensures OnlyCpu(s, Dispatch(s, c, op), c)
  {
    var cur := s.cpus[c].env.value;
    match op
    case Other => YieldOnlyCpu(s, c);
    case Resched => YieldOnlyCpu(s, c);
    case Exofork(j) => YieldOnlyCpu(Alloc(s, j, NotRunnable), c);
    case Create(j) => YieldOnlyCpu(Alloc(s, j, Runnable), c);
    case SetStatus(j, status) => YieldOnlyCpu(SetEnv(s, j, s.envs[j].(status := status)), c);
    case Destroy(j) =>
      YieldOnlyCpu(FreeCurrent(s, c), c);
      YieldOnlyCpu(SetEnv(s, j, s.envs[j].(status := Dying)), c);
      YieldOnlyCpu(SetEnv(s, j, s.envs[j].(status := Free)), c);
    case Recv(wantsPage) =>
      var e := s.envs[cur].(recving := true, wantsPage := wantsPage, status := NotRunnable);
      YieldOnlyCpu(SetEnv(s, cur, e).(log := s.log + [Waits(cur, e.epoch)]), c);
    case Send(j, value, offer) =>
      YieldOnlyCpu(s, c);
      YieldOnlyCpu(Deliver(s, c, j, value, offer), c);
  }

  /** A step of a CPU changes the environment of no other. */
  lemma StepOfOther(s: State, m: Move, s': State, c: nat)
    requires StepOk(s, m, s')
    ensures |s'.cpus| == |s.cpus| && (c < |s.cpus| && c != m.c ==> s'.cpus[c] == s.cpus[c])
  {
    if s.cpus[m.c].pc.Kernel? {
      KernelOnlyCpu(s, m.c, m.op);
    }
  }

  lemma KernelOnlyCpu(s: State, c: nat, op: Op)
    requires c < |s.cpus| && |s.envs| == 1024 && (s.cpus[c].env.Some? ==> s.cpus[c].env.value < 1024)
    requires s.cpus[c].pc.Kernel? && CanDo(s, c, op)
    ensures OnlyCpu(s, KernelStep(s, c, op), c)
  {
    if s.cpus[c].pc.k == Syscall && s.cpus[c].env.Some? {
      YieldOnlyCpu(FreeCurrent(s, c), c);
      DispatchOnlyCpu(s, c, op);
    } else {
      YieldOnlyCpu(s, c);
    }
  }

  lemma DispatchNearer(s: State, c: nat, op: Op, e: nat)
    requires Safe(s) && c < |s.cpus| && s.cpus[c].pc == Kernel(Syscall) && CanDo(s, c, op) && Waiting(s, c, e)
    requires s.envs[s.cpus[c].env.value].status == Running
    requires var s' := Dispatch(s, c, op); Waiting(s', c, e) && s'.envs[s.cpus[c].env.value].status != Free
    ensures var s' := Dispatch(s, c, op); s'.cpus[c].env == s.cpus[c].env || ToGo(s', c, e) < ToGo(s, c, e)
  {
    var cur := s.cpus[c].env.value;
    assert EnvOk(s, cur) && EnvOk(s, e);
    if op.Destroy? && op.j == cur {
      YieldLeavesFree(FreeCurrent(s, c), c, cur);
      assert false;
    }
    var s1 := match op
      case Exofork(j) => Alloc(s, j, NotRunnable)
      case Create(j) => Alloc(s, j, Runnable)
      case SetStatus(j, status) => SetEnv(s, j, s.envs[j].(status := status))
      case Destroy(j) => SetEnv(s, j, s.envs[j].(status := if s.envs[j].status == Running then Dying else Free))
      case Recv(wantsPage) =>
        var f := s.envs[cur].(recving := true, wantsPage := wantsPage, status := NotRunnable);
        SetEnv(s, cur, f).(log := s.log + [Waits(cur, f.epoch)])
      case Send(j, value, offer) => if SendFails(s.envs[j], offer) then s else Deliver(s, c, j, value, offer)
      case _ => s;
    if Dispatch(s, c, op) == Yield(s1, c) {
      YieldNearer(s1, c, e);
    }
  }

  /** One step of the system. */
  lemma StepNearer(s: State, m: Move, s': State, c: nat, e: nat)
    requires Safe(s) && StepOk(s, m, s') && Waiting(s, c, e) && Waiting(s', c, e)
    requires s'.envs[s.cpus[c].env.value].status != Free
    ensures s'.cpus[c].env == s.cpus[c].env || ToGo(s', c, e) < ToGo(s, c, e)
  {
    StepOfOther(s, m, s', c);
    assert CpuOk(s, c);
    if m.c == c && s.cpus[c].pc.Kernel? {
      assert s.cpus[c].pc.k == Syscall;
      if s.envs[s.cpus[c].env.value].status == Dying {
        YieldLeavesFree(FreeCurrent(s, c), c, s.cpus[c].env.value);
        assert false;
      }
      DispatchNearer(s, c, m.op, e);
    }
  }

  /** From state k to the next, environment e waits, and what CPU c runs is not freed. */
  ghost predicate WaitsOn(ss: seq<State>, c: nat, e: nat, k: nat) {
    && k + 1 < |ss| && Waiting(ss[k], c, e) && Waiting(ss[k + 1], c, e)
    && ss[k + 1].envs[ss[k].cpus[c].env.value].status != Free
  }

  /** From state k to the next, CPU c keeps its environment, or takes one nearer to e. */
  ghost predicate ComesNearer(ss: seq<State>, c: nat, e: nat, k: nat) {
    && k + 1 < |ss| && Waiting(ss[k], c, e) && Waiting(ss[k + 1], c, e)
    && (ss[k + 1].cpus[c].env == ss[k].cpus[c].env || ToGo(ss[k + 1], c, e) < ToGo(ss[k], c, e))
  }

  lemma RunComesNearer(ss: seq<State>, ms: seq<Move>, c: nat, e: nat, k: nat)
    requires Execution(ss, ms) && WaitsOn(ss, c, e, k)
    ensures ComesNearer(ss, c, e, k)
  {
    AlwaysSafe(ss, ms, k);
    assert StepOk(ss[k], ms[k], ss[k + 1]);
    StepNearer(ss[k], ms[k], ss[k + 1], c, e);
  }

  /** How often CPU c changes its environment from state i to state j of a run. */
  function Switches(ss: seq<State>, c: nat, i: nat, j: nat): nat
    requires i <= j < |ss|
  {
    if i == j then 0
    else
      var was, now := ss[j - 1].cpus, ss[j].cpus;
      Switches(ss, c, i, j - 1) + if c < |was| && c < |now| && now[c].env != was[c].env then 1 else 0
  }

  /** From state k to the next, CPU c changes its environment. */
  predicate Switched(ss: seq<State>, c: nat, k: nat) {
    k + 1 < |ss| && c < |ss[k].cpus| && c < |ss[k + 1].cpus| && ss[k + 1].cpus[c].env != ss[k].cpus[c].env
  }

  lemma {:induction false} SwitchesCount(ss: seq<State>, c: nat, i: nat, j: nat)
    requires i <= j < |ss|
    ensures |set k: nat | i <= k < j && Switched(ss, c, k)| == Switches(ss, c, i, j)
    decreases j - i
  {
    var all := set k: nat | i <= k < j && Switched(ss, c, k);
    if i == j {
      assert all == {};
    } else {
      SwitchesCount(ss, c, i, j - 1);
      var before := set k: nat | i <= k < j - 1 && Switched(ss, c, k);
      assert j - 1 !in before;
      if Switched(ss, c, j - 1) {
        assert all == before + {j - 1};
      } else {
        assert all == before;
      }
    }
  }

  lemma {:induction false} SwitchesBounded(ss: seq<State>, c: nat, e: nat, i: nat, j: nat)
    requires i <= j < |ss| && Waiting(ss[i], c, e)
    requires forall k: nat {:trigger ComesNearer(ss, c, e, k)} | i <= k < j :: ComesNearer(ss, c, e, k)
    ensures Waiting(ss[j], c, e)
    ensures Switches(ss, c, i, j) + ToGo(ss[j], c, e) <= ToGo(ss[i], c, e) < 1024
    decreases j - i
  {
    if i < j {
      SwitchesBounded(ss, c, e, i, j - 1);
      assert ComesNearer(ss, c, e, j - 1);
    }
  }

  /**
   * Round robin: while e is RUNNABLE, and no environment that CPU c runs is freed, the CPU
   * changes its environment at most as often as there are slots from its own to e, which
   * are fewer than NENV.
   */
  lemma RoundRobin(ss: seq<State>, ms: seq<Move>, c: nat, e: nat, i: nat, j: nat)
    requires Execution(ss, ms) && i <= j < |ss| && Waiting(ss[i], c, e)
    requires forall k: nat {:trigger WaitsOn(ss, c, e, k)} | i <= k < j :: WaitsOn(ss, c, e, k)
    ensures Waiting(ss[j], c, e)
    ensures |set k: nat | i <= k < j && Switched(ss, c, k)| + Distance(ss[j].cpus[c].env.value, e) <= Distance(ss[i].cpus[c].env.value, e) < 1024
  {
    SwitchesCount(ss, c, i, j);
    forall k: nat | i <= k < j ensures ComesNearer(ss, c, e, k) {
      assert WaitsOn(ss, c, e, k);
      RunComesNearer(ss, ms, c, e, k);
    }
    SwitchesBounded(ss, c, e, i, j);
  }

  // --------------------------------------------------------- why the guards

  /** env_destroy keeps the kernel safe iff the environment is not already dying. */
  lemma DestroySafeIff(s: State, c: nat, j: nat)
    requires Safe(s) && c < |s.cpus| && s.cpus[c].pc == Kernel(Syscall) && CanDo(s, c, Destroy(j))
    requires s.cpus[c].env.Some? && s.cpus[c].env.value < 1024 && s.envs[s.cpus[c].env.value].status == Running
    ensures Safe(KernelStep(s, c, Destroy(j))) <==> s.envs[j].status != Dying
  {
    if s.envs[j].status != Dying {
      KernelStepSafe(s, c, Destroy(j));
    } else {
      // The CPU that still runs the dying environment now runs a free one.
      SafeIsMid(s, c);
      assert EnvOk(s, j);
      var d :| 0 <= d < |s.cpus| && s.cpus[d].env == Some(j);
      OtherCpu(s, c, d);
      assert LockedBy(s, c) && !s.cpus[d].pc.Monitor? by {
        if s.cpus[d].pc.Monitor? { assert LockedBy(s, d); }
      }
      var s' := KernelStep(s, c, Destroy(j));
      assert s'.cpus[d] == s.cpus[d] && s'.envs[j].status == Free;
      assert !CpuOk(s', d);
    }
  }

  /**
   * sys_env_set_status keeps the kernel safe iff the target is on no CPU and is not woken
   * while it waits for a message; on the caller itself, iff it asks for NOT_RUNNABLE or
   * another environment is RUNNABLE.
   */
  lemma SetStatusSafeIff(s: State, c: nat, j: nat, status: Status)
    requires Safe(s) && c < |s.cpus| && s.cpus[c].pc == Kernel(Syscall) && CanDo(s, c, SetStatus(j, status))
    requires s.cpus[c].env.Some? && s.cpus[c].env.value < 1024 && s.envs[s.cpus[c].env.value].status == Running
    ensures Safe(KernelStep(s, c, SetStatus(j, status))) <==> Guarded(s, c, SetStatus(j, status))
  {
    if Guarded(s, c, SetStatus(j, status)) {
      KernelStepSafe(s, c, SetStatus(j, status));
    } else if s.cpus[c].env == Some(j) {
      SelfRunnableAlone(s, c);
    } else {
      OtherStatusUnsafe(s, c, j, status);
    }
  }

  /** With no other RUNNABLE, env_run takes the id for its own and leaves the status RUNNABLE. */
  lemma SelfRunnableAlone(s: State, c: nat)
    requires Safe(s) && c < |s.cpus| && s.cpus[c].pc == Kernel(Syscall)
    requires s.cpus[c].env.Some? && s.cpus[c].env.value < 1024 && s.envs[s.cpus[c].env.value].status == Running
    requires !OtherRunnable(s, s.cpus[c].env.value)
    ensures var s' := KernelStep(s, c, SetStatus(s.cpus[c].env.value, Runnable));
            && s'.cpus[c] == s.cpus[c].(pc := Release(ToUser))
            && s'.envs[s.cpus[c].env.value].status == Runnable && !Safe(s')
  {
    var cur := s.cpus[c].env.value;
    var s1 := SetEnv(s, cur, s.envs[cur].(status := Runnable));
    forall x | 0 <= x < 1024 && x != cur ensures Statuses(s1)[x] != Runnable {
      assert s1.envs[x] == s.envs[x];
    }
    OnlyChoice(Statuses(s1), cur, cur);
    var s' := KernelStep(s, c, SetStatus(cur, Runnable));
    assert s' == SetPc(s1, c, Release(ToUser));
    assert !CpuOk(s', c);
  }

  lemma OtherStatusUnsafe(s: State, c: nat, j: nat, status: Status)
    requires Safe(s) && c < |s.cpus| && s.cpus[c].pc == Kernel(Syscall) && CanDo(s, c, SetStatus(j, status))
    requires s.cpus[c].env.Some? && s.cpus[c].env.value < 1024 && s.envs[s.cpus[c].env.value].status == Running
    requires s.cpus[c].env != Some(j) && !Guarded(s, c, SetStatus(j, status))
    ensures !Safe(KernelStep(s, c, SetStatus(j, status)))
  {
    SafeIsMid(s, c);
    assert EnvOk(s, j);
    var s' := KernelStep(s, c, SetStatus(j, status));
    assert s'.envs[j] == s.envs[j].(status := status);
    if s.envs[j].status in {Running, Dying} {
      var d :| 0 <= d < |s.cpus| && s.cpus[d].env == Some(j);
      assert LockedBy(s, c) && !s.cpus[d].pc.Monitor? by {
        if s.cpus[d].pc.Monitor? { assert LockedBy(s, d); }
      }
      assert s'.cpus[d] == s.cpus[d];
      assert !CpuOk(s', d);
    } else {
      assert !EnvOk(s', j);
    }
  }

  // ----------------------------------------------------------------------- IPC

  /** The history of one environment, from its allocation on. */
  function EventsOf(log: seq<Event>, j: nat, epoch: nat): (r: seq<Event>)
    ensures forall i | 0 <= i < |r| :: r[i] in log && r[i].slot == j && r[i].epoch == epoch
  {
    if log == [] then []
    else
      var last := log[|log| - 1];
      EventsOf(log[..|log| - 1], j, epoch) + if last.slot == j && last.epoch == epoch then [last] else []
  }

  lemma EventsAppend(log: seq<Event>, e: Event, j: nat, epoch: nat)
    ensures EventsOf(log + [e], j, epoch) == EventsOf(log, j, epoch) + if e.slot == j && e.epoch == epoch then [e] else []
  {
    assert (log + [e])[..|log|] == log;
  }

  /** Waits and arrivals take turns, starting with a wait. */
  ghost predicate TakeTurns(es: seq<Event>) {
    forall i | 0 <= i < |es| :: es[i].Waits? <==> i % 2 == 0
  }

  /** The last message that arrived. */
  function LastArrival(es: seq<Event>): Event
    requires |es| >= 2
  {
    es[|es| - 1 - |es| % 2]
  }

  /**
   * Messages arrive one for one with waits; an environment waits iff the last wait has
   * not been answered; and what it can read is the last message that arrived.
   */
  ghost predicate Answers(es: seq<Event>, j: nat, e: Env) {
    && TakeTurns(es)
    && (e.recving <==> |es| % 2 == 1)
    && (|es| >= 2 ==> LastArrival(es) == Arrives(j, e.epoch, e.value, e.from, e.perm))
  }

  ghost predicate IpcAt(s: State, j: nat) {
    j < |s.envs| && s.envs[j].status != Free ==> Answers(EventsOf(s.log, j, s.envs[j].epoch), j, s.envs[j])
  }

  ghost predicate IpcOk(s: State) {
    && (forall j: nat {:trigger IpcAt(s, j)} :: IpcAt(s, j))
    && forall k {:trigger s.log[k]} | 0 <= k < |s.log| :: s.log[k].slot < |s.envs| && s.log[k].epoch <= s.envs[s.log[k].slot].epoch
  }

  function Ipc(e: Env): (bool, int, int, int, nat) { (e.recving, e.value, e.from, e.perm, e.epoch) }

  /** Statuses may have changed, but nothing about messages, and nothing has come to life. */
  ghost predicate SameIpc(s: State, s': State) {
    && |s'.envs| == |s.envs| && s'.log == s.log
    && forall j {:trigger s'.envs[j]} | 0 <= j < |s.envs| ::
         Ipc(s'.envs[j]) == Ipc(s.envs[j]) && (s'.envs[j].status != Free ==> s.envs[j].status != Free)
  }

  lemma SameIpcKeeps(s: State, s': State)
    requires IpcOk(s) && SameIpc(s, s')
    ensures IpcOk(s')
  {
    forall j: nat ensures IpcAt(s', j) {
      assert IpcAt(s, j);
      if j < |s.envs| { assert Ipc(s'.envs[j]) == Ipc(s.envs[j]); }
    }
    forall k | 0 <= k < |s'.log| ensures s'.log[k].slot < |s'.envs| && s'.log[k].epoch <= s'.envs[s'.log[k].slot].epoch {
      assert s.log[k].slot < |s.envs|;
      assert Ipc(s'.envs[s.log[k].slot]) == Ipc(s.envs[s.log[k].slot]);
    }
  }

  lemma YieldSameIpc(s: State, c: nat)
    requires Mid(s, c)
    ensures SameIpc(s, Yield(s, c)) && SameIpc(s, Resume(s, c))
  {
    var cur := s.cpus[c].env;
    var j := Choose(Statuses(s), if cur.Some? then cur.value else 0);
    if j >= 0 {
      assert Statuses(s)[j] == Runnable;
    }
  }

  lemma {:induction false} NoEventsYet(log: seq<Event>, j: nat, epoch: nat)
    requires forall k {:trigger log[k]} | 0 <= k < |log| && log[k].slot == j :: log[k].epoch < epoch
    ensures EventsOf(log, j, epoch) == []
  {
    if log != [] {
      NoEventsYet(log[..|log| - 1], j, epoch);
    }
  }

  /** A new environment has no history, although its slot may have. */
  lemma AllocIpc(s: State, j: nat, status: Status)
    requires IpcOk(s) && j < |s.envs|
    ensures IpcOk(Alloc(s, j, status))
  {
    var s' := Alloc(s, j, status);
    forall i: nat ensures IpcAt(s', i) {
      assert IpcAt(s, i);
      if i == j {
        NoEventsYet(s.log, j, s'.envs[j].epoch);
      }
    }
  }

  lemma TurnsAppend(es: seq<Event>, event: Event)
    requires TakeTurns(es) && (event.Waits? <==> |es| % 2 == 0)
    ensures TakeTurns(es + [event])
    ensures |es + [event]| >= 2 ==> LastArrival(es + [event]) == if event.Waits? then LastArrival(es) else event
  {
  }

  /** Starting to wait, and an arrival. */
  lemma EventIpc(s: State, j: nat, e: Env, event: Event, s': State)
    requires IpcOk(s) && j < |s.envs| && s.envs[j].status != Free && s' == SetEnv(s, j, e).(log := s.log + [event])
    requires e.epoch == s.envs[j].epoch == event.epoch && event.slot == j && e.recving == event.Waits? != s.envs[j].recving
    requires if event.Waits? then Ipc(e).1 == s.envs[j].value && e.from == s.envs[j].from && e.perm == s.envs[j].perm
             else event == Arrives(j, e.epoch, e.value, e.from, e.perm)
    ensures IpcOk(s')
  {
    forall i: nat ensures IpcAt(s', i) {
      assert IpcAt(s, i);
      if i == j {
        OwnEventIpc(s, j, e, event, s');
      } else {
        OtherEventIpc(s, j, e, event, s', i);
      }
    }
    forall k | 0 <= k < |s'.log| ensures s'.log[k].slot < |s'.envs| && s'.log[k].epoch <= s'.envs[s'.log[k].slot].epoch {
      if k < |s.log| {
        assert s'.log[k] == s.log[k];
      }
    }
  }

  lemma OwnEventIpc(s: State, j: nat, e: Env, event: Event, s': State)
    requires IpcAt(s, j) && j < |s.envs| && s.envs[j].status != Free && s' == SetEnv(s, j, e).(log := s.log + [event])
    requires e.epoch == s.envs[j].epoch == event.epoch && event.slot == j && e.recving == event.Waits? != s.envs[j].recving
    requires if event.Waits? then Ipc(e).1 == s.envs[j].value && e.from == s.envs[j].from && e.perm == s.envs[j].perm
             else event == Arrives(j, e.epoch, e.value, e.from, e.perm)
    ensures IpcAt(s', j)
  {
    var es := EventsOf(s.log, j, e.epoch);
    EventsAppend(s.log, event, j, e.epoch);
    TurnsAppend(es, event);
    StillAnswers(es, j, s.envs[j], e, event);
  }

  lemma StillAnswers(es: seq<Event>, j: nat, was: Env, e: Env, event: Event)
    requires Answers(es, j, was) && e.epoch == was.epoch && e.recving == event.Waits? != was.recving
    requires if event.Waits? then e.value == was.value && e.from == was.from && e.perm == was.perm
             else event == Arrives(j, e.epoch, e.value, e.from, e.perm)
    ensures Answers(es + [event], j, e)
  {
    TurnsAppend(es, event);
    assert |es + [event]| == |es| + 1;
  }

  lemma OtherEventIpc(s: State, j: nat, e: Env, event: Event, s': State, i: nat)
    requires IpcAt(s, i) && j < |s.envs| && s' == SetEnv(s, j, e).(log := s.log + [event]) && event.slot == j != i
    ensures IpcAt(s', i)
  {
    if i < |s.envs| {
      EventsAppend(s.log, event, i, s.envs[i].epoch);
      assert EventsOf(s.log, i, s.envs[i].epoch) + [] == EventsOf(s.log, i, s.envs[i].epoch);
    }
  }

  lemma DispatchIpc(s: State, c: nat, op: Op)
    requires Safe(s) && IpcOk(s) && c < |s.cpus| && s.cpus[c].pc.Kernel? && s.cpus[c].env.Some? && s.cpus[c].env.value < 1024
    requires s.envs[s.cpus[c].env.value].status != Dying && CanDo(s, c, op) && Guarded(s, c, op)
    ensures IpcOk(Dispatch(s, c, op))
  {
    SafeIsMid(s, c);
    var cur := s.cpus[c].env.value;
    assert CpuOk(s, c) && EnvOk(s, cur);
    match op {
      case Recv(wantsPage) =>
        var e := s.envs[cur].(recving := true, wantsPage := wantsPage, status := NotRunnable);
        var s1 := SetEnv(s, cur, e).(log := s.log + [Waits(cur, e.epoch)]);
        EditMid(s, c, cur, e, s1);
        EventIpc(s, cur, e, Waits(cur, e.epoch), s1);
        YieldSameIpc(s1, c);
        SameIpcKeeps(s1, Yield(s1, c));
      case Send(j, value, offer) =>
        if SendFails(s.envs[j], offer) {
          YieldSameIpc(s, c);
          SameIpcKeeps(s, Resume(s, c));
        } else {
          SendIpc(s, c, j, value, offer);
        }
      case Exofork(j) => NewIpc(s, c, j, NotRunnable);
      case Create(j) => NewIpc(s, c, j, Runnable);
      case _ => OtherIpc(s, c, op);
    }
  }

  lemma NewIpc(s: State, c: nat, j: nat, status: Status)
    requires Mid(s, c) && IpcOk(s) && j < 1024 && s.envs[j].status == Free && status in {Runnable, NotRunnable}
    ensures Mid(Alloc(s, j, status), c) && IpcOk(Resume(Alloc(s, j, status), c))
  {
    var s1 := Alloc(s, j, status);
    AllocIpc(s, j, status);
    AllocMid(s, c, j, status);
    YieldSameIpc(s1, c);
    SameIpcKeeps(s1, Resume(s1, c));
  }

  lemma SendIpc(s: State, c: nat, j: nat, value: int, offer: Offer)
    requires Mid(s, c) && IpcOk(s) && CanDo(s, c, Send(j, value, offer)) && !SendFails(s.envs[j], offer)
    requires s.cpus[c].env.Some? && s.envs[s.cpus[c].env.value].status == Running
    ensures IpcOk(Dispatch(s, c, Send(j, value, offer)))
  {
    assert EnvOk(s, j) && EnvOk(s, s.cpus[c].env.value);
    var s1 := Deliver(s, c, j, value, offer);
    EditMid(s, c, j, s1.envs[j], s1);
    EventIpc(s, j, s1.envs[j], s1.log[|s.log|], s1);
    YieldSameIpc(s1, c);
    SameIpcKeeps(s1, Resume(s1, c));
  }

  lemma StatusIpc(s: State, c: nat, op: Op)
    requires Safe(s) && Mid(s, c) && IpcOk(s) && s.cpus[c].env.Some? && s.envs[s.cpus[c].env.value].status == Running
    requires op.SetStatus? && CanDo(s, c, op) && Guarded(s, c, op)
    ensures IpcOk(Dispatch(s, c, op))
  {
    if op.j == s.cpus[c].env.value && op.status == Runnable {
      SelfRunnable(s, c);
      YieldSameIpc(s, c);
      SameIpcKeeps(s, Yield(s, c));
    } else {
      var s1 := SetEnv(s, op.j, s.envs[op.j].(status := op.status));
      assert EnvOk(s, op.j);
      EditMid(s, c, op.j, s1.envs[op.j], s1);
      LeavesIpc(s, s1, c);
    }
  }

  /** A change that is not about messages, and the end of the kernel entry. */
  lemma LeavesIpc(s: State, s1: State, c: nat)
    requires IpcOk(s) && SameIpc(s, s1) && Mid(s1, c)
    ensures IpcOk(Yield(s1, c)) && IpcOk(Resume(s1, c))
  {
    SameIpcKeeps(s, s1);
    YieldSameIpc(s1, c);
    SameIpcKeeps(s1, Yield(s1, c));
    SameIpcKeeps(s1, Resume(s1, c));
  }

  /** Operations that are not about messages. */
  lemma OtherIpc(s: State, c: nat, op: Op)
    requires Safe(s) && Mid(s, c) && IpcOk(s) && s.cpus[c].env.Some? && s.envs[s.cpus[c].env.value].status == Running
    requires op.Other? || op.Resched? || op.SetStatus? || op.Destroy?
    requires CanDo(s, c, op) && Guarded(s, c, op)
    ensures IpcOk(Dispatch(s, c, op))
  {
    var s1 := s;
    if op.SetStatus? {
      StatusIpc(s, c, op);
      return;
    }
    if op.Destroy? && op.j == s.cpus[c].env.value {
      s1 := FreeCurrent(s, c);
      FreeCurrentMid(s, c);
    } else if op.Destroy? {
      s1 := SetEnv(s, op.j, s.envs[op.j].(status := if s.envs[op.j].status == Running then Dying else Free));
      assert EnvOk(s, op.j);
      EditMid(s, c, op.j, s1.envs[op.j], s1);
    }
    LeavesIpc(s, s1, c);
  }

  lemma StepIpc(s: State, m: Move, s': State)
    requires Safe(s) && IpcOk(s) && StepOk(s, m, s')
    ensures IpcOk(s')
  {
    var c := m.c;
    assert CpuOk(s, c);
    if !s.cpus[c].pc.Kernel? {
      SameIpcKeeps(s, s');
    } else if s.cpus[c].pc.k == Syscall && s.envs[s.cpus[c].env.value].status == Dying {
      var s1 := FreeCurrent(s, c);
      FreeCurrentMid(s, c);
      SameIpcKeeps(s, s1);
      YieldSameIpc(s1, c);
      SameIpcKeeps(s1, s');
    } else if s.cpus[c].pc.k == Syscall {
      DispatchIpc(s, c, m.op);
    } else if s.cpus[c].pc.k == Boot && m.op.Create? {
      AllocIpc(s, m.op.j, Runnable);
    } else {
      SafeIsMid(s, c);
      YieldSameIpc(s, c);
      SameIpcKeeps(s, s');
    }
  }

  lemma InitialIpc(s: State)
    requires Initial(s)
    ensures IpcOk(s)
  {
  }

  lemma NextIpc(ss: seq<State>, ms: seq<Move>, i: nat)
    requires Execution(ss, ms) && i < |ms| && IpcOk(ss[i])
    ensures IpcOk(ss[i + 1])
  {
    AlwaysSafe(ss, ms, i);
    assert StepOk(ss[i], ms[i], ss[i + 1]);
    StepIpc(ss[i], ms[i], ss[i + 1]);
  }

  lemma {:induction false} AlwaysIpc(ss: seq<State>, ms: seq<Move>, i: nat)
    requires Execution(ss, ms) && i < |ss|
    ensures IpcOk(ss[i])
  {
    if i == 0 {
      InitialIpc(ss[0]);
    } else {
      AlwaysIpc(ss, ms, i - 1);
      NextIpc(ss, ms, i - 1);
    }
  }

  /**
   * IPC is exactly-once: in every state of every interleaving, the messages that reached
   * an environment and its waits for one take turns, and between one arrival and the next
   * the environment's value, from and perm fields are those of that arrival.
   */
  lemma IpcExactlyOnce(ss: seq<State>, ms: seq<Move>, i: nat, j: nat)
    requires Execution(ss, ms) && i < |ss| && j < |ss[i].envs| && ss[i].envs[j].status != Free
    ensures var e := ss[i].envs[j];
            var es := EventsOf(ss[i].log, j, e.epoch);
            && (forall k | 0 <= k < |es| :: es[k].Waits? <==> k % 2 == 0)
            && (e.recving <==> |es| % 2 == 1)
            && (|es| >= 2 ==> es[|es| - 1 - |es| % 2] == Arrives(j, e.epoch, e.value, e.from, e.perm))
  {
    AlwaysIpc(ss, ms, i);
    assert IpcAt(ss[i], j);
  }

  /** CPU c carries out a system call of environment a, which is RUNNING. */
  predicate Calls(s: State, c: nat, a: nat) {
    && c < |s.cpus| && s.cpus[c].pc == Kernel(Syscall) && s.cpus[c].env == Some(a)
    && a < |s.envs| && s.envs[a].status == Running
  }

  lemma YieldKeepsLog(s: State, c: nat)
    requires c < |s.cpus| && |s.envs| == 1024 && (s.cpus[c].env.Some? ==> s.cpus[c].env.value < 1024)
    ensures Yield(s, c).log == s.log && Resume(s, c).log == s.log
  {
  }

  /** Only a send and a wait are recorded, and what they record is what the call says. */
  lemma StepEvents(s: State, m: Move, s': State)
    requires Safe(s) && StepOk(s, m, s')
    ensures s'.log == s.log || (|s'.log| == |s.log| + 1 && s'.log[..|s.log|] == s.log)
    ensures |s'.log| > |s.log| ==>
              match s'.log[|s.log|]
              case Waits(j, epoch) => m.op.Recv? && Calls(s, m.c, j) && epoch == s.envs[j].epoch
              case Arrives(j, epoch, value, from, perm) =>
                && m.op.Send? && m.op.j == j && j < |s.envs| && s.cpus[m.c].env.Some? && Calls(s, m.c, s.cpus[m.c].env.value)
                && s.envs[j].recving && epoch == s.envs[j].epoch && value == m.op.value
                && from == s.envs[s.cpus[m.c].env.value].id
                && perm == if m.op.offer.Page? && s.envs[j].wantsPage then m.op.offer.perm else 0
  {
    assert CpuOk(s, m.c);
    if s.cpus[m.c].pc.Kernel? {
      if s.cpus[m.c].pc.k != Syscall {
        YieldKeepsLog(s, m.c);
      } else if s.envs[s.cpus[m.c].env.value].status == Dying {
        YieldKeepsLog(FreeCurrent(s, m.c), m.c);
      } else {
        DispatchEvents(s, m.c, m.op);
      }
    }
  }

  lemma DispatchEvents(s: State, c: nat, op: Op)
    requires c < |s.cpus| && |s.envs| == 1024 && s.cpus[c].env.Some? && s.cpus[c].env.value < 1024 && CanDo(s, c, op)
    ensures Dispatch(s, c, op).log ==
            match op
            case Recv(_) => s.log + [Waits(s.cpus[c].env.value, s.envs[s.cpus[c].env.value].epoch)]
            case Send(j, value, offer) =>
              if SendFails(s.envs[j], offer) then s.log
              else s.log + [Arrives(j, s.envs[j].epoch, value, s.envs[s.cpus[c].env.value].id, SentPerm(s.envs[j], offer))]
            case _ => s.log
  {
    var cur := s.cpus[c].env.value;
    match op
    case Other => YieldKeepsLog(s, c);
    case Resched => YieldKeepsLog(s, c);
    case Exofork(j) => YieldKeepsLog(Alloc(s, j, NotRunnable), c);
    case Create(j) => YieldKeepsLog(Alloc(s, j, Runnable), c);
    case SetStatus(j, status) => YieldKeepsLog(SetEnv(s, j, s.envs[j].(status := status)), c);
    case Destroy(j) =>
      YieldKeepsLog(FreeCurrent(s, c), c);
      YieldKeepsLog(SetEnv(s, j, s.envs[j].(status := Dying)), c);
      YieldKeepsLog(SetEnv(s, j, s.envs[j].(status := Free)), c);
    case Recv(wantsPage) =>
      var e := s.envs[cur].(recving := true, wantsPage := wantsPage, status := NotRunnable);
      YieldKeepsLog(SetEnv(s, cur, e).(log := s.log + [Waits(cur, e.epoch)]), c);
    case Send(j, value, offer) =>
      YieldKeepsLog(s, c);
      YieldKeepsLog(Deliver(s, c, j, value, offer), c);
  }

  /**
   * A send in any interleaving: if the receiver waits and what is offered can be taken, the
   * message arrives in that step, with the sender's id, and the receiver can run again;
   * the sender goes on, and nothing else of any environment changes.
   */
  lemma SendArrives(s: State, c: nat, a: nat, j: nat, value: int, offer: Offer)
    requires Safe(s) && Calls(s, c, a) && j < 1024 && s.envs[j].status != Free && s.envs[j].recving
    requires !offer.BadPage? && !(offer.NoRoom? && s.envs[j].wantsPage)
    ensures var s' := KernelStep(s, c, Send(j, value, offer));
            var perm := if offer.Page? && s.envs[j].wantsPage then offer.perm else 0;
            && |s'.envs| == 1024 && |s'.cpus| == |s.cpus|
            && s'.log == s.log + [Arrives(j, s.envs[j].epoch, value, s.envs[a].id, perm)]
            && s'.envs == s.envs[j := s'.envs[j]]
            && s'.envs[j].value == value && s'.envs[j].from == s.envs[a].id && s'.envs[j].perm == perm
            && !s'.envs[j].recving && s'.envs[j].status == Runnable
            && s'.envs[j].id == s.envs[j].id && s'.envs[j].epoch == s.envs[j].epoch
            && s'.cpus[c] == s.cpus[c].(pc := Release(ToUser))
  {
    assert EnvOk(s, j) && EnvOk(s, a) && CpuOk(s, c);
  }

  /** And if the receiver does not wait, or what is offered cannot be taken, the send changes nothing. */
  lemma SendRefused(s: State, c: nat, a: nat, j: nat, value: int, offer: Offer)
    requires Safe(s) && Calls(s, c, a) && j < 1024 && s.envs[j].status != Free
    requires !s.envs[j].recving || offer.BadPage? || (offer.NoRoom? && s.envs[j].wantsPage)
    ensures var s' := KernelStep(s, c, Send(j, value, offer));
            |s'.cpus| == |s.cpus| && s'.log == s.log && s'.envs == s.envs && s'.cpus[c] == s.cpus[c].(pc := Release(ToUser))
  {
    assert CpuOk(s, c);
  }

  /** A yield leaves an environment that is not RUNNABLE and not RUNNING as it is, and does not take it. */
  lemma YieldLeavesIdle(s: State, c: nat, a: nat)
    requires Mid(s, c) && a < 1024 && s.envs[a].status != Runnable && s.envs[a].status != Running
    ensures |Yield(s, c).envs| == 1024 && |Yield(s, c).cpus| == |s.cpus| && Yield(s, c).envs[a] == s.envs[a]
    ensures Yield(s, c).cpus[c].pc.Monitor? || Yield(s, c).cpus[c].env != Some(a)
  {
    if exists e | 0 <= e < 1024 :: s.envs[e].status == Runnable {
      var at := if s.cpus[c].env.Some? then s.cpus[c].env.value else 0;
      var e :| 0 <= e < 1024 && s.envs[e].status == Runnable;
      assert Statuses(s)[e] == Runnable;
      CloserEachTime(Statuses(s), at, e);
      RunsIt(s, c, Choose(Statuses(s), at));
    } else {
      YieldStops(s, c);
    }
  }

  /** The calls that are not about messages: what each does to envs[], and where the CPU goes. */
  lemma CallDoes(s: State, c: nat, a: nat, op: Op)
    requires Safe(s) && Calls(s, c, a) && CanDo(s, c, op) && Guarded(s, c, op)
    ensures var s', e := KernelStep(s, c, op), s.envs[a];
            && |s'.envs| == 1024 && |s'.cpus| == |s.cpus|
            && (op.Other? || op.Exofork? || op.Create? || ((op.SetStatus? || op.Destroy?) && op.j != a) ==>
                  s'.cpus[c] == s.cpus[c].(pc := Release(ToUser)))
            && match op
               case Other => s'.envs == s.envs
               case Exofork(j) =>
                 && s'.envs == s.envs[j := s'.envs[j]] && s'.envs[j].status == NotRunnable && !s'.envs[j].recving
                 && s'.envs[j].epoch == s.envs[j].epoch + 1 && s'.envs[j].id == EnvIds.NthId(j, s.envs[j].epoch + 1)
               case Create(j) =>
                 && s'.envs == s.envs[j := s'.envs[j]] && s'.envs[j].status == Runnable && !s'.envs[j].recving
                 && s'.envs[j].epoch == s.envs[j].epoch + 1 && s'.envs[j].id == EnvIds.NthId(j, s.envs[j].epoch + 1)
               case SetStatus(j, status) => j != a ==> s'.envs == s.envs[j := s.envs[j].(status := status)]
               case Destroy(j) =>
                 if j == a then s'.envs[a] == e.(status := Free) && (s'.cpus[c].pc.Monitor? || s'.cpus[c].env != Some(a))
                 else s'.envs == s.envs[j := s.envs[j].(status := if s.envs[j].status == Running then Dying else Free)]
               case Recv(wantsPage) =>
                 && s'.envs[a] == e.(recving := true, wantsPage := wantsPage, status := NotRunnable)
                 && (s'.cpus[c].pc.Monitor? || s'.cpus[c].env != Some(a))
               case _ => true
  {
    assert CpuOk(s, c) && EnvOk(s, a);
    SafeIsMid(s, c);
    KernelLeaves(s, c, op);
    match op
    case Exofork(j) => AllocResumes(s, c, a, j, NotRunnable);
    case Create(j) => AllocResumes(s, c, a, j, Runnable);
    case Destroy(j) =>
      if j == a {
        FreeCurrentMid(s, c);
        YieldLeavesIdle(FreeCurrent(s, c), c, a);
      }
    case Recv(wantsPage) =>
      var e := s.envs[a].(recving := true, wantsPage := wantsPage, status := NotRunnable);
      var s1 := SetEnv(s, a, e).(log := s.log + [Waits(a, e.epoch)]);
      EditMid(s, c, a, e, s1);
      YieldLeavesIdle(s1, c, a);
    case _ =>
  }

  lemma AllocResumes(s: State, c: nat, a: nat, j: nat, status: Status)
    requires Safe(s) && Calls(s, c, a) && j < 1024 && s.envs[j].status == Free
    ensures Resume(Alloc(s, j, status), c) == SetPc(Alloc(s, j, status), c, Release(ToUser))
    ensures Alloc(s, j, status).envs[j].id == EnvIds.NthId(j, s.envs[j].epoch + 1)
  {
    assert EnvOk(s, j);
  }
}
