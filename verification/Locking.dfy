/** Any number of goroutines in any number of processes running the service's operations,
    interleaved one step at a time: the lock protocol, its mutual exclusion, deadlock
    freedom and completion.

    A job runs in one process (`service`), which has its own read-write mutex and its own
    per-target mutexes; the lock files are shared by all processes. Every open of a lock
    file is an open file description of its own, so `flock` excludes goroutines of one
    process from each other as well. */
module Locking {
  import opened Names
  import opened FileTree
  import opened Operations

  datatype Job = Job(service: nat, op: Op)

  datatype Phase =
    | Start          // names not yet checked, no lock
    | OpenedGlobal   // about to flock repositories.lock
    | HaveFlock      // about to lock the read-write mutex
    | Announced      // exclusive only: registered as writer, waiting for the readers to leave
    | HaveGlobal     // shared only: about to lock the target's mutex
    | HaveMutex      // about to open the target's lock file
    | OpenedTarget   // about to flock the target's lock file
    | Critical       // running the operation
    | RelTarget | RelMutex | RelRW | RelFlock   // about to release the lock named
    | Finished

  datatype Thread = Thread(phase: Phase, local: Local)

  /** Who holds what. `writers` are the registered writers of a read-write mutex, whether
      they still wait for readers or not: both keep new readers out. */
  datatype Locks = Locks(
    sharedFlocks: set<(string, nat)>, exclusiveFlocks: set<(string, nat)>,
    readers: set<(nat, nat)>, writers: set<(nat, nat)>, mutexes: set<(nat, string, nat)>)

  /** `log` lists the jobs whose answer is decided, in that order. */
  datatype System = System(jobs: seq<Job>, threads: seq<Thread>, locks: Locks, root: Tree, log: seq<nat>)

  function TargetFile(op: Op): string
    requires op.Shared()
  {
    TargetLock(op.action.repository, op.action.architecture)
  }

  function TargetKey(op: Op): string
    requires op.Shared()
  {
    MutexKey(op.action.repository, op.action.architecture)
  }

  function Initial(jobs: seq<Job>, root: Tree): System {
    System(jobs, seq(|jobs|, i => Thread(Start, START)), Locks({}, {}, {}, {}, {}), root, [])
  }

  // ---------- steps ----------

  predicate Free(held: set<(string, nat)>, file: string, t: nat, n: nat) {
    forall u | 0 <= u < n && u != t :: (file, u) !in held
  }

  /** Whether the lock call a goroutine is about to make would return now. */
  predicate Enabled(s: System, t: nat) {
    && t < |s.threads| && t < |s.jobs|
    && var job, n := s.jobs[t], |s.threads|;
       match s.threads[t].phase
       case Finished => false
       case OpenedGlobal =>
         || FlockGlobal in job.op.faults
         || (&& Free(s.locks.exclusiveFlocks, GLOBAL_LOCK, t, n)
             && (job.op.Shared() || Free(s.locks.sharedFlocks, GLOBAL_LOCK, t, n)))
       case HaveFlock => forall u | 0 <= u < n && u != t :: (job.service, u) !in s.locks.writers
       case Announced => forall u | 0 <= u < n && u != t :: (job.service, u) !in s.locks.readers
       case HaveGlobal =>
         job.op.Shared() ==> forall u | 0 <= u < n && u != t :: (job.service, TargetKey(job.op), u) !in s.locks.mutexes
       case OpenedTarget =>
         job.op.Shared() ==>
           || FlockTarget in job.op.faults
           || (&& Free(s.locks.exclusiveFlocks, TargetFile(job.op), t, n)
               && Free(s.locks.sharedFlocks, TargetFile(job.op), t, n))
       case _ => true
  }

  function Move(s: System, t: nat, phase: Phase, locks: Locks): System
    requires t < |s.threads|
  {
    s.(threads := s.threads[t := s.threads[t].(phase := phase)], locks := locks)
  }

  /** Give up with an error before the operation proper began. */
  function Quit(s: System, t: nat, phase: Phase, e: Error): System
    requires t < |s.threads|
  {
    s.(threads := s.threads[t := Thread(phase, Local(Done(Failed(e)), false))], log := s.log + [t])
  }

  function Body(s: System, t: nat): System
    requires t < |s.threads| && t < |s.jobs|
  {
    var (l, root) := Step(s.jobs[t].op, s.threads[t].local, s.root);
    s.(threads := s.threads[t := s.threads[t].(local := l)], root := root,
       log := if l.pc.Done? then s.log + [t] else s.log)
  }

  function Advance(s: System, t: nat): System
    requires t < |s.threads| && t < |s.jobs|
  {
    var Job(v, op) := s.jobs[t];
    var k := s.locks;
    match s.threads[t].phase
    case Start =>
      if op.Rejection().Some? then Quit(s, t, Finished, op.Rejection().value)
      else if OpenGlobal in op.faults then Quit(s, t, Finished, LockFailed)
      else Move(s, t, OpenedGlobal, k)
    case OpenedGlobal =>
      if FlockGlobal in op.faults then Quit(s, t, Finished, LockFailed)
      else if op.Shared() then Move(s, t, HaveFlock, k.(sharedFlocks := k.sharedFlocks + {(GLOBAL_LOCK, t)}))
      else Move(s, t, HaveFlock, k.(exclusiveFlocks := k.exclusiveFlocks + {(GLOBAL_LOCK, t)}))
    case HaveFlock =>
      if op.Shared() then Move(s, t, HaveGlobal, k.(readers := k.readers + {(v, t)}))
      else Move(s, t, Announced, k.(writers := k.writers + {(v, t)}))
    case Announced => Move(s, t, Critical, k)
    case HaveGlobal =>
      if op.Shared() then Move(s, t, HaveMutex, k.(mutexes := k.mutexes + {(v, TargetKey(op), t)})) else s
    case HaveMutex =>
      if OpenTarget in op.faults then Quit(s, t, RelMutex, LockFailed) else Move(s, t, OpenedTarget, k)
    case OpenedTarget =>
      if FlockTarget in op.faults then Quit(s, t, RelMutex, LockFailed)
      else if op.Shared() then Move(s, t, Critical, k.(exclusiveFlocks := k.exclusiveFlocks + {(TargetFile(op), t)}))
      else s
    case Critical =>
      if !s.threads[t].local.pc.Done? then Body(s, t)
      else Move(s, t, if op.Shared() then RelTarget else RelRW, k)
    case RelTarget =>
      if op.Shared() then Move(s, t, RelMutex, k.(exclusiveFlocks := k.exclusiveFlocks - {(TargetFile(op), t)})) else s
    case RelMutex =>
      if op.Shared() then Move(s, t, RelRW, k.(mutexes := k.mutexes - {(v, TargetKey(op), t)})) else s
    case RelRW =>
      if op.Shared() then Move(s, t, RelFlock, k.(readers := k.readers - {(v, t)}))
      else Move(s, t, RelFlock, k.(writers := k.writers - {(v, t)}))
    case RelFlock =>
      if op.Shared() then Move(s, t, Finished, k.(sharedFlocks := k.sharedFlocks - {(GLOBAL_LOCK, t)}))
      else Move(s, t, Finished, k.(exclusiveFlocks := k.exclusiveFlocks - {(GLOBAL_LOCK, t)}))
    case Finished => s
  }

  // ---------- which locks go with which phase ----------

  predicate HoldsFlock(p: Phase) { !p.Start? && !p.OpenedGlobal? && !p.Finished? }

  predicate HoldsReader(op: Op, p: Phase) {
    op.Shared() && HoldsFlock(p) && !p.HaveFlock? && !p.RelFlock?
  }

  predicate HoldsWriter(op: Op, p: Phase) { !op.Shared() && (p.Announced? || p.Critical? || p.RelRW?) }

  predicate HoldsMutex(op: Op, p: Phase) {
    op.Shared() && (p.HaveMutex? || p.OpenedTarget? || p.Critical? || p.RelTarget? || p.RelMutex?)
  }

  predicate HoldsTarget(op: Op, p: Phase) { op.Shared() && (p.Critical? || p.RelTarget?) }

  predicate Possible(op: Op, th: Thread) {
    && (op.Shared() ==> !th.phase.Announced?)
    && (!op.Shared() ==>
          !th.phase.HaveGlobal? && !th.phase.HaveMutex? && !th.phase.OpenedTarget?
          && !th.phase.RelTarget? && !th.phase.RelMutex?)
    && (if th.phase.Start? || th.phase.OpenedGlobal? || th.phase.HaveFlock? || th.phase.Announced?
           || th.phase.HaveGlobal? || th.phase.HaveMutex? || th.phase.OpenedTarget?
        then th.local == START
        else th.phase.Critical? || th.local.pc.Done?)
    && (th.phase.Critical? ==>
          op.Rejection().None? && OpenGlobal !in op.faults && FlockGlobal !in op.faults
          && (op.Shared() ==> OpenTarget !in op.faults && FlockTarget !in op.faults))
    && (!th.phase.Start? && !th.phase.Finished? ==>
          op.Rejection().None? && OpenGlobal !in op.faults && (HoldsFlock(th.phase) ==> FlockGlobal !in op.faults))
    && (th.phase.OpenedTarget? ==> OpenTarget !in op.faults)
  }

  // The lock tables say exactly what the phases say, so a finished job holds nothing.

  ghost predicate SharedFlocksAgree(s: System)
    requires |s.threads| == |s.jobs|
  {
    forall f, t: nat :: (f, t) in s.locks.sharedFlocks <==>
      t < |s.jobs| && f == GLOBAL_LOCK && s.jobs[t].op.Shared() && HoldsFlock(s.threads[t].phase)
  }

  ghost predicate ExclusiveFlocksAgree(s: System)
    requires |s.threads| == |s.jobs|
  {
    forall f, t: nat :: (f, t) in s.locks.exclusiveFlocks <==>
      t < |s.jobs|
      && ((f == GLOBAL_LOCK && !s.jobs[t].op.Shared() && HoldsFlock(s.threads[t].phase))
          || (HoldsTarget(s.jobs[t].op, s.threads[t].phase) && f == TargetFile(s.jobs[t].op)))
  }

  ghost predicate ReadersAgree(s: System)
    requires |s.threads| == |s.jobs|
  {
    forall v, t: nat :: (v, t) in s.locks.readers <==>
      t < |s.jobs| && v == s.jobs[t].service && HoldsReader(s.jobs[t].op, s.threads[t].phase)
  }

  ghost predicate WritersAgree(s: System)
    requires |s.threads| == |s.jobs|
  {
    forall v, t: nat :: (v, t) in s.locks.writers <==>
      t < |s.jobs| && v == s.jobs[t].service && HoldsWriter(s.jobs[t].op, s.threads[t].phase)
  }

  ghost predicate MutexesAgree(s: System)
    requires |s.threads| == |s.jobs|
  {
    forall v, k, t: nat :: (v, k, t) in s.locks.mutexes <==>
      t < |s.jobs| && HoldsMutex(s.jobs[t].op, s.threads[t].phase)
      && v == s.jobs[t].service && k == TargetKey(s.jobs[t].op)
  }

  ghost predicate TablesAgree(s: System)
    requires |s.threads| == |s.jobs|
  {
    SharedFlocksAgree(s) && ExclusiveFlocksAgree(s) && ReadersAgree(s) && WritersAgree(s) && MutexesAgree(s)
  }

  // Mutual exclusion.

  /** All holders of the global lock are shared, unless there is only one. */
  ghost predicate GlobalExclusive(s: System)
    requires |s.threads| == |s.jobs|
  {
    forall t, u | 0 <= t < |s.jobs| && 0 <= u < |s.jobs| && t != u
      && HoldsFlock(s.threads[t].phase) && HoldsFlock(s.threads[u].phase) :: s.jobs[t].op.Shared()
  }

  /** No two goroutines of one process hold the mutex of one key. */
  ghost predicate MutexExclusive(s: System)
    requires |s.threads| == |s.jobs|
  {
    forall t, u | 0 <= t < |s.jobs| && 0 <= u < |s.jobs| && t != u
      && HoldsMutex(s.jobs[t].op, s.threads[t].phase) && HoldsMutex(s.jobs[u].op, s.threads[u].phase) ::
      s.jobs[t].service != s.jobs[u].service || TargetKey(s.jobs[t].op) != TargetKey(s.jobs[u].op)
  }

  /** No two goroutines anywhere hold one target lock file. */
  ghost predicate TargetExclusive(s: System)
    requires |s.threads| == |s.jobs|
  {
    forall t, u | 0 <= t < |s.jobs| && 0 <= u < |s.jobs| && t != u
      && HoldsTarget(s.jobs[t].op, s.threads[t].phase) && HoldsTarget(s.jobs[u].op, s.threads[u].phase) ::
      TargetFile(s.jobs[t].op) != TargetFile(s.jobs[u].op)
  }

  ghost predicate LockInv(s: System) {
    && |s.threads| == |s.jobs|
    && (forall t | 0 <= t < |s.jobs| :: Possible(s.jobs[t].op, s.threads[t]))
    && TablesAgree(s)
    && GlobalExclusive(s) && MutexExclusive(s) && TargetExclusive(s)
  }

  lemma InitialLockInv(jobs: seq<Job>, root: Tree)
    ensures LockInv(Initial(jobs, root))
  {
  }

  predicate Acquiring(p: Phase) {
    p.Start? || p.OpenedGlobal? || p.HaveFlock? || p.Announced? || p.HaveGlobal? || p.HaveMutex? || p.OpenedTarget?
  }

  /** A step moves one thread, and keeps phases, names and operation states in step. */
  ghost predicate OneMoved(s: System, t: nat, z: System)
    requires |s.threads| == |s.jobs|
  {
    && z.jobs == s.jobs && |z.threads| == |s.threads|
    && (forall u | 0 <= u < |s.jobs| && u != t :: z.threads[u] == s.threads[u])
    && (forall u | 0 <= u < |s.jobs| :: Possible(s.jobs[u].op, z.threads[u]))
  }

  lemma BodyMoves(s: System, t: nat)
    requires LockInv(s) && Enabled(s, t) && s.threads[t].phase.Critical?
    ensures OneMoved(s, t, Advance(s, t))
  {
  }

  lemma AcquireMoves(s: System, t: nat)
    requires LockInv(s) && Enabled(s, t) && Acquiring(s.threads[t].phase)
    ensures OneMoved(s, t, Advance(s, t))
  {
    match s.threads[t].phase {
      case Start =>
      case OpenedGlobal =>
      case HaveFlock =>
      case Announced =>
      case HaveGlobal =>
      case HaveMutex =>
      case OpenedTarget =>
      case _ =>
    }
  }

  lemma ReleaseMoves(s: System, t: nat)
    requires LockInv(s) && Enabled(s, t) && !Acquiring(s.threads[t].phase) && !s.threads[t].phase.Critical?
    ensures OneMoved(s, t, Advance(s, t))
  {
    match s.threads[t].phase {
      case RelTarget =>
      case RelMutex =>
      case RelRW =>
      case RelFlock =>
      case _ =>
    }
  }

  lemma StepMoves(s: System, t: nat)
    requires LockInv(s) && Enabled(s, t)
    ensures OneMoved(s, t, Advance(s, t))
  {
    if Acquiring(s.threads[t].phase) { AcquireMoves(s, t); }
    else if s.threads[t].phase.Critical? { BodyMoves(s, t); }
    else { ReleaseMoves(s, t); }
  }

  lemma StepSharedFlocks(s: System, t: nat)
    requires LockInv(s) && Enabled(s, t)
    ensures SharedFlocksAgree(Advance(s, t))
  {
    StepMoves(s, t);
    var op := s.jobs[t].op;
    if op.Shared() { TargetLockNotGlobal(op.action.repository, op.action.architecture); }
  }

  lemma StepExclusiveFlocks(s: System, t: nat)
    requires LockInv(s) && Enabled(s, t)
    ensures ExclusiveFlocksAgree(Advance(s, t))
  {
    StepMoves(s, t);
    var op := s.jobs[t].op;
    if op.Shared() { TargetLockNotGlobal(op.action.repository, op.action.architecture); }
  }

  lemma StepReaders(s: System, t: nat)
    requires LockInv(s) && Enabled(s, t)
    ensures ReadersAgree(Advance(s, t))
  {
    StepMoves(s, t);
  }

  lemma StepWriters(s: System, t: nat)
    requires LockInv(s) && Enabled(s, t)
    ensures WritersAgree(Advance(s, t))
  {
    StepMoves(s, t);
  }

  lemma StepMutexes(s: System, t: nat)
    requires LockInv(s) && Enabled(s, t)
    ensures MutexesAgree(Advance(s, t))
  {
    StepMoves(s, t);
  }

  /** What the tables list for the threads that hold something. */
  lemma HoldersListed(s: System)
    requires LockInv(s)
    ensures forall u | 0 <= u < |s.jobs| && HoldsFlock(s.threads[u].phase) ::
              if s.jobs[u].op.Shared() then (GLOBAL_LOCK, u) in s.locks.sharedFlocks
              else (GLOBAL_LOCK, u) in s.locks.exclusiveFlocks
    ensures forall u | 0 <= u < |s.jobs| && HoldsTarget(s.jobs[u].op, s.threads[u].phase) ::
              (TargetFile(s.jobs[u].op), u) in s.locks.exclusiveFlocks
    ensures forall u | 0 <= u < |s.jobs| && HoldsMutex(s.jobs[u].op, s.threads[u].phase) ::
              (s.jobs[u].service, TargetKey(s.jobs[u].op), u) in s.locks.mutexes
  {
  }

  lemma StepGlobalExclusive(s: System, t: nat)
    requires LockInv(s) && Enabled(s, t)
    ensures GlobalExclusive(Advance(s, t))
  {
    StepMoves(s, t);
    HoldersListed(s);
  }

  lemma StepMutexExclusive(s: System, t: nat)
    requires LockInv(s) && Enabled(s, t)
    ensures MutexExclusive(Advance(s, t))
  {
    StepMoves(s, t);
    HoldersListed(s);
  }

  lemma StepTargetExclusive(s: System, t: nat)
    requires LockInv(s) && Enabled(s, t)
    ensures TargetExclusive(Advance(s, t))
  {
    StepMoves(s, t);
    HoldersListed(s);
    var op := s.jobs[t].op;
    if op.Shared() { TargetLockNotGlobal(op.action.repository, op.action.architecture); }
  }

  /** Every step keeps the lock invariant. */
  lemma StepLockInv(s: System, t: nat)
    requires LockInv(s) && Enabled(s, t)
    ensures LockInv(Advance(s, t))
  {
    StepMoves(s, t);
    StepSharedFlocks(s, t);
    StepExclusiveFlocks(s, t);
    StepReaders(s, t);
    StepWriters(s, t);
    StepMutexes(s, t);
    StepGlobalExclusive(s, t);
    StepMutexExclusive(s, t);
    StepTargetExclusive(s, t);
  }

  // ---------- whole runs ----------

  /** `schedule` names the goroutine that moves at each step. */
  predicate Runs(s: System, schedule: seq<nat>)
    decreases |schedule|
  {
    schedule == [] || (Enabled(s, schedule[0]) && Runs(Advance(s, schedule[0]), schedule[1..]))
  }

  function After(s: System, schedule: seq<nat>): System
    requires Runs(s, schedule)
    decreases |schedule|
  {
    if schedule == [] then s else After(Advance(s, schedule[0]), schedule[1..])
  }

  lemma RunLockInv(s: System, schedule: seq<nat>)
    requires LockInv(s) && Runs(s, schedule)
    ensures LockInv(After(s, schedule))
    decreases |schedule|
  {
    if schedule != [] {
      StepLockInv(s, schedule[0]);
      RunLockInv(Advance(s, schedule[0]), schedule[1..]);
    }
  }

  // ---------- deadlock freedom ----------

  function Rank(p: Phase): nat {
    match p
    case Start => 12 case OpenedGlobal => 11 case HaveFlock => 10 case Announced => 9
    case HaveGlobal => 8 case HaveMutex => 7 case OpenedTarget => 6 case Critical => 5
    case RelTarget => 4 case RelMutex => 3 case RelRW => 2 case RelFlock => 1 case Finished => 0
  }

  /** Once the global flock is held, the in-process read-write mutex never blocks. */
  lemma RWMutexNeverBlocks(s: System, t: nat)
    requires LockInv(s) && t < |s.jobs|
    requires s.threads[t].phase.HaveFlock? || s.threads[t].phase.Announced?
    ensures Enabled(s, t)
  {
  }

  /** Goroutines of one process wait for each other's mutex only when their targets are the
      same, although their lock files may coincide for different targets. */
  lemma MutexBlocksSameTargetOnly(s: System, t: nat, u: nat)
    requires LockInv(s) && t < |s.jobs| && u < |s.jobs| && t != u
    requires s.threads[t].phase.HaveGlobal?
    requires (s.jobs[t].service, TargetKey(s.jobs[t].op), u) in s.locks.mutexes
    ensures s.jobs[u].op.Shared() && s.jobs[u].service == s.jobs[t].service
    ensures s.jobs[u].op.action.repository == s.jobs[t].op.action.repository
    ensures s.jobs[u].op.action.architecture == s.jobs[t].op.action.architecture
  {
    var p, q := s.jobs[t].op.action, s.jobs[u].op.action;
    assert HoldsMutex(s.jobs[u].op, s.threads[u].phase);
    assert s.jobs[t].op.Rejection().None? && s.jobs[u].op.Rejection().None?;
    MutexKeyInjective(p.repository, p.architecture, q.repository, q.architecture);
  }

  /** Who waits for whom, exactly: for the global flock a shared operation waits for an exclusive
      one and an exclusive operation for any other; for a mutex, for the same target in the same
      process; for a target's lock file, for another that locks the same file. Operations on
      targets with different lock files never wait for each other. */
  lemma WaitsExactly(s: System, t: nat)
    requires LockInv(s) && t < |s.jobs|
    ensures var job, phase := s.jobs[t], s.threads[t].phase;
            Enabled(s, t) <==>
              match phase
              case Finished => false
              case OpenedGlobal =>
                FlockGlobal in job.op.faults
                || forall u | 0 <= u < |s.jobs| && u != t && HoldsFlock(s.threads[u].phase) ::
                     job.op.Shared() && s.jobs[u].op.Shared()
              case HaveGlobal =>
                forall u | 0 <= u < |s.jobs| && u != t && HoldsMutex(s.jobs[u].op, s.threads[u].phase) ::
                  s.jobs[u].service != job.service || TargetKey(s.jobs[u].op) != TargetKey(job.op)
              case OpenedTarget =>
                FlockTarget in job.op.faults
                || forall u | 0 <= u < |s.jobs| && u != t && HoldsTarget(s.jobs[u].op, s.threads[u].phase) ::
                     TargetFile(s.jobs[u].op) != TargetFile(job.op)
              case _ => true
  {
    HoldersListed(s);
    var op := s.jobs[t].op;
    if op.Shared() { TargetLockNotGlobal(op.action.repository, op.action.architecture); }
    forall u | 0 <= u < |s.jobs| && s.jobs[u].op.Shared()
      ensures TargetFile(s.jobs[u].op) != GLOBAL_LOCK
    {
      TargetLockNotGlobal(s.jobs[u].op.action.repository, s.jobs[u].op.action.architecture);
    }
    match s.threads[t].phase {
      case HaveFlock => RWMutexNeverBlocks(s, t);
      case Announced => RWMutexNeverBlocks(s, t);
      case _ =>
    }
    hide TargetLock, MutexKey;
  }

  predicate FurtherAlong(s: System, u: nat, t: nat) {
    && u < |s.threads| && t < |s.threads|
    && !s.threads[u].phase.Finished? && Rank(s.threads[u].phase) < Rank(s.threads[t].phase)
  }

  lemma GlobalBlocker(s: System, t: nat) returns (u: nat)
    requires LockInv(s) && t < |s.jobs| && s.threads[t].phase.OpenedGlobal? && !Enabled(s, t)
    ensures FurtherAlong(s, u, t)
  {
    var n := |s.threads|;
    if !Free(s.locks.exclusiveFlocks, GLOBAL_LOCK, t, n) {
      u :| u < n && u != t && (GLOBAL_LOCK, u) in s.locks.exclusiveFlocks;
    } else {
      u :| u < n && u != t && (GLOBAL_LOCK, u) in s.locks.sharedFlocks;
    }
  }

  lemma TargetBlocker(s: System, t: nat) returns (u: nat)
    requires LockInv(s) && t < |s.jobs| && s.threads[t].phase.OpenedTarget? && !Enabled(s, t)
    ensures FurtherAlong(s, u, t)
  {
    var op := s.jobs[t].op;
    TargetLockNotGlobal(op.action.repository, op.action.architecture);
    u :| u < |s.threads| && u != t && (TargetFile(op), u) in s.locks.exclusiveFlocks;
  }

  /** A goroutine that cannot move waits for one that is further along. */
  lemma Blocker(s: System, t: nat) returns (u: nat)
    requires LockInv(s) && t < |s.jobs| && !s.threads[t].phase.Finished? && !Enabled(s, t)
    ensures FurtherAlong(s, u, t)
  {
    match s.threads[t].phase {
      case OpenedGlobal => u := GlobalBlocker(s, t);
      case HaveGlobal =>
        u :| u < |s.threads| && u != t && (s.jobs[t].service, TargetKey(s.jobs[t].op), u) in s.locks.mutexes;
      case OpenedTarget => u := TargetBlocker(s, t);
      case _ =>
        RWMutexNeverBlocks(s, t);
        assert false;
    }
  }

  /** Wherever one goroutine is unfinished, some goroutine can move: waits only ever point
      to a goroutine further along. */
  lemma SomeoneCanMove(s: System, t: nat) returns (u: nat)
    requires LockInv(s) && t < |s.jobs| && !s.threads[t].phase.Finished?
    ensures Enabled(s, u)
    decreases Rank(s.threads[t].phase)
  {
    if Enabled(s, t) {
      u := t;
    } else {
      u := Blocker(s, t);
      u := SomeoneCanMove(s, u);
    }
  }

  // ---------- completion ----------

  function Remaining(th: Thread): nat { Rank(th.phase) + Fuel(th.local.pc) }

  function Total(threads: seq<Thread>): nat {
    if threads == [] then 0 else Remaining(threads[0]) + Total(threads[1..])
  }

  lemma TotalUpdate(threads: seq<Thread>, t: nat, th: Thread)
    requires t < |threads|
    ensures Total(threads[t := th]) + Remaining(threads[t]) == Total(threads) + Remaining(th)
  {
    if t == 0 {
      assert threads[t := th][1..] == threads[1..];
    } else {
      assert threads[t := th][1..] == threads[1..][t - 1 := th];
      TotalUpdate(threads[1..], t - 1, th);
    }
  }

  /** Every step brings its goroutine closer to its end. */
  lemma StepDescends(s: System, t: nat)
    requires LockInv(s) && Enabled(s, t)
    ensures Total(Advance(s, t).threads) < Total(s.threads)
  {
    var z := Advance(s, t);
    StepMoves(s, t);
    if s.threads[t].phase.Critical? && !s.threads[t].local.pc.Done? {
      StepDecreases(s.jobs[t].op, s.threads[t].local, s.root);
    }
    RemainingDescends(s, t);
    TotalUpdate(s.threads, t, z.threads[t]);
    assert z.threads == s.threads[t := z.threads[t]];
  }

  lemma RemainingDescends(s: System, t: nat)
    requires LockInv(s) && Enabled(s, t)
    requires s.threads[t].phase.Critical? && !s.threads[t].local.pc.Done? ==>
               Fuel(Step(s.jobs[t].op, s.threads[t].local, s.root).0.pc) < Fuel(s.threads[t].local.pc)
    ensures Remaining(Advance(s, t).threads[t]) < Remaining(s.threads[t])
  {
    assert Possible(s.jobs[t].op, s.threads[t]);
    hide LockInv, Step;
    match s.threads[t].phase {
      case Start => case OpenedGlobal => case HaveFlock => case Announced => case HaveGlobal => case HaveMutex =>
      case OpenedTarget => case Critical => case RelTarget => case RelMutex => case RelRW => case RelFlock =>
      case Finished =>
    }
  }

  /** No run is longer than the work there was at its beginning. */
  lemma RunsAreBounded(s: System, schedule: seq<nat>)
    requires LockInv(s) && Runs(s, schedule)
    ensures |schedule| + Total(After(s, schedule).threads) <= Total(s.threads)
    decreases |schedule|
  {
    if schedule != [] {
      StepLockInv(s, schedule[0]);
      StepDescends(s, schedule[0]);
      RunsAreBounded(Advance(s, schedule[0]), schedule[1..]);
    }
  }

  predicate AllFinished(s: System) { forall t | 0 <= t < |s.threads| :: s.threads[t].phase.Finished? }

  /** Every run of any set of jobs ends, and where it can go no further every job has
      finished and every lock has been given back, on the error paths as on the others. */
  lemma RunsComplete(jobs: seq<Job>, root: Tree, schedule: seq<nat>)
    requires Runs(Initial(jobs, root), schedule)
    ensures var final := After(Initial(jobs, root), schedule);
            && |schedule| <= Total(Initial(jobs, root).threads)
            && ((forall u: nat :: !Enabled(final, u)) <==> AllFinished(final))
            && (AllFinished(final) ==> final.locks == Locks({}, {}, {}, {}, {}))
  {
    var s := Initial(jobs, root);
    InitialLockInv(jobs, root);
    RunLockInv(s, schedule);
    RunsAreBounded(s, schedule);
    var final := After(s, schedule);
    StuckMeansFinished(final);
    if AllFinished(final) { NothingHeld(final); }
  }

  /** No deadlock: a system in which nobody can move has finished. */
  lemma StuckMeansFinished(s: System)
    requires LockInv(s)
    ensures (forall u: nat :: !Enabled(s, u)) <==> AllFinished(s)
  {
    if !AllFinished(s) {
      var t :| 0 <= t < |s.threads| && !s.threads[t].phase.Finished?;
      var u := SomeoneCanMove(s, t);
      assert Enabled(s, u);
    }
  }

  lemma NothingHeld(s: System)
    requires LockInv(s) && AllFinished(s)
    ensures s.locks == Locks({}, {}, {}, {}, {})
  {
    var k := s.locks;
    NoPairs(k.sharedFlocks);
    NoPairs(k.exclusiveFlocks);
    NoPairs(k.readers);
    NoPairs(k.writers);
    NoTriples(k.mutexes);
  }

  lemma NoPairs<A>(pairs: set<(A, nat)>)
    requires forall a, b: nat :: (a, b) !in pairs
    ensures pairs == {}
  {
    assert forall e | e in pairs :: e == (e.0, e.1);
  }

  lemma NoTriples<A, B>(triples: set<(A, B, nat)>)
    requires forall a, b, c: nat :: (a, b, c) !in triples
    ensures triples == {}
  {
    assert forall e | e in triples :: e == (e.0, e.1, e.2);
  }
}
