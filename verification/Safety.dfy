/** What holds at every state of every interleaving: no dangling database entry, and nothing
    lost by a Rename in progress. */
module Safety {
  import opened Options
  import opened Names
  import opened FileTree
  import opened Operations
  import opened Transactions
  import opened Renaming
  import opened Locking
  import opened Serializability

  // ---------- whole-tree operations ----------

  /** Where a Create, RemoveRepository or Rename that began at `start` stands. */
  ghost predicate LifecycleReaches(op: Op, start: Tree, l: Local, root: Tree)
    requires !op.Shared()
  {
    var r := op.action.repository;
    match op.action
    case Create(_) =>
      (match l.pc
       case Begin => root == start
       case Done(Ok) => r !in start && root == start[r := Dir(map[])]
       case Done(Failed(_)) => root == start
       case _ => false)
    case RemoveRepository(_, remnant) =>
      (match l.pc
       case Begin => root == start
       case AtDeleteTree => root == start && r in start
       case Done(Ok) => r in start && root == start - {r}
       case Done(Failed(e)) =>
         if e == DeleteFailed then DeleteRepository in op.faults && root == DeleteTree(start, r, true, remnant)
         else root == start
       case _ => false)
    case Rename(_, _, _, _, _) => RenameReaches(op, start, l, root)
    case _ => false
  }

  lemma LifecycleReachesStep(op: Op, start: Tree, l: Local, root: Tree)
    requires !op.Shared() && op.Rejection().None? && !l.pc.Done?
    requires LifecycleReaches(op, start, l, root)
    ensures var (m, next) := LifecycleStep(op, l, root); LifecycleReaches(op, start, m, next)
  {
    if op.action.Rename? { RenameReachesStep(op, start, l, root); }
  }

  /** A Rename has put its copy in place. */
  predicate InPlace(pc: Pc) {
    match pc
    case AtDeleteOld => true
    case AtCleanup(after) => after == Ok || after == Failed(DeleteFailed)
    case Done(result) => result == Ok || result == Failed(DeleteFailed)
    case _ => false
  }

  /** Which repositories may be half-deleted when `op` stands at `pc`, if those of `bad` were
      when it began. A failing deletion adds its repository; the copy a Rename has put in place
      is as good as what it was made from; whatever is created or gone is good. */
  function Spoilt(op: Op, pc: Pc, bad: set<string>): set<string> {
    var r := op.action.repository;
    match op.action
    case Create(_) => if pc == Done(Ok) then bad - {r} else bad
    case RemoveRepository(_, _) =>
      if pc == Done(Ok) then bad - {r} else if pc == Done(Failed(DeleteFailed)) then bad + {r} else bad
    case Rename(_, n, _, _, _) =>
      if !InPlace(pc) then bad
      else
        var copied := if r in bad then bad + {n} else bad - {n};
        if pc == AtDeleteOld then copied else if pc in {AtCleanup(Ok), Done(Ok)} then copied - {r} else copied + {r}
    case _ => bad
  }

  /** Every state of a whole-tree operation is kept outside what it may have spoilt. */
  lemma LifecycleKeeps(op: Op, start: Tree, l: Local, root: Tree, bad: set<string>)
    requires !op.Shared() && op.Rejection().None?
    requires KeptBut(start, bad) && LifecycleReaches(op, start, l, root)
    ensures KeptBut(root, Spoilt(op, l.pc, bad))
  {
    if op.action.Rename? { RenameKeepsBut(op, start, l, root, bad); }
  }

  lemma RenameKeepsBut(op: Op, start: Tree, l: Local, root: Tree, bad: set<string>)
    requires op.action.Rename? && op.Rejection().None?
    requires KeptBut(start, bad) && RenameReaches(op, start, l, root)
    ensures KeptBut(root, Spoilt(op, l.pc, bad))
  {
    if InPlace(l.pc) { LateKeeps(op, start, l, root, bad); } else { EarlyKeeps(op, start, l, root, bad); }
    hide KeptBut, RenameReaches;
  }

  lemma EarlyKeeps(op: Op, start: Tree, l: Local, root: Tree, bad: set<string>)
    requires op.action.Rename? && op.Rejection().None? && !InPlace(l.pc)
    requires KeptBut(start, bad) && RenameReaches(op, start, l, root)
    ensures KeptBut(root, bad)
  {
    var t := TemporaryName(op.action.newName, op.action.suffix);
    TemporaryIsNoComponent(op.action.newName, op.action.suffix);
    if t in root { KeptBeside(start, t, root[t], bad); }
    hide KeptBut, Passed, Snapshot, DeleteTree, Component;
  }

  lemma LateKeeps(op: Op, start: Tree, l: Local, root: Tree, bad: set<string>)
    requires op.action.Rename? && op.Rejection().None? && InPlace(l.pc)
    requires KeptBut(start, bad) && RenameReaches(op, start, l, root)
    ensures KeptBut(root, Spoilt(op, l.pc, bad))
  {
    var o, n := op.action.repository, op.action.newName;
    assert Passed(op, start, INSTALLING);
    var copied, next := if o in bad then bad + {n} else bad - {n}, start[n := Snapshot(op, start)];
    CopyKeeps(op, start, bad);
    KeptWithout(next, o, copied);
    KeptDeleting(next, o, op.action.remnant, copied);
    hide KeptBut, Passed, Snapshot, DeleteTree, Component;
  }

  /** The copy a Rename puts in place is kept if the old repository is. */
  lemma CopyKeeps(op: Op, start: Tree, bad: set<string>)
    requires op.action.Rename? && op.Rejection().None? && KeptBut(start, bad) && Passed(op, start, INSTALLING)
    ensures var o, n := op.action.repository, op.action.newName;
            KeptBut(start[n := Snapshot(op, start)], if o in bad then bad + {n} else bad - {n})
  {
    var o, n := op.action.repository, op.action.newName;
    assert StatOld in INSTALLING && RenameDatabases in INSTALLING;
    if o !in bad {
      KeptPasses(op, start);
      RenamedRepositoryMeaning(start[o].entries, o, n);
    }
    hide RenamedRepository, RenameAll, Copyable, KeptRepository, Consistent;
  }

  lemma KeptBeside(start: Tree, t: string, node: Node, bad: set<string>)
    requires KeptBut(start, bad) && !Component(t)
    ensures KeptBut(start[t := node], bad)
  {
  }

  lemma KeptWithout(root: Tree, o: string, bad: set<string>)
    requires KeptBut(root, bad)
    ensures KeptBut(root - {o}, bad - {o})
  {
  }

  lemma KeptDeleting(root: Tree, o: string, remnant: Node, bad: set<string>)
    requires KeptBut(root, bad)
    ensures KeptBut(DeleteTree(root, o, true, remnant), bad + {o})
  {
  }

  lemma LifecycleReachesEnd(op: Op, start: Tree, l: Local, root: Tree)
    requires !op.Shared() && op.Rejection().None? && LifecycleReaches(op, start, l, root)
    ensures var (m, final) := Finish(op, l, root); m.pc.Done? && LifecycleReaches(op, start, m, final)
    decreases Fuel(l.pc)
  {
    if !l.pc.Done? {
      StepDecreases(op, l, root);
      LifecycleReachesStep(op, start, l, root);
      LifecycleReachesEnd(op, start, Step(op, l, root).0, Step(op, l, root).1);
    }
  }

  // ---------- target operations ----------

  lemma KeptViews(root: Tree, r: string, a: string, bad: set<string>)
    requires KeptBut(root, bad) && Component(r) && r !in bad
    ensures ViewKept(r, ViewOf(root, r, a))
  {
  }

  lemma KeptStore(root: Tree, r: string, a: string, w: View, made: bool, bad: set<string>)
    requires KeptBut(root, bad) && Component(a) && (r !in bad ==> ViewKept(r, w))
    ensures KeptBut(Store(root, r, a, w, made), bad)
  {
    var next := Store(root, r, a, w, made);
    forall q | q in next && Component(q) && q !in bad
      ensures next[q].Dir? && KeptRepository(q, next[q].entries)
    {
      if q != r { assert q in root; }
    }
  }

  lemma FinishViewKeeps(op: Op, l: Local, v: View)
    requires op.Shared() && op.Rejection().None?
    requires ViewKept(op.action.repository, v) && InFlight(op, l, v)
    ensures ViewKept(op.action.repository, FinishView(op, l, v).1)
    decreases Fuel(l.pc)
  {
    if !l.pc.Done? {
      StepViewDecreases(op, l, v);
      TargetStepKeeps(op, l, v);
      FinishViewKeeps(op, StepView(op, l, v).0, StepView(op, l, v).1);
    }
  }

  /** A whole operation keeps the invariant of the tree, whether it succeeds or fails, except
      in repositories that it may have spoilt. */
  lemma ApplyKeeps(op: Op, root: Tree, bad: set<string>)
    requires KeptBut(root, bad)
    ensures KeptBut(Apply(op, root).1, Spoilt(op, Done(Apply(op, root).0), bad))
  {
    if Refused(op) {
      RefusedLeavesTree(op, root);
    } else if op.Shared() {
      var r, a := op.action.repository, op.action.architecture;
      var (m, w) := FinishView(op, START, ViewOf(root, r, a));
      FinishLifts(op, START, root);
      if r !in bad {
        KeptViews(root, r, a, bad);
        FinishViewKeeps(op, START, ViewOf(root, r, a));
      }
      KeptStore(root, r, a, w, m.made, bad);
    } else {
      LifecycleReachesEnd(op, root, START, root);
      LifecycleKeeps(op, root, Finish(op, START, root).0, Finish(op, START, root).1, bad);
    }
  }

  /** Which repositories may be half-deleted after a serial run. */
  function Tainted(jobs: seq<Job>, root: Tree, order: seq<nat>, bad: set<string>): set<string>
    requires forall i | 0 <= i < |order| :: order[i] < |jobs|
  {
    if order == [] then bad
    else
      var earlier, op := order[..|order| - 1], jobs[order[|order| - 1]].op;
      Spoilt(op, Done(Apply(op, SerialTree(jobs, root, earlier)).0), Tainted(jobs, root, earlier, bad))
  }

  lemma TaintedGrows(jobs: seq<Job>, root: Tree, order: seq<nat>, t: nat, bad: set<string>)
    requires t < |jobs| && forall i | 0 <= i < |order| :: order[i] < |jobs|
    ensures Tainted(jobs, root, order + [t], bad) ==
              Spoilt(jobs[t].op, Done(Apply(jobs[t].op, SerialTree(jobs, root, order)).0),
                     Tainted(jobs, root, order, bad))
  {
    assert (order + [t])[..|order|] == order;
  }

  lemma SerialTreeKept(jobs: seq<Job>, root: Tree, order: seq<nat>, bad: set<string>)
    requires forall i | 0 <= i < |order| :: order[i] < |jobs|
    requires KeptBut(root, bad)
    ensures KeptBut(SerialTree(jobs, root, order), Tainted(jobs, root, order, bad))
  {
    if order != [] {
      var shorter := order[..|order| - 1];
      SerialTreeKept(jobs, root, shorter, bad);
      ApplyKeeps(jobs[order[|order| - 1]].op, SerialTree(jobs, root, shorter), Tainted(jobs, root, shorter, bad));
    }
  }

  /** The call that takes out the old tree of a RemoveRepository or Rename works. */
  predicate TreeDeletesWork(op: Op) {
    (op.action.Rename? ==> DeleteOld !in op.faults) && (op.action.RemoveRepository? ==> DeleteRepository !in op.faults)
  }

  /** The repositories an operation may leave half-deleted are among `bad`, and so are those it
      makes out of such ones. */
  predicate Confined(op: Op, bad: set<string>) {
    && (!TreeDeletesWork(op) ==> op.action.repository in bad)
    && (op.action.Rename? && op.action.repository in bad ==> op.action.newName in bad)
  }

  /** A bound that can be read off the jobs alone. */
  lemma TaintedWithin(jobs: seq<Job>, root: Tree, order: seq<nat>, bad: set<string>)
    requires forall i | 0 <= i < |order| :: order[i] < |jobs|
    requires forall t | 0 <= t < |jobs| :: Confined(jobs[t].op, bad)
    ensures Tainted(jobs, root, order, bad) <= bad
  {
    if order != [] {
      var shorter, op := order[..|order| - 1], jobs[order[|order| - 1]].op;
      TaintedWithin(jobs, root, shorter, bad);
      SpoiltWithin(op, SerialTree(jobs, root, shorter), Tainted(jobs, root, shorter, bad), bad);
    }
  }

  lemma SpoiltWithin(op: Op, tree: Tree, some: set<string>, bad: set<string>)
    requires Confined(op, bad) && some <= bad
    ensures Spoilt(op, Done(Apply(op, tree).0), some) <= bad
  {
    if !op.Shared() { FailedDeletion(op, tree); }
    hide Apply;
  }

  lemma FailedDeletion(op: Op, tree: Tree)
    requires !op.Shared()
    ensures Apply(op, tree).0 == Failed(DeleteFailed) ==> !op.action.Create? && !TreeDeletesWork(op)
  {
    if !Refused(op) { LifecycleReachesEnd(op, tree, START, tree); }
    hide Finish;
  }

  // ---------- every state of every run ----------

  /** Every whole-tree operation in progress is somewhere on its way from the serial tree. */
  ghost predicate Underway(s: System, serial: Tree) {
    forall t: nat | InBody(s, t) && !s.jobs[t].op.Shared() ::
      LifecycleReaches(s.jobs[t].op, serial, s.threads[t].local, s.root)
  }

  /** Every target operation in progress outside `bad` finds what it relies on. */
  ghost predicate Ready(s: System, bad: set<string>) {
    forall t: nat | InBody(s, t) && s.jobs[t].op.Shared() && s.jobs[t].op.action.repository !in bad ::
      InFlight(s.jobs[t].op, s.threads[t].local, TargetView(s.root, s.jobs[t].op))
  }

  ghost predicate UnderwayInv(s: System, root: Tree) {
    SimInv(s, root) && Underway(s, SerialTree(s.jobs, root, s.log))
  }

  /** Outside what the completed operations may have spoilt every target operation in progress
      finds what it relies on, and the tree is kept unless a whole-tree operation is at work. */
  ghost predicate SafeInv(s: System, root: Tree, bad: set<string>) {
    && UnderwayInv(s, root) && KeptBut(root, bad)
    && var tainted := Tainted(s.jobs, root, s.log, bad);
       Ready(s, tainted) && (!ExclusiveInBody(s) ==> KeptBut(s.root, tainted))
  }

  lemma BodyUnderway(s: System, root: Tree, t: nat)
    requires UnderwayInv(s, root) && InBody(s, t)
    ensures UnderwayInv(Body(s, t), root)
  {
    var z, op, serial := Body(s, t), s.jobs[t].op, SerialTree(s.jobs, root, s.log);
    BodySimInv(s, root, t);
    forall u: nat | InBody(z, u) && !z.jobs[u].op.Shared()
      ensures u == t && !op.Shared() && z.log == s.log
    {
      if u != t { BodiesApart(s, t, u); }
    }
    if !op.Shared() { LifecycleReachesStep(op, serial, s.threads[t].local, s.root); }
  }

  /** A whole-tree operation that ends has the answer it would have on the serial tree. */
  lemma AnswerOnTrack(s: System, serial: Tree, t: nat)
    requires LockInv(s) && InBody(s, t) && OnTrack(s, serial, t) && !s.jobs[t].op.Shared()
    requires Step(s.jobs[t].op, s.threads[t].local, s.root).0.pc.Done?
    ensures Done(Apply(s.jobs[t].op, serial).0) == Step(s.jobs[t].op, s.threads[t].local, s.root).0.pc
  {
    LastStep(s.jobs[t].op, s.threads[t].local, s.root, serial);
    hide Step, Apply, Finish;
  }

  /** What a body step adds to the tainted repositories. */
  lemma BodyTainted(s: System, root: Tree, t: nat, bad: set<string>)
    requires SimInv(s, root) && InBody(s, t)
    ensures var z, op, tainted := Body(s, t), s.jobs[t].op, Tainted(s.jobs, root, s.log, bad);
            && (forall i | 0 <= i < |z.log| :: z.log[i] < |z.jobs|)
            && Tainted(z.jobs, root, z.log, bad) ==
                 if z.threads[t].local.pc.Done? then Spoilt(op, z.threads[t].local.pc, tainted) else tainted
  {
    var op, l, serial := s.jobs[t].op, s.threads[t].local, SerialTree(s.jobs, root, s.log);
    assert OnTrack(s, serial, t);
    hide OnTrack, LockInv, AnswersAgree, Tracks, Step, Apply, Finish, FinishView;
    if Step(op, l, s.root).0.pc.Done? {
      TaintedGrows(s.jobs, root, s.log, t, bad);
      if !op.Shared() { AnswerOnTrack(s, serial, t); }
    }
  }

  lemma SharedKeeps(s: System, t: nat, bad: set<string>)
    requires LockInv(s) && KeptBut(s.root, bad) && Ready(s, bad) && InBody(s, t) && s.jobs[t].op.Shared()
    ensures KeptBut(Body(s, t).root, bad)
  {
    var op, l := s.jobs[t].op, s.threads[t].local;
    var r, a := op.action.repository, op.action.architecture;
    var (m, w) := StepView(op, l, ViewOf(s.root, r, a));
    if r !in bad {
      KeptViews(s.root, r, a, bad);
      TargetStepKeeps(op, l, ViewOf(s.root, r, a));
    }
    KeptStore(s.root, r, a, w, m.made, bad);
  }

  lemma SharedReady(s: System, serial: Tree, t: nat, bad: set<string>)
    requires LockInv(s) && KeptBut(s.root, bad) && Ready(s, bad) && InBody(s, t) && s.jobs[t].op.Shared()
    requires OnTrack(s, serial, t)
    ensures Ready(Body(s, t), bad)
  {
    var z, op := Body(s, t), s.jobs[t].op;
    forall u: nat | InBody(z, u) && z.jobs[u].op.Shared() && z.jobs[u].op.action.repository !in bad
      ensures InFlight(z.jobs[u].op, z.threads[u].local, TargetView(z.root, z.jobs[u].op))
    {
      if u == t {
        OwnReady(s, t, bad);
      } else {
        BodiesApart(s, t, u);
        TargetStepEffect(op, s.threads[t].local, s.root);
      }
    }
  }

  lemma OwnReady(s: System, t: nat, bad: set<string>)
    requires LockInv(s) && KeptBut(s.root, bad) && Ready(s, bad) && InBody(s, t)
    requires s.jobs[t].op.Shared() && s.jobs[t].op.action.repository !in bad
    requires var op, l := s.jobs[t].op, s.threads[t].local; l.made ==> op.action.repository in s.root
    ensures var z, op := Body(s, t), s.jobs[t].op; InFlight(op, z.threads[t].local, TargetView(z.root, op))
  {
    var op, l := s.jobs[t].op, s.threads[t].local;
    var r, a := op.action.repository, op.action.architecture;
    KeptViews(s.root, r, a, bad);
    TargetStepKeeps(op, l, ViewOf(s.root, r, a));
    TargetStepEffect(op, l, s.root);
  }

  /** A whole-tree operation works alone, and the tree it leaves is kept outside what it may
      have spoilt. */
  lemma ExclusiveBody(s: System, root: Tree, t: nat, bad: set<string>)
    requires SafeInv(s, root, bad) && InBody(s, t) && !s.jobs[t].op.Shared()
    ensures var z := Body(s, t);
            && (forall u: nat | u != t :: !InBody(z, u))
            && KeptBut(z.root, Spoilt(s.jobs[t].op, z.threads[t].local.pc, Tainted(s.jobs, root, s.log, bad)))
  {
    var z, op, l, serial := Body(s, t), s.jobs[t].op, s.threads[t].local, SerialTree(s.jobs, root, s.log);
    forall u: nat | u != t
      ensures !InBody(z, u)
    {
      if InBody(s, u) { BodiesApart(s, t, u); }
    }
    SerialTreeKept(s.jobs, root, s.log, bad);
    LifecycleReachesStep(op, serial, l, s.root);
    LifecycleKeeps(op, serial, Step(op, l, s.root).0, Step(op, l, s.root).1, Tainted(s.jobs, root, s.log, bad));
  }

  lemma BodySafeInv(s: System, root: Tree, t: nat, bad: set<string>)
    requires SafeInv(s, root, bad) && InBody(s, t)
    ensures SafeInv(Body(s, t), root, bad)
  {
    var z, tainted := Body(s, t), Tainted(s.jobs, root, s.log, bad);
    BodyUnderway(s, root, t);
    BodyTainted(s, root, t, bad);
    if s.jobs[t].op.Shared() {
      forall u: nat
        ensures InBody(s, u) ==> s.jobs[u].op.Shared()
      {
        if InBody(s, u) && u != t { BodiesApart(s, t, u); }
      }
      assert OnTrack(s, SerialTree(s.jobs, root, s.log), t);
      SharedKeeps(s, t, tainted);
      SharedReady(s, SerialTree(s.jobs, root, s.log), t, tainted);
    } else {
      ExclusiveBody(s, root, t, bad);
      assert !z.threads[t].local.pc.Done? ==> InBody(z, t);
    }
    hide UnderwayInv, KeptBut;
  }

  /** The operation never gets past its checks and locks. */
  predicate Refused(op: Op) {
    || op.Rejection().Some? || OpenGlobal in op.faults || FlockGlobal in op.faults
    || (op.Shared() && (OpenTarget in op.faults || FlockTarget in op.faults))
  }

  lemma RefusedLeavesTree(op: Op, tree: Tree)
    requires Refused(op)
    ensures Apply(op, tree).0.Failed? && Apply(op, tree).1 == tree
    ensures Apply(op, tree).0.error != DeleteFailed
  {
  }

  /** The three ways to be refused, names before locks. */
  lemma RefusedAnswer(op: Op, tree: Tree)
    ensures var p, answer := op.action, Apply(op, tree).0;
            var valid := Component(p.repository) && match p
              case Publish(_, a, f, _, _, _) => Component(a) && PackageFile(f)
              case Remove(_, a, name) => Component(a) && Component(name)
              case Rename(_, n, _, _, _) => Component(n)
              case _ => true;
            var same := p.Rename? && p.repository == p.newName;
            var locks := {OpenGlobal, FlockGlobal} + if op.Shared() then {OpenTarget, FlockTarget} else {};
            && (answer == Failed(InvalidName) <==> !valid)
            && (answer == Failed(SameName) <==> valid && same)
            && (answer == Failed(LockFailed) <==> valid && !same && exists c | c in locks :: c in op.faults)
            && (Refused(op) <==> answer in {Failed(InvalidName), Failed(SameName), Failed(LockFailed)})
  {
    if !Refused(op) { AnswerPastLocks(op, tree); }
    hide Finish, Component, PackageFile;
  }

  lemma AnswerPastLocks(op: Op, tree: Tree)
    requires !Refused(op)
    ensures Apply(op, tree).0 !in {Failed(InvalidName), Failed(SameName), Failed(LockFailed)}
  {
    if op.Shared() {
      TargetRunEffect(op, tree);
      if op.action.Publish? {
        PublishAllOrNothing(op, TargetView(tree, op));
      } else {
        RemoveEnds(op, START, TargetView(tree, op));
      }
      hide Apply, FinishView, PublishSucceeds, Leftover;
    } else if op.action.Rename? {
      RenameReachesEnd(op, tree, START, tree);
      hide Finish;
    } else {
      var (l, next) := Step(op, START, tree);
      StepDecreases(op, START, tree);
      if !l.pc.Done? { StepDecreases(op, l, next); }
    }
  }

  /** Whatever a Remove finds, it fails for a reason of its own. */
  lemma RemoveEnds(op: Op, l: Local, v: View)
    requires op.action.Remove? && RemovePc(l.pc)
    ensures FinishView(op, l, v).0.pc.Done? && RemovePc(FinishView(op, l, v).0.pc)
    decreases Fuel(l.pc)
  {
    if !l.pc.Done? {
      StepViewDecreases(op, l, v);
      RemoveEnds(op, StepView(op, l, v).0, StepView(op, l, v).1);
    }
  }

  predicate RemovePc(pc: Pc) {
    match pc
    case Done(result) =>
      result in {Ok, Failed(PackageNotFound), Failed(ReadFailed), Failed(DatabaseFailed), Failed(Escapes),
                 Failed(DeleteFailed)}
    case _ => pc.Begin? || pc.AtDrop? || pc.AtDeletePackage? || pc.AtDeleteSignature?
  }

  /** What a target operation answers and leaves at its target, and whether its repository
      directory exists afterwards even if it did not: a function of the view it finds. */
  function ViewEffect(op: Op, v: View): (Result, View, bool)
    requires op.Shared()
  {
    if op.Rejection().Some? then (Failed(op.Rejection().value), v, false)
    else if Refused(op) then (Failed(LockFailed), v, false)
    else
      FinishViewIsDone(op, START, v);
      var (m, w) := FinishView(op, START, v);
      (m.pc.result, w, m.made)
  }

  lemma RunEffect(op: Op, tree: Tree)
    requires op.Shared()
    ensures var r, a := op.action.repository, op.action.architecture;
            var (answer, w, made) := ViewEffect(op, ViewOf(tree, r, a));
            && Apply(op, tree).0 == answer
            && ViewOf(Apply(op, tree).1, r, a) == w
            && (forall q, b :: (q, b) != (r, a) ==> ViewOf(Apply(op, tree).1, q, b) == ViewOf(tree, q, b))
            && (forall q :: q in Apply(op, tree).1 <==> q in tree || (q == r && made))
  {
    if Refused(op) {
      RefusedLeavesTree(op, tree);
    } else {
      TargetRunEffect(op, tree);
    }
  }

  /** `q` is the package inspected, under the uploaded filename. */
  predicate IsUploaded(q: Package, inspected: Package, filename: string) {
    && q.filename == filename
    && q.name == inspected.name && q.version == inspected.version && q.architecture == inspected.architecture
    && q.description == inspected.description && q.size == inspected.size && q.depends == inspected.depends
  }

  /** A successful Publish answers the package as it was inspected, every field but the filename,
      and that is what the database then has under its name, its other entries unchanged. */
  lemma PublishedPackage(op: Op, root: Tree)
    requires op.action.Publish? && Apply(op, root).0.Published?
    ensures var p, (answer, after) := op.action, Apply(op, root);
            var d, e := Entries(TargetView(root, op)), Entries(TargetView(after, op));
            && p.inspected.Some? && IsUploaded(answer.pkg, p.inspected.value, p.filename)
            && FileTree.Packages(d, p.repository).Some?
            && FileTree.Packages(e, p.repository) ==
                 Some(FileTree.Packages(d, p.repository).value[answer.pkg.name := answer.pkg])
            && p.filename in e && e[p.filename] == File(Blob(p.content))
            && (p.signature.Some? ==>
                  SignatureName(p.filename) in e && e[SignatureName(p.filename)] == File(Blob(p.signature.value)))
  {
    if Refused(op) {
      RefusedLeavesTree(op, root);
    } else {
      TargetRunEffect(op, root);
      PublishAllOrNothing(op, TargetView(root, op));
      PublishedContents(op.action, Entries(TargetView(root, op)));
    }
    hide Finish, FinishView, Apply, FileTree.DatabaseAdd, FileTree.Packages, WithFiles, PackageFile, SignatureName;
  }

  /** Operations on distinct targets commute: in either order they give the same answers and
      leave the same tree. */
  lemma DistinctTargetsCommute(p: Op, q: Op, root: Tree)
    requires p.Shared() && q.Shared()
    requires (p.action.repository, p.action.architecture) != (q.action.repository, q.action.architecture)
    ensures Apply(p, Apply(q, root).1).0 == Apply(p, root).0
    ensures Apply(q, Apply(p, root).1).0 == Apply(q, root).0
    ensures Apply(p, Apply(q, root).1).1 == Apply(q, Apply(p, root).1).1
  {
    RunEffect(p, root);
    RunEffect(q, root);
    RunEffect(p, Apply(q, root).1);
    RunEffect(q, Apply(p, root).1);
    hide Apply, ViewEffect, ViewOf;
    var s, t := Apply(p, Apply(q, root).1).1, Apply(q, Apply(p, root).1).1;
    forall r, a
      ensures ViewOf(s, r, a) == ViewOf(t, r, a)
    {
    }
    TreeExtensionality(s, t);
  }

  /** Create succeeds exactly for a valid, free name if no call fails, and adds exactly one
      empty repository; otherwise nothing changes. */
  lemma CreateOutcome(r: string, faults: set<Call>, root: Tree)
    ensures var (answer, after) := Apply(Op(Create(r), faults), root);
            && (answer == Ok <==>
                  && Component(r) && r !in root
                  && forall c | c in {OpenGlobal, FlockGlobal, CreateRepository} :: c !in faults)
            && after == (if answer == Ok then root[r := Dir(map[])] else root)
            && (answer == Failed(DirectoryFailed) <==>
                  !Refused(Op(Create(r), faults)) && CreateRepository in faults)
            && (answer == Failed(AlreadyExists) <==>
                  !Refused(Op(Create(r), faults)) && CreateRepository !in faults && r in root)
  {
    var op := Op(Create(r), faults);
    if !Refused(op) {
      var (l, next) := Step(op, START, root);
      assert Finish(op, START, root) == (l, next) by { StepDecreases(op, START, root); }
    }
  }

  /** RemoveRepository succeeds exactly for an existing repository directory if no call fails,
      and takes out exactly that; if the deletion fails only part of that repository is gone;
      on any other failure nothing changes. */
  lemma RemoveRepositoryOutcome(r: string, remnant: Node, faults: set<Call>, root: Tree)
    ensures var (answer, after) := Apply(Op(RemoveRepository(r, remnant), faults), root);
            && (answer == Ok <==>
                  && Component(r) && r in root && root[r].Dir?
                  && forall c | c in {OpenGlobal, FlockGlobal, StatRepository, DeleteRepository} :: c !in faults)
            && (answer == Ok ==> after == root - {r})
            && (answer == Failed(DeleteFailed) ==>
                  && after.Keys == root.Keys && r in root && IsRemnant(after[r], root[r])
                  && forall q | q in root && q != r :: after[q] == root[q])
            && (answer != Ok && answer != Failed(DeleteFailed) ==> after == root)
            && (answer == Failed(StatFailed) <==>
                  !Refused(Op(RemoveRepository(r, remnant), faults)) && StatRepository in faults)
            && (answer == Failed(RepositoryNotFound) <==>
                  !Refused(Op(RemoveRepository(r, remnant), faults)) && StatRepository !in faults && r !in root)
            && (answer == Failed(NotADirectory) <==>
                  && !Refused(Op(RemoveRepository(r, remnant), faults)) && StatRepository !in faults
                  && r in root && !root[r].Dir?)
  {
    var op := Op(RemoveRepository(r, remnant), faults);
    if !Refused(op) {
      var (l, next) := Step(op, START, root);
      StepDecreases(op, START, root);
      assert Finish(op, START, root) == Finish(op, l, next);
      if !l.pc.Done? {
        StepDecreases(op, l, next);
        assert Step(op, l, next).0.pc.Done?;
        assert Finish(op, l, next) == Step(op, l, next);
        if DeleteRepository in faults && !IsRemnant(remnant, root[r]) { RemnantOfItself(root[r]); }
      }
    }
  }

  /** What a Rename answers: an absent repository is reported as such exactly if nothing came
      before it, and every other error likewise. */
  lemma RenameAnswer(op: Op, root: Tree)
    requires op.action.Rename?
    ensures var o, answer := op.action.repository, Apply(op, root).0;
            && (answer == Failed(RepositoryNotFound) <==> !Refused(op) && StatOld !in op.faults && o !in root)
            && (answer == Failed(NotADirectory) <==>
                  !Refused(op) && StatOld !in op.faults && o in root && !root[o].Dir?)
            && (!Refused(op) ==>
                  && (answer == Ok <==> Passed(op, root, INSTALLING + {DeleteOld}))
                  && forall e :: answer == Failed(e) <==> RenameFails(op, root, e))
  {
    RefusedAnswer(op, root);
    if Refused(op) {
      RefusedLeavesTree(op, root);
    } else {
      RenameReachesEnd(op, root, START, root);
      if Apply(op, root).0.Failed? { OneRenameError(op, root, Apply(op, root).0.error); }
    }
    hide Copyable, RenameAll;
  }

  lemma {:induction false} RemnantOfItself(n: Node)
    ensures IsRemnant(n, n)
  {
    if n.Dir? {
      forall k | k in n.entries
        ensures IsRemnant(n.entries[k], n.entries[k])
      {
        RemnantOfItself(n.entries[k]);
      }
    }
  }

  /** A step outside the bodies changes neither the tree nor the serial tree. */
  lemma QuietEffect(s: System, t: nat)
    requires LockInv(s) && Enabled(s, t) && !InBody(s, t)
    ensures var z := Advance(s, t);
            && z.root == s.root && z.jobs == s.jobs
            && (z.log == s.log || (z.log == s.log + [t] && Refused(s.jobs[t].op)))
            && (InBody(z, t) ==> z.threads[t].local == START)
  {
    match s.threads[t].phase {
      case Critical =>
      case Start =>
      case OpenedGlobal =>
      case HaveMutex =>
      case OpenedTarget =>
      case _ =>
    }
  }

  lemma QuietSerialTree(s: System, root: Tree, t: nat)
    requires SimInv(s, root) && Enabled(s, t) && !InBody(s, t)
    requires SimInv(Advance(s, t), root)
    ensures var z := Advance(s, t); SerialTree(z.jobs, root, z.log) == SerialTree(s.jobs, root, s.log)
  {
    QuietEffect(s, t);
    hide Tracks, LockInv, AnswersAgree, Advance, Apply;
    if Advance(s, t).log == s.log + [t] {
      SerialTreeGrows(s.jobs, root, s.log, t);
      RefusedLeavesTree(s.jobs[t].op, SerialTree(s.jobs, root, s.log));
    }
  }

  lemma NobodyElse(s: System, z: System, root: Tree, t: nat)
    requires SimInv(s, root) && LockInv(z) && OneMoved(s, t, z)
    requires !InBody(s, t) && InBody(z, t) && !s.jobs[t].op.Shared()
    ensures s.root == SerialTree(s.jobs, root, s.log)
  {
    forall u: nat
      ensures !InBody(s, u)
    {
      if InBody(s, u) { BodiesApart(z, t, u); }
    }
    assert !ExclusiveInBody(s);
    QuietTree(s, SerialTree(s.jobs, root, s.log));
  }

  lemma StepUnderway(s: System, root: Tree, t: nat)
    requires UnderwayInv(s, root) && Enabled(s, t)
    ensures UnderwayInv(Advance(s, t), root)
  {
    if InBody(s, t) {
      BodyUnderway(s, root, t);
      assert Advance(s, t) == Body(s, t);
    } else {
      QuietUnderway(s, root, t);
    }
  }

  lemma QuietUnderway(s: System, root: Tree, t: nat)
    requires UnderwayInv(s, root) && Enabled(s, t) && !InBody(s, t)
    ensures UnderwayInv(Advance(s, t), root)
  {
    var z, serial := Advance(s, t), SerialTree(s.jobs, root, s.log);
    StepSimInv(s, root, t);
    StepMoves(s, t);
    QuietEffect(s, t);
    QuietSerialTree(s, root, t);
    forall u: nat | InBody(z, u) && !z.jobs[u].op.Shared()
      ensures LifecycleReaches(z.jobs[u].op, serial, z.threads[u].local, z.root)
    {
      if u == t { NobodyElse(s, z, root, t); } else { assert InBody(s, u); }
    }
  }

  lemma QuietReady(s: System, t: nat, bad: set<string>)
    requires LockInv(s) && Enabled(s, t) && !InBody(s, t) && Ready(s, bad)
    ensures Ready(Advance(s, t), bad)
  {
    var z := Advance(s, t);
    StepMoves(s, t);
    QuietEffect(s, t);
    forall u: nat | InBody(z, u) && z.jobs[u].op.Shared() && z.jobs[u].op.action.repository !in bad
      ensures InFlight(z.jobs[u].op, z.threads[u].local, TargetView(z.root, z.jobs[u].op))
    {
      if u != t { assert InBody(s, u); }
    }
  }

  lemma RefusedSpoilsNothing(op: Op, tree: Tree, bad: set<string>)
    requires Refused(op)
    ensures Spoilt(op, Done(Apply(op, tree).0), bad) == bad
  {
  }

  lemma QuietTainted(s: System, root: Tree, t: nat, bad: set<string>)
    requires SimInv(s, root) && Enabled(s, t) && !InBody(s, t)
    requires SimInv(Advance(s, t), root)
    ensures var z := Advance(s, t); Tainted(z.jobs, root, z.log, bad) == Tainted(s.jobs, root, s.log, bad)
  {
    QuietEffect(s, t);
    hide Tracks, LockInv, AnswersAgree, Advance, Spoilt, Apply;
    if Advance(s, t).log == s.log + [t] {
      TaintedGrows(s.jobs, root, s.log, t, bad);
      RefusedSpoilsNothing(s.jobs[t].op, SerialTree(s.jobs, root, s.log), Tainted(s.jobs, root, s.log, bad));
    }
  }

  lemma QuietSafeInv(s: System, root: Tree, t: nat, bad: set<string>)
    requires SafeInv(s, root, bad) && Enabled(s, t) && !InBody(s, t)
    ensures SafeInv(Advance(s, t), root, bad)
  {
    var z := Advance(s, t);
    QuietUnderway(s, root, t);
    QuietEffect(s, t);
    QuietTainted(s, root, t, bad);
    QuietReady(s, t, Tainted(s.jobs, root, s.log, bad));
    StepMoves(s, t);
    hide UnderwayInv, KeptBut, Ready, Advance, Enabled, OneMoved, Tainted;
    if ExclusiveInBody(s) { StillExclusive(s, t, z); }
    hide ExclusiveInBody, InBody;
  }

  lemma StillExclusive(s: System, t: nat, z: System)
    requires |s.threads| == |s.jobs| && OneMoved(s, t, z) && !InBody(s, t) && ExclusiveInBody(s)
    ensures ExclusiveInBody(z)
  {
    var u: nat :| InBody(s, u) && !s.jobs[u].op.Shared();
    assert InBody(z, u);
  }

  lemma StepSafeInv(s: System, root: Tree, t: nat, bad: set<string>)
    requires SafeInv(s, root, bad) && Enabled(s, t)
    ensures SafeInv(Advance(s, t), root, bad)
  {
    if InBody(s, t) {
      BodySafeInv(s, root, t, bad);
      assert Advance(s, t) == Body(s, t);
    } else {
      QuietSafeInv(s, root, t, bad);
    }
  }

  lemma RunUnderway(s: System, root: Tree, schedule: seq<nat>)
    requires UnderwayInv(s, root) && Runs(s, schedule)
    ensures UnderwayInv(After(s, schedule), root)
    decreases |schedule|
  {
    if schedule != [] {
      StepUnderway(s, root, schedule[0]);
      RunUnderway(Advance(s, schedule[0]), root, schedule[1..]);
    }
  }

  lemma RunSafeInv(s: System, root: Tree, schedule: seq<nat>, bad: set<string>)
    requires SafeInv(s, root, bad) && Runs(s, schedule)
    ensures SafeInv(After(s, schedule), root, bad)
    decreases |schedule|
  {
    if schedule != [] {
      StepSafeInv(s, root, schedule[0], bad);
      RunSafeInv(Advance(s, schedule[0]), root, schedule[1..], bad);
    }
  }

  /** `r` is not half-deleted at this moment: neither by the operations that have answered nor by
      the whole-tree operation in progress. */
  ghost predicate Sound(s: System, root: Tree, bad: set<string>, r: string)
    requires forall i | 0 <= i < |s.log| :: s.log[i] < |s.jobs|
  {
    var tainted := Tainted(s.jobs, root, s.log, bad);
    && (!ExclusiveInBody(s) ==> r !in tainted)
    && forall t: nat | InBody(s, t) && !s.jobs[t].op.Shared() ::
         r !in Spoilt(s.jobs[t].op, s.threads[t].local.pc, tainted)
  }

  /** At every moment of every interleaving of any operations every sound repository satisfies
      the invariant, and every operation in progress there finds what it relies on. */
  lemma ReachableSafe(jobs: seq<Job>, root: Tree, schedule: seq<nat>, bad: set<string>)
    requires KeptBut(root, bad) && Runs(Initial(jobs, root), schedule)
    ensures var s := After(Initial(jobs, root), schedule);
            && SafeInv(s, root, bad)
            && forall r | Component(r) && Sound(s, root, bad, r) :: KeptAt(s.root, r)
  {
    InitialSimInv(jobs, root);
    RunSafeInv(Initial(jobs, root), root, schedule, bad);
    SoundIsKept(After(Initial(jobs, root), schedule), root, bad);
  }

  lemma SoundIsKept(s: System, root: Tree, bad: set<string>)
    requires SafeInv(s, root, bad)
    ensures forall r | Component(r) && Sound(s, root, bad, r) :: KeptAt(s.root, r)
  {
    if t: nat :| InBody(s, t) && !s.jobs[t].op.Shared() {
      SerialTreeKept(s.jobs, root, s.log, bad);
      LifecycleKeeps(s.jobs[t].op, SerialTree(s.jobs, root, s.log), s.threads[t].local, s.root,
                     Tainted(s.jobs, root, s.log, bad));
    }
    hide KeptRepository, LifecycleReaches, Spoilt, Tainted;
  }

  /** Every database entry of an architecture directory names a package file that is there, and
      no two entries share one. */
  ghost predicate Undangling(r: string, v: View) {
    v.Present? ==>
      && v.node.Dir?
      && FileTree.Packages(v.node.entries, r).Some?
      && NoDangling(v.node.entries, FileTree.Packages(v.node.entries, r).value)
  }

  /** No dangling entry, at any moment of any interleaving of any operations, in any repository
      that is sound at that moment. */
  lemma NeverDangling(jobs: seq<Job>, root: Tree, schedule: seq<nat>, bad: set<string>, r: string, a: string)
    requires KeptBut(root, bad) && Runs(Initial(jobs, root), schedule) && Component(r)
    ensures var s := After(Initial(jobs, root), schedule);
            && (forall i | 0 <= i < |s.log| :: s.log[i] < |s.jobs|)
            && (Sound(s, root, bad, r) ==> Undangling(r, ViewOf(s.root, r, a)))
  {
    ReachableSafe(jobs, root, schedule, bad);
    hide UnderwayInv, Sound;
  }

  /** Nothing is lost while a Rename is under way, whatever it is interleaved with and whatever
      fails: compared with the tree it started from, which is the serial tree of that moment. */
  lemma RenameNeverLosesInRuns(jobs: seq<Job>, root: Tree, schedule: seq<nat>, t: nat)
    requires Runs(Initial(jobs, root), schedule)
    requires var s := After(Initial(jobs, root), schedule); InBody(s, t) && s.jobs[t].op.action.Rename?
    ensures var s := After(Initial(jobs, root), schedule);
            && (forall i | 0 <= i < |s.log| :: s.log[i] < |s.jobs|)
            && NothingLost(s.jobs[t].op, SerialTree(s.jobs, root, s.log), s.root)
  {
    InitialSimInv(jobs, root);
    RunUnderway(Initial(jobs, root), root, schedule);
    var s := After(Initial(jobs, root), schedule);
    RenameNeverLoses(s.jobs[t].op, SerialTree(s.jobs, root, s.log), s.threads[t].local, s.root);
  }

  // ---------- which operations leave a dangling entry ----------

  /** The operation gets to its deletion of a whole tree, and that fails. */
  predicate DeletesHalf(op: Op, tree: Tree)
    requires op.action.RemoveRepository?
  {
    var r := op.action.repository;
    r in tree && tree[r].Dir? && StatRepository !in op.faults && DeleteRepository in op.faults
  }

  ghost predicate MovesHalf(op: Op, tree: Tree)
    requires op.action.Rename?
  {
    Passed(op, tree, INSTALLING) && DeleteOld in op.faults
  }

  /** What a failing deletion of all of `r` leaves at `r/a`. */
  function Remains(tree: Tree, r: string, a: string, remnant: Node): Tree {
    Entries(ViewOf(DeleteTree(tree, r, true, remnant), r, a))
  }

  lemma RemovalSummary(op: Op, tree: Tree)
    requires op.action.RemoveRepository? && !Refused(op)
    ensures var q, (answer, after) := op.action.repository, Apply(op, tree);
            && (answer == Failed(DeleteFailed) <==> DeletesHalf(op, tree))
            && after == if DeletesHalf(op, tree) then DeleteTree(tree, q, true, op.action.remnant)
                        else if answer == Ok then tree - {q} else tree
  {
    var (l, next) := Step(op, START, tree);
    StepDecreases(op, START, tree);
    assert Finish(op, START, tree) == Finish(op, l, next);
    if !l.pc.Done? {
      StepDecreases(op, l, next);
      assert Finish(op, l, next) == Step(op, l, next);
    }
  }

  /** What a Rename leaves, by how far it gets. */
  lemma RenameSummary(op: Op, tree: Tree)
    requires op.action.Rename? && !Refused(op)
    ensures var (answer, after) := Apply(op, tree);
            && (answer == Failed(DeleteFailed) <==> MovesHalf(op, tree))
            && if MovesHalf(op, tree) then OldHalfDeleted(op, tree, after)
            else if answer == Ok then Renamed(op, tree, after)
            else answer.Failed? && forall k | Component(k) ::
                 (k in after <==> k in tree) && (k in tree ==> after[k] == tree[k])
  {
    TemporaryIsNoComponent(op.action.newName, op.action.suffix);
    RenameReachesEnd(op, tree, START, tree);
    hide Finish;
  }

  /** What a failing deletion leaves of `r/a` is part of what was there. */
  lemma RemainsPart(tree: Tree, r: string, a: string, remnant: Node, n: string)
    requires n in Remains(tree, r, a, remnant)
    ensures n in Entries(ViewOf(tree, r, a))
    ensures Entries(ViewOf(tree, r, a))[n].File? ==> Remains(tree, r, a, remnant)[n] == Entries(ViewOf(tree, r, a))[n]
    ensures Remains(tree, r, a, remnant)[n].File? ==> Entries(ViewOf(tree, r, a))[n].File?
  {
    if r in tree && IsRemnant(remnant, tree[r]) && remnant.Dir? && tree[r].Dir? && a in remnant.entries {
      assert IsRemnant(remnant.entries[a], tree[r].entries[a]);
    }
  }

  /** A failing deletion of all of `r` leaves the database at `r/a` and a listed package without
      its file: told beforehand, from the operation and the tree. */
  ghost predicate Dangles(op: Op, tree: Tree, r: string, a: string) {
    && !Refused(op) && op.action.repository == r
    && ((op.action.RemoveRepository? && DeletesHalf(op, tree)) || (op.action.Rename? && MovesHalf(op, tree)))
    && Unbacked(r, Entries(ViewOf(tree, r, a)), Remains(tree, r, a, op.action.remnant))
  }

  /** The database of `d` is still in `e`, and not the file of every package in it. */
  ghost predicate Unbacked(r: string, d: Tree, e: Tree) {
    && DatabaseName(r) in e && FileTree.Packages(d, r).Some?
    && exists p | p in FileTree.Packages(d, r).value :: FileTree.Packages(d, r).value[p].filename !in e
  }

  lemma RemainsDangle(tree: Tree, r: string, a: string, remnant: Node)
    requires ViewKept(r, ViewOf(tree, r, a))
    ensures Undangling(r, ViewOf(DeleteTree(tree, r, true, remnant), r, a)) <==>
            !Unbacked(r, Entries(ViewOf(tree, r, a)), Remains(tree, r, a, remnant))
  {
    var v, w, db := ViewOf(tree, r, a), ViewOf(DeleteTree(tree, r, true, remnant), r, a), DatabaseName(r);
    RemainsDirectory(tree, r, a, remnant);
    if w.Present? {
      if db in w.node.entries {
        RemainsPart(tree, r, a, remnant, db);
        KnownDatabase(r, v.node.entries);
        assert FileTree.Packages(w.node.entries, r) == FileTree.Packages(v.node.entries, r);
      }
      hide KnownEntries, DatabaseName, PackageFile, DeleteTree;
    }
  }

  lemma RemainsDirectory(tree: Tree, r: string, a: string, remnant: Node)
    requires ViewKept(r, ViewOf(tree, r, a))
    ensures var w := ViewOf(DeleteTree(tree, r, true, remnant), r, a);
            w.Missing? || (IsDirectory(w) && IsDirectory(ViewOf(tree, r, a)))
  {
    if r in tree && IsRemnant(remnant, tree[r]) && a in remnant.entries {
      assert IsRemnant(remnant.entries[a], tree[r].entries[a]);
    }
    hide Consistent;
  }

  /** From a kept tree an operation leaves a dangling entry exactly where `Dangles` tells. */
  lemma ApplyUndangling(op: Op, tree: Tree, r: string, a: string)
    requires Kept(tree) && Component(r)
    ensures Undangling(r, ViewOf(Apply(op, tree).1, r, a)) <==> !Dangles(op, tree, r, a)
  {
    var (answer, after) := Apply(op, tree);
    ApplyKeeps(op, tree, {});
    KeptViews(tree, r, a, {});
    HalfDeleted(op, tree, a);
    if r !in Spoilt(op, Done(answer), {}) {
      KeptViews(after, r, a, Spoilt(op, Done(answer), {}));
    } else {
      RemainsDangle(tree, r, a, op.action.remnant);
    }
    hide Apply, Refused, DeletesHalf, MovesHalf, Undangling, Unbacked, Remains, DeleteTree;
  }

  /** Exactly a failing deletion spoils a repository, and it leaves what remains of it. */
  lemma HalfDeleted(op: Op, tree: Tree, a: string)
    ensures var r, (answer, after) := op.action.repository, Apply(op, tree);
            && Spoilt(op, Done(answer), {}) <= {r}
            && (r in Spoilt(op, Done(answer), {}) <==>
                  && !Refused(op)
                  && ((op.action.RemoveRepository? && DeletesHalf(op, tree))
                      || (op.action.Rename? && MovesHalf(op, tree))))
            && (r in Spoilt(op, Done(answer), {}) ==>
                  ViewOf(after, r, a) == ViewOf(DeleteTree(tree, r, true, op.action.remnant), r, a))
  {
    hide Apply, OldHalfDeleted, Passed, DeleteTree, ViewOf, DeletesHalf, MovesHalf;
    if Refused(op) {
      RefusedSpoilsNothing(op, tree, {});
    } else {
      hide Refused;
      if op.action.RemoveRepository? {
        RemovalSummary(op, tree);
      } else if op.action.Rename? {
        RenameSummary(op, tree);
        if MovesHalf(op, tree) { HalfMovedView(op, tree, Apply(op, tree).1, a); }
      }
    }
  }

  lemma HalfMovedView(op: Op, tree: Tree, after: Tree, a: string)
    requires op.action.Rename? && op.Rejection().None? && OldHalfDeleted(op, tree, after)
    ensures var o := op.action.repository;
            ViewOf(after, o, a) == ViewOf(DeleteTree(tree, o, true, op.action.remnant), o, a)
  {
    hide IsRemnant, Copyable;
  }

  // ---------- the cases that fail ----------

  /** `archs` without the file `f` of architecture `a`. */
  function Without(archs: Tree, a: string, f: string): Node
    requires a in archs && archs[a].Dir?
  {
    Dir(archs[a := Dir(archs[a].entries - {f})])
  }

  lemma WithoutIsRemnant(archs: Tree, a: string, f: string)
    requires a in archs && archs[a].Dir?
    ensures IsRemnant(Without(archs, a, f), Dir(archs))
  {
    forall k | k in archs[a].entries
      ensures IsRemnant(archs[a].entries[k], archs[a].entries[k])
    {
      RemnantOfItself(archs[a].entries[k]);
    }
    forall b | b in archs
      ensures IsRemnant(Without(archs, a, f).entries[b], archs[b])
    {
      if b != a { RemnantOfItself(archs[b]); }
    }
  }

  ghost predicate ListsAt(root: Tree, r: string, a: string, p: string) {
    var packages := FileTree.Packages(Entries(ViewOf(root, r, a)), r);
    packages.Some? && p in packages.value
  }

  /** What a deletion may leave that got as far as the file of the package `p`. */
  lemma UnbackedRemnant(root: Tree, r: string, a: string, p: string) returns (remnant: Node)
    requires Kept(root) && Component(r) && ListsAt(root, r, a, p)
    ensures r in root && root[r].Dir? && Unbacked(r, Entries(ViewOf(root, r, a)), Remains(root, r, a, remnant))
  {
    var d := Entries(ViewOf(root, r, a));
    var f := FileTree.Packages(d, r).value[p].filename;
    KeptViews(root, r, a, {});
    NamesDisjoint(f, f, r, r);
    remnant := Without(root[r].entries, a, f);
    WithoutIsRemnant(root[r].entries, a, f);
    assert Remains(root, r, a, remnant) == d - {f};
    hide PackageFile, DatabaseName;
  }

  /** A failing RemoveRepository can break any kept repository that lists a package. */
  lemma HalfDeletedDangles(root: Tree, r: string, a: string, p: string) returns (remnant: Node)
    requires Kept(root) && Component(r) && ListsAt(root, r, a, p)
    ensures var (answer, after) := Apply(Op(RemoveRepository(r, remnant), {DeleteRepository}), root);
            answer == Failed(DeleteFailed) && !Undangling(r, ViewOf(after, r, a))
  {
    remnant := UnbackedRemnant(root, r, a, p);
    var op := Op(RemoveRepository(r, remnant), {DeleteRepository});
    RemovalSummary(op, root);
    ApplyUndangling(op, root, r, a);
    hide Apply, Undangling, Unbacked, Remains;
  }

  /** A Rename that fails to delete the old repository has left its complete copy. */
  lemma CopyStays(op: Op, tree: Tree)
    requires op.action.Rename? && !Refused(op) && MovesHalf(op, tree) && KeptAt(tree, op.action.repository)
    ensures var o, n, after := op.action.repository, op.action.newName, Apply(op, tree).1;
            && Apply(op, tree).0 == Failed(DeleteFailed) && KeptAt(after, n) && n in after && after[n].Dir?
            && o in tree && tree[o].Dir? && SameMeaning(tree[o].entries, o, after[n].entries, n)
  {
    var o, n, after := op.action.repository, op.action.newName, Apply(op, tree).1;
    RenameSummary(op, tree);
    assert StatOld in INSTALLING && RenameDatabases in INSTALLING;
    KeptPasses(op, tree);
    RenamedMeansTheSame(tree, o, n);
    assert after[n] == Dir(RenamedRepository(tree[o].entries, o, n));
    hide Apply, RenamedRepository, SameMeaning, KeptRepository, Passed;
  }

  lemma PassesAll(op: Op, tree: Tree)
    requires op.action.Rename? && op.Rejection().None? && op.faults == {DeleteOld}
    requires op.action.repository in tree && KeptAt(tree, op.action.repository)
    requires op.action.newName !in tree && TemporaryName(op.action.newName, op.action.suffix) !in tree
    ensures MovesHalf(op, tree)
  {
    KeptPasses(op, tree);
    hide Copyable, RenameAll, RenamedRepository, KeptAt;
  }

  /** So can a Rename that fails to delete the old repository; its copy is whole all the same. */
  lemma HalfMovedDangles(root: Tree, o: string, n: string, suffix: string, a: string, p: string) returns (op: Op)
    requires Kept(root) && Component(o) && Component(n) && o != n && ListsAt(root, o, a, p)
    requires n !in root && TemporaryName(n, suffix) !in root
    ensures op.action.Rename? && op.action.repository == o && op.action.newName == n && op.faults == {DeleteOld}
    ensures var (answer, after) := Apply(op, root);
            answer == Failed(DeleteFailed) && !Undangling(o, ViewOf(after, o, a)) && n in after && KeptAt(after, n)
  {
    var remnant := UnbackedRemnant(root, o, a, p);
    op := Op(Rename(o, n, suffix, map[], remnant), {DeleteOld});
    assert KeptAt(root, o);
    hide Kept, KeptAt, Apply, Undangling, Unbacked, Remains, MovesHalf, Component;
    PassesAll(op, root);
    CopyStays(op, root);
    ApplyUndangling(op, root, o, a);
  }
}
