/** Every interleaving of the service's operations is equivalent to running them one at a
    time, in the order in which their answers are decided.

    At every state of every run, the tree agrees with the serial tree everywhere except at
    the targets that are being worked on, and there it will agree once their work is
    done. */
module Serializability {
  import opened FileTree
  import opened Operations
  import opened Locking

  /** The tree after running the jobs of `order` one after another. */
  function SerialTree(jobs: seq<Job>, root: Tree, order: seq<nat>): Tree
    requires forall i | 0 <= i < |order| :: order[i] < |jobs|
  {
    if order == [] then root
    else Apply(jobs[order[|order| - 1]].op, SerialTree(jobs, root, order[..|order| - 1])).1
  }

  /** The answers the jobs of `order` get in that serial run. */
  function SerialAnswers(jobs: seq<Job>, root: Tree, order: seq<nat>): (answers: seq<Result>)
    requires forall i | 0 <= i < |order| :: order[i] < |jobs|
    ensures |answers| == |order|
  {
    if order == [] then []
    else
      var earlier, last := order[..|order| - 1], order[|order| - 1];
      SerialAnswers(jobs, root, earlier) + [Apply(jobs[last].op, SerialTree(jobs, root, earlier)).0]
  }

  predicate InBody(s: System, t: nat) {
    t < |s.jobs| && t < |s.threads| && s.threads[t].phase.Critical? && !s.threads[t].local.pc.Done?
  }

  predicate WorksAt(s: System, t: nat, r: string, a: string) {
    && InBody(s, t) && s.jobs[t].op.Shared()
    && s.jobs[t].op.action.repository == r && s.jobs[t].op.action.architecture == a
  }

  ghost predicate Busy(s: System, r: string, a: string) { exists t: nat :: WorksAt(s, t, r, a) }

  /** Some operation in progress has made the repository directory `r`. */
  ghost predicate MadeBy(s: System, r: string) {
    exists t: nat :: InBody(s, t) && s.jobs[t].op.Shared() && s.jobs[t].op.action.repository == r
                     && s.threads[t].local.made
  }

  function TargetView(root: Tree, op: Op): View
    requires op.Shared()
  {
    ViewOf(root, op.action.repository, op.action.architecture)
  }

  /** Goroutine `t`, left alone, will answer and leave what it would on the serial tree. */
  ghost predicate OnTrack(s: System, serial: Tree, t: nat)
    requires InBody(s, t)
  {
    var op, l := s.jobs[t].op, s.threads[t].local;
    if op.Shared() then
      && FinishView(op, l, TargetView(s.root, op)) == FinishView(op, START, TargetView(serial, op))
      && (l.made ==> op.action.repository in s.root)
    else Finish(op, l, s.root) == Finish(op, START, serial)
  }

  ghost predicate ExclusiveInBody(s: System) { exists t: nat :: InBody(s, t) && !s.jobs[t].op.Shared() }

  ghost predicate Agrees(s: System, serial: Tree) {
    && (forall r, a :: !Busy(s, r, a) ==> ViewOf(s.root, r, a) == ViewOf(serial, r, a))
    && (forall r :: r in s.root <==> r in serial || MadeBy(s, r))
  }

  ghost predicate Tracks(s: System, serial: Tree) {
    && (forall t: nat | InBody(s, t) :: OnTrack(s, serial, t))
    && (!ExclusiveInBody(s) ==> Agrees(s, serial))
  }

  ghost predicate LogWellFormed(s: System)
    requires |s.threads| == |s.jobs|
  {
    && (forall i | 0 <= i < |s.log| :: s.log[i] < |s.jobs|)
    && (forall i, j | 0 <= i < j < |s.log| :: s.log[i] != s.log[j])
    && (forall t: nat | t < |s.jobs| :: t in s.log <==> s.threads[t].local.pc.Done?)
  }

  /** Each decided answer is the one the job gets in the serial run. */
  ghost predicate AnswersAgree(s: System, root: Tree)
    requires |s.threads| == |s.jobs| && LogWellFormed(s)
  {
    forall i | 0 <= i < |s.log| ::
      s.threads[s.log[i]].local.pc == Done(SerialAnswers(s.jobs, root, s.log)[i])
  }

  ghost predicate SimInv(s: System, root: Tree) {
    && LockInv(s) && LogWellFormed(s) && AnswersAgree(s, root)
    && Tracks(s, SerialTree(s.jobs, root, s.log))
  }

  lemma InitialSimInv(jobs: seq<Job>, root: Tree)
    ensures SimInv(Initial(jobs, root), root)
  {
    InitialLockInv(jobs, root);
  }

  // ---------- the log ----------

  lemma SerialTreeGrows(jobs: seq<Job>, root: Tree, order: seq<nat>, t: nat)
    requires t < |jobs| && forall i | 0 <= i < |order| :: order[i] < |jobs|
    ensures SerialTree(jobs, root, order + [t]) == Apply(jobs[t].op, SerialTree(jobs, root, order)).1
    ensures SerialAnswers(jobs, root, order + [t]) ==
            SerialAnswers(jobs, root, order) + [Apply(jobs[t].op, SerialTree(jobs, root, order)).0]
  {
    assert (order + [t])[..|order|] == order;
  }

  lemma DecidedLog(s: System, z: System, t: nat)
    requires |s.threads| == |s.jobs| && LogWellFormed(s) && t < |s.jobs| && !s.threads[t].local.pc.Done?
    requires z.jobs == s.jobs && |z.threads| == |s.threads| && z.log == s.log + [t] && z.threads[t].local.pc.Done?
    requires forall u: nat | u < |s.jobs| && u != t :: z.threads[u] == s.threads[u]
    ensures LogWellFormed(z) && t !in s.log
  {
    assert t !in s.log;
    forall u: nat | u < |z.jobs|
      ensures u in z.log <==> z.threads[u].local.pc.Done?
    {
      assert u in z.log <==> u in s.log || u == t;
    }
  }

  /** Deciding an answer extends the log by it and leaves earlier answers alone. */
  lemma DecidedKeepsLog(s: System, z: System, root: Tree, t: nat)
    requires |s.threads| == |s.jobs| && LogWellFormed(s) && AnswersAgree(s, root)
    requires t < |s.jobs| && !s.threads[t].local.pc.Done?
    requires z.jobs == s.jobs && |z.threads| == |s.threads| && z.log == s.log + [t]
    requires forall u: nat | u < |s.jobs| && u != t :: z.threads[u] == s.threads[u]
    requires z.threads[t].local.pc == Done(Apply(s.jobs[t].op, SerialTree(s.jobs, root, s.log)).0)
    ensures LogWellFormed(z) && AnswersAgree(z, root)
    ensures SerialTree(z.jobs, root, z.log) == Apply(s.jobs[t].op, SerialTree(s.jobs, root, s.log)).1
  {
    DecidedLog(s, z, t);
    SerialTreeGrows(s.jobs, root, s.log, t);
    var answers := SerialAnswers(s.jobs, root, s.log);
    var answer := Apply(s.jobs[t].op, SerialTree(s.jobs, root, s.log)).0;
    AnswersExtend(s.threads, z.threads, s.log, t, answers, answer);
    hide Apply, SerialTree, SerialAnswers;
  }

  lemma AnswersExtend(threads: seq<Thread>, later: seq<Thread>, log: seq<nat>, t: nat, answers: seq<Result>,
      answer: Result)
    requires |answers| == |log| && |later| == |threads| && t < |threads| && t !in log
    requires forall i | 0 <= i < |log| :: log[i] < |threads| && threads[log[i]].local.pc == Done(answers[i])
    requires forall u: nat | u < |threads| && u != t :: later[u] == threads[u]
    requires later[t].local.pc == Done(answer)
    ensures forall i | 0 <= i < |log + [t]| ::
              (log + [t])[i] < |later| && later[(log + [t])[i]].local.pc == Done((answers + [answer])[i])
  {
    forall i | 0 <= i < |log|
      ensures later[log[i]] == threads[log[i]]
    {
      assert log[i] in log;
    }
  }

  // ---------- steps that leave the tree and the log alone ----------

  /** A step that neither decides an answer nor runs nor enters a body. */
  lemma LockStepTracks(s: System, z: System, serial: Tree, t: nat)
    requires |s.threads| == |s.jobs| == |z.threads| && z.jobs == s.jobs && z.root == s.root
    requires Tracks(s, serial) && t < |s.jobs|
    requires forall u: nat | u < |s.jobs| && u != t :: z.threads[u] == s.threads[u]
    requires !InBody(s, t) && !InBody(z, t)
    ensures Tracks(z, serial)
  {
    SameBodies(s, z);
  }

  lemma SameBodies(s: System, z: System)
    requires |s.threads| == |s.jobs| == |z.threads| && z.jobs == s.jobs
    requires forall u: nat | u < |s.jobs| ::
             InBody(s, u) == InBody(z, u) && (InBody(s, u) ==> z.threads[u] == s.threads[u])
    ensures forall r, a :: Busy(s, r, a) == Busy(z, r, a)
    ensures forall r :: MadeBy(s, r) == MadeBy(z, r)
    ensures ExclusiveInBody(s) == ExclusiveInBody(z)
  {
    forall r, a
      ensures Busy(s, r, a) == Busy(z, r, a)
    {
      assert forall u: nat :: WorksAt(s, u, r, a) == WorksAt(z, u, r, a);
    }
    forall r
      ensures MadeBy(s, r) == MadeBy(z, r)
    {
      if u: nat :| InBody(s, u) && s.jobs[u].op.Shared() && s.jobs[u].op.action.repository == r
                   && s.threads[u].local.made {
        assert InBody(z, u);
      }
      if u: nat :| InBody(z, u) && z.jobs[u].op.Shared() && z.jobs[u].op.action.repository == r
                   && z.threads[u].local.made {
        assert InBody(s, u);
      }
    }
  }

  // ---------- entering the body ----------

  /** Two operations at work at the same time are both target operations, on different
      targets. */
  lemma BodiesApart(s: System, t: nat, u: nat)
    requires LockInv(s) && InBody(s, t) && InBody(s, u) && t != u
    ensures s.jobs[t].op.Shared() && s.jobs[u].op.Shared()
    ensures var p, q := s.jobs[t].op.action, s.jobs[u].op.action;
            p.repository != q.repository || p.architecture != q.architecture
  {
    assert HoldsTarget(s.jobs[t].op, s.threads[t].phase) && HoldsTarget(s.jobs[u].op, s.threads[u].phase);
  }

  /** With nobody at work the tree is the serial tree. */
  lemma QuietTree(s: System, serial: Tree)
    requires Agrees(s, serial) && forall u: nat :: !InBody(s, u)
    ensures s.root == serial
  {
    assert forall r, a :: !Busy(s, r, a);
    assert forall r :: !MadeBy(s, r);
    TreeExtensionality(s.root, serial);
  }

  lemma EnterTracks(s: System, z: System, serial: Tree, t: nat)
    requires LockInv(z)
    requires |s.threads| == |s.jobs| == |z.threads| && z.jobs == s.jobs && z.root == s.root
    requires Tracks(s, serial) && t < |s.jobs|
    requires forall u: nat | u < |s.jobs| && u != t :: z.threads[u] == s.threads[u]
    requires !InBody(s, t) && InBody(z, t) && z.threads[t].local == START
    ensures Tracks(z, serial)
  {
    var op := z.jobs[t].op;
    forall u: nat | InBody(z, u) && u != t
      ensures op.Shared() && InBody(s, u) && s.jobs[u].op.Shared()
              && TargetView(z.root, s.jobs[u].op) == TargetView(s.root, s.jobs[u].op)
    {
      BodiesApart(z, t, u);
    }
    assert !ExclusiveInBody(s);
    if op.Shared() {
      var r, a := op.action.repository, op.action.architecture;
      assert !Busy(s, r, a) by {
        if u: nat :| WorksAt(s, u, r, a) { BodiesApart(z, t, u); }
      }
      assert OnTrack(z, serial, t);
      EnterAgrees(s, z, serial, t);
    } else {
      assert forall u: nat :: !InBody(s, u) by {
        if u: nat :| InBody(s, u) { BodiesApart(z, t, u); }
      }
      QuietTree(s, serial);
      assert ExclusiveInBody(z);
    }
  }

  lemma EnterAgrees(s: System, z: System, serial: Tree, t: nat)
    requires |s.threads| == |s.jobs| == |z.threads| && z.jobs == s.jobs && z.root == s.root
    requires Agrees(s, serial) && t < |s.jobs|
    requires forall u: nat | u < |s.jobs| && u != t :: z.threads[u] == s.threads[u]
    requires !InBody(s, t) && InBody(z, t) && !z.threads[t].local.made
    ensures Agrees(z, serial)
  {
    forall r, a | !Busy(z, r, a)
      ensures !Busy(s, r, a)
    {
      if u: nat :| WorksAt(s, u, r, a) { assert WorksAt(z, u, r, a); }
    }
    forall r
      ensures MadeBy(z, r) == MadeBy(s, r)
    {
      if u: nat :| InBody(s, u) && s.jobs[u].op.Shared() && s.jobs[u].op.action.repository == r
                   && s.threads[u].local.made {
        assert InBody(z, u);
      }
      if u: nat :| InBody(z, u) && z.jobs[u].op.Shared() && z.jobs[u].op.action.repository == r
                   && z.threads[u].local.made {
        assert InBody(s, u);
      }
    }
  }

  // ---------- a body step of a target operation ----------

  /** What the step does to the views and to the set of repositories. */
  lemma TargetStepEffect(op: Op, l: Local, root: Tree)
    requires op.Shared() && !l.pc.Done? && (l.made ==> op.action.repository in root)
    ensures var r, a := op.action.repository, op.action.architecture;
            var (m, next) := Step(op, l, root);
            && StepView(op, l, ViewOf(root, r, a)) == (m, ViewOf(next, r, a))
            && Evolves(ViewOf(root, r, a), ViewOf(next, r, a))
            && (forall q, b :: (q, b) != (r, a) ==> ViewOf(next, q, b) == ViewOf(root, q, b))
            && (forall q :: q in next <==> q in root || (q == r && m.made))
            && (l.made ==> m.made)
  {
    var r, a := op.action.repository, op.action.architecture;
    var v := ViewOf(root, r, a);
    var (m, w) := StepView(op, l, v);
    StepViewEvolves(op, l, v);
    StoreView(root, r, a, w, m.made);
    forall q, b | (q, b) != (r, a)
      ensures ViewOf(Store(root, r, a, w, m.made), q, b) == ViewOf(root, q, b)
    {
      StoreFrame(root, r, a, w, m.made, q, b);
    }
  }

  /** What the whole operation does to them on the serial tree. */
  lemma TargetRunEffect(op: Op, serial: Tree)
    requires op.Shared() && op.Rejection().None?
    requires forall c | c in {OpenGlobal, FlockGlobal, OpenTarget, FlockTarget} :: c !in op.faults
    ensures var r, a := op.action.repository, op.action.architecture;
            var (m, w) := FinishView(op, START, ViewOf(serial, r, a));
            var (answer, next) := Apply(op, serial);
            && m.pc == Done(answer) && ViewOf(next, r, a) == w
            && (forall q, b :: (q, b) != (r, a) ==> ViewOf(next, q, b) == ViewOf(serial, q, b))
            && (forall q :: q in next <==> q in serial || (q == r && m.made))
  {
    var r, a := op.action.repository, op.action.architecture;
    var v := ViewOf(serial, r, a);
    FinishLifts(op, START, serial);
    FinishViewEvolves(op, START, v);
    FinishViewIsDone(op, START, v);
    var (m, w) := FinishView(op, START, v);
    StoreView(serial, r, a, w, m.made);
    forall q, b | (q, b) != (r, a)
      ensures ViewOf(Store(serial, r, a, w, m.made), q, b) == ViewOf(serial, q, b)
    {
      StoreFrame(serial, r, a, w, m.made, q, b);
    }
  }

  /** The other operations in progress do not notice. */
  lemma OthersOnTrack(s: System, serial: Tree, t: nat, later: Tree)
    requires LockInv(s) && InBody(s, t) && s.jobs[t].op.Shared() && Tracks(s, serial)
    requires var op := s.jobs[t].op;
             forall q, b :: (q, b) != (op.action.repository, op.action.architecture)
                            ==> ViewOf(later, q, b) == ViewOf(serial, q, b)
    ensures forall u: nat | InBody(s, u) && u != t :: OnTrack(Body(s, t), later, u)
  {
    TargetStepEffect(s.jobs[t].op, s.threads[t].local, s.root);
    forall u: nat | InBody(s, u) && u != t
      ensures OnTrack(Body(s, t), later, u)
    {
      BodiesApart(s, t, u);
      assert OnTrack(s, serial, u);
    }
  }

  lemma BodyMade(s: System, t: nat)
    requires LockInv(s) && InBody(s, t) && s.jobs[t].op.Shared()
    requires s.threads[t].local.made ==> s.jobs[t].op.action.repository in s.root
    ensures var r, m := s.jobs[t].op.action.repository, Step(s.jobs[t].op, s.threads[t].local, s.root).0.made;
            forall q :: (MadeBy(Body(s, t), q) || (q == r && m)) <==> (MadeBy(s, q) || (q == r && m))
  {
    var z := Body(s, t);
    var r, m := s.jobs[t].op.action.repository, Step(s.jobs[t].op, s.threads[t].local, s.root).0.made;
    TargetStepEffect(s.jobs[t].op, s.threads[t].local, s.root);
    forall q
      ensures (MadeBy(z, q) || (q == r && m)) <==> (MadeBy(s, q) || (q == r && m))
    {
      if u: nat :| InBody(s, u) && s.jobs[u].op.Shared() && s.jobs[u].op.action.repository == q
                   && s.threads[u].local.made {
        if u != t { assert InBody(z, u); }
      }
      if u: nat :| InBody(z, u) && z.jobs[u].op.Shared() && z.jobs[u].op.action.repository == q
                   && z.threads[u].local.made {
        if u != t { assert InBody(s, u); }
      }
    }
  }

  lemma BodyBusy(s: System, t: nat, q: string, b: string)
    requires InBody(s, t) && s.jobs[t].op.Shared()
    requires (q, b) != (s.jobs[t].op.action.repository, s.jobs[t].op.action.architecture)
    ensures Busy(Body(s, t), q, b) <==> Busy(s, q, b)
  {
    var z := Body(s, t);
    if u: nat :| WorksAt(s, u, q, b) { assert WorksAt(z, u, q, b); }
    if u: nat :| WorksAt(z, u, q, b) { assert WorksAt(s, u, q, b); }
  }

  lemma NoExclusiveBeside(s: System, t: nat)
    requires LockInv(s) && InBody(s, t) && s.jobs[t].op.Shared()
    ensures !ExclusiveInBody(s) && !ExclusiveInBody(Body(s, t))
  {
    if u: nat :| InBody(s, u) && !s.jobs[u].op.Shared() { BodiesApart(s, t, u); }
    if u: nat :| InBody(Body(s, t), u) && !s.jobs[u].op.Shared() { BodiesApart(s, t, u); }
  }

  /** A step in the middle of a target operation. */
  lemma TargetStepTracks(s: System, serial: Tree, t: nat)
    requires LockInv(s) && InBody(s, t) && s.jobs[t].op.Shared() && Tracks(s, serial)
    requires !Step(s.jobs[t].op, s.threads[t].local, s.root).0.pc.Done?
    ensures Tracks(Body(s, t), serial)
  {
    var z, op, l := Body(s, t), s.jobs[t].op, s.threads[t].local;
    var r, a := op.action.repository, op.action.architecture;
    assert OnTrack(s, serial, t);
    TargetStepEffect(op, l, s.root);
    OthersOnTrack(s, serial, t, serial);
    assert OnTrack(z, serial, t);
    NoExclusiveBeside(s, t);
    BodyMade(s, t);
    assert WorksAt(z, t, r, a) && WorksAt(s, t, r, a);
    forall q, b | !Busy(z, q, b)
      ensures ViewOf(z.root, q, b) == ViewOf(serial, q, b)
    {
      BodyBusy(s, t, q, b);
    }
    forall q
      ensures q in z.root <==> q in serial || MadeBy(z, q)
    {
      if q == r && z.threads[t].local.made { assert MadeBy(z, q); }
    }
  }

  /** The step that ends a target operation: the serial run appends the operation. */
  lemma TargetEndTracks(s: System, serial: Tree, t: nat)
    requires LockInv(s) && InBody(s, t) && s.jobs[t].op.Shared() && Tracks(s, serial)
    requires Step(s.jobs[t].op, s.threads[t].local, s.root).0.pc.Done?
    ensures Tracks(Body(s, t), Apply(s.jobs[t].op, serial).1)
    ensures Body(s, t).threads[t].local.pc == Done(Apply(s.jobs[t].op, serial).0)
  {
    var z, op, l := Body(s, t), s.jobs[t].op, s.threads[t].local;
    var r, a := op.action.repository, op.action.architecture;
    var later := Apply(op, serial).1;
    assert OnTrack(s, serial, t);
    TargetStepEffect(op, l, s.root);
    TargetRunEffect(op, serial);
    var (m, next) := Step(op, l, s.root);
    assert FinishView(op, l, ViewOf(s.root, r, a)) == FinishView(op, m, ViewOf(next, r, a)) == (m, ViewOf(next, r, a));
    assert FinishView(op, START, ViewOf(serial, r, a)) == (m, ViewOf(next, r, a));
    OthersOnTrack(s, serial, t, later);
    NoExclusiveBeside(s, t);
    BodyMade(s, t);
    forall q, b | !Busy(z, q, b)
      ensures ViewOf(z.root, q, b) == ViewOf(later, q, b)
    {
      if (q, b) != (r, a) { BodyBusy(s, t, q, b); }
    }
  }

  // ---------- a body step of an exclusive operation ----------

  /** The last step of an operation that is on track gives its answer on the serial tree. */
  lemma LastStep(op: Op, l: Local, root: Tree, serial: Tree)
    requires !op.Shared() && op.Rejection().None? && OpenGlobal !in op.faults && FlockGlobal !in op.faults
    requires !l.pc.Done? && Finish(op, l, root) == Finish(op, START, serial) && Step(op, l, root).0.pc.Done?
    ensures Apply(op, serial) == (Step(op, l, root).0.pc.result, Step(op, l, root).1)
  {
    StepDecreases(op, l, root);
    hide Step;
    assert Finish(op, l, root) == Finish(op, Step(op, l, root).0, Step(op, l, root).1);
  }

  lemma ExclusiveStepTracks(s: System, serial: Tree, t: nat)
    requires LockInv(s) && InBody(s, t) && !s.jobs[t].op.Shared() && Tracks(s, serial)
    ensures var z, op := Body(s, t), s.jobs[t].op;
            if z.threads[t].local.pc.Done? then
              Tracks(z, Apply(op, serial).1) && z.threads[t].local.pc == Done(Apply(op, serial).0)
            else Tracks(z, serial)
  {
    var z, op, l := Body(s, t), s.jobs[t].op, s.threads[t].local;
    assert OnTrack(s, serial, t);
    forall u: nat | InBody(z, u) && u != t
      ensures false
    {
      BodiesApart(s, t, u);
    }
    if z.threads[t].local.pc.Done? {
      assert forall u: nat :: !InBody(z, u);
      LastStep(op, l, s.root, serial);
      assert forall r :: !MadeBy(z, r);
    } else {
      assert InBody(z, t);
      assert ExclusiveInBody(z);
    }
  }

  // ---------- every step, every run ----------

  lemma BodySimInv(s: System, root: Tree, t: nat)
    requires SimInv(s, root) && InBody(s, t)
    ensures SimInv(Body(s, t), root)
  {
    var serial, z, op := SerialTree(s.jobs, root, s.log), Body(s, t), s.jobs[t].op;
    assert Enabled(s, t) && Advance(s, t) == z;
    StepLockInv(s, t);
    hide Step, Apply, Tracks, LockInv, Advance, Enabled;
    if op.Shared() {
      if z.threads[t].local.pc.Done? { TargetEndTracks(s, serial, t); } else { TargetStepTracks(s, serial, t); }
    } else {
      ExclusiveStepTracks(s, serial, t);
    }
    if z.threads[t].local.pc.Done? {
      DecidedKeepsLog(s, z, root, t);
    } else {
      UndecidedKeepsLog(s, z, root, t);
    }
  }

  lemma UndecidedKeepsLog(s: System, z: System, root: Tree, t: nat)
    requires |s.threads| == |s.jobs| && LogWellFormed(s) && AnswersAgree(s, root)
    requires t < |s.jobs| && z.jobs == s.jobs && |z.threads| == |s.threads| && z.log == s.log
    requires forall u: nat | u < |s.jobs| && u != t :: z.threads[u] == s.threads[u]
    requires z.threads[t].local.pc == s.threads[t].local.pc
             || (!z.threads[t].local.pc.Done? && !s.threads[t].local.pc.Done?)
    ensures LogWellFormed(z) && AnswersAgree(z, root)
  {
    assert forall i | 0 <= i < |s.log| :: s.log[i] in s.log;
  }

  lemma QuitSimInv(s: System, root: Tree, t: nat, phase: Phase, e: Error)
    requires SimInv(s, root) && Enabled(s, t) && Advance(s, t) == Quit(s, t, phase, e)
    requires !s.threads[t].phase.Critical? && !phase.Critical? && !s.threads[t].local.pc.Done?
    requires forall tree :: Apply(s.jobs[t].op, tree) == (Failed(e), tree)
    ensures SimInv(Advance(s, t), root)
  {
    var serial, z := SerialTree(s.jobs, root, s.log), Advance(s, t);
    assert Apply(s.jobs[t].op, serial) == (Failed(e), serial);
    StepLockInv(s, t);
    LockStepTracks(s, z, serial, t);
    DecidedKeepsLog(s, z, root, t);
  }

  lemma MoveSimInv(s: System, root: Tree, t: nat, phase: Phase, locks: Locks)
    requires SimInv(s, root) && Enabled(s, t) && Advance(s, t) == Move(s, t, phase, locks)
    requires !InBody(s, t)
    ensures SimInv(Advance(s, t), root)
  {
    var serial, z := SerialTree(s.jobs, root, s.log), Advance(s, t);
    StepLockInv(s, t);
    if InBody(z, t) { EnterTracks(s, z, serial, t); } else { LockStepTracks(s, z, serial, t); }
    UndecidedKeepsLog(s, z, root, t);
  }

  /** Outside its critical section a job either moves on or gives up with an answer that
      its operation gives on any tree. */
  lemma AdvanceShape(s: System, t: nat) returns (quits: bool, phase: Phase, e: Error, locks: Locks)
    requires LockInv(s) && Enabled(s, t) && !InBody(s, t)
    ensures quits ==>
              && Advance(s, t) == Quit(s, t, phase, e)
              && !s.threads[t].phase.Critical? && !phase.Critical? && !s.threads[t].local.pc.Done?
              && forall tree :: Apply(s.jobs[t].op, tree) == (Failed(e), tree)
    ensures !quits ==> Advance(s, t) == Move(s, t, phase, locks)
  {
    var z := Advance(s, t);
    quits, phase, e, locks := |z.log| > |s.log|, z.threads[t].phase, LockFailed, z.locks;
    if quits { e := z.threads[t].local.pc.result.error; }
  }

  lemma StepSimInv(s: System, root: Tree, t: nat)
    requires SimInv(s, root) && Enabled(s, t)
    ensures SimInv(Advance(s, t), root)
  {
    assert LockInv(s);
    if InBody(s, t) {
      BodySimInv(s, root, t);
      assert Advance(s, t) == Body(s, t);
    } else {
      hide SimInv, Advance, Enabled, LockInv;
      var quits, phase, e, locks := AdvanceShape(s, t);
      if quits { QuitSimInv(s, root, t, phase, e); } else { MoveSimInv(s, root, t, phase, locks); }
    }
  }

  lemma RunSimInv(s: System, root: Tree, schedule: seq<nat>)
    requires SimInv(s, root) && Runs(s, schedule)
    ensures SimInv(After(s, schedule), root)
    decreases |schedule|
  {
    if schedule != [] {
      StepSimInv(s, root, schedule[0]);
      RunSimInv(Advance(s, schedule[0]), root, schedule[1..]);
    }
  }

  /** `order` names every job once. */
  ghost predicate IsOrder(order: seq<nat>, n: nat) {
    && (forall i | 0 <= i < |order| :: order[i] < n)
    && (forall i, j | 0 <= i < j < |order| :: order[i] != order[j])
    && (forall t: nat | t < n :: t in order)
  }

  /** Serializability: every complete interleaving of any jobs, with any failures, leaves the
      tree and gives the answers of running the jobs one at a time in some order. */
  lemma Serializable(jobs: seq<Job>, root: Tree, schedule: seq<nat>)
    requires Runs(Initial(jobs, root), schedule) && AllFinished(After(Initial(jobs, root), schedule))
    ensures var final := After(Initial(jobs, root), schedule);
            && final.jobs == jobs && |final.threads| == |jobs| && IsOrder(final.log, |jobs|)
            && final.root == SerialTree(jobs, root, final.log)
            && forall i | 0 <= i < |final.log| ::
                 final.threads[final.log[i]].local.pc == Done(SerialAnswers(jobs, root, final.log)[i])
  {
    var s := Initial(jobs, root);
    InitialSimInv(jobs, root);
    RunSimInv(s, root, schedule);
    RunJobs(s, schedule);
    var final := After(s, schedule);
    hide Runs, After;
    AllAnswered(final);
    FinishedTree(final, SerialTree(jobs, root, final.log));
    hide LockInv, Tracks;
  }

  lemma AllAnswered(s: System)
    requires LockInv(s) && AllFinished(s)
    ensures |s.threads| == |s.jobs| && forall t: nat | t < |s.threads| :: s.threads[t].local.pc.Done?
  {
  }

  /** When all have finished the tree is the serial tree. */
  lemma FinishedTree(s: System, serial: Tree)
    requires LockInv(s) && AllFinished(s) && Tracks(s, serial)
    ensures s.root == serial
  {
    assert forall t | 0 <= t < |s.threads| :: s.threads[t].phase.Finished?;
    assert forall u: nat :: !InBody(s, u);
    QuietTree(s, serial);
  }

  lemma RunJobs(s: System, schedule: seq<nat>)
    requires LockInv(s) && Runs(s, schedule)
    ensures After(s, schedule).jobs == s.jobs
    decreases |schedule|
  {
    if schedule != [] {
      StepLockInv(s, schedule[0]);
      StepMoves(s, schedule[0]);
      RunJobs(Advance(s, schedule[0]), schedule[1..]);
    }
  }

  /** The log only ever grows at its end. */
  lemma LogGrows(s: System, schedule: seq<nat>)
    requires LockInv(s) && Runs(s, schedule)
    ensures s.log <= After(s, schedule).log
    decreases |schedule|
  {
    if schedule != [] {
      StepLockInv(s, schedule[0]);
      LogGrows(Advance(s, schedule[0]), schedule[1..]);
    }
  }

  /** The serial order respects real time: a job that was answered at a moment when another had
      not been answered, let alone begun, stands before it however the run goes on. */
  lemma RealTimeOrder(jobs: seq<Job>, root: Tree, schedule: seq<nat>, later: seq<nat>, t: nat, u: nat)
    requires Runs(Initial(jobs, root), schedule) && Runs(After(Initial(jobs, root), schedule), later)
    requires var s := After(Initial(jobs, root), schedule);
             t < |s.threads| && u < |s.threads| && s.threads[t].local.pc.Done? && !s.threads[u].local.pc.Done?
    ensures var log := After(After(Initial(jobs, root), schedule), later).log;
            && t in log
            && forall i, j | 0 <= i < |log| && 0 <= j < |log| && log[i] == t && log[j] == u :: i < j
  {
    InitialSimInv(jobs, root);
    RunSimInv(Initial(jobs, root), root, schedule);
    var s := After(Initial(jobs, root), schedule);
    RunSimInv(s, root, later);
    LogGrows(s, later);
    var final := After(s, later);
    hide Tracks, LockInv, AnswersAgree, Runs, After;
    assert t in s.log && u !in s.log && s.log <= final.log;
    assert forall i, j | 0 <= i < j < |final.log| :: final.log[i] != final.log[j];
  }
}
