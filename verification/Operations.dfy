/** The five mutations of the repository service as small-step machines.

    Every step is one system call or one run of the repository tools, in the order the
    service makes them, with its error branches. Which calls fail is fixed beforehand by
    the job's set of `faults`; quantifying over jobs therefore covers every way a call can
    fail at every point. */
module Operations {
  import opened Options
  import opened Names
  import opened FileTree

  /** The calls that may fail for reasons outside the model. */
  datatype Call =
    | OpenGlobal | FlockGlobal | OpenTarget | FlockTarget
    | MakeRepository | MakeArchitecture | StatDestination
    | InstallPackage | InstallSignature | RunAdd | UndoPackage | UndoSignature
    | ReadPackages | RunRemove | DeletePackage | DeleteSignature
    | CreateRepository | StatRepository | DeleteRepository
    | StatOld | StatNew | MakeTemporary | CopySnapshot | RenameDatabases
    | InstallSnapshot | DeleteOld | DeleteTemporary

  datatype Error =
    | Incomplete | InvalidName | SameName | LockFailed | InspectFailed | WrongArchitecture
    | DirectoryFailed | StatFailed | AlreadyExists | InstallFailed | SignatureFailed
    | DatabaseFailed | ReadFailed | PackageNotFound | Escapes | DeleteFailed
    | RepositoryNotFound | NotADirectory | SnapshotFailed

  datatype Result = Published(pkg: Package) | Ok | Failed(error: Error)

  /** `inspected` is what reading the staged archive yields; `remnant` and `partial` are
      what a failing whole-tree deletion and a failing copy leave behind. */
  datatype Action =
    | Publish(repository: string, architecture: string, filename: string, content: string,
              signature: Option<string>, inspected: Option<Package>)
    | Remove(repository: string, architecture: string, name: string)
    | Create(repository: string)
    | RemoveRepository(repository: string, remnant: Node)
    | Rename(repository: string, newName: string, suffix: string, partial: Tree, remnant: Node)

  datatype Op = Op(action: Action, faults: set<Call>) {
    predicate Shared() { action.Publish? || action.Remove? }

    /** The name checks made before any lock is taken, those on the upload included. */
    function Rejection(): Option<Error> {
      if !Component(action.repository) then Some(InvalidName)
      else match action
        case Publish(_, a, f, _, _, _) => if Component(a) && PackageFile(f) then None else Some(InvalidName)
        case Remove(_, a, n) => if Component(a) && Component(n) then None else Some(InvalidName)
        case Rename(r, n, _, _, _) =>
          if !Component(n) then Some(InvalidName) else if r == n then Some(SameName) else None
        case _ => None
    }
  }

  datatype Pc =
    | Begin
    | AtStat | AtInstall | AtSignature | AtAdd | AtUndoPackage(why: Error) | AtUndoSignature(why: Error)
    | AtDrop(file: string) | AtDeletePackage(file: string) | AtDeleteSignature(file: string)
    | AtDeleteTree
    | AtStatNew | AtMakeTemporary | AtCopy | AtDatabases | AtInstallSnapshot | AtDeleteOld
    | AtCleanup(after: Result)
    | Done(result: Result)

  /** Where an operation is; `made` records that its repository directory exists by now. */
  datatype Local = Local(pc: Pc, made: bool)

  const START := Local(Begin, false)

  function Fail(l: Local, e: Error): Local { l.(pc := Done(Failed(e))) }

  // ---------- Publish and Remove: steps on one target's view ----------

  predicate IsDirectory(v: View) { v.Present? && v.node.Dir? }

  /** The package as the caller gets it back and as the database records it. */
  function Listed(p: Action): Package
    requires p.Publish? && p.inspected.Some?
  {
    p.inspected.value.(filename := p.filename)
  }

  function MakeDirectory(op: Op, l: Local, v: View): (Local, View) {
    if MakeRepository in op.faults || v.Blocked? then (Fail(l, DirectoryFailed), v)
    else match v
      case Missing =>
        if MakeArchitecture in op.faults then (Fail(l.(made := true), DirectoryFailed), v)
        else (Local(AtStat, true), Present(Dir(map[])))
      case Present(n) =>
        if n.Dir? then (Local(AtStat, true), v) else (Fail(l.(made := true), DirectoryFailed), v)
  }

  function InstallAs(op: Op, l: Local, v: View, call: Call, name: string, bytes: string, next: Pc, otherwise: Pc)
    : (Local, View)
  {
    if call in op.faults || !IsDirectory(v) then (l.(pc := otherwise), v)
    else match MoveOnto(v.node.entries, name, File(Blob(bytes)))
      case None => (l.(pc := otherwise), v)
      case Some(d) => (l.(pc := next), Present(Dir(d)))
  }

  /** A deletion whose failure leads to `otherwise`. */
  function DeleteThen(op: Op, l: Local, v: View, call: Call, name: string, next: Pc, otherwise: Pc): (Local, View) {
    if call in op.faults then (l.(pc := otherwise), v)
    else if !IsDirectory(v) then (l.(pc := next), v)
    else match Delete(v.node.entries, name)
      case None => (l.(pc := otherwise), v)
      case Some(d) => (l.(pc := next), Present(Dir(d)))
  }

  function PublishStep(op: Op, l: Local, v: View): (Local, View)
    requires op.action.Publish?
  {
    var p := op.action;
    match l.pc
    case Begin =>
      if p.inspected.None? then (Fail(l, InspectFailed), v)
      else if p.inspected.value.architecture != p.architecture && p.inspected.value.architecture != "any" then
        (Fail(l, WrongArchitecture), v)
      else MakeDirectory(op, l, v)
    case AtStat =>
      if StatDestination in op.faults then (Fail(l, StatFailed), v)
      else if IsDirectory(v) && p.filename in v.node.entries then (Fail(l, AlreadyExists), v)
      else (l.(pc := AtInstall), v)
    case AtInstall =>
      InstallAs(op, l, v, InstallPackage, p.filename, p.content,
                if p.signature.Some? then AtSignature else AtAdd, Done(Failed(InstallFailed)))
    case AtSignature =>
      InstallAs(op, l, v, InstallSignature, SignatureName(p.filename), p.signature.GetOr(""),
                AtAdd, AtUndoPackage(SignatureFailed))
    case AtAdd =>
      if RunAdd in op.faults || !IsDirectory(v) || p.inspected.None? then (l.(pc := AtUndoPackage(DatabaseFailed)), v)
      else (match DatabaseAdd(v.node.entries, p.repository, Listed(p))
        case None => (l.(pc := AtUndoPackage(DatabaseFailed)), v)
        case Some(d) => (l.(pc := Done(Published(Listed(p)))), Present(Dir(d))))
    case AtUndoPackage(why) =>
      var next := if why == DatabaseFailed && p.signature.Some? then AtUndoSignature(why) else Done(Failed(why));
      DeleteThen(op, l, v, UndoPackage, p.filename, next, next)
    case AtUndoSignature(why) =>
      DeleteThen(op, l, v, UndoSignature, SignatureName(p.filename), Done(Failed(why)), Done(Failed(why)))
    case _ => (Fail(l, InvalidName), v)
  }

  /** A database filename that is a plain name inside the architecture directory. */
  predicate Plain(file: string) {
    file != "" && file != "." && file != ".." && '/' !in file
  }

  function RemoveStep(op: Op, l: Local, v: View): (Local, View)
    requires op.action.Remove?
  {
    var p := op.action;
    match l.pc
    case Begin =>
      if ReadPackages in op.faults || v.Blocked? || (v.Present? && !v.node.Dir?) then (Fail(l, ReadFailed), v)
      else if v.Missing? then (Fail(l, PackageNotFound), v)
      else (match FileTree.Packages(v.node.entries, p.repository)
        case None => (Fail(l, ReadFailed), v)
        case Some(m) =>
          if p.name in m then (l.(pc := AtDrop(m[p.name].filename)), v) else (Fail(l, PackageNotFound), v))
    case AtDrop(file) =>
      if RunRemove in op.faults || !IsDirectory(v) then (Fail(l, DatabaseFailed), v)
      else (match DatabaseDrop(v.node.entries, p.repository, p.name)
        case None => (Fail(l, DatabaseFailed), v)
        case Some(d) =>
          (l.(pc := if Plain(file) then AtDeletePackage(file) else Done(Failed(Escapes))), Present(Dir(d))))
    case AtDeletePackage(file) =>
      DeleteThen(op, l, v, DeletePackage, file, AtDeleteSignature(file), Done(Failed(DeleteFailed)))
    case AtDeleteSignature(file) =>
      DeleteThen(op, l, v, DeleteSignature, SignatureName(file), Done(Ok), Done(Failed(DeleteFailed)))
    case _ => (Fail(l, InvalidName), v)
  }

  function StepView(op: Op, l: Local, v: View): (Local, View)
    requires op.Shared()
  {
    if op.action.Publish? then PublishStep(op, l, v) else RemoveStep(op, l, v)
  }

  /** Steps left at most. */
  function Fuel(pc: Pc): nat {
    match pc
    case Begin => 10
    case AtStat => 7 case AtInstall => 6 case AtSignature => 5 case AtAdd => 4
    case AtUndoPackage(_) => 3 case AtUndoSignature(_) => 2
    case AtDrop(_) => 3 case AtDeletePackage(_) => 2 case AtDeleteSignature(_) => 1
    case AtDeleteTree => 1
    case AtStatNew => 8 case AtMakeTemporary => 7 case AtCopy => 6 case AtDatabases => 5
    case AtInstallSnapshot => 4 case AtDeleteOld => 3
    case AtCleanup(_) => 1
    case Done(_) => 0
  }

  lemma StepViewDecreases(op: Op, l: Local, v: View)
    requires op.Shared() && !l.pc.Done?
    ensures Fuel(StepView(op, l, v).0.pc) < Fuel(l.pc)
  {
  }

  // ---------- Create, RemoveRepository and Rename: steps on the whole tree ----------

  /** What a copy or deletion may leave of `n`. */
  predicate IsRemnant(part: Node, n: Node) {
    if part.Dir? && n.Dir? then
      forall k | k in part.entries :: k in n.entries && IsRemnant(part.entries[k], n.entries[k])
    else part == n
  }

  /** `copyDirectory` refuses entries that are neither directory, file nor link. */
  predicate Copyable(n: Node) {
    match n
    case Dir(e) => forall k | k in e :: Copyable(e[k])
    case Special => false
    case _ => true
  }

  /** `repositoryArchitectures`: a directory with a component name and a regular database. */
  predicate IsArchitecture(r: string, a: string, n: Node) {
    Component(a) && n.Dir? && DatabaseName(r) in n.entries && n.entries[DatabaseName(r)].File?
  }

  /** `os.Rename` of `from` onto `to` inside one directory. */
  function MoveEntry(d: Tree, from: string, to: string): Option<Tree> {
    if from !in d then None
    else if from == to then Some(d)
    else if to in d && (d[to].Dir? != d[from].Dir? || (d[to].Dir? && d[to].entries != map[])) then None
    else Some((d - {from})[to := d[from]])
  }

  /** `renameDatabase` in one architecture directory. */
  function RenameDatabase(d: Tree, oldName: string, newName: string): Option<Tree> {
    match MoveEntry(d, DatabaseName(oldName), DatabaseName(newName))
    case None => None
    case Some(e) =>
      if LinkName(oldName) !in e then Some(e)
      else if !e[LinkName(oldName)].Link? then MoveEntry(e, LinkName(oldName), LinkName(newName))
      else if e[LinkName(oldName)].target != DatabaseName(oldName) then None
      else if LinkName(newName) in e - {LinkName(oldName)} then None
      else Some((e - {LinkName(oldName)})[LinkName(newName) := Link(DatabaseName(newName))])
  }

  /** The databases renamed in every architecture of a repository; `None` if one refuses. */
  function RenameAll(archs: Tree, oldName: string, newName: string): Option<Tree> {
    if exists a | a in archs ::
       IsArchitecture(oldName, a, archs[a]) && RenameDatabase(archs[a].entries, oldName, newName).None?
    then None
    else Some(map a | a in archs ::
      if IsArchitecture(oldName, a, archs[a]) then Dir(RenameDatabase(archs[a].entries, oldName, newName).value)
      else archs[a])
  }

  function DeleteTree(root: Tree, name: string, fails: bool, remnant: Node): Tree {
    if name !in root then root
    else if !fails then root - {name}
    else if IsRemnant(remnant, root[name]) then root[name := remnant]
    else root
  }

  function RenameStep(op: Op, l: Local, root: Tree): (Local, Tree)
    requires op.action.Rename?
  {
    var p := op.action;
    var oldName, newName, tmp := p.repository, p.newName, TemporaryName(p.newName, p.suffix);
    match l.pc
    case Begin =>
      if StatOld in op.faults then (Fail(l, StatFailed), root)
      else if oldName !in root then (Fail(l, RepositoryNotFound), root)
      else if !root[oldName].Dir? then (Fail(l, NotADirectory), root)
      else (l.(pc := AtStatNew), root)
    case AtStatNew =>
      if newName in root then (Fail(l, AlreadyExists), root)
      else if StatNew in op.faults then (Fail(l, StatFailed), root)
      else (l.(pc := AtMakeTemporary), root)
    case AtMakeTemporary =>
      if MakeTemporary in op.faults || tmp in root then (Fail(l, SnapshotFailed), root)
      else (l.(pc := AtCopy), root[tmp := Dir(map[])])
    case AtCopy =>
      if CopySnapshot in op.faults || oldName !in root || !Copyable(root[oldName]) then
        (l.(pc := AtCleanup(Failed(SnapshotFailed))), root[tmp := Dir(p.partial)])
      else (l.(pc := AtDatabases), root[tmp := root[oldName]])
    case AtDatabases =>
      (match if RenameDatabases in op.faults || tmp !in root || !root[tmp].Dir? then None
             else RenameAll(root[tmp].entries, oldName, newName)
        case None => (l.(pc := AtCleanup(Failed(DatabaseFailed))), root[tmp := Dir(p.partial)])
        case Some(archs) => (l.(pc := AtInstallSnapshot), root[tmp := Dir(archs)]))
    case AtInstallSnapshot =>
      if InstallSnapshot in op.faults || tmp !in root || newName in root then
        (l.(pc := AtCleanup(Failed(InstallFailed))), root)
      else (l.(pc := AtDeleteOld), (root - {tmp})[newName := root[tmp]])
    case AtDeleteOld =>
      (l.(pc := AtCleanup(if DeleteOld in op.faults then Failed(DeleteFailed) else Ok)),
       DeleteTree(root, oldName, DeleteOld in op.faults, p.remnant))
    case AtCleanup(after) =>
      (l.(pc := Done(after)), DeleteTree(root, tmp, DeleteTemporary in op.faults, p.remnant))
    case _ => (Fail(l, InvalidName), root)
  }

  function LifecycleStep(op: Op, l: Local, root: Tree): (Local, Tree)
    requires !op.Shared()
  {
    var r := op.action.repository;
    match op.action
    case Create(_) =>
      if CreateRepository in op.faults then (Fail(l, DirectoryFailed), root)
      else if r in root then (Fail(l, AlreadyExists), root)
      else (l.(pc := Done(Ok)), root[r := Dir(map[])])
    case RemoveRepository(_, remnant) =>
      (match l.pc
       case Begin =>
         if StatRepository in op.faults then (Fail(l, StatFailed), root)
         else if r !in root then (Fail(l, RepositoryNotFound), root)
         else if !root[r].Dir? then (Fail(l, NotADirectory), root)
         else (l.(pc := AtDeleteTree), root)
       case AtDeleteTree =>
         (l.(pc := Done(if DeleteRepository in op.faults then Failed(DeleteFailed) else Ok)),
          DeleteTree(root, r, DeleteRepository in op.faults, remnant))
       case _ => (Fail(l, InvalidName), root))
    case Rename(_, _, _, _, _) => RenameStep(op, l, root)
    case _ => (Fail(l, InvalidName), root)
  }

  // ---------- one step on the tree, and whole runs ----------

  function Step(op: Op, l: Local, root: Tree): (Local, Tree) {
    if op.Shared() then
      var r, a := op.action.repository, op.action.architecture;
      var (m, w) := StepView(op, l, ViewOf(root, r, a));
      (m, Store(root, r, a, w, m.made))
    else LifecycleStep(op, l, root)
  }

  lemma StepDecreases(op: Op, l: Local, root: Tree)
    requires !l.pc.Done?
    ensures Fuel(Step(op, l, root).0.pc) < Fuel(l.pc)
  {
    if op.Shared() {
      StepViewDecreases(op, l, ViewOf(root, op.action.repository, op.action.architecture));
    }
  }

  function FinishView(op: Op, l: Local, v: View): (Local, View)
    requires op.Shared()
    decreases Fuel(l.pc)
  {
    if l.pc.Done? then (l, v)
    else
      StepViewDecreases(op, l, v);
      FinishView(op, StepView(op, l, v).0, StepView(op, l, v).1)
  }

  function Finish(op: Op, l: Local, root: Tree): (Local, Tree)
    decreases Fuel(l.pc)
  {
    if l.pc.Done? then (l, root)
    else
      StepDecreases(op, l, root);
      Finish(op, Step(op, l, root).0, Step(op, l, root).1)
  }

  /** The whole operation run alone, locks included: what it answers and what it leaves. */
  function Apply(op: Op, root: Tree): (Result, Tree) {
    if op.Rejection().Some? then (Failed(op.Rejection().value), root)
    else if OpenGlobal in op.faults || FlockGlobal in op.faults then (Failed(LockFailed), root)
    else if op.Shared() && (OpenTarget in op.faults || FlockTarget in op.faults) then (Failed(LockFailed), root)
    else
      FinishIsDone(op, START, root);
      (Finish(op, START, root).0.pc.result, Finish(op, START, root).1)
  }

  lemma FinishIsDone(op: Op, l: Local, root: Tree)
    ensures Finish(op, l, root).0.pc.Done?
    decreases Fuel(l.pc)
  {
    if !l.pc.Done? {
      StepDecreases(op, l, root);
      FinishIsDone(op, Step(op, l, root).0, Step(op, l, root).1);
    }
  }

  lemma FinishViewIsDone(op: Op, l: Local, v: View)
    requires op.Shared()
    ensures FinishView(op, l, v).0.pc.Done?
    decreases Fuel(l.pc)
  {
    if !l.pc.Done? {
      StepViewDecreases(op, l, v);
      FinishViewIsDone(op, StepView(op, l, v).0, StepView(op, l, v).1);
    }
  }

  // ---------- a target operation only ever acts on its own view ----------

  /** What a step of a target operation may change, and that it records a directory it makes. */
  lemma StepViewEvolves(op: Op, l: Local, v: View)
    requires op.Shared() && !l.pc.Done?
    ensures Evolves(v, StepView(op, l, v).1)
    ensures l.made ==> StepView(op, l, v).0.made
    ensures v.Missing? && StepView(op, l, v).1.Present? ==> StepView(op, l, v).0.made
    ensures v.Blocked? ==> StepView(op, l, v).0.made == l.made
  {
  }

  lemma FinishViewEvolves(op: Op, l: Local, v: View)
    requires op.Shared()
    ensures Evolves(v, FinishView(op, l, v).1)
    ensures l.made ==> FinishView(op, l, v).0.made
    ensures v.Missing? && FinishView(op, l, v).1.Present? ==> FinishView(op, l, v).0.made
    decreases Fuel(l.pc)
  {
    if !l.pc.Done? {
      StepViewDecreases(op, l, v);
      StepViewEvolves(op, l, v);
      FinishViewEvolves(op, StepView(op, l, v).0, StepView(op, l, v).1);
    }
  }

  /** Running a target operation on the tree is running it on its view and storing that. */
  lemma FinishLifts(op: Op, l: Local, root: Tree)
    requires op.Shared()
    requires var r := op.action.repository; l.made ==> r in root
    ensures var r, a := op.action.repository, op.action.architecture;
            var (m, w) := FinishView(op, l, ViewOf(root, r, a));
            Finish(op, l, root) == (m, Store(root, r, a, w, m.made))
    decreases Fuel(l.pc)
  {
    var r, a := op.action.repository, op.action.architecture;
    var v := ViewOf(root, r, a);
    if l.pc.Done? {
      assert Store(root, r, a, v, l.made) == root by {
        if v.Present? { assert Architectures(root, r)[a := v.node] == Architectures(root, r); }
      }
    } else {
      var (l1, v1) := StepView(op, l, v);
      StepViewDecreases(op, l, v);
      StepViewEvolves(op, l, v);
      var root1 := Store(root, r, a, v1, l1.made);
      StoreView(root, r, a, v1, l1.made);
      FinishLifts(op, l1, root1);
      var (m, w) := FinishView(op, l1, v1);
      FinishViewEvolves(op, l1, v1);
      StoreTwice(root, r, a, v1, l1.made, w, m.made);
    }
  }
}
