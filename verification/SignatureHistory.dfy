/** Which packages carry a signature, traced back through the run to the Publish that
    installed them. */
module SignatureHistory {
  import opened Options
  import opened Names
  import opened FileTree
  import opened Operations
  import opened Transactions
  import opened Renaming
  import opened Locking
  import opened Serializability
  import opened Safety

  /** Where the package file `f` at `r/a` comes from after one more operation. */
  datatype Origin = Fresh(signed: bool) | Gone | From(repository: string)

  function ListedFile(tree: Tree, r: string, a: string, name: string): Option<string> {
    var d := Entries(ViewOf(tree, r, a));
    match FileTree.Packages(d, r)
    case Some(m) => if name in m then Some(m[name].filename) else None
    case None => None
  }

  /** A Rename that could not delete the old repository has made its copy all the same. */
  function OriginOf(op: Op, tree: Tree, r: string, a: string, f: string): Origin {
    var answer := Apply(op, tree).0;
    match op.action
    case Publish(q, b, g, _, signature, _) =>
      if q == r && b == a && g == f && answer.Published? then Fresh(signature.Some?) else From(r)
    case Remove(q, b, name) =>
      if q == r && b == a && answer.Ok? && ListedFile(tree, r, a, name) == Some(f) then Gone else From(r)
    case Create(_) => From(r)
    case RemoveRepository(q, _) => if q == r && answer.Ok? then Gone else From(r)
    case Rename(o, n, _, _, _) =>
      if r == n && (answer.Ok? || answer == Failed(DeleteFailed)) then From(o)
      else if r == o && answer.Ok? then Gone
      else From(r)
  }

  /** Whether the Publish that installed `f` at `r/a` carried a signature; `None` when there
      is no such package. What the run began with counts as installed before it. */
  function Installed(jobs: seq<Job>, root: Tree, order: seq<nat>, r: string, a: string, f: string): Option<bool>
    requires forall i | 0 <= i < |order| :: order[i] < |jobs|
    decreases |order|
  {
    if order == [] then
      var d := Entries(ViewOf(root, r, a));
      if f in d then Some(HasSignature(d, f)) else None
    else
      var shorter := order[..|order| - 1];
      match OriginOf(jobs[order[|order| - 1]].op, SerialTree(jobs, root, shorter), r, a, f)
      case Fresh(signed) => Some(signed)
      case Gone => None
      case From(q) => Installed(jobs, root, shorter, q, a, f)
  }

  /** The directory agrees with the history of `f`, and no signature stands alone. */
  ghost predicate Records(d: Tree, f: string, history: Option<bool>) {
    && (f in d <==> history.Some?)
    && (f in d ==> (HasSignature(d, f) <==> history.value))
    && (SignatureName(f) in d ==> f in d)
  }

  function Next(origin: Origin, before: Option<bool>): Option<bool> {
    match origin
    case Fresh(signed) => Some(signed)
    case Gone => None
    case From(_) => before
  }

  // ---------- which failing deletions break the agreement ----------

  /** `e` is without the file `f` of `d`, or without its signature. */
  predicate Loses(d: Tree, e: Tree, f: string) {
    f in d && (f !in e || (HasSignature(d, f) && !HasSignature(e, f)))
  }

  /** The operation leaves the file `f` at `r/a` or its signature behind or without the other,
      although its answer is an error: told beforehand, by the deletions that fail. */
  ghost predicate Breaks(op: Op, tree: Tree, r: string, a: string, f: string) {
    var d, faults := Entries(ViewOf(tree, r, a)), op.faults;
    && !Refused(op)
    && match op.action
       case Publish(q, b, g, _, signature, _) =>
         var v := ViewOf(tree, r, a);
         && (q, b, g) == (r, a, f) && InstallsPackage(op, v) && !PublishSucceeds(op, v)
         && (UndoPackage in faults || (InstallsFiles(op, v) && signature.Some? && UndoSignature in faults))
       case Remove(q, b, name) =>
         && (q, b) == (r, a) && ListedFile(tree, r, a, name) == Some(f) && Drops(op, ViewOf(tree, r, a))
         && DeletePackage !in faults && DeleteSignature in faults
       case Create(_) => false
       case RemoveRepository(q, remnant) => q == r && DeletesHalf(op, tree) && Loses(d, Remains(tree, r, a, remnant), f)
       case Rename(o, _, _, _, remnant) =>
         o == r && MovesHalf(op, tree) && Loses(d, Remains(tree, r, a, remnant), f)
  }

  /** What has to be in agreement beforehand: where `f` comes from, but nothing if the operation
      takes it away or brings a signed one. */
  ghost predicate Traced(tree: Tree, origin: Origin, r: string, a: string, f: string, before: Option<bool>) {
    match origin
    case Fresh(signed) => signed || Records(Entries(ViewOf(tree, r, a)), f, before)
    case Gone => true
    case From(q) => Records(Entries(ViewOf(tree, q, a)), f, before)
  }

  // ---------- Publish ----------

  lemma PublishRecords(op: Op, tree: Tree, r: string, a: string, f: string, before: Option<bool>)
    requires op.action.Publish? && !Refused(op) && PackageFile(f)
    requires Traced(tree, OriginOf(op, tree, r, a, f), r, a, f, before)
    ensures Records(Entries(ViewOf(Apply(op, tree).1, r, a)), f, Next(OriginOf(op, tree, r, a, f), before))
            <==> !Breaks(op, tree, r, a, f)
  {
    hide FinishView, Finish, Apply, StepView;
    TargetRunEffect(op, tree);
    var p, v := op.action, ViewOf(tree, r, a);
    if p.repository == r && p.architecture == a {
      PublishAllOrNothing(op, v);
      if p.filename == f { OwnFile(op, v, before); } else { OtherFile(op, v, f); }
    }
  }

  /** What a Publish leaves of its own file. */
  lemma OwnFile(op: Op, v: View, before: Option<bool>)
    requires op.action.Publish? && PackageFile(op.action.filename)
    requires (PublishSucceeds(op, v) && op.action.signature.Some?) || Records(Entries(v), op.action.filename, before)
    ensures var p, d, f := op.action, Entries(v), op.action.filename;
            if PublishSucceeds(op, v) then
              var added := FileTree.DatabaseAdd(WithFiles(p, d), p.repository, Listed(p));
              Records(added.value, f, Some(p.signature.Some?))
            else
              Records(Leftover(op, v), f, before) <==>
                !(InstallsPackage(op, v)
                  && (UndoPackage in op.faults
                     || (InstallsFiles(op, v) && p.signature.Some? && UndoSignature in op.faults)))
  {
    var p, f := op.action, op.action.filename;
    assert f != SignatureName(f);
    if PublishSucceeds(op, v) { PublishedContents(p, Entries(v)); SignatureIsNoDatabase(f, p.repository); }
    hide FileTree.DatabaseAdd, SignatureName, PackageFile;
  }

  lemma SignatureIsNoDatabase(f: string, r: string)
    requires PackageFile(f)
    ensures SignatureName(f) != DatabaseName(r) && SignatureName(f) != LinkName(r) && f != SignatureName(f)
  {
    NamesDisjoint(f, f, r, r);
  }

  /** `e` holds what `d` holds of the file `f` and its signature. */
  ghost predicate SameFile(d: Tree, e: Tree, f: string) {
    forall n | n in {f, SignatureName(f)} :: (n in e <==> n in d) && (n in d ==> e[n] == d[n])
  }

  lemma SameFileRecords(d: Tree, e: Tree, f: string, history: Option<bool>)
    requires SameFile(d, e, f)
    ensures Records(e, f, history) <==> Records(d, f, history)
  {
    assert f in {f, SignatureName(f)} && SignatureName(f) in {f, SignatureName(f)};
  }

  /** A Publish does nothing to the files of other packages. */
  lemma OtherFile(op: Op, v: View, f: string)
    requires op.action.Publish? && PackageFile(f) && PackageFile(op.action.filename) && op.action.filename != f
    ensures var p, d := op.action, Entries(v);
            if PublishSucceeds(op, v) then
              SameFile(d, FileTree.DatabaseAdd(WithFiles(p, d), p.repository, Listed(p)).value, f)
            else SameFile(d, Leftover(op, v), f)
  {
    var p, g, r := op.action, op.action.filename, op.action.repository;
    NamesDisjoint(f, g, r, r);
    NamesDisjoint(g, f, r, r);
    DerivedNamesInjective(f, g);
    if PublishSucceeds(op, v) { PublishedContents(p, Entries(v)); }
    hide FileTree.DatabaseAdd, SignatureName, PackageFile;
  }

  // ---------- Remove ----------

  lemma RemoveRecords(op: Op, tree: Tree, r: string, a: string, f: string, before: Option<bool>)
    requires op.action.Remove? && !Refused(op) && PackageFile(f)
    requires (op.action.repository, op.action.architecture) == (r, a) ==> ViewKept(r, ViewOf(tree, r, a))
    requires Traced(tree, OriginOf(op, tree, r, a, f), r, a, f, before)
    ensures Records(Entries(ViewOf(Apply(op, tree).1, r, a)), f, Next(OriginOf(op, tree, r, a, f), before))
            <==> !Breaks(op, tree, r, a, f)
  {
    hide FinishView, Finish, Apply, StepView;
    TargetRunEffect(op, tree);
    var p, v := op.action, ViewOf(tree, r, a);
    if p.repository == r && p.architecture == a {
      RemoveAllOrNothing(op, v);
      if Drops(op, v) { DroppedFile(op, v, f, before); }
    }
  }

  /** The file that a Remove which drops its entry goes on to delete. */
  function DroppedName(op: Op, v: View): string
    requires op.action.Remove? && Drops(op, v)
  {
    FileTree.Packages(Entries(v), op.action.repository).value[op.action.name].filename
  }

  /** What it leaves of `f`. */
  lemma DroppedFile(op: Op, v: View, f: string, before: Option<bool>)
    requires op.action.Remove? && PackageFile(f) && ViewKept(op.action.repository, v) && Drops(op, v)
    requires Records(Entries(v), f, before) || (RemoveSucceeds(op, v) && DroppedName(op, v) == f)
    ensures if f != DroppedName(op, v) || DeletePackage in op.faults then Records(AfterRemove(op, v), f, before)
            else if DeleteSignature in op.faults then !Records(AfterRemove(op, v), f, before)
            else Records(AfterRemove(op, v), f, None)
  {
    var file := DroppedName(op, v);
    DroppedEntry(op, v, f);
    if f != file || DeletePackage in op.faults {
      SameFileRecords(Entries(v), AfterRemove(op, v), f, before);
    }
    hide AfterRemove, SameFile, SignatureName, PackageFile;
  }

  lemma DroppedEntry(op: Op, v: View, f: string)
    requires op.action.Remove? && PackageFile(f) && ViewKept(op.action.repository, v) && Drops(op, v)
    ensures if f != DroppedName(op, v) || DeletePackage in op.faults then SameFile(Entries(v), AfterRemove(op, v), f)
            else f in Entries(v) && f !in AfterRemove(op, v)
                 && (DeleteSignature !in op.faults ==> SignatureName(f) !in AfterRemove(op, v))
  {
    var r, file := op.action.repository, DroppedName(op, v);
    assert PackageFile(file) && file in Entries(v);
    NamesDisjoint(f, file, r, r);
    NamesDisjoint(file, f, r, r);
    DerivedNamesInjective(f, file);
    hide SignatureName, PackageFile, DatabaseName, Consistent;
  }

  // ---------- Create, RemoveRepository and Rename ----------

  lemma CreateRecords(op: Op, tree: Tree, r: string, a: string, f: string, before: Option<bool>)
    requires op.action.Create? && !Refused(op)
    requires Traced(tree, OriginOf(op, tree, r, a, f), r, a, f, before)
    ensures Records(Entries(ViewOf(Apply(op, tree).1, r, a)), f, Next(OriginOf(op, tree, r, a, f), before))
  {
    LifecycleReachesEnd(op, tree, START, tree);
  }

  lemma RemainsRecords(tree: Tree, r: string, a: string, remnant: Node, f: string, before: Option<bool>)
    requires Records(Entries(ViewOf(tree, r, a)), f, before)
    ensures Records(Remains(tree, r, a, remnant), f, before) <==>
            !Loses(Entries(ViewOf(tree, r, a)), Remains(tree, r, a, remnant), f)
  {
    var e := Remains(tree, r, a, remnant);
    if f in e { RemainsPart(tree, r, a, remnant, f); }
    if SignatureName(f) in e { RemainsPart(tree, r, a, remnant, SignatureName(f)); }
    hide Remains;
  }

  lemma RemoveRepositoryRecords(op: Op, tree: Tree, r: string, a: string, f: string, before: Option<bool>)
    requires op.action.RemoveRepository? && !Refused(op)
    requires Traced(tree, OriginOf(op, tree, r, a, f), r, a, f, before)
    ensures Records(Entries(ViewOf(Apply(op, tree).1, r, a)), f, Next(OriginOf(op, tree, r, a, f), before))
            <==> !Breaks(op, tree, r, a, f)
  {
    var q, remnant := op.action.repository, op.action.remnant;
    RemovalSummary(op, tree);
    if q == r && DeletesHalf(op, tree) { RemainsRecords(tree, r, a, remnant, f, before); }
    hide Apply;
  }

  lemma MoveEntryFiles(d: Tree, from: string, to: string, k: string)
    requires MoveEntry(d, from, to).Some? && k != from && k != to
    ensures var e := MoveEntry(d, from, to).value; (k in e <==> k in d) && (k in d ==> e[k] == d[k])
  {
  }

  /** Renaming a database moves no other file. */
  lemma RenameDatabaseFiles(d: Tree, o: string, n: string, k: string)
    requires RenameDatabase(d, o, n).Some? && k !in {DatabaseName(o), DatabaseName(n), LinkName(o), LinkName(n)}
    ensures var e := RenameDatabase(d, o, n).value; (k in e <==> k in d) && (k in d ==> e[k] == d[k])
  {
    MoveEntryFiles(d, DatabaseName(o), DatabaseName(n), k);
    var e := MoveEntry(d, DatabaseName(o), DatabaseName(n)).value;
    if MoveEntry(e, LinkName(o), LinkName(n)).Some? { MoveEntryFiles(e, LinkName(o), LinkName(n), k); }
    hide DatabaseName, LinkName;
  }

  /** The snapshot has the files of the old repository. */
  lemma SnapshotFile(op: Op, start: Tree, root: Tree, a: string, f: string)
    requires op.action.Rename? && PackageFile(f) && Passed(op, start, {StatOld, RenameDatabases})
    requires op.action.newName in root && root[op.action.newName] == Snapshot(op, start)
    ensures SameFile(Entries(ViewOf(start, op.action.repository, a)), Entries(ViewOf(root, op.action.newName, a)), f)
  {
    var o, n := op.action.repository, op.action.newName;
    assert StatOld in {StatOld, RenameDatabases} && RenameDatabases in {StatOld, RenameDatabases};
    var archs := start[o].entries;
    NamesDisjoint(f, f, o, o);
    NamesDisjoint(f, f, n, n);
    if a in archs && IsArchitecture(o, a, archs[a]) {
      assert RenameDatabase(archs[a].entries, o, n).Some?;
      RenameDatabaseFiles(archs[a].entries, o, n, f);
      RenameDatabaseFiles(archs[a].entries, o, n, SignatureName(f));
    }
  }

  lemma RenameRecords(op: Op, tree: Tree, r: string, a: string, f: string, before: Option<bool>)
    requires op.action.Rename? && !Refused(op) && Component(r) && PackageFile(f)
    requires Traced(tree, OriginOf(op, tree, r, a, f), r, a, f, before)
    ensures Records(Entries(ViewOf(Apply(op, tree).1, r, a)), f, Next(OriginOf(op, tree, r, a, f), before))
            <==> !Breaks(op, tree, r, a, f)
  {
    hide Apply, PackageFile;
    var o, n := op.action.repository, op.action.newName;
    var (answer, after) := Apply(op, tree);
    RenameSummary(op, tree);
    var d, e := Entries(ViewOf(tree, o, a)), Entries(ViewOf(after, n, a));
    if MovesHalf(op, tree) || answer == Ok {
      TemporaryIsNoComponent(n, op.action.suffix);
      if r == n {
        SnapshotFile(op, tree, after, a, f);
        SameFileRecords(d, e, f, before);
      } else if r == o && MovesHalf(op, tree) {
        HalfMovedView(op, tree, after, a);
        RemainsRecords(tree, r, a, op.action.remnant, f, before);
      }
    }
  }

  // ---------- one more operation, and whole runs ----------

  /** One more operation keeps directory and history in agreement exactly if it does not fail
      in one of the ways `Breaks` tells beforehand. */
  lemma StepRecords(op: Op, tree: Tree, r: string, a: string, f: string, before: Option<bool>)
    requires Component(r) && PackageFile(f)
    requires RemovesAt(op, r, a) ==> ViewKept(r, ViewOf(tree, r, a))
    requires Traced(tree, OriginOf(op, tree, r, a, f), r, a, f, before)
    ensures Records(Entries(ViewOf(Apply(op, tree).1, r, a)), f, Next(OriginOf(op, tree, r, a, f), before))
            <==> !Breaks(op, tree, r, a, f)
  {
    hide FinishView, Finish, Apply;
    if Refused(op) {
      RefusedLeavesTree(op, tree);
    } else {
      match op.action {
        case Publish(_, _, _, _, _, _) => PublishRecords(op, tree, r, a, f, before);
        case Remove(_, _, _) => RemoveRecords(op, tree, r, a, f, before);
        case Create(_) => CreateRecords(op, tree, r, a, f, before);
        case RemoveRepository(_, _) => RemoveRepositoryRecords(op, tree, r, a, f, before);
        case Rename(_, _, _, _, _) => RenameRecords(op, tree, r, a, f, before);
      }
    }
  }

  predicate RemovesAt(op: Op, r: string, a: string) {
    op.action.Remove? && (op.action.repository, op.action.architecture) == (r, a)
  }

  /** The history of `f` at `r/a` has lost track of it: an operation failed in one of the ways
      `Breaks` tells, or removed from a half-deleted repository, and since then nothing took
      `f` away or brought a signed one. */
  ghost predicate Astray(
    jobs: seq<Job>, root: Tree, order: seq<nat>, bad: set<string>, r: string, a: string, f: string)
    requires forall i | 0 <= i < |order| :: order[i] < |jobs|
    decreases |order|
  {
    if order == [] then r in bad
    else
      var shorter, op := order[..|order| - 1], jobs[order[|order| - 1]].op;
      var tree := SerialTree(jobs, root, shorter);
      || Breaks(op, tree, r, a, f)
      || (RemovesAt(op, r, a) && r in Tainted(jobs, root, shorter, bad))
      || match OriginOf(op, tree, r, a, f)
         case Fresh(signed) => !signed && Astray(jobs, root, shorter, bad, r, a, f)
         case Gone => false
         case From(q) => Astray(jobs, root, shorter, bad, q, a, f)
  }

  /** At the beginning no signature stands without its package. */
  ghost predicate Paired(root: Tree, bad: set<string>) {
    forall r, a, f | r !in bad && PackageFile(f) && SignatureName(f) in Entries(ViewOf(root, r, a)) ::
      f in Entries(ViewOf(root, r, a))
  }

  /** After any serial run the tree agrees with the history that has not gone astray. */
  lemma {:induction false} SerialRecords(
    jobs: seq<Job>, root: Tree, order: seq<nat>, bad: set<string>, r: string, a: string, f: string)
    requires forall i | 0 <= i < |order| :: order[i] < |jobs|
    requires KeptBut(root, bad) && Paired(root, bad) && Component(r) && PackageFile(f)
    requires !Astray(jobs, root, order, bad, r, a, f)
    ensures Records(Entries(ViewOf(SerialTree(jobs, root, order), r, a)), f, Installed(jobs, root, order, r, a, f))
    decreases |order|
  {
    if order != [] {
      var shorter, op := order[..|order| - 1], jobs[order[|order| - 1]].op;
      var tree := SerialTree(jobs, root, shorter);
      hide Breaks, Apply, Records, PackageFile, Component;
      SerialTreeKept(jobs, root, shorter, bad);
      if RemovesAt(op, r, a) { KeptViews(tree, r, a, Tainted(jobs, root, shorter, bad)); }
      var origin, before := OriginOf(op, tree, r, a, f), None;
      OriginIsComponent(op, tree, r, a, f);
      match origin {
        case Fresh(signed) =>
          if !signed { SerialRecords(jobs, root, shorter, bad, r, a, f); }
          before := Installed(jobs, root, shorter, r, a, f);
        case Gone =>
        case From(q) =>
          SerialRecords(jobs, root, shorter, bad, q, a, f);
          before := Installed(jobs, root, shorter, q, a, f);
      }
      hide OriginOf;
      StepRecords(op, tree, r, a, f, before);
    }
  }

  lemma OriginIsComponent(op: Op, tree: Tree, r: string, a: string, f: string)
    requires Component(r)
    ensures OriginOf(op, tree, r, a, f).From? ==> Component(OriginOf(op, tree, r, a, f).repository)
  {
    if Refused(op) { RefusedLeavesTree(op, tree); }
    hide Component, Finish;
  }

  /** Signature history: at any moment of any interleaving of any operations, at every target
      nobody is working on, a signature stands only beside its package, and HasSignature tells
      exactly whether the Publish that installed the package carried one, as long as the history
      of the package has not gone astray. */
  lemma SignaturesMatchHistory(
    jobs: seq<Job>, root: Tree, schedule: seq<nat>, bad: set<string>, r: string, a: string, f: string)
    requires KeptBut(root, bad) && Paired(root, bad) && Runs(Initial(jobs, root), schedule)
    requires Component(r) && PackageFile(f)
    requires var s := After(Initial(jobs, root), schedule); !Busy(s, r, a) && !ExclusiveInBody(s)
    ensures var s := After(Initial(jobs, root), schedule);
            && (forall i | 0 <= i < |s.log| :: s.log[i] < |s.jobs|)
            && (!Astray(s.jobs, root, s.log, bad, r, a, f) ==>
                  Records(Entries(ViewOf(s.root, r, a)), f, Installed(s.jobs, root, s.log, r, a, f)))
  {
    ReachableSafe(jobs, root, schedule, bad);
    var s := After(Initial(jobs, root), schedule);
    assert ViewOf(s.root, r, a) == ViewOf(SerialTree(s.jobs, root, s.log), r, a);
    hide SafeInv, Records, Astray, Installed, SerialTree, Runs;
    if !Astray(s.jobs, root, s.log, bad, r, a, f) { SerialRecords(s.jobs, root, s.log, bad, r, a, f); }
  }

  // ---------- what can be read off the jobs alone ----------

  /** The deletions that can break the agreement fail only in repositories of `bad`. */
  predicate Recorded(op: Op, bad: set<string>) {
    && Confined(op, bad)
    && (op.action.Publish? && !UndoWorks(op) ==> op.action.repository in bad)
    && (op.action.Remove? && DeleteSignature in op.faults ==> op.action.repository in bad)
  }

  /** Then no history goes astray outside `bad`. */
  lemma {:induction false} NoneAstray(
    jobs: seq<Job>, root: Tree, order: seq<nat>, bad: set<string>, r: string, a: string, f: string)
    requires forall i | 0 <= i < |order| :: order[i] < |jobs|
    requires (forall t | 0 <= t < |jobs| :: Recorded(jobs[t].op, bad)) && r !in bad
    ensures !Astray(jobs, root, order, bad, r, a, f)
    decreases |order|
  {
    if order != [] {
      var shorter, op := order[..|order| - 1], jobs[order[|order| - 1]].op;
      var tree := SerialTree(jobs, root, shorter);
      TaintedWithin(jobs, root, shorter, bad);
      match OriginOf(op, tree, r, a, f)
      case Fresh(_) => NoneAstray(jobs, root, shorter, bad, r, a, f);
      case Gone =>
      case From(q) => NoneAstray(jobs, root, shorter, bad, q, a, f);
    }
  }

  // ---------- the case that fails ----------

  /** A Remove that cannot delete the signature, then an unsigned Publish of the same file:
      the package is shown as signed. */
  lemma OldSignatureTakenForNew(tree: Tree, r: string, a: string, name: string, f: string, upload: Action)
    requires Component(r) && Component(a) && Component(name) && ViewKept(r, ViewOf(tree, r, a))
    requires ListedFile(tree, r, a, name) == Some(f) && HasSignature(Entries(ViewOf(tree, r, a)), f)
    requires upload.Publish? && (upload.repository, upload.architecture, upload.filename) == (r, a, f)
    requires upload.signature.None? && Admitted(upload)
    ensures var jobs := [Job(0, Op(Remove(r, a, name), {DeleteSignature})), Job(0, Op(upload, {}))];
            && Installed(jobs, tree, [0, 1], r, a, f) == Some(false)
            && HasSignature(Entries(ViewOf(SerialTree(jobs, tree, [0, 1]), r, a)), f)
  {
    hide Apply, FinishView, Consistent;
    var drop, add := Op(Remove(r, a, name), {DeleteSignature}), Op(upload, {});
    var next := Apply(drop, tree).1;
    OldSignatureStays(drop, tree, r, a, f);
    UnsignedUpload(add, next, r, a, f);
    var jobs := [Job(0, drop), Job(0, add)];
    assert [0, 1][..1] == [0] && [0][..0] == [];
    assert SerialTree(jobs, tree, [0]) == next && SerialTree(jobs, tree, [0, 1]) == Apply(add, next).1;
  }

  lemma OldSignatureStays(op: Op, tree: Tree, r: string, a: string, f: string)
    requires op.action.Remove? && op.Rejection().None? && op.faults == {DeleteSignature}
    requires (op.action.repository, op.action.architecture) == (r, a) && ViewKept(r, ViewOf(tree, r, a))
    requires ListedFile(tree, r, a, op.action.name) == Some(f) && HasSignature(Entries(ViewOf(tree, r, a)), f)
    ensures PackageFile(f)
    ensures var w := ViewOf(Apply(op, tree).1, r, a);
            ViewKept(r, w) && f !in Entries(w) && HasSignature(Entries(w), f)
  {
    var v := ViewOf(tree, r, a);
    TargetRunEffect(op, tree);
    RemoveAllOrNothing(op, v);
    FinishViewKeeps(op, START, v);
    NamesDisjoint(f, f, r, r);
    hide FinishView, Apply, DatabaseName, SignatureName;
  }

  lemma UnsignedUpload(op: Op, tree: Tree, r: string, a: string, f: string)
    requires op.action.Publish? && op.Rejection().None? && op.faults == {} && Admitted(op.action)
    requires (op.action.repository, op.action.architecture, op.action.filename) == (r, a, f)
    requires op.action.signature.None? && ViewKept(r, ViewOf(tree, r, a))
    requires f !in Entries(ViewOf(tree, r, a)) && HasSignature(Entries(ViewOf(tree, r, a)), f)
    ensures Apply(op, tree).0.Published? && HasSignature(Entries(ViewOf(Apply(op, tree).1, r, a)), f)
  {
    var v := ViewOf(tree, r, a);
    TargetRunEffect(op, tree);
    PublishAllOrNothing(op, v);
    PublishOutcome(op, v);
    PublishedContents(op.action, Entries(v));
    NamesDisjoint(f, f, r, r);
    hide FinishView, Apply, DatabaseName, SignatureName, FileTree.DatabaseAdd;
  }
}
