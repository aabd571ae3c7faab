/** Rename: a snapshot under a temporary name, its databases renamed, installed under the
    new name, the old repository deleted. It never loses data and preserves what the
    repository means. */
module Renaming {
  import opened Options
  import opened Names
  import opened FileTree
  import opened Operations

  // ---------- one architecture directory ----------

  /** The directory after its database and link were renamed from `o` to `n`. */
  function Retargeted(d: Tree, o: string, n: string): Tree
    requires DatabaseName(o) in d
  {
    var e := (d - {DatabaseName(o), LinkName(o)})[DatabaseName(n) := d[DatabaseName(o)]];
    if LinkName(o) in d then e[LinkName(n) := Link(DatabaseName(n))] else e
  }

  /** What of the names of two repositories the rename rests on. */
  lemma FourNames(o: string, n: string)
    requires o != n
    ensures DatabaseName(o) != DatabaseName(n) && LinkName(o) != LinkName(n)
    ensures DatabaseName(o) != LinkName(o) && DatabaseName(o) != LinkName(n)
    ensures DatabaseName(n) != LinkName(o) && DatabaseName(n) != LinkName(n)
  {
    DerivedNamesInjective(o, n);
    DatabaseIsNoLink(o, o);
    DatabaseIsNoLink(o, n);
    DatabaseIsNoLink(n, o);
    DatabaseIsNoLink(n, n);
  }

  lemma KnownLink(r: string, d: Tree)
    requires KnownEntries(r, d)
    ensures LinkName(r) in d ==> d[LinkName(r)] == Link(DatabaseName(r)) && DatabaseName(r) in d
  {
    Reserved(r);
  }

  lemma RenameDatabaseSucceeds(d: Tree, o: string, n: string)
    requires Consistent(o, d) && o != n && DatabaseName(o) in d
    ensures RenameDatabase(d, o, n) == Some(Retargeted(d, o, n))
  {
    KnownOthers(o, n, d);
    FourNames(o, n);
    KnownLink(o, d);
    hide Consistent, DatabaseName, LinkName;
    var e := (d - {DatabaseName(o)})[DatabaseName(n) := d[DatabaseName(o)]];
    if LinkName(o) in d {
      assert (e - {LinkName(o)})[LinkName(n) := Link(DatabaseName(n))] == Retargeted(d, o, n);
    } else {
      assert d - {DatabaseName(o)} == d - {DatabaseName(o), LinkName(o)};
    }
  }

  /** Every other file of the directory stays as it is. */
  lemma RetargetedFiles(d: Tree, o: string, n: string)
    requires DatabaseName(o) in d
    ensures forall f | f !in {DatabaseName(o), DatabaseName(n), LinkName(o), LinkName(n)} ::
              (f in Retargeted(d, o, n) <==> f in d) && (f in d ==> Retargeted(d, o, n)[f] == d[f])
    ensures FileTree.Packages(Retargeted(d, o, n), n) == FileTree.Packages(d, o)
  {
    DatabaseIsNoLink(n, n);
    hide DatabaseName, LinkName;
  }

  lemma OtherNames(o: string, n: string, f: string)
    requires PackageFile(f) || IsSignatureName(f) || IsForeign(f)
    ensures f !in {DatabaseName(o), DatabaseName(n), LinkName(o), LinkName(n)}
  {
    Reserved(o);
    Reserved(n);
  }

  lemma RetargetedKnown(d: Tree, o: string, n: string)
    requires Consistent(o, d) && o != n && DatabaseName(o) in d
    ensures KnownEntries(n, Retargeted(d, o, n))
  {
    var e := Retargeted(d, o, n);
    FourNames(o, n);
    RetargetedFiles(d, o, n);
    KnownDatabase(o, d);
    KnownOthers(o, n, d);
    hide DatabaseName, LinkName, PackageFile, IsSignatureName, IsForeign, Consistent;
  }

  lemma KnownDatabase(r: string, d: Tree)
    requires KnownEntries(r, d) && DatabaseName(r) in d
    ensures d[DatabaseName(r)].File? && d[DatabaseName(r)].data.Database?
  {
    Reserved(r);
  }

  /** Of the new repository's names nothing is there before. */
  lemma KnownOthers(o: string, n: string, d: Tree)
    requires KnownEntries(o, d) && o != n
    ensures DatabaseName(n) !in d && LinkName(n) !in d
    ensures forall k | k in d && k !in {DatabaseName(o), LinkName(o)} ::
              || ((PackageFile(k) || IsSignatureName(k)) && d[k].File? && d[k].data.Blob?)
              || (IsForeign(k) && (d[k].File? || d[k].Link?))
  {
    FourNames(o, n);
    Reserved(n);
  }

  /** The renamed directory is consistent under the new name and lists the same packages;
      no package, signature or foreign file changes. */
  lemma RetargetedMeaning(d: Tree, o: string, n: string)
    requires Consistent(o, d) && o != n && DatabaseName(o) in d
    ensures Consistent(n, Retargeted(d, o, n))
    ensures FileTree.Packages(Retargeted(d, o, n), n) == FileTree.Packages(d, o)
    ensures forall f | PackageFile(f) || IsSignatureName(f) || IsForeign(f) ::
              (f in Retargeted(d, o, n) <==> f in d) && (f in d ==> Retargeted(d, o, n)[f] == d[f])
  {
    RetargetedFiles(d, o, n);
    RetargetedKnown(d, o, n);
    forall f | PackageFile(f) || IsSignatureName(f) || IsForeign(f)
      ensures f !in {DatabaseName(o), DatabaseName(n), LinkName(o), LinkName(n)}
    {
      OtherNames(o, n, f);
    }
    hide Retargeted, KnownEntries, PackageFile, IsSignatureName, IsForeign, DatabaseName, LinkName;
  }

  /** Without a database a directory belongs to no repository in particular. */
  lemma NeutralDirectory(d: Tree, o: string, n: string)
    requires Consistent(o, d) && DatabaseName(o) !in d && o != n
    ensures Consistent(n, d) && FileTree.Packages(d, n) == FileTree.Packages(d, o)
    ensures DatabaseName(n) !in d
  {
    KnownOthers(o, n, d);
  }

  lemma RetargetedBack(d: Tree, o: string, n: string)
    requires Consistent(o, d) && o != n && DatabaseName(o) in d
    ensures DatabaseName(n) in Retargeted(d, o, n)
    ensures Retargeted(Retargeted(d, o, n), n, o) == d
  {
    KnownOthers(o, n, d);
    FourNames(o, n);
    KnownLink(o, d);
    hide DatabaseName, LinkName, Consistent;
  }

  // ---------- a whole repository ----------

  function RenamedDirectory(d: Node, o: string, n: string): Node {
    if d.Dir? && DatabaseName(o) in d.entries then Dir(Retargeted(d.entries, o, n)) else d
  }

  /** What Rename makes of a repository's architectures. */
  function RenamedRepository(archs: Tree, o: string, n: string): Tree {
    map a | a in archs :: RenamedDirectory(archs[a], o, n)
  }

  lemma KnownIsArchitecture(r: string, archs: Tree, a: string)
    requires KeptRepository(r, archs) && a in archs
    ensures IsArchitecture(r, a, archs[a]) <==> DatabaseName(r) in archs[a].entries
  {
    if DatabaseName(r) in archs[a].entries {
      Reserved(r);
      assert archs[a].entries[DatabaseName(r)].File?;
    }
  }

  lemma RenameAllSucceeds(archs: Tree, o: string, n: string)
    requires KeptRepository(o, archs) && o != n
    ensures RenameAll(archs, o, n) == Some(RenamedRepository(archs, o, n))
  {
    forall a | a in archs
      ensures IsArchitecture(o, a, archs[a]) ==>
                RenameDatabase(archs[a].entries, o, n) == Some(Retargeted(archs[a].entries, o, n))
      ensures IsArchitecture(o, a, archs[a]) <==> DatabaseName(o) in archs[a].entries
    {
      KnownIsArchitecture(o, archs, a);
      if DatabaseName(o) in archs[a].entries { RenameDatabaseSucceeds(archs[a].entries, o, n); }
    }
    assert RenameAll(archs, o, n).Some?;
    assert RenameAll(archs, o, n).value == RenamedRepository(archs, o, n);
  }

  lemma KeptIsCopyable(r: string, archs: Tree)
    requires KeptRepository(r, archs)
    ensures Copyable(Dir(archs))
  {
    forall a | a in archs
      ensures Copyable(archs[a])
    {
      forall k | k in archs[a].entries
        ensures Copyable(archs[a].entries[k])
      {
        assert archs[a].entries[k].File? || archs[a].entries[k].Link?;
      }
    }
  }

  /** Every architecture lists under the new name what it listed under the old one, and no
      package, signature or foreign file differs. */
  lemma RenamedRepositoryMeaning(archs: Tree, o: string, n: string)
    requires KeptRepository(o, archs) && o != n
    ensures KeptRepository(n, RenamedRepository(archs, o, n))
    ensures var s := RenamedRepository(archs, o, n);
            && s.Keys == archs.Keys
            && forall a | a in archs ::
                 && s[a].Dir? && archs[a].Dir?
                 && FileTree.Packages(s[a].entries, n) == FileTree.Packages(archs[a].entries, o)
                 && (forall f | PackageFile(f) || IsSignatureName(f) || IsForeign(f) ::
                       (f in s[a].entries <==> f in archs[a].entries)
                       && (f in archs[a].entries ==> s[a].entries[f] == archs[a].entries[f]))
  {
    forall a | a in archs
      ensures var s := RenamedRepository(archs, o, n);
              && s[a].Dir? && Consistent(n, s[a].entries)
              && FileTree.Packages(s[a].entries, n) == FileTree.Packages(archs[a].entries, o)
              && (forall f | PackageFile(f) || IsSignatureName(f) || IsForeign(f) ::
                    (f in s[a].entries <==> f in archs[a].entries)
                    && (f in archs[a].entries ==> s[a].entries[f] == archs[a].entries[f]))
    {
      var d := archs[a].entries;
      if DatabaseName(o) in d { RetargetedMeaning(d, o, n); } else { NeutralDirectory(d, o, n); }
    }
  }

  /** Renaming back restores the repository exactly. */
  lemma RenamedRepositoryBack(archs: Tree, o: string, n: string)
    requires KeptRepository(o, archs) && o != n
    ensures RenamedRepository(RenamedRepository(archs, o, n), n, o) == archs
  {
    forall a | a in archs
      ensures RenamedDirectory(RenamedDirectory(archs[a], o, n), n, o) == archs[a]
    {
      var d := archs[a].entries;
      if DatabaseName(o) in d { RetargetedBack(d, o, n); } else { NeutralDirectory(d, o, n); }
    }
  }

  // ---------- the steps of Rename ----------

  /** The checks and calls up to the installation of the snapshot that `calls` cover went
      through. */
  ghost predicate Passed(op: Op, start: Tree, calls: set<Call>)
    requires op.action.Rename?
  {
    var o, n := op.action.repository, op.action.newName;
    && (forall c | c in calls :: c !in op.faults)
    && (StatOld in calls ==> o in start && start[o].Dir?)
    && (StatNew in calls ==> n !in start)
    && (MakeTemporary in calls ==> TemporaryName(n, op.action.suffix) !in start)
    && (CopySnapshot in calls ==> o in start && Copyable(start[o]))
    && (RenameDatabases in calls ==> o in start && start[o].Dir? && RenameAll(start[o].entries, o, n).Some?)
  }

  const INSTALLING := {StatOld, StatNew, MakeTemporary, CopySnapshot, RenameDatabases, InstallSnapshot}

  ghost function Snapshot(op: Op, start: Tree): Node
    requires op.action.Rename? && Passed(op, start, {StatOld, RenameDatabases})
  {
    Dir(RenameAll(start[op.action.repository].entries, op.action.repository, op.action.newName).value)
  }

  /** A failed Rename whose temporary directory is still there; its content does not matter. */
  ghost predicate TemporaryLeft(op: Op, start: Tree, root: Tree)
    requires op.action.Rename?
  {
    var n, t := op.action.newName, TemporaryName(op.action.newName, op.action.suffix);
    n !in start && t !in start && t in root && root == start[t := root[t]]
  }

  /** The new repository is in place and deleting the old one failed half-way. */
  ghost predicate OldHalfDeleted(op: Op, start: Tree, root: Tree)
    requires op.action.Rename?
  {
    && Passed(op, start, INSTALLING) && DeleteOld in op.faults
    && root == DeleteTree(start[op.action.newName := Snapshot(op, start)], op.action.repository, true,
         op.action.remnant)
  }

  ghost predicate Renamed(op: Op, start: Tree, root: Tree)
    requires op.action.Rename?
  {
    && Passed(op, start, INSTALLING + {DeleteOld})
    && root == start[op.action.newName := Snapshot(op, start)] - {op.action.repository}
  }

  /** Which error a Rename that fails reports: that of the first thing in its way. */
  ghost predicate RenameFails(op: Op, start: Tree, e: Error)
    requires op.action.Rename?
  {
    var o, n, t := op.action.repository, op.action.newName, TemporaryName(op.action.newName, op.action.suffix);
    match e
    case StatFailed =>
      StatOld in op.faults || (o in start && start[o].Dir? && n !in start && StatNew in op.faults)
    case RepositoryNotFound => StatOld !in op.faults && o !in start
    case NotADirectory => StatOld !in op.faults && o in start && !start[o].Dir?
    case AlreadyExists => StatOld !in op.faults && o in start && start[o].Dir? && n in start
    case SnapshotFailed =>
      && Passed(op, start, {StatOld, StatNew})
      && (MakeTemporary in op.faults || t in start || CopySnapshot in op.faults || !Copyable(start[o]))
    case DatabaseFailed =>
      && Passed(op, start, {StatOld, StatNew, MakeTemporary, CopySnapshot})
      && (RenameDatabases in op.faults || RenameAll(start[o].entries, o, n).None?)
    case InstallFailed =>
      && Passed(op, start, {StatOld, StatNew, MakeTemporary, CopySnapshot, RenameDatabases})
      && InstallSnapshot in op.faults
    case DeleteFailed => Passed(op, start, INSTALLING) && DeleteOld in op.faults
    case _ => false
  }

  lemma OneRenameError(op: Op, start: Tree, e: Error)
    requires op.action.Rename? && RenameFails(op, start, e)
    ensures !Passed(op, start, INSTALLING + {DeleteOld})
    ensures forall other | RenameFails(op, start, other) :: other == e
  {
    hide Copyable, RenameAll;
  }

  /** Where a Rename that began at `start` stands at each of its steps. */
  ghost predicate RenameReaches(op: Op, start: Tree, l: Local, root: Tree)
    requires op.action.Rename?
  {
    var o, n, t := op.action.repository, op.action.newName, TemporaryName(op.action.newName, op.action.suffix);
    match l.pc
    case Begin => root == start
    case AtStatNew => root == start && Passed(op, start, {StatOld})
    case AtMakeTemporary => root == start && Passed(op, start, {StatOld, StatNew})
    case AtCopy => Passed(op, start, {StatOld, StatNew, MakeTemporary}) && root == start[t := Dir(map[])]
    case AtDatabases =>
      Passed(op, start, {StatOld, StatNew, MakeTemporary, CopySnapshot}) && root == start[t := start[o]]
    case AtInstallSnapshot =>
      && Passed(op, start, {StatOld, StatNew, MakeTemporary, CopySnapshot, RenameDatabases})
      && root == start[t := Snapshot(op, start)]
    case AtDeleteOld => Passed(op, start, INSTALLING) && root == start[n := Snapshot(op, start)]
    case AtCleanup(Ok) => Renamed(op, start, root)
    case AtCleanup(Failed(e)) =>
      RenameFails(op, start, e) &&
      if e == DeleteFailed then OldHalfDeleted(op, start, root)
      else !Passed(op, start, INSTALLING) && TemporaryLeft(op, start, root)
    case Done(Ok) => Renamed(op, start, root)
    case Done(Failed(e)) =>
      RenameFails(op, start, e) &&
      if e == DeleteFailed then OldHalfDeleted(op, start, root)
      else
        && !Passed(op, start, INSTALLING)
        && (root == start || (DeleteTemporary in op.faults && TemporaryLeft(op, start, root)))
    case _ => false
  }

  lemma RenameReachesStep(op: Op, start: Tree, l: Local, root: Tree)
    requires op.action.Rename? && op.Rejection().None? && !l.pc.Done?
    requires RenameReaches(op, start, l, root)
    ensures var (m, next) := RenameStep(op, l, root); RenameReaches(op, start, m, next)
  {
    hide Passed, RenameFails, Copyable, RenameAll, DeleteTree;
    match l.pc {
      case Begin => RenameReachesChecks(op, start, l, root);
      case AtStatNew => RenameReachesChecks(op, start, l, root);
      case AtMakeTemporary => RenameReachesTemporary(op, start, l, root);
      case AtCopy => RenameReachesCopy(op, start, l, root);
      case AtDatabases => RenameReachesDatabases(op, start, l, root);
      case AtInstallSnapshot => RenameReachesInstall(op, start, l, root);
      case AtDeleteOld => RenameReachesDelete(op, start, l, root);
      case AtCleanup(_) => RenameReachesCleanup(op, start, l, root);
      case _ =>
    }
  }

  lemma RenameReachesChecks(op: Op, start: Tree, l: Local, root: Tree)
    requires op.action.Rename? && op.Rejection().None? && (l.pc.Begin? || l.pc.AtStatNew?)
    requires RenameReaches(op, start, l, root)
    ensures var (m, next) := RenameStep(op, l, root); RenameReaches(op, start, m, next)
  {
    hide Copyable, RenameAll;
  }

  lemma RenameReachesTemporary(op: Op, start: Tree, l: Local, root: Tree)
    requires op.action.Rename? && op.Rejection().None? && l.pc.AtMakeTemporary?
    requires RenameReaches(op, start, l, root)
    ensures var (m, next) := RenameStep(op, l, root); RenameReaches(op, start, m, next)
  {
  }

  lemma RenameReachesCopy(op: Op, start: Tree, l: Local, root: Tree)
    requires op.action.Rename? && op.Rejection().None? && l.pc.AtCopy?
    requires RenameReaches(op, start, l, root)
    ensures var (m, next) := RenameStep(op, l, root); RenameReaches(op, start, m, next)
  {
    TemporaryIsNoComponent(op.action.newName, op.action.suffix);
  }

  lemma RenameReachesDatabases(op: Op, start: Tree, l: Local, root: Tree)
    requires op.action.Rename? && op.Rejection().None? && l.pc.AtDatabases?
    requires RenameReaches(op, start, l, root)
    ensures var (m, next) := RenameStep(op, l, root); RenameReaches(op, start, m, next)
  {
    TemporaryIsNoComponent(op.action.newName, op.action.suffix);
  }

  lemma RenameReachesInstall(op: Op, start: Tree, l: Local, root: Tree)
    requires op.action.Rename? && op.Rejection().None? && l.pc.AtInstallSnapshot?
    requires RenameReaches(op, start, l, root)
    ensures var (m, next) := RenameStep(op, l, root); RenameReaches(op, start, m, next)
  {
    var n, t := op.action.newName, TemporaryName(op.action.newName, op.action.suffix);
    TemporaryIsNoComponent(n, op.action.suffix);
    assert (root - {t})[n := root[t]] == start[n := root[t]];
  }

  lemma RenameReachesDelete(op: Op, start: Tree, l: Local, root: Tree)
    requires op.action.Rename? && op.Rejection().None? && l.pc.AtDeleteOld?
    requires RenameReaches(op, start, l, root)
    ensures var (m, next) := RenameStep(op, l, root); RenameReaches(op, start, m, next)
  {
    var o, n := op.action.repository, op.action.newName;
    assert o in root;
  }

  lemma RenameReachesCleanup(op: Op, start: Tree, l: Local, root: Tree)
    requires op.action.Rename? && op.Rejection().None? && l.pc.AtCleanup?
    requires RenameReaches(op, start, l, root)
    ensures var (m, next) := RenameStep(op, l, root); RenameReaches(op, start, m, next)
  {
    var n, t := op.action.newName, TemporaryName(op.action.newName, op.action.suffix);
    TemporaryIsNoComponent(n, op.action.suffix);
    if l.pc.after.Failed? && l.pc.after.error != DeleteFailed {
      assert root - {t} == start;
    } else {
      assert t !in root;
    }
  }

  lemma RenameReachesEnd(op: Op, start: Tree, l: Local, root: Tree)
    requires op.action.Rename? && op.Rejection().None?
    requires RenameReaches(op, start, l, root)
    ensures var (m, final) := Finish(op, l, root); m.pc.Done? && RenameReaches(op, start, m, final)
    decreases Fuel(l.pc)
  {
    if !l.pc.Done? {
      StepDecreases(op, l, root);
      RenameReachesStep(op, start, l, root);
      RenameReachesEnd(op, start, Step(op, l, root).0, Step(op, l, root).1);
    }
  }

  /** No data is lost at any step or failure: the old repository is untouched and the new
      name is as it was, or the new repository is the complete renamed copy. Every other
      name but the temporary one, which no listing reports, keeps its tree. */
  ghost predicate NothingLost(op: Op, start: Tree, root: Tree)
    requires op.action.Rename?
  {
    var o, n, t := op.action.repository, op.action.newName, TemporaryName(op.action.newName, op.action.suffix);
    && !Component(t)
    && (forall k | k !in {o, n, t} :: (k in root <==> k in start) && (k in start ==> root[k] == start[k]))
    && (|| ((o in root <==> o in start) && (o in start ==> root[o] == start[o])
            && (n in root <==> n in start) && (n in start ==> root[n] == start[n]))
        || (Passed(op, start, INSTALLING) && n in root && root[n] == Snapshot(op, start)))
  }

  lemma RenameNeverLoses(op: Op, start: Tree, l: Local, root: Tree)
    requires op.action.Rename? && op.Rejection().None?
    requires RenameReaches(op, start, l, root)
    ensures NothingLost(op, start, root)
  {
    TemporaryIsNoComponent(op.action.newName, op.action.suffix);
  }

  // ---------- Rename as a whole, from every state the service keeps ----------

  lemma KeptPasses(op: Op, start: Tree)
    requires op.action.Rename? && op.Rejection().None?
    requires op.action.repository in start && KeptAt(start, op.action.repository)
    ensures var o, n := op.action.repository, op.action.newName;
            && start[o].Dir? && Copyable(start[o])
            && RenameAll(start[o].entries, o, n) == Some(RenamedRepository(start[o].entries, o, n))
  {
    var o, n := op.action.repository, op.action.newName;
    KeptIsCopyable(o, start[o].entries);
    RenameAllSucceeds(start[o].entries, o, n);
  }

  lemma NotFoundOnly(op: Op, start: Tree)
    requires op.action.Rename?
    ensures RenameFails(op, start, RepositoryNotFound) <==>
              StatOld !in op.faults && op.action.repository !in start
  {
  }

  lemma NoRenameError(op: Op, start: Tree)
    requires op.action.Rename? && Passed(op, start, INSTALLING + {DeleteOld})
    ensures forall e :: !RenameFails(op, start, e)
  {
    hide RenameAll, Copyable;
  }

  /** Every call that must work for a Rename to succeed. */
  const NEEDED := {OpenGlobal, FlockGlobal} + INSTALLING + {DeleteOld}

  /** Of a kept repository Rename succeeds exactly when the old repository exists, the new name
      and the temporary one are free and no call fails; it then leaves the renamed
      repository under the new name, nothing under the old, everything else as it was. */
  lemma RenameOutcome(op: Op, start: Tree)
    requires op.action.Rename? && op.Rejection().None? && KeptAt(start, op.action.repository)
    ensures var (result, root) := Apply(op, start);
            var o, n := op.action.repository, op.action.newName;
            && (result == Ok <==>
                  && o in start && n !in start && TemporaryName(n, op.action.suffix) !in start
                  && forall c | c in NEEDED :: c !in op.faults)
            && (result == Ok ==>
                  root == start[n := Dir(RenamedRepository(start[o].entries, o, n))] - {o})
            && (OpenGlobal !in op.faults && FlockGlobal !in op.faults ==>
                  && (result == Failed(RepositoryNotFound) <==> StatOld !in op.faults && o !in start)
                  && forall e :: result == Failed(e) <==> RenameFails(op, start, e))
  {
    var o := op.action.repository;
    assert OpenGlobal in NEEDED && FlockGlobal in NEEDED;
    if OpenGlobal !in op.faults && FlockGlobal !in op.faults {
      RenameReachesEnd(op, start, START, start);
      if o in start { KeptPasses(op, start); }
      if Apply(op, start).0.Failed? { OneRenameError(op, start, Apply(op, start).0.error); }
      NotFoundOnly(op, start);
      if Apply(op, start).0 == Ok { NoRenameError(op, start); }
    }
    hide RenameFails, RenamedRepository, Copyable, RenameAll;
  }

  /** `archs` under the name `n` lists what `was` listed under `o`, with the same package,
      signature and foreign files in every architecture. */
  ghost predicate SameMeaning(was: Tree, o: string, archs: Tree, n: string) {
    && archs.Keys == was.Keys
    && forall a | a in was ::
         && archs[a].Dir? && was[a].Dir?
         && FileTree.Packages(archs[a].entries, n) == FileTree.Packages(was[a].entries, o)
         && forall f | PackageFile(f) || IsSignatureName(f) || IsForeign(f) ::
              (f in archs[a].entries <==> f in was[a].entries)
              && (f in was[a].entries ==> archs[a].entries[f] == was[a].entries[f])
  }

  lemma RenamedMeansTheSame(start: Tree, o: string, n: string)
    requires KeptAt(start, o) && o != n && o in start
    ensures start[o].Dir?
    ensures var root := start[n := Dir(RenamedRepository(start[o].entries, o, n))] - {o};
            && KeptAt(root, n) && o !in root && n in root && root[n].Dir?
            && SameMeaning(start[o].entries, o, root[n].entries, n)
  {
    RenamedRepositoryMeaning(start[o].entries, o, n);
    hide Consistent;
  }

  /** A successful Rename preserves what the repository means, keeps its invariant, and a
      successful Rename back restores the original tree. */
  lemma RenamePreservesMeaning(op: Op, start: Tree, back: Op)
    requires op.action.Rename? && op.Rejection().None? && KeptAt(start, op.action.repository)
    requires back.action.Rename? && back.action.repository == op.action.newName
    requires back.action.newName == op.action.repository
    ensures var o, n, (result, root) := op.action.repository, op.action.newName, Apply(op, start);
            result == Ok ==>
              && KeptAt(root, n)
              && o !in root && n in root && root[n].Dir? && o in start && start[o].Dir?
              && SameMeaning(start[o].entries, o, root[n].entries, n)
              && (Apply(back, root).0 == Ok <==>
                    TemporaryName(o, back.action.suffix) !in root && forall c | c in NEEDED :: c !in back.faults)
              && (Apply(back, root).0 == Ok ==> Apply(back, root).1 == start)
  {
    var o, n := op.action.repository, op.action.newName;
    RenameOutcome(op, start);
    if Apply(op, start).0 == Ok {
      RenamedMeansTheSame(start, o, n);
      RenameBackRestores(start, o, n, back);
    }
    hide Apply, RenamedRepository, KeptAt, SameMeaning, Component;
  }

  lemma RenameBackRestores(start: Tree, o: string, n: string, back: Op)
    requires KeptAt(start, o) && Component(o) && Component(n) && o != n && o in start && n !in start
    requires back.action.Rename? && back.action.repository == n && back.action.newName == o
    ensures var root := start[n := Dir(RenamedRepository(start[o].entries, o, n))] - {o};
            && (Apply(back, root).0 == Ok <==>
                  TemporaryName(o, back.action.suffix) !in root && forall c | c in NEEDED :: c !in back.faults)
            && (Apply(back, root).0 == Ok ==> Apply(back, root).1 == start)
  {
    var archs := start[o].entries;
    var there := RenamedRepository(archs, o, n);
    var root := start[n := Dir(there)] - {o};
    RenamedMeansTheSame(start, o, n);
    RenameOutcome(back, root);
    RenamedRepositoryBack(archs, o, n);
    assert root[n].entries == there;
    assert start[o] == Dir(archs);
    assert root[o := start[o]] - {n} == start;
  }
}
