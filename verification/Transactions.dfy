/** What Publish and Remove guarantee, after every one of their steps and as a whole. */
module Transactions {
  import opened Options
  import opened Names
  import opened FileTree
  import opened Operations

  ghost predicate ViewKept(r: string, v: View) {
    && !v.Blocked?
    && (v.Present? ==> v.node.Dir? && Consistent(r, v.node.entries))
  }

  /** No database entry in `v` names `file`. */
  ghost predicate Unlisted(r: string, v: View, file: string) {
    IsDirectory(v) && FileTree.Packages(v.node.entries, r).Some? ==>
      var m := FileTree.Packages(v.node.entries, r).value;
      forall p | p in m :: m[p].filename != file
  }

  /** What a target operation relies on between two of its steps. */
  ghost predicate InFlight(op: Op, l: Local, v: View)
    requires op.Shared()
  {
    var p := op.action;
    match l.pc
    case AtStat => IsDirectory(v) && l.made
    case AtInstall => IsDirectory(v) && l.made && p.Publish? && p.filename !in v.node.entries
    case AtSignature => IsDirectory(v) && l.made && p.Publish? && p.filename in v.node.entries
                        && Unlisted(p.repository, v, p.filename)
    case AtAdd => IsDirectory(v) && l.made && p.Publish? && p.filename in v.node.entries
                  && Unlisted(p.repository, v, p.filename)
    case AtUndoPackage(_) => IsDirectory(v) && l.made && p.Publish? && Unlisted(p.repository, v, p.filename)
    case AtUndoSignature(_) => IsDirectory(v) && l.made && p.Publish?
    case AtDrop(file) =>
      && IsDirectory(v) && p.Remove?
      && FileTree.Packages(v.node.entries, p.repository).Some?
      && (var m := FileTree.Packages(v.node.entries, p.repository).value;
          p.name in m && m[p.name].filename == file)
    case AtDeletePackage(file) => IsDirectory(v) && p.Remove? && PackageFile(file) && Unlisted(p.repository, v, file)
    case AtDeleteSignature(file) => IsDirectory(v) && p.Remove? && PackageFile(file)
    case _ => true
  }

  lemma PackageFileIsPlain(f: string)
    requires PackageFile(f)
    ensures Plain(f)
  {
    PackageTail(f);
  }

  // ---------- the entries-level facts the steps rest on ----------

  lemma InstallPackageKeeps(r: string, d: Tree, f: string, bytes: string)
    requires Consistent(r, d) && PackageFile(f) && f !in d
    ensures Consistent(r, d[f := File(Blob(bytes))])
    ensures FileTree.Packages(d[f := File(Blob(bytes))], r) == FileTree.Packages(d, r)
    ensures forall p | p in FileTree.Packages(d, r).value :: FileTree.Packages(d, r).value[p].filename != f
  {
    NamesDisjoint(f, f, r, r);
  }

  lemma InstallSignatureKeeps(r: string, d: Tree, f: string, bytes: string)
    requires Consistent(r, d) && PackageFile(f)
    ensures Consistent(r, d[SignatureName(f) := File(Blob(bytes))])
    ensures FileTree.Packages(d[SignatureName(f) := File(Blob(bytes))], r) == FileTree.Packages(d, r)
  {
    NamesDisjoint(f, f, r, r);
    SignatureNameRoundTrip(f);
  }

  lemma DeletePackageKeeps(r: string, d: Tree, f: string)
    requires Consistent(r, d) && PackageFile(f)
    requires forall p | p in FileTree.Packages(d, r).value :: FileTree.Packages(d, r).value[p].filename != f
    ensures Consistent(r, d - {f})
    ensures FileTree.Packages(d - {f}, r) == FileTree.Packages(d, r)
  {
    NamesDisjoint(f, f, r, r);
  }

  lemma DeleteSignatureKeeps(r: string, d: Tree, f: string)
    requires Consistent(r, d) && PackageFile(f)
    ensures Consistent(r, d - {SignatureName(f)})
    ensures FileTree.Packages(d - {SignatureName(f)}, r) == FileTree.Packages(d, r)
  {
    var m := FileTree.Packages(d, r).value;
    NamesDisjoint(f, f, r, r);
    forall p | p in m
      ensures m[p].filename != SignatureName(f)
    {
      NamesDisjoint(m[p].filename, f, r, r);
    }
  }

  /** Putting the database and its link in place keeps every other entry of a known kind. */
  lemma RewriteKnown(r: string, d: Tree, m: map<string, Package>)
    requires KnownEntries(r, d)
    ensures KnownEntries(r, WithPackages(d, r, m)[LinkName(r) := Link(DatabaseName(r))])
    ensures FileTree.Packages(WithPackages(d, r, m)[LinkName(r) := Link(DatabaseName(r))], r) == Some(m)
  {
    Reserved(r);
  }

  lemma RewriteDangles(r: string, d: Tree, m: map<string, Package>)
    requires NoDangling(d, m)
    ensures NoDangling(WithPackages(d, r, m)[LinkName(r) := Link(DatabaseName(r))], m)
    ensures NoDangling(WithPackages(d, r, m), m)
  {
  }

  lemma RewriteDatabase(r: string, d: Tree, m: map<string, Package>)
    requires KnownEntries(r, d)
    ensures KnownEntries(r, WithPackages(d, r, m)) && FileTree.Packages(WithPackages(d, r, m), r) == Some(m)
  {
    Reserved(r);
  }

  lemma EntryFits(d: Tree, m: map<string, Package>, pkg: Package)
    requires NoDangling(d, m) && PackageFile(pkg.filename) && pkg.filename in d
    requires forall p | p in m :: m[p].filename != pkg.filename
    ensures NoDangling(d, m[pkg.name := pkg])
  {
  }

  lemma AddKeeps(r: string, d: Tree, pkg: Package)
    requires Consistent(r, d) && PackageFile(pkg.filename) && pkg.filename in d
    requires forall p | p in FileTree.Packages(d, r).value :: FileTree.Packages(d, r).value[p].filename != pkg.filename
    ensures FileTree.DatabaseAdd(d, r, pkg).Some?
    ensures Consistent(r, FileTree.DatabaseAdd(d, r, pkg).value)
  {
    var m := FileTree.Packages(d, r).value;
    assert LinkName(r) in d ==> d[LinkName(r)].Link? by { Reserved(r); }
    hide KnownEntries, NoDangling, PackageFile;
    EntryFits(d, m, pkg);
    RewriteKnown(r, d, m[pkg.name := pkg]);
    RewriteDangles(r, d, m[pkg.name := pkg]);
  }

  lemma DropKeeps(r: string, d: Tree, name: string)
    requires Consistent(r, d) && name in FileTree.Packages(d, r).value
    ensures FileTree.DatabaseDrop(d, r, name).Some?
    ensures Consistent(r, FileTree.DatabaseDrop(d, r, name).value)
    ensures var m, e := FileTree.Packages(d, r).value, FileTree.DatabaseDrop(d, r, name).value;
            && FileTree.Packages(e, r) == Some(m - {name})
            && forall p | p in m - {name} :: m[p].filename != m[name].filename
  {
    var m := FileTree.Packages(d, r).value;
    assert NoDangling(d, m - {name});
    RewriteDatabase(r, d, m - {name});
    RewriteDangles(r, d, m - {name});
    hide KnownEntries, DatabaseName, PackageFile;
  }

  lemma EmptyIsConsistent(r: string)
    ensures Consistent(r, map[])
  {
  }

  // ---------- every step of a target operation ----------

  /** After every single step, whichever calls fail: no dangling entry, no shared file, and
      nothing of an unknown kind in the target directory. */
  lemma TargetStepKeeps(op: Op, l: Local, v: View)
    requires op.Shared() && op.Rejection().None? && !l.pc.Done?
    requires ViewKept(op.action.repository, v) && InFlight(op, l, v)
    ensures var (m, w) := StepView(op, l, v);
            ViewKept(op.action.repository, w) && InFlight(op, m, w)
  {
    var p := op.action;
    var r := p.repository;
    if p.Publish? {
      PublishStepKeeps(op, l, v);
    } else {
      RemoveStepKeeps(op, l, v);
    }
  }

  lemma PublishStepKeeps(op: Op, l: Local, v: View)
    requires op.action.Publish? && op.Rejection().None? && !l.pc.Done?
    requires ViewKept(op.action.repository, v) && InFlight(op, l, v)
    ensures var (m, w) := PublishStep(op, l, v);
            ViewKept(op.action.repository, w) && InFlight(op, m, w)
  {
    match l.pc {
      case Begin => EmptyIsConsistent(op.action.repository);
      case AtInstall => InstallPackageStepKeeps(op, l, v);
      case AtSignature => InstallSignatureStepKeeps(op, l, v);
      case AtAdd => AddStepKeeps(op, l, v);
      case AtUndoPackage(_) => UndoStepKeeps(op, l, v);
      case AtUndoSignature(_) => UndoStepKeeps(op, l, v);
      case _ =>
    }
    hide Consistent, PackageFile;
  }

  lemma UndoStepKeeps(op: Op, l: Local, v: View)
    requires op.action.Publish? && op.Rejection().None? && (l.pc.AtUndoPackage? || l.pc.AtUndoSignature?)
    requires ViewKept(op.action.repository, v) && InFlight(op, l, v)
    ensures var (m, w) := PublishStep(op, l, v);
            ViewKept(op.action.repository, w) && InFlight(op, m, w)
  {
    var r, f := op.action.repository, op.action.filename;
    if l.pc.AtUndoPackage? {
      DeletePackageKeeps(r, v.node.entries, f);
    } else {
      DeleteSignatureKeeps(r, v.node.entries, f);
    }
  }

  lemma InstallPackageStepKeeps(op: Op, l: Local, v: View)
    requires op.action.Publish? && op.Rejection().None? && l.pc.AtInstall?
    requires ViewKept(op.action.repository, v) && InFlight(op, l, v)
    ensures var (m, w) := PublishStep(op, l, v);
            ViewKept(op.action.repository, w) && InFlight(op, m, w)
  {
    var p := op.action;
    InstallPackageKeeps(p.repository, v.node.entries, p.filename, p.content);
  }

  lemma InstallSignatureStepKeeps(op: Op, l: Local, v: View)
    requires op.action.Publish? && op.Rejection().None? && l.pc.AtSignature?
    requires ViewKept(op.action.repository, v) && InFlight(op, l, v)
    ensures var (m, w) := PublishStep(op, l, v);
            ViewKept(op.action.repository, w) && InFlight(op, m, w)
  {
    var p := op.action;
    InstallSignatureKeeps(p.repository, v.node.entries, p.filename, p.signature.GetOr(""));
  }

  lemma AddStepKeeps(op: Op, l: Local, v: View)
    requires op.action.Publish? && op.Rejection().None? && l.pc.AtAdd?
    requires ViewKept(op.action.repository, v) && InFlight(op, l, v)
    ensures var (m, w) := PublishStep(op, l, v);
            ViewKept(op.action.repository, w) && InFlight(op, m, w)
  {
    var p := op.action;
    if p.inspected.Some? { AddKeeps(p.repository, v.node.entries, Listed(p)); }
  }

  lemma RemoveStepKeeps(op: Op, l: Local, v: View)
    requires op.action.Remove? && op.Rejection().None? && !l.pc.Done?
    requires ViewKept(op.action.repository, v) && InFlight(op, l, v)
    ensures var (m, w) := RemoveStep(op, l, v);
            ViewKept(op.action.repository, w) && InFlight(op, m, w)
  {
    var p := op.action;
    var r := p.repository;
    match l.pc {
      case AtDrop(file) =>
        PackageFileIsPlain(file);
        DropKeeps(r, v.node.entries, p.name);
      case AtDeletePackage(file) => DeletePackageKeeps(r, v.node.entries, file);
      case AtDeleteSignature(file) => DeleteSignatureKeeps(r, v.node.entries, file);
      case _ =>
    }
  }

  // ---------- Publish as a whole ----------

  function Entries(v: View): Tree { if IsDirectory(v) then v.node.entries else map[] }

  /** The directory with the uploaded files put in. */
  function WithFiles(p: Action, d: Tree): Tree
    requires p.Publish?
  {
    var e := d[p.filename := File(Blob(p.content))];
    if p.signature.Some? then e[SignatureName(p.filename) := File(Blob(p.signature.value))] else e
  }

  predicate UndoWorks(op: Op) { UndoPackage !in op.faults && UndoSignature !in op.faults }

  // How far a Publish gets, told beforehand from the operation and the view it finds.

  /** The archive can be inspected and is for this architecture. */
  predicate Admitted(p: Action)
    requires p.Publish?
  {
    p.inspected.Some? && (p.inspected.value.architecture == p.architecture || p.inspected.value.architecture == "any")
  }

  predicate MakesDirectory(op: Op, v: View)
    requires op.action.Publish?
  {
    && Admitted(op.action) && MakeRepository !in op.faults
    && match v
       case Blocked(_) => false
       case Missing => MakeArchitecture !in op.faults
       case Present(n) => n.Dir?
  }

  predicate InstallsPackage(op: Op, v: View)
    requires op.action.Publish?
  {
    && MakesDirectory(op, v) && StatDestination !in op.faults && op.action.filename !in Entries(v)
    && InstallPackage !in op.faults
  }

  predicate InstallsFiles(op: Op, v: View)
    requires op.action.Publish?
  {
    var s := SignatureName(op.action.filename);
    && InstallsPackage(op, v)
    && (op.action.signature.Some? ==> InstallSignature !in op.faults && !(s in Entries(v) && Entries(v)[s].Dir?))
  }

  predicate PublishSucceeds(op: Op, v: View)
    requires op.action.Publish?
  {
    var p := op.action;
    && InstallsFiles(op, v) && RunAdd !in op.faults
    && FileTree.DatabaseAdd(WithFiles(p, Entries(v)), p.repository, Listed(p)).Some?
  }

  /** What a Publish that fails leaves in the directory: what it installed and could not undo. */
  function Leftover(op: Op, v: View): Tree
    requires op.action.Publish?
  {
    var p, d, s := op.action, Entries(v), SignatureName(op.action.filename);
    if InstallsFiles(op, v) then
      WithFiles(p, d) - (if UndoPackage in op.faults then {} else {p.filename})
                      - (if UndoSignature in op.faults || p.signature.None? then {} else {s})
    else if InstallsPackage(op, v) && UndoPackage in op.faults then d[p.filename := File(Blob(p.content))]
    else d
  }

  /** Which error a Publish that fails at `v` reports: that of the first thing in its way. */
  predicate PublishFails(op: Op, v: View, e: Error)
    requires op.action.Publish?
  {
    var p, d, s := op.action, Entries(v), SignatureName(op.action.filename);
    match e
    case InspectFailed => p.inspected.None?
    case WrongArchitecture =>
      p.inspected.Some? && p.inspected.value.architecture !in {p.architecture, "any"}
    case DirectoryFailed =>
      && Admitted(p)
      && (MakeRepository in op.faults || v.Blocked? || (v.Missing? && MakeArchitecture in op.faults)
          || (v.Present? && !v.node.Dir?))
    case StatFailed => MakesDirectory(op, v) && StatDestination in op.faults
    case AlreadyExists => MakesDirectory(op, v) && StatDestination !in op.faults && p.filename in d
    case InstallFailed =>
      MakesDirectory(op, v) && StatDestination !in op.faults && p.filename !in d && InstallPackage in op.faults
    case SignatureFailed =>
      && InstallsPackage(op, v) && p.signature.Some?
      && (InstallSignature in op.faults || (s in d && d[s].Dir?))
    case DatabaseFailed => InstallsFiles(op, v) && !PublishSucceeds(op, v)
    case _ => false
  }

  /** `v` is `before`, except that a missing architecture directory may have been made. */
  predicate OnlyDirectoryMade(before: View, v: View) {
    v == before || (before.Missing? && v == Present(Dir(map[])))
  }

  /** The failures found after the architecture directory was made. */
  const PAST_DIRECTORY := {StatFailed, AlreadyExists, InstallFailed, SignatureFailed, DatabaseFailed}

  /** Where a Publish that began at `before` stands at each of its steps. */
  ghost predicate PublishReaches(op: Op, before: View, l: Local, v: View)
    requires op.action.Publish?
  {
    var p, d, s := op.action, Entries(before), SignatureName(op.action.filename);
    match l.pc
    case Begin => v == before
    case AtStat => IsDirectory(v) && Entries(v) == d && MakesDirectory(op, before)
    case AtInstall =>
      && IsDirectory(v) && Entries(v) == d && MakesDirectory(op, before)
      && StatDestination !in op.faults && p.filename !in d
    case AtSignature =>
      && IsDirectory(v) && InstallsPackage(op, before) && p.signature.Some?
      && Entries(v) == d[p.filename := File(Blob(p.content))]
    case AtAdd => IsDirectory(v) && InstallsFiles(op, before) && Entries(v) == WithFiles(p, d)
    case AtUndoPackage(why) =>
      && IsDirectory(v) && InstallsPackage(op, before) && !PublishSucceeds(op, before)
      && (if InstallsFiles(op, before) then why == DatabaseFailed && Entries(v) == WithFiles(p, d)
          else why == SignatureFailed && Entries(v) == d[p.filename := File(Blob(p.content))])
    case AtUndoSignature(why) =>
      && IsDirectory(v) && InstallsFiles(op, before) && !PublishSucceeds(op, before)
      && why == DatabaseFailed && p.signature.Some?
      && Entries(v) == WithFiles(p, d) - (if UndoPackage in op.faults then {} else {p.filename})
    case Done(Published(pkg)) =>
      && IsDirectory(v) && PublishSucceeds(op, before) && pkg == Listed(p)
      && FileTree.DatabaseAdd(WithFiles(p, d), p.repository, pkg) == Some(Entries(v))
    case Done(Failed(e)) =>
      && !PublishSucceeds(op, before)
      && (e in PAST_DIRECTORY <==> MakesDirectory(op, before)) && (e == DatabaseFailed <==> InstallsFiles(op, before))
      && PublishFails(op, before, e)
      && (if MakesDirectory(op, before) then IsDirectory(v) else v == before)
      && Entries(v) == Leftover(op, before)
    case _ => false
  }

  lemma PublishReachesStep(op: Op, before: View, l: Local, v: View)
    requires op.action.Publish? && !l.pc.Done? && PublishReaches(op, before, l, v)
    ensures var (m, w) := PublishStep(op, l, v); PublishReaches(op, before, m, w)
  {
    match l.pc {
      case Begin => PublishReachesBegin(op, before, l, v);
      case AtStat => PublishReachesStat(op, before, l, v);
      case AtInstall => PublishReachesInstall(op, before, l, v);
      case AtSignature => PublishReachesSignature(op, before, l, v);
      case AtAdd => PublishReachesAdd(op, before, l, v);
      case AtUndoPackage(_) => PublishReachesUndoPackage(op, before, l, v);
      case AtUndoSignature(_) => PublishReachesUndoSignature(op, before, l, v);
      case _ =>
    }
  }

  lemma PublishReachesBegin(op: Op, before: View, l: Local, v: View)
    requires op.action.Publish? && l.pc.Begin? && PublishReaches(op, before, l, v)
    ensures var (m, w) := PublishStep(op, l, v); PublishReaches(op, before, m, w)
  {
  }

  lemma PublishReachesStat(op: Op, before: View, l: Local, v: View)
    requires op.action.Publish? && l.pc.AtStat? && PublishReaches(op, before, l, v)
    ensures var (m, w) := PublishStep(op, l, v); PublishReaches(op, before, m, w)
  {
  }

  lemma PublishReachesInstall(op: Op, before: View, l: Local, v: View)
    requires op.action.Publish? && l.pc.AtInstall? && PublishReaches(op, before, l, v)
    ensures var (m, w) := PublishStep(op, l, v); PublishReaches(op, before, m, w)
  {
  }

  lemma PublishReachesSignature(op: Op, before: View, l: Local, v: View)
    requires op.action.Publish? && l.pc.AtSignature? && PublishReaches(op, before, l, v)
    ensures var (m, w) := PublishStep(op, l, v); PublishReaches(op, before, m, w)
  {
    assert op.action.filename != SignatureName(op.action.filename);
  }

  lemma PublishReachesAdd(op: Op, before: View, l: Local, v: View)
    requires op.action.Publish? && l.pc.AtAdd? && PublishReaches(op, before, l, v)
    ensures var (m, w) := PublishStep(op, l, v); PublishReaches(op, before, m, w)
  {
  }

  lemma PublishReachesUndoPackage(op: Op, before: View, l: Local, v: View)
    requires op.action.Publish? && l.pc.AtUndoPackage? && PublishReaches(op, before, l, v)
    ensures var (m, w) := PublishStep(op, l, v); PublishReaches(op, before, m, w)
  {
    var p, d := op.action, Entries(before);
    assert p.filename != SignatureName(p.filename);
    assert Entries(v)[p.filename] == File(Blob(p.content));
    assert d[p.filename := File(Blob(p.content))] - {p.filename} == d;
    assert Entries(v) - {} == Entries(v);
    assert Entries(v) - {p.filename} - {} == Entries(v) - {p.filename};
  }

  lemma PublishReachesUndoSignature(op: Op, before: View, l: Local, v: View)
    requires op.action.Publish? && l.pc.AtUndoSignature? && PublishReaches(op, before, l, v)
    ensures var (m, w) := PublishStep(op, l, v); PublishReaches(op, before, m, w)
  {
    var p, s := op.action, SignatureName(op.action.filename);
    assert p.filename != s;
    assert Entries(v)[s] == File(Blob(p.signature.value));
    assert Entries(v) - {} == Entries(v);
  }

  lemma PublishReachesEnd(op: Op, before: View, l: Local, v: View)
    requires op.action.Publish? && PublishReaches(op, before, l, v)
    ensures var (m, w) := FinishView(op, l, v); m.pc.Done? && PublishReaches(op, before, m, w)
    decreases Fuel(l.pc)
  {
    if !l.pc.Done? {
      StepViewDecreases(op, l, v);
      PublishReachesStep(op, before, l, v);
      PublishReachesEnd(op, before, StepView(op, l, v).0, StepView(op, l, v).1);
    }
  }

  /** What is known where a Publish ends. */
  lemma PublishEnds(op: Op, before: View, l: Local, v: View)
    requires op.action.Publish? && l.pc.Done? && PublishReaches(op, before, l, v)
    ensures var p, result := op.action, l.pc.result;
            if PublishSucceeds(op, before) then
              && result == Published(Listed(p)) && IsDirectory(v)
              && FileTree.DatabaseAdd(WithFiles(p, Entries(before)), p.repository, Listed(p)) == Some(Entries(v))
            else
              && result.Failed? && Entries(v) == Leftover(op, before)
              && (if MakesDirectory(op, before) then IsDirectory(v) else v == before)
              && (result.error in PAST_DIRECTORY <==> MakesDirectory(op, before))
              && (result.error == DatabaseFailed <==> InstallsFiles(op, before))
              && forall e :: result == Failed(e) <==> PublishFails(op, before, e)
  {
    if l.pc.result.Failed? { OneError(op, before, l.pc.result.error); }
  }

  lemma OneError(op: Op, v: View, e: Error)
    requires op.action.Publish? && PublishFails(op, v, e)
    ensures forall other | PublishFails(op, v, other) :: other == e
  {
  }

  /** Publish succeeds exactly if nothing on its way stops it, and then adds exactly the
      package, its optional signature and one database entry. Otherwise it leaves what it
      installed and could not undo, and the directory if it got past making it. */
  lemma PublishAllOrNothing(op: Op, before: View)
    requires op.action.Publish?
    ensures var p, (m, after) := op.action, FinishView(op, START, before);
            && m.pc.Done?
            && (if PublishSucceeds(op, before) then
                  && m.pc.result == Published(Listed(p)) && IsDirectory(after)
                  && FileTree.DatabaseAdd(WithFiles(p, Entries(before)), p.repository, Listed(p))
                       == Some(Entries(after))
                else
                  && m.pc.result.Failed? && Entries(after) == Leftover(op, before)
                  && (if MakesDirectory(op, before) then IsDirectory(after) else after == before)
                  && (m.pc.result.error in PAST_DIRECTORY <==> MakesDirectory(op, before))
                  && (m.pc.result.error == DatabaseFailed <==> InstallsFiles(op, before))
                  && forall e :: m.pc.result == Failed(e) <==> PublishFails(op, before, e))
  {
    PublishReachesEnd(op, before, START, before);
    var (m, after) := FinishView(op, START, before);
    PublishEnds(op, before, m, after);
    hide FinishView, FileTree.DatabaseAdd, WithFiles, Leftover, PublishReaches;
  }

  /** The upload was signed, a signature without a package stood under the new name, and the
      database refuses the package. */
  predicate LosesStaleSignature(op: Op, v: View)
    requires op.action.Publish?
  {
    && op.action.signature.Some? && SignatureName(op.action.filename) in Entries(v)
    && InstallsFiles(op, v) && !PublishSucceeds(op, v)
  }

  /** A failed Publish whose undo deletions work leaves nothing but possibly the empty
      directory, except that exactly a stale signature that it replaced is lost. */
  lemma PublishUndone(op: Op, before: View)
    requires op.action.Publish? && UndoWorks(op) && !PublishSucceeds(op, before)
    ensures var d, s, after := Entries(before), SignatureName(op.action.filename), FinishView(op, START, before).1;
            && Entries(after) == (if LosesStaleSignature(op, before) then d - {s} else d)
            && (OnlyDirectoryMade(before, after) <==> !LosesStaleSignature(op, before))
            && (LosesStaleSignature(op, before) ==> op.action.filename !in d)
  {
    hide FinishView;
    PublishAllOrNothing(op, before);
    var p, d, s := op.action, Entries(before), SignatureName(op.action.filename);
    assert p.filename != s;
    if InstallsFiles(op, before) {
      if p.signature.Some? {
        assert WithFiles(p, d) - {p.filename} - {s} == d - {s};
        if s !in d { assert d - {s} == d; }
      } else {
        assert WithFiles(p, d) - {p.filename} - {} == d;
      }
    }
  }

  /** In a directory the service keeps the condition is plain: the archive is admitted, the
      filename is free, and no call on the way fails. */
  lemma PublishOutcome(op: Op, before: View)
    requires op.action.Publish? && op.Rejection().None? && ViewKept(op.action.repository, before)
    ensures PublishSucceeds(op, before) <==>
            && Admitted(op.action) && op.action.filename !in Entries(before)
            && (forall c | c in {MakeRepository, StatDestination, InstallPackage, RunAdd} :: c !in op.faults)
            && (before.Missing? ==> MakeArchitecture !in op.faults)
            && (op.action.signature.Some? ==> InstallSignature !in op.faults)
    ensures MakesDirectory(op, before) <==>
            Admitted(op.action) && MakeRepository !in op.faults && (before.Missing? ==> MakeArchitecture !in op.faults)
    ensures InstallsFiles(op, before) ==> (!PublishSucceeds(op, before) <==> RunAdd in op.faults)
  {
    var p, r, d := op.action, op.action.repository, Entries(before);
    EmptyIsConsistent(r);
    SignatureIsFile(r, d, p.filename);
    if p.filename !in d && p.inspected.Some? { AddsWithFiles(p, d); }
    hide FileTree.DatabaseAdd, Consistent, PackageFile, WithFiles;
  }

  lemma SignatureIsFile(r: string, d: Tree, f: string)
    requires KnownEntries(r, d) && PackageFile(f)
    ensures SignatureName(f) in d ==> d[SignatureName(f)].File?
  {
    NamesDisjoint(f, f, r, r);
    SignatureNameRoundTrip(f);
  }

  lemma AddsWithFiles(p: Action, d: Tree)
    requires p.Publish? && p.inspected.Some? && PackageFile(p.filename) && p.filename !in d
             && Consistent(p.repository, d)
    ensures FileTree.DatabaseAdd(WithFiles(p, d), p.repository, Listed(p)).Some?
  {
    var r, e := p.repository, d[p.filename := File(Blob(p.content))];
    InstallPackageKeeps(r, d, p.filename, p.content);
    assert p.filename != SignatureName(p.filename);
    if p.signature.Some? { InstallSignatureKeeps(r, e, p.filename, p.signature.value); }
    hide Consistent, FileTree.Packages, PackageFile, SignatureName;
    AddKeeps(r, WithFiles(p, d), Listed(p));
  }

  /** What the successful database call leaves, name by name. */
  lemma PublishedContents(p: Action, d: Tree)
    requires p.Publish? && p.inspected.Some? && PackageFile(p.filename)
    requires FileTree.DatabaseAdd(WithFiles(p, d), p.repository, Listed(p)).Some?
    ensures var e := FileTree.DatabaseAdd(WithFiles(p, d), p.repository, Listed(p)).value;
            var f, s := p.filename, SignatureName(p.filename);
            var db, k := DatabaseName(p.repository), LinkName(p.repository);
            && f in e && e[f] == File(Blob(p.content))
            && (p.signature.Some? ==> s in e && e[s] == File(Blob(p.signature.value)))
            && FileTree.Packages(d, p.repository).Some?
            && FileTree.Packages(e, p.repository) ==
                 Some(FileTree.Packages(d, p.repository).value[Listed(p).name := Listed(p)])
            && k in e && e[k] == Link(db)
            && (forall n | n != f && n != db && n != k && (n != s || p.signature.None?) ::
                  (n in e <==> n in d) && (n in e ==> e[n] == d[n]))
  {
    NamesDisjoint(p.filename, p.filename, p.repository, p.repository);
  }

  // ---------- Remove as a whole ----------

  /** The entry is there, and gets dropped. */
  predicate Drops(op: Op, v: View)
    requires op.action.Remove?
  {
    var packages := FileTree.Packages(Entries(v), op.action.repository);
    && ReadPackages !in op.faults && RunRemove !in op.faults
    && packages.Some? && op.action.name in packages.value
  }

  predicate RemoveSucceeds(op: Op, v: View)
    requires op.action.Remove?
  {
    Drops(op, v) && DeletePackage !in op.faults && DeleteSignature !in op.faults
  }

  /** What a Remove leaves: the entry goes first, then the package, then its signature, each
      only if the one before it did. */
  function AfterRemove(op: Op, v: View): Tree
    requires op.action.Remove?
  {
    var p, d := op.action, Entries(v);
    if !Drops(op, v) then d else
    var m := FileTree.Packages(d, p.repository).value;
    var e, f := WithPackages(d, p.repository, m - {p.name}), m[p.name].filename;
    if DeletePackage in op.faults then e
    else if DeleteSignature in op.faults then e - {f}
    else e - {f, SignatureName(f)}
  }

  /** Where a Remove that began at a consistent `before` stands at each of its steps. */
  ghost predicate RemoveReaches(op: Op, before: View, l: Local, v: View)
    requires op.action.Remove? && ViewKept(op.action.repository, before)
  {
    var p := op.action;
    var d := Entries(before);
    EmptyIsConsistent(p.repository);
    var m := FileTree.Packages(d, p.repository).value;
    match l.pc
    case Begin => v == before
    case AtDrop(file) =>
      && v == before && IsDirectory(v) && ReadPackages !in op.faults
      && p.name in m && m[p.name].filename == file
    case AtDeletePackage(file) =>
      && IsDirectory(v) && Drops(op, before) && m[p.name].filename == file
      && Entries(v) == WithPackages(d, p.repository, m - {p.name})
    case AtDeleteSignature(file) =>
      && IsDirectory(v) && Drops(op, before) && DeletePackage !in op.faults && m[p.name].filename == file
      && Entries(v) == WithPackages(d, p.repository, m - {p.name}) - {file}
    case Done(Ok) => IsDirectory(v) && RemoveSucceeds(op, before) && Entries(v) == AfterRemove(op, before)
    case Done(Failed(e)) =>
      && !RemoveSucceeds(op, before) && Entries(v) == AfterRemove(op, before)
      && (e == PackageNotFound <==> ReadPackages !in op.faults && p.name !in m)
      && (e == DeleteFailed <==> Drops(op, before))
      && (e == ReadFailed <==> ReadPackages in op.faults)
      && (e == DatabaseFailed <==> ReadPackages !in op.faults && p.name in m && RunRemove in op.faults)
      && e in {PackageNotFound, DeleteFailed, ReadFailed, DatabaseFailed}
      && (if Drops(op, before) then IsDirectory(v) else v == before)
    case _ => false
  }

  lemma RemoveReachesStep(op: Op, before: View, l: Local, v: View)
    requires op.action.Remove? && op.Rejection().None? && !l.pc.Done?
    requires ViewKept(op.action.repository, before) && RemoveReaches(op, before, l, v)
    ensures var (m, w) := RemoveStep(op, l, v); RemoveReaches(op, before, m, w)
  {
    match l.pc {
      case Begin => EmptyIsConsistent(op.action.repository);
      case AtDrop(_) => RemoveReachesDrop(op, before, l, v);
      case AtDeletePackage(_) => RemoveReachesPackage(op, before, l, v);
      case AtDeleteSignature(_) => RemoveReachesSignature(op, before, l, v);
      case _ =>
    }
  }

  lemma RemoveReachesDrop(op: Op, before: View, l: Local, v: View)
    requires op.action.Remove? && op.Rejection().None? && l.pc.AtDrop?
    requires ViewKept(op.action.repository, before) && RemoveReaches(op, before, l, v)
    ensures var (m, w) := RemoveStep(op, l, v); RemoveReaches(op, before, m, w)
  {
    PackageFileIsPlain(l.pc.file);
    hide PackageFile, DatabaseName, KnownEntries;
  }

  lemma RemoveReachesPackage(op: Op, before: View, l: Local, v: View)
    requires op.action.Remove? && op.Rejection().None? && l.pc.AtDeletePackage?
    requires ViewKept(op.action.repository, before) && RemoveReaches(op, before, l, v)
    ensures var (m, w) := RemoveStep(op, l, v); RemoveReaches(op, before, m, w)
  {
    NamesDisjoint(l.pc.file, l.pc.file, op.action.repository, op.action.repository);
    assert Entries(v)[l.pc.file] == Entries(before)[l.pc.file];
  }

  lemma RemoveReachesSignature(op: Op, before: View, l: Local, v: View)
    requires op.action.Remove? && op.Rejection().None? && l.pc.AtDeleteSignature?
    requires ViewKept(op.action.repository, before) && RemoveReaches(op, before, l, v)
    ensures var (m, w) := RemoveStep(op, l, v); RemoveReaches(op, before, m, w)
  {
    var p, d, file, s := op.action, Entries(before), l.pc.file, SignatureName(l.pc.file);
    var m := FileTree.Packages(d, p.repository).value;
    NamesDisjoint(file, file, p.repository, p.repository);
    assert s in Entries(v) ==> Entries(v)[s] == d[s];
    assert Entries(v) - {s} == WithPackages(d, p.repository, m - {p.name}) - {file, s};
  }

  lemma RemoveReachesEnd(op: Op, before: View, l: Local, v: View)
    requires op.action.Remove? && op.Rejection().None?
    requires ViewKept(op.action.repository, before) && RemoveReaches(op, before, l, v)
    ensures var (m, w) := FinishView(op, l, v); m.pc.Done? && RemoveReaches(op, before, m, w)
    decreases Fuel(l.pc)
  {
    if !l.pc.Done? {
      StepViewDecreases(op, l, v);
      RemoveReachesStep(op, before, l, v);
      RemoveReachesEnd(op, before, StepView(op, l, v).0, StepView(op, l, v).1);
    }
  }

  /** Remove succeeds exactly if the database has an entry of that name and no call fails, and
      then takes out exactly the entry, its package file and its signature. It reports a
      missing package exactly if the database can be read and has none. A failure before the
      entry is dropped changes nothing; one after it leaves the files not yet deleted. */
  lemma RemoveAllOrNothing(op: Op, before: View)
    requires op.action.Remove? && op.Rejection().None? && ViewKept(op.action.repository, before)
    ensures var p, (m, after) := op.action, FinishView(op, START, before);
            var packages := FileTree.Packages(Entries(before), op.action.repository);
            && m.pc.Done? && packages.Some?
            && (m.pc.result == Ok <==>
                  && p.name in packages.value
                  && forall c | c in {ReadPackages, RunRemove, DeletePackage, DeleteSignature} :: c !in op.faults)
            && (m.pc.result == Failed(PackageNotFound) <==> ReadPackages !in op.faults && p.name !in packages.value)
            && (m.pc.result == Failed(ReadFailed) <==> ReadPackages in op.faults)
            && (m.pc.result == Failed(DatabaseFailed) <==>
                  ReadPackages !in op.faults && p.name in packages.value && RunRemove in op.faults)
            && (m.pc.result == Failed(DeleteFailed) <==> Drops(op, before) && !RemoveSucceeds(op, before))
            && m.pc.result in {Ok, Failed(PackageNotFound), Failed(ReadFailed), Failed(DatabaseFailed),
                               Failed(DeleteFailed)}
            && Entries(after) == AfterRemove(op, before) && (!Drops(op, before) ==> after == before)
  {
    EmptyIsConsistent(op.action.repository);
    RemoveReachesEnd(op, before, START, before);
  }

  /** What a Remove leaves, name by name. */
  lemma RemovedContents(op: Op, before: View)
    requires op.action.Remove? && ViewKept(op.action.repository, before) && Drops(op, before)
    ensures var p, d, e := op.action, Entries(before), AfterRemove(op, before);
            var m := FileTree.Packages(d, p.repository).value;
            var f, s, db := m[p.name].filename, SignatureName(m[p.name].filename), DatabaseName(p.repository);
            && FileTree.Packages(e, p.repository) == Some(m - {p.name})
            && (f in e <==> DeletePackage in op.faults) && (f in e ==> e[f] == d[f])
            && (s in e <==> s in d && (DeletePackage in op.faults || DeleteSignature in op.faults))
            && (s in e ==> e[s] == d[s])
            && (forall n | n !in {f, s, db} :: (n in e <==> n in d) && (n in e ==> e[n] == d[n]))
  {
    var r, d := op.action.repository, Entries(before);
    var m := FileTree.Packages(d, r).value;
    var f := m[op.action.name].filename;
    assert PackageFile(f) && f in d && DatabaseName(r) in d;
    NamesDisjoint(f, f, r, r);
    TakenOut(d, r, m - {op.action.name}, f, SignatureName(f));
    hide ViewKept, Consistent, PackageFile, DatabaseName, SignatureName, WithPackages, FileTree.Packages;
  }

  lemma TakenOut(d: Tree, r: string, m: map<string, Package>, f: string, s: string)
    requires f != s && DatabaseName(r) !in {f, s}
    ensures var db, e := DatabaseName(r), WithPackages(d, r, m);
            && FileTree.Packages(e, r) == FileTree.Packages(e - {f}, r) == FileTree.Packages(e - {f, s}, r) == Some(m)
            && (forall n | n != db :: (n in e <==> n in d) && (n in e ==> e[n] == d[n]))
  {
  }

  // ---------- the cases that fail ----------

  /** A signed upload to a directory in which only the signature of a lost package stands, and
      a database call that fails: nothing is published and the old signature is gone. */
  lemma StaleSignatureLost(p: Action, stale: string)
    requires p.Publish? && p.signature.Some? && Admitted(p)
    requires Component(p.repository) && Component(p.architecture) && PackageFile(p.filename)
    ensures var op, before := Op(p, {RunAdd}), Present(Dir(map[SignatureName(p.filename) := File(Blob(stale))]));
            && ViewKept(p.repository, before) && LosesStaleSignature(op, before)
            && FinishView(op, START, before).0.pc == Done(Failed(DatabaseFailed))
            && FinishView(op, START, before).1 == Present(Dir(map[]))
  {
    var s := SignatureName(p.filename);
    var d: Tree := map[s := File(Blob(stale))];
    var op, before := Op(p, {RunAdd}), Present(Dir(d));
    OnlySignature(p.repository, p.filename, d);
    hide FinishView, PackageFile, SignatureName, Component, Consistent;
    PublishUndone(op, before);
    PublishAllOrNothing(op, before);
    assert d - {s} == map[];
  }

  lemma OnlySignature(r: string, f: string, d: Tree)
    requires PackageFile(f) && d.Keys == {SignatureName(f)}
    requires d[SignatureName(f)].File? && d[SignatureName(f)].data.Blob?
    ensures Consistent(r, d) && f !in d
  {
    SignatureNameRoundTrip(f);
    NamesDisjoint(f, f, r, r);
    hide PackageFile, SignatureName, DatabaseName, LinkName;
  }
}
