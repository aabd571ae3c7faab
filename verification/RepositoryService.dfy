/** The repository service itself: the directory tree and the staging area as fields, every
    mutation as a method that makes its system calls one by one.

    `trace` records every tree there has been, so that a method's contract can speak about
    the states in between. Which calls fail is up to the caller's set of `faults`. */
module RepositoryService {
  import opened Options
  import opened Names
  import opened FileTree
  import opened Operations
  import opened Transactions
  import opened Renaming
  import opened Safety
  import opened Serializability
  import opened Paths
  import opened Reporting
  import Text

  /** `filepath.Base`. */
  function Base(path: string): string {
    if path == "" then "." else BaseOf(path)
  }

  function BaseOf(path: string): string
    requires path != ""
  {
    var last := path[|path| - 1];
    if last == '/' then (if |path| == 1 then "/" else BaseOf(path[..|path| - 1]))
    else AfterSlash(path)
  }

  function AfterSlash(path: string): string {
    if path == "" || path[|path| - 1] == '/' then "" else AfterSlash(path[..|path| - 1]) + [path[|path| - 1]]
  }

  /** The part after the last slash, slashes at the end of the path cut off before. */
  lemma {:induction false} BaseExactly(path: string)
    ensures path == "" ==> Base(path) == "."
    ensures path != "" && (forall i | 0 <= i < |path| :: path[i] == '/') ==> Base(path) == "/"
    ensures (exists i | 0 <= i < |path| :: path[i] != '/') ==>
              && Base(path) != "" && '/' !in Base(path)
              && exists directory, slashes :: IsPath(path, directory, Base(path), slashes)
  {
    if |path| > 0 {
      var last, shorter := path[|path| - 1], path[..|path| - 1];
      if last != '/' {
        LastComponent(path);
      } else if |path| > 1 {
        BaseExactly(shorter);
        assert path == shorter + ['/'] && Base(shorter) == Base(path);
        hide Base;
        if i :| 0 <= i < |path| && path[i] != '/' {
          assert shorter[i] != '/';
          var directory, slashes :| IsPath(shorter, directory, Base(path), slashes);
          OneSlashMore(shorter, directory, Base(path), slashes);
        }
      }
    }
  }

  lemma LastComponent(path: string)
    requires |path| > 0 && path[|path| - 1] != '/'
    ensures Base(path) != "" && '/' !in Base(path)
    ensures exists directory, slashes :: IsPath(path, directory, Base(path), slashes)
  {
    AfterSlashExactly(path);
    assert Base(path) == AfterSlash(path);
    hide Base, AfterSlash;
    assert IsPath(path, path[..|path| - |Base(path)|], Base(path), "");
  }

  lemma OneSlashMore(path: string, directory: string, base: string, slashes: string)
    requires IsPath(path, directory, base, slashes)
    ensures IsPath(path + ['/'], directory, base, slashes + ['/'])
  {
    assert directory + base + (slashes + ['/']) == directory + base + slashes + ['/'];
  }

  predicate IsPath(path: string, directory: string, base: string, slashes: string) {
    && path == directory + base + slashes && (forall i | 0 <= i < |slashes| :: slashes[i] == '/')
    && (directory == "" || directory[|directory| - 1] == '/')
  }

  lemma {:induction false} AfterSlashExactly(path: string)
    ensures '/' !in AfterSlash(path) && |AfterSlash(path)| <= |path|
    ensures var n := |path| - |AfterSlash(path)|; path[n..] == AfterSlash(path) && (n == 0 || path[n - 1] == '/')
    ensures path != "" && path[|path| - 1] != '/' ==> AfterSlash(path) != ""
  {
    if path != "" && path[|path| - 1] != '/' { AfterSlashExactly(path[..|path| - 1]); }
  }

  const SIGNATURE := "signature"

  // ---------- how a method follows its small-step machine ----------

  /** A method at work for `op`, which began at `start`, stands where the machine stands. */
  ghost predicate At(op: Op, start: Tree, root: Tree, l: Local, v: View) {
    && op.Shared() && !Refused(op)
    && var r, a := op.action.repository, op.action.architecture;
       && FinishView(op, l, v) == FinishView(op, START, ViewOf(start, r, a))
       && Evolves(ViewOf(start, r, a), v)
       && root == Store(start, r, a, v, l.made)
       && ViewOf(root, r, a) == v && (l.made ==> r in root)
       && (Kept(start) ==> Kept(root) && ViewKept(r, v) && InFlight(op, l, v))
  }

  lemma StoreSame(root: Tree, r: string, a: string, made: bool)
    requires made ==> r in root
    ensures Store(root, r, a, ViewOf(root, r, a), made) == root
  {
    if ViewOf(root, r, a).Present? {
      assert Architectures(root, r)[a := ViewOf(root, r, a).node] == Architectures(root, r);
    }
  }

  lemma AtStart(op: Op, start: Tree)
    requires op.Shared() && !Refused(op)
    ensures At(op, start, start, START, TargetView(start, op))
  {
    StoreSame(start, op.action.repository, op.action.architecture, false);
    if Kept(start) { KeptViews(start, op.action.repository, op.action.architecture, {}); }
  }

  /** One step of the machine: `next` is where the method must be after its next call. */
  lemma AtNext(op: Op, start: Tree, root: Tree, l: Local, v: View, next: Tree)
    requires At(op, start, root, l, v) && !l.pc.Done?
    requires var (m, w) := StepView(op, l, v);
             next == Store(root, op.action.repository, op.action.architecture, w, m.made)
             || (w == v && next == root && (m.made ==> op.action.repository in root))
             || (w.Present? && next == Store(root, op.action.repository, op.action.architecture, w, true))
    ensures var (m, w) := StepView(op, l, v); At(op, start, next, m, w)
  {
    var r, a := op.action.repository, op.action.architecture;
    var (m, w) := StepView(op, l, v);
    StepViewDecreases(op, l, v);
    StepViewEvolves(op, l, v);
    if m.made ==> r in root { StoreSame(root, r, a, m.made); }
    StoreView(root, r, a, w, m.made);
    StoreTwice(start, r, a, v, l.made, w, m.made);
    if Kept(start) {
      TargetStepKeeps(op, l, v);
      KeptStore(root, r, a, w, m.made, {});
    }
  }

  lemma AtView(op: Op, start: Tree, root: Tree, l: Local, v: View)
    requires At(op, start, root, l, v)
    ensures ViewOf(root, op.action.repository, op.action.architecture) == v
    ensures l.made ==> op.action.repository in root
  {
  }

  lemma AtEnd(op: Op, start: Tree, root: Tree, l: Local, v: View)
    requires At(op, start, root, l, v) && l.pc.Done?
    ensures Apply(op, start) == (l.pc.result, root)
  {
    FinishLifts(op, START, start);
  }

  ghost predicate AllKept(trees: seq<Tree>) { forall i | 0 <= i < |trees| :: Kept(trees[i]) }

  class Upload {
    const service: Service
    const repository: string
    const architecture: string
    const directory: string
    var packageFilename: string   // "" until a package has been written
    var hasSignature: bool

    constructor (service: Service, repository: string, architecture: string, directory: string)
      ensures this.service == service && this.repository == repository
      ensures this.architecture == architecture && this.directory == directory
      ensures packageFilename == "" && !hasSignature
    {
      this.service, this.repository, this.architecture := service, repository, architecture;
      this.directory, this.packageFilename, this.hasSignature := directory, "", false;
    }

    /** What was written is in the staging directory. */
    ghost predicate Valid()
      reads this, service
    {
      && directory in service.staging
      && (packageFilename != "" ==> PackageFile(packageFilename) && IsBlob(service.staging[directory], packageFilename))
      && (hasSignature ==> IsBlob(service.staging[directory], SIGNATURE))
    }

    /** `writeFile`: create exclusively; a write that fails leaves part of the content. */
    method WriteFile(name: string, content: string, fails: bool) returns (ok: bool)
      requires directory in service.staging
      modifies service`staging
      ensures ok == (name !in old(service.staging)[directory] && !fails)
      ensures ok ==> Wrote(old(service.staging), service.staging, directory, name, content)
      ensures !ok && name in old(service.staging)[directory] ==> service.staging == old(service.staging)
      ensures !ok && name !in old(service.staging)[directory] ==>
                WrotePart(old(service.staging), service.staging, directory, name, content)
    {
      var d := service.staging[directory];
      if name in d { return false; }
      if fails {
        var written: nat :| written <= |content|;
        ghost var before := service.staging;
        service.staging := service.staging[directory := d[name := File(Blob(content[..written]))]];
        assert Wrote(before, service.staging, directory, name, content[..written]);
        return false;
      }
      service.staging := service.staging[directory := d[name := File(Blob(content))]];
      ok := true;
    }

    /** Accepts one package, under the base name of the given filename. A refusal changes
        nothing, except that a write that fails leaves part of the content. */
    method WritePackage(filename: string, content: string, fails: bool) returns (ok: bool)
      requires Valid()
      modifies this`packageFilename, service`staging
      ensures Valid()
      ensures var acceptable := old(packageFilename) == "" && PackageFile(Base(filename))
                                && Base(filename) !in old(service.staging)[directory];
              && ok == (acceptable && !fails)
              && (!acceptable ==> service.staging == old(service.staging))
              && (acceptable && fails ==>
                    WrotePart(old(service.staging), service.staging, directory, Base(filename), content))
      ensures ok ==> Wrote(old(service.staging), service.staging, directory, Base(filename), content)
      ensures packageFilename == if ok then Base(filename) else old(packageFilename)
    {
      hide PackageFile, Base, WrotePart;
      if |packageFilename| > 0 { return false; }
      var name := Base(filename);
      if !PackageFile(name) { return false; }
      PackageIsNoSignature(name);
      ghost var before := service.staging;
      ok := WriteFile(name, content, fails);
      if ok { packageFilename := name; }
      if !ok && name !in before[directory] { PartKeepsOthers(before, service.staging, directory, name, content); }
    }

    /** Accepts one signature, in the same way. */
    method WriteSignature(content: string, fails: bool) returns (ok: bool)
      requires Valid()
      modifies this`hasSignature, service`staging
      ensures Valid()
      ensures var acceptable := !old(hasSignature) && SIGNATURE !in old(service.staging)[directory];
              && ok == (acceptable && !fails)
              && (!acceptable ==> service.staging == old(service.staging))
              && (acceptable && fails ==>
                    WrotePart(old(service.staging), service.staging, directory, SIGNATURE, content))
      ensures ok ==> Wrote(old(service.staging), service.staging, directory, SIGNATURE, content)
      ensures hasSignature == (old(hasSignature) || ok)
    {
      if hasSignature { return false; }
      SignatureIsNoPackage();
      hide PackageFile, WrotePart;
      ghost var before := service.staging;
      ok := WriteFile(SIGNATURE, content, fails);
      if ok { hasSignature := true; }
      if !ok && SIGNATURE !in before[directory] {
        PartKeepsOthers(before, service.staging, directory, SIGNATURE, content);
      }
    }
  }

  predicate IsBlob(d: Tree, name: string) { name in d && d[name].File? && d[name].data.Blob? }

  /** `after` is `before` with one more file in a staging directory. */
  predicate Wrote(before: map<string, Tree>, after: map<string, Tree>, directory: string, name: string,
      content: string) {
    && directory in before && name !in before[directory]
    && after == before[directory := before[directory][name := File(Blob(content))]]
  }

  ghost predicate WrotePart(
    before: map<string, Tree>, after: map<string, Tree>, directory: string, name: string, content: string)
  {
    exists part | part <= content :: Wrote(before, after, directory, name, part)
  }

  lemma PartKeepsOthers(
    before: map<string, Tree>, after: map<string, Tree>, directory: string, name: string, content: string)
    requires directory in before && WrotePart(before, after, directory, name, content)
    ensures directory in after
    ensures forall k | k in before[directory] && k != name ::
              k in after[directory] && after[directory][k] == before[directory][k]
  {
  }

  /** The database at this target can be read and has an entry of that name. */
  predicate IsListed(root: Tree, r: string, a: string, name: string) {
    && r in root && root[r].Dir? && a in root[r].entries && root[r].entries[a].Dir?
    && FileTree.Packages(root[r].entries[a].entries, r).Some?
    && name in FileTree.Packages(root[r].entries[a].entries, r).value
  }

  /** There is something at this target's database that cannot be read as one. */
  predicate Unreadable(root: Tree, r: string, a: string) {
    && r in root
    && (!root[r].Dir?
        || (a in root[r].entries
            && (!root[r].entries[a].Dir? || FileTree.Packages(root[r].entries[a].entries, r).None?)))
  }

  lemma SignatureIsNoPackage()
    ensures !PackageFile(SIGNATURE)
  {
    if PackageFile(SIGNATURE) { PackageTail(SIGNATURE); }
  }

  lemma PackageIsNoSignature(name: string)
    requires PackageFile(name)
    ensures name != SIGNATURE && name != ""
  {
    SignatureIsNoPackage();
    PackageTail(name);
  }

  /** The Publish that an upload asks for, with the files staged so far. */
  ghost function UploadOp(staging: map<string, Tree>, upload: Upload, inspected: Option<Package>, faults: set<Call>): Op
    requires upload.directory in staging
    requires IsBlob(staging[upload.directory], upload.packageFilename)
    requires upload.hasSignature ==> IsBlob(staging[upload.directory], SIGNATURE)
    reads upload
  {
    var d := staging[upload.directory];
    Op(Publish(upload.repository, upload.architecture, upload.packageFilename, d[upload.packageFilename].data.bytes,
               if upload.hasSignature then Some(d[SIGNATURE].data.bytes) else None, inspected), faults)
  }

  /** What was staged for `upload` is at the target, and the database there has `pkg`. */
  ghost predicate Installed(root: Tree, r: string, a: string, staged: Tree, upload: Upload, pkg: Package)
    reads upload
  {
    var d, f, s := Entries(ViewOf(root, r, a)), upload.packageFilename, SignatureName(upload.packageFilename);
    && f in staged && f in d && d[f] == staged[f]
    && (upload.hasSignature ==> SIGNATURE in staged && s in d && d[s] == staged[SIGNATURE])
    && FileTree.Packages(d, r).Some?
    && pkg.name in FileTree.Packages(d, r).value && FileTree.Packages(d, r).value[pkg.name] == pkg
  }

  class Service {
    var root: Tree                   // what is under repositories/
    var staging: map<string, Tree>   // the staging directories
    ghost var trace: seq<Tree>

    constructor ()
      ensures root == map[] && staging == map[] && trace == []
    {
      root, staging, trace := map[], map[], [];
    }

    method Commit(next: Tree)
      modifies this`root, this`trace
      ensures root == next && trace == old(trace) + [next]
    {
      root := next;
      trace := trace + [next];
    }

    // ---------- system calls in one target's directory ----------

    method MkdirAll(r: string, a: string, faults: set<Call>, ghost op: Op, ghost l: Local) returns (ok: bool)
      requires op.faults == faults && Component(r) && Component(a)
      modifies this`root, this`trace
      ensures var (m, w) := MakeDirectory(op, l, ViewOf(old(root), r, a));
              && ok == (m.pc == AtStat)
              && (root == Store(old(root), r, a, w, m.made)
                  || (w == ViewOf(old(root), r, a) && root == old(root) && (m.made ==> l.made || r in root)))
      ensures old(trace) <= trace
      ensures Kept(old(root)) ==> AllKept(trace[|old(trace)|..])
    {
      if MakeRepository in faults { return false; }
      if r in root && !root[r].Dir? { return false; }
      if r !in root {
        Commit(root[r := Dir(map[])]);
      }
      if a in root[r].entries { return root[r].entries[a].Dir?; }
      if MakeArchitecture in faults { return false; }
      EmptyIsConsistent(r);
      Commit(root[r := Dir(root[r].entries[a := Dir(map[])])]);
      ok := true;
    }

    /** Replace the target directory's content, if there is a new content. */
    method Rewrite(r: string, a: string, next: Option<Tree>, fails: bool) returns (ok: bool)
      requires IsDirectory(ViewOf(root, r, a))
      modifies this`root, this`trace
      ensures ok == (!fails && next.Some?)
      ensures ok ==> root == Store(old(root), r, a, Present(Dir(next.value)), true) && trace == old(trace) + [root]
      ensures !ok ==> root == old(root) && trace == old(trace)
    {
      if fails || next.None? { return false; }
      Commit(root[r := Dir(root[r].entries[a := Dir(next.value)])]);
      ok := true;
    }

    /** `Rewrite` as the next step of the machine. */
    method Carry(r: string, a: string, next: Option<Tree>, fails: bool,
                 ghost op: Op, ghost start: Tree, ghost l: Local, ghost v: View)
      returns (ok: bool, ghost m: Local, ghost w: View)
      requires At(op, start, root, l, v) && IsDirectory(v) && !l.pc.Done?
      requires op.action.repository == r && op.action.architecture == a
      requires StepView(op, l, v).1 == (if !fails && next.Some? then Present(Dir(next.value)) else v)
      requires l.made == StepView(op, l, v).0.made
      modifies this`root, this`trace
      ensures At(op, start, root, m, w) && (m, w) == StepView(op, l, v) && ViewOf(root, r, a) == w
      ensures ok == (!fails && next.Some?)
      ensures old(trace) <= trace && (Kept(start) ==> AllKept(trace[|old(trace)|..]))
    {
      ghost var before := root;
      ok := Rewrite(r, a, next, fails);
      m, w := Advanced(op, start, before, l, v, root);
    }

    // ---------- Publish ----------

    method Cleanup(directory: string, fails: bool)
      modifies this`staging
      ensures staging == if fails then old(staging) else old(staging) - {directory}
    {
      if !fails { staging := staging - {directory}; }
    }

    /** `BeginUpload`: a staging directory of its own for every upload. */
    method BeginUpload(repository: string, architecture: string, suffix: string, fails: bool) returns (upload: Upload?)
      modifies this`staging
      ensures upload != null <==>
                Component(repository) && Component(architecture) && !fails && repository + "-" + suffix !in old(staging)
      ensures upload == null ==> staging == old(staging)
      ensures upload != null ==>
                && fresh(upload) && upload.service == this && upload.Valid()
                && upload.repository == repository && upload.architecture == architecture
                && upload.packageFilename == "" && !upload.hasSignature
                && upload.directory !in old(staging) && staging == old(staging)[upload.directory := map[]]
    {
      var directory := repository + "-" + suffix;
      if !Component(repository) || !Component(architecture) || fails || directory in staging { return null; }
      staging := staging[directory := map[]];
      upload := new Upload(this, repository, architecture, directory);
    }

    // The three parts of PublishUpload between taking and releasing the target's locks. `op`
    // is the operation they carry out, `start` the tree it began from, `l` and `v` where its
    // machine stands; `m` and `w` say where it stands afterwards.

    /** Inspect the archive, make the directory, look for the destination. */
    method Prepare(upload: Upload, inspected: Option<Package>, faults: set<Call>, ghost op: Op)
      returns (failure: Option<Error>, ghost m: Local, ghost w: View)
      requires upload.service == this && upload.Valid() && upload.packageFilename != ""
      requires op == UploadOp(staging, upload, inspected, faults) && !Refused(op)
      modifies this`root, this`trace
      ensures At(op, old(root), root, m, w) && old(trace) <= trace
      ensures Kept(old(root)) ==> AllKept(trace[|old(trace)|..])
      ensures match failure case Some(e) => m.pc == Done(Failed(e))
                case None => m.pc == AtInstall && IsDirectory(w) && m.made
      ensures failure.None? ==> inspected.Some?
    {
      var r, a := upload.repository, upload.architecture;
      ghost var start := root;
      m, w := START, ViewOf(root, r, a);
      AtStart(op, start);
      if inspected.None? || (inspected.value.architecture != a && inspected.value.architecture != "any") {
        m, w := Advanced(op, start, root, m, w, root);
        return Some(if inspected.None? then InspectFailed else WrongArchitecture), m, w;
      }
      var made := MkdirAll(r, a, faults, op, m);
      m, w := Advanced(op, start, start, m, w, root);
      if !made { return Some(DirectoryFailed), m, w; }
      m, w := Advanced(op, start, root, m, w, root);
      if StatDestination in faults { return Some(StatFailed), m, w; }
      if upload.packageFilename in root[r].entries[a].entries { return Some(AlreadyExists), m, w; }
      failure := None;
    }

    /** Move the package in place, then its signature; without the signature the package is
        taken out again. */
    method Install(upload: Upload, inspected: Option<Package>, faults: set<Call>,
                   ghost op: Op, ghost start: Tree, ghost l: Local, ghost v: View)
      returns (failure: Option<Error>, ghost m: Local, ghost w: View)
      requires upload.service == this && upload.Valid() && upload.packageFilename != ""
      requires op == UploadOp(staging, upload, inspected, faults) && !Refused(op)
      requires At(op, start, root, l, v) && l.pc == AtInstall && IsDirectory(v) && l.made
      modifies this`root, this`trace
      ensures At(op, start, root, m, w) && old(trace) <= trace
      ensures Kept(start) ==> AllKept(trace[|old(trace)|..])
      ensures match failure case Some(e) => m.pc == Done(Failed(e))
                case None => m.pc == AtAdd && IsDirectory(w) && m.made
    {
      hide At, Kept, RemoveStep, DatabaseAdd, PackageFile, Component, MoveOnto, FileTree.Delete;
      AtView(op, start, root, l, v);
      var r, a, filename := upload.repository, upload.architecture, upload.packageFilename;
      var staged, ok := staging[upload.directory], false;
      ok, m, w := Carry(r, a, MoveOnto(root[r].entries[a].entries, filename, staged[filename]),
                        InstallPackage in faults, op, start, l, v);
      if !ok { return Some(InstallFailed), m, w; }
      if upload.hasSignature {
        ok, m, w := Carry(r, a, MoveOnto(root[r].entries[a].entries, SignatureName(filename), staged[SIGNATURE]),
                          InstallSignature in faults, op, start, m, w);
        if !ok {
          ok, m, w := Carry(r, a, Delete(root[r].entries[a].entries, filename), UndoPackage in faults, op, start, m, w);
          return Some(SignatureFailed), m, w;
        }
      }
      failure := None;
    }

    /** Enter the package in the database; if that fails take the installed files out. */
    method Enter(upload: Upload, inspected: Option<Package>, faults: set<Call>,
                 ghost op: Op, ghost start: Tree, ghost l: Local, ghost v: View)
      returns (result: Result, ghost m: Local, ghost w: View)
      requires upload.service == this && upload.Valid() && upload.packageFilename != "" && inspected.Some?
      requires op == UploadOp(staging, upload, inspected, faults) && !Refused(op)
      requires At(op, start, root, l, v) && l.pc == AtAdd && IsDirectory(v) && l.made
      modifies this`root, this`trace
      ensures At(op, start, root, m, w) && old(trace) <= trace
      ensures Kept(start) ==> AllKept(trace[|old(trace)|..])
      ensures m.pc == Done(result)
    {
      hide At, Kept, RemoveStep, DatabaseAdd, PackageFile, Component, MoveOnto, FileTree.Delete;
      AtView(op, start, root, l, v);
      var r, a, filename := upload.repository, upload.architecture, upload.packageFilename;
      var pkg, ok := inspected.value.(filename := filename), false;
      ok, m, w := Carry(r, a, DatabaseAdd(root[r].entries[a].entries, r, pkg), RunAdd in faults, op, start, l, v);
      if ok { return Published(pkg), m, w; }
      m, w := RollBack(upload, inspected, faults, op, start, m, w);
      result := Failed(DatabaseFailed);
    }

    /** Take out the package and its signature after the database refused it. */
    method RollBack(upload: Upload, inspected: Option<Package>, faults: set<Call>,
                    ghost op: Op, ghost start: Tree, ghost l: Local, ghost v: View)
      returns (ghost m: Local, ghost w: View)
      requires upload.service == this && upload.Valid() && upload.packageFilename != "" && inspected.Some?
      requires op == UploadOp(staging, upload, inspected, faults) && !Refused(op)
      requires At(op, start, root, l, v) && l.pc == AtUndoPackage(DatabaseFailed) && IsDirectory(v) && l.made
      modifies this`root, this`trace
      ensures At(op, start, root, m, w) && old(trace) <= trace
      ensures Kept(start) ==> AllKept(trace[|old(trace)|..])
      ensures m.pc == Done(Failed(DatabaseFailed))
    {
      hide At, Kept, RemoveStep, DatabaseAdd, PackageFile, Component, MoveOnto, FileTree.Delete;
      AtView(op, start, root, l, v);
      var r, a, filename, ok := upload.repository, upload.architecture, upload.packageFilename, false;
      ok, m, w := Carry(r, a, Delete(root[r].entries[a].entries, filename), UndoPackage in faults, op, start, l, v);
      if upload.hasSignature {
        ok, m, w := Carry(r, a, Delete(root[r].entries[a].entries, SignatureName(filename)),
                          UndoSignature in faults, op, start, m, w);
      }
    }

    /** Publish an upload: the outcome is exactly that of the operation run by itself, every
        tree in between is kept, and the staging directory is gone whatever happened. */
    method PublishUpload(repository: string, architecture: string, upload: Upload?, inspected: Option<Package>,
                         faults: set<Call>, cleanupFails: bool)
      returns (result: Result)
      requires upload != null && upload.service == this ==> upload.Valid()
      modifies this`root, this`trace, this`staging
      ensures var complete := upload != null && upload.service == this && upload.packageFilename != ""
                              && upload.repository == repository && upload.architecture == architecture;
              if complete then
                && Apply(old(UploadOp(staging, upload, inspected, faults)), old(root)) == (result, root)
                && (old(UploadOp(staging, upload, inspected, faults)).Rejection().None? && !cleanupFails ==>
                      staging == old(staging) - {upload.directory})
              else result == Failed(Incomplete) && root == old(root) && staging == old(staging)
      ensures result.Published? ==>
                && upload != null && upload.directory in old(staging) && inspected.Some?
                && IsUploaded(result.pkg, inspected.value, upload.packageFilename)
                && Installed(root, repository, architecture, old(staging)[upload.directory], upload, result.pkg)
      ensures old(trace) <= trace
      ensures Kept(old(root)) ==> AllKept(trace[|old(trace)|..])
    {
      if upload == null || upload.service != this || upload.packageFilename == ""
         || upload.repository != repository || upload.architecture != architecture {
        return Failed(Incomplete);
      }
      ghost var op := UploadOp(staging, upload, inspected, faults);
      if !Component(repository) || !Component(architecture) { return Failed(InvalidName); }
      if OpenGlobal in faults || FlockGlobal in faults || OpenTarget in faults || FlockTarget in faults {
        Cleanup(upload.directory, cleanupFails);
        return Failed(LockFailed);
      }
      result := PublishLocked(upload, inspected, faults, op);
      if result.Published? { PublishedPackage(op, old(root)); }
      Cleanup(upload.directory, cleanupFails);
    }

    method PublishLocked(upload: Upload, inspected: Option<Package>, faults: set<Call>, ghost op: Op)
      returns (result: Result)
      requires upload.service == this && upload.Valid() && upload.packageFilename != ""
      requires op == UploadOp(staging, upload, inspected, faults) && !Refused(op)
      modifies this`root, this`trace
      ensures Apply(op, old(root)) == (result, root)
      ensures old(trace) <= trace
      ensures Kept(old(root)) ==> AllKept(trace[|old(trace)|..])
    {
      hide FinishView, Apply, InFlight, Kept, ViewKept;
      ghost var start := root;
      var failure, m, w := Prepare(upload, inspected, faults, op);
      if failure.Some? {
        AtEnd(op, start, root, m, w);
        return Failed(failure.value);
      }
      failure, m, w := Install(upload, inspected, faults, op, start, m, w);
      if failure.Some? {
        AtEnd(op, start, root, m, w);
        return Failed(failure.value);
      }
      result, m, w := Enter(upload, inspected, faults, op, start, m, w);
      AtEnd(op, start, root, m, w);
    }

    // ---------- Remove ----------

    /** Read the database and look the package up. */
    method Find(r: string, a: string, name: string, faults: set<Call>, ghost op: Op)
      returns (found: Option<string>, failure: Error, ghost m: Local, ghost w: View)
      requires op == Op(Operations.Remove(r, a, name), faults) && !Refused(op)
      ensures At(op, root, root, m, w)
      ensures match found case Some(file) => m.pc == AtDrop(file) && IsDirectory(w)
                case None => m.pc == Done(Failed(failure))
      ensures found.Some? <==> ReadPackages !in faults && IsListed(root, r, a, name)
      ensures found.Some? ==> found.value == FileTree.Packages(root[r].entries[a].entries, r).value[name].filename
      ensures found.None? ==>
                failure == if ReadPackages in faults || Unreadable(root, r, a) then ReadFailed else PackageNotFound
    {
      hide FinishView, Apply, InFlight, Kept, ViewKept;
      m, w := START, ViewOf(root, r, a);
      AtStart(op, root);
      m, w := Advanced(op, root, root, m, w, root);
      if ReadPackages in faults
         || (r in root && (!root[r].Dir? || (a in root[r].entries && !root[r].entries[a].Dir?))) {
        return None, ReadFailed, m, w;
      }
      if r !in root || a !in root[r].entries { return None, PackageNotFound, m, w; }
      var packages := FileTree.Packages(root[r].entries[a].entries, r);
      if packages.None? { return None, ReadFailed, m, w; }
      if name !in packages.value { return None, PackageNotFound, m, w; }
      return Some(packages.value[name].filename), PackageNotFound, m, w;
    }

    /** Take the entry out of the database, then the package file, then its signature. */
    method Drop(r: string, a: string, name: string, file: string, faults: set<Call>, ghost op: Op,
                ghost start: Tree, ghost l: Local, ghost v: View)
      returns (result: Result, ghost m: Local, ghost w: View)
      requires op == Op(Operations.Remove(r, a, name), faults) && !Refused(op)
      requires At(op, start, root, l, v) && l.pc == AtDrop(file) && IsDirectory(v)
      modifies this`root, this`trace
      ensures At(op, start, root, m, w) && old(trace) <= trace
      ensures Kept(start) ==> AllKept(trace[|old(trace)|..])
      ensures m.pc == Done(result)
    {
      hide At, Kept, PublishStep, DatabaseDrop, FileTree.Delete, PackageFile;
      AtView(op, start, root, l, v);
      var ok;
      ok, m, w := Carry(r, a, DatabaseDrop(root[r].entries[a].entries, r, name), RunRemove in faults, op, start, l, v);
      if !ok { return Failed(DatabaseFailed), m, w; }
      if !Plain(file) { return Failed(Escapes), m, w; }
      ok, m, w := Carry(r, a, Delete(root[r].entries[a].entries, file), DeletePackage in faults, op, start, m, w);
      if !ok { return Failed(DeleteFailed), m, w; }
      ok, m, w := Carry(r, a, Delete(root[r].entries[a].entries, SignatureName(file)),
                        DeleteSignature in faults, op, start, m, w);
      result := if ok then Ok else Failed(DeleteFailed);
    }

    /** Remove a package: the outcome is exactly that of the operation run by itself, and
        every tree in between is kept. */
    method Remove(r: string, a: string, name: string, faults: set<Call>) returns (result: Result)
      modifies this`root, this`trace
      ensures Apply(Op(Operations.Remove(r, a, name), faults), old(root)) == (result, root)
      ensures old(trace) <= trace
      ensures Kept(old(root)) ==> AllKept(trace[|old(trace)|..])
    {
      if !Component(r) || !Component(a) || !Component(name) { return Failed(InvalidName); }
      if OpenGlobal in faults || FlockGlobal in faults || OpenTarget in faults || FlockTarget in faults {
        return Failed(LockFailed);
      }
      ghost var op, start := Op(Operations.Remove(r, a, name), faults), root;
      var found, failure, m, w := Find(r, a, name, faults, op);
      if found.None? {
        result := Failed(failure);
      } else {
        result, m, w := Drop(r, a, name, found.value, faults, op, start, m, w);
      }
      AtEnd(op, start, root, m, w);
    }

    // ---------- Create and RemoveRepository ----------

    method Create(r: string, faults: set<Call>) returns (result: Result)
      modifies this`root, this`trace
      ensures Apply(Op(Operations.Create(r), faults), old(root)) == (result, root)
    {
      if !Component(r) { return Failed(InvalidName); }
      if OpenGlobal in faults || FlockGlobal in faults { return Failed(LockFailed); }
      if CreateRepository in faults { return Failed(DirectoryFailed); }
      if r in root { return Failed(AlreadyExists); }
      Commit(root[r := Dir(map[])]);
      result := Ok;
    }

    method RemoveRepository(r: string, remnant: Node, faults: set<Call>) returns (result: Result)
      modifies this`root, this`trace
      ensures Apply(Op(Operations.RemoveRepository(r, remnant), faults), old(root)) == (result, root)
    {
      if !Component(r) { return Failed(InvalidName); }
      if OpenGlobal in faults || FlockGlobal in faults { return Failed(LockFailed); }
      if StatRepository in faults { return Failed(StatFailed); }
      if r !in root { return Failed(RepositoryNotFound); }
      if !root[r].Dir? { return Failed(NotADirectory); }
      Commit(DeleteTree(root, r, DeleteRepository in faults, remnant));
      result := if DeleteRepository in faults then Failed(DeleteFailed) else Ok;
    }

    // ---------- reading directories ----------

    /** `os.ReadDir`: every name once, in byte order. */
    static method ReadDir(d: Tree) returns (names: seq<string>)
      ensures IsListing(names, d)
    {
      names := [];
      var todo := d.Keys;
      while todo != {}
        invariant todo <= d.Keys && multiset(names) == multiset(d.Keys - todo)
        invariant Text.Ordered(names, NameKey)
        decreases |todo|
      {
        var n :| n in todo;
        assert d.Keys - (todo - {n}) == (d.Keys - todo) + {n};
        names := Text.Place(names, n, NameKey);
        todo := todo - {n};
      }
      assert d.Keys - todo == d.Keys;
      ListingFromMultiset(names, d);
    }

    /** `repositoryArchitectures` of a repository directory. */
    static method RepositoryArchitectures(archs: Tree, r: string) returns (found: seq<string>)
      ensures forall a :: a in found <==>
                && a in archs && Component(a) && archs[a].Dir?
                && r + ".db.tar.gz" in archs[a].entries && archs[a].entries[r + ".db.tar.gz"].File?
      ensures Text.StrictlyOrdered(found, NameKey)
    {
      var names := ReadDir(archs);
      found := [];
      for i := 0 to |names|
        invariant forall a :: a in found <==> a in names[..i] && a in archs && IsArchitecture(r, a, archs[a])
        invariant Text.StrictlyOrdered(found, NameKey)
        invariant forall j | 0 <= j < |found| :: found[j] in names[..i]
      {
        assert names[..i + 1] == names[..i] + [names[i]];
        if IsArchitecture(r, names[i], archs[names[i]]) {
          forall j | 0 <= j < |found|
            ensures Text.KeyLess(NameKey(found[j]), NameKey(names[i]))
          {
            var k :| 0 <= k < i && names[k] == found[j];
          }
          found := found + [names[i]];
        }
      }
      assert names[..|names|] == names;
    }

    /** What the service reports: repositories with an architecture, and empty ones. */
    method Repositories() returns (list: seq<Repository>)
      ensures Text.StrictlyOrdered(list, RepositoryKey)
      ensures forall r :: (exists i | 0 <= i < |list| :: list[i].name == r) <==> Reported(root, r)
      ensures forall i | 0 <= i < |list| :: ListsArchitectures(root, list[i])
    {
      var names := ReadDir(root);
      list := [];
      for i := 0 to |names|
        invariant Text.StrictlyOrdered(list, RepositoryKey)
        invariant forall r :: (exists j | 0 <= j < |list| :: list[j].name == r)
                    <==> r in names[..i] && Reported(root, r)
        invariant forall j | 0 <= j < |list| :: ListsArchitectures(root, list[j])
      {
        var name := names[i];
        assert names[..i + 1] == names[..i] + [name];
        if root[name].Dir? && Component(name) {
          var archs := RepositoryArchitectures(root[name].entries, name);
          assert archs != [] ==> archs[0] in archs;
          if archs != [] || root[name].entries == map[] {
            forall j | 0 <= j < |list|
              ensures Text.KeyLess(RepositoryKey(list[j]), (name, ""))
            {
              assert list[j].name in names[..i];
              var k :| 0 <= k < i && names[k] == list[j].name;
              assert Text.KeyLess(NameKey(names[k]), NameKey(names[i]));
            }
            ghost var before := list;
            list := list + [Repository(name, archs)];
            assert list[|before|].name == name;
            assert forall j | 0 <= j < |before| :: list[j] == before[j];
          }
        }
      }
      assert names[..|names|] == names;
    }

    // ---------- Rename ----------

    /** `copyDirectory`, copying what is at `path` below `source` to the same path below
        `destination`, where an empty directory stands. The entries whose copy fails are in
        `failing`. It terminates because what it reads lies outside what it writes. */
    method CopyDirectory(source: string, destination: string, path: seq<string>, failing: set<seq<string>>)
      returns (ok: bool)
      requires source in root && destination in root && source != destination
      requires Lookup(root[source], path).Some? && Lookup(root[source], path).value.Dir?
      requires Lookup(root[destination], path) == Some(Dir(map[]))
      modifies this`root, this`trace
      ensures OnlyAt(old(root), root, destination)
      ensures old(trace) <= trace && AllOnlyAt(old(root), trace[|old(trace)|..], destination)
      ensures HasParent(old(root)[destination], path)
      ensures ok ==> root[destination] == Graft(old(root)[destination], path, Lookup(old(root)[source], path).value)
      ensures ok ==> Copyable(Lookup(old(root)[source], path).value)
      ensures failing == {} && Copyable(Lookup(old(root)[source], path).value) ==> ok
      decreases Lookup(root[source], path).value, 1
    {
      ghost var start := root;
      var entries := Lookup(root[source], path).value.entries;
      CopyingStarts(start, destination, path);
      CopyingFacts(start, root, source, destination, path, map[]);
      hide Lookup, Graft, HasParent, IsListing, OnlyAt, CopyingTo, Copied;
      if path in failing { return false; }
      var names := ReadDir(entries);
      NothingCopied(entries, names);
      for i := 0 to |names|
        invariant CopyingTo(start, root, destination, path, Copied(entries, names[..i]))
        invariant old(trace) <= trace && AllOnlyAt(start, trace[|old(trace)|..], destination)
        invariant forall j | 0 <= j < i :: Copyable(entries[names[j]])
      {
        hide Copyable, AllOnlyAt;
        CopyingFacts(start, root, source, destination, path, Copied(entries, names[..i]));
        NextToCopy(entries, names, i);
        ghost var before, history := root, trace;
        var copied := CopyEntry(source, destination, path, names[i], failing, Copied(entries, names[..i]));
        OnlyAtExtends(start, before, destination, old(trace), history, trace);
        OnlyAtTwice(start, before, root, destination);
        if !copied { return false; }
        CopyingGoesOn(start, before, root, destination, path, entries, names, i);
      }
      CopyingEnds(start, root, destination, path, entries, names);
      ok := true;
    }

    /** One turn of its loop; `sofar` is what the destination directory holds already. */
    method CopyEntry(source: string, destination: string, path: seq<string>, name: string,
                     failing: set<seq<string>>, ghost sofar: Tree)
      returns (ok: bool)
      requires source in root && destination in root && source != destination
      requires Lookup(root[source], path).Some? && Lookup(root[source], path).value.Dir?
      requires name in Lookup(root[source], path).value.entries && name !in sofar   // created exclusively
      requires root[destination].Dir? && HasParent(root[destination], path)
      requires Lookup(root[destination], path) == Some(Dir(sofar))
      modifies this`root, this`trace
      ensures OnlyAt(old(root), root, destination)
      ensures old(trace) <= trace && AllOnlyAt(old(root), trace[|old(trace)|..], destination)
      ensures var entry := Lookup(old(root)[source], path).value.entries[name];
              && (ok ==> Copyable(entry) &&
                         root[destination] == Graft(old(root)[destination], path, Dir(sofar[name := entry])))
              && (failing == {} && Copyable(entry) ==> ok)
      decreases Lookup(root[source], path).value, 0
    {
      var entry := Lookup(root[source], path).value.entries[name];
      if path + [name] in failing || entry.Special? { return false; }
      ghost var before := root[destination];
      LookupChild(root[source], path, name);
      LookupChild(before, path, name);
      GraftChild(before, path, name, entry);
      GraftIsDirectory(before, path + [name], entry);
      if entry.Dir? {
        GraftIsDirectory(before, path + [name], Dir(map[]));
        LookupGraft(before, path + [name], Dir(map[]));
        GraftTwice(before, path + [name], Dir(map[]), entry);
        hide Lookup, Graft, Copyable, HasParent;
        Commit(root[destination := Graft(root[destination], path + [name], Dir(map[]))]);
        ok := CopyDirectory(source, destination, path + [name], failing);
      } else {
        hide Lookup, Graft, HasParent;
        Commit(root[destination := Graft(root[destination], path + [name], entry)]);
        ok := true;
      }
    }

    /** Write one architecture directory of the snapshot at `t`. */
    method PutArchitecture(t: string, a: string, d: Tree, ghost start: Tree)
      requires t in root && root[t].Dir? && t in start && start[t].Dir? && OnlyAt(start, root, t)
      requires root == start || exists e :: root == start[t := Dir(start[t].entries[a := Dir(e)])]
      modifies this`root, this`trace
      ensures root == start[t := Dir(start[t].entries[a := Dir(d)])] && OnlyAt(start, root, t)
      ensures trace == old(trace) + [root]
    {
      if root != start {
        ghost var e :| root == start[t := Dir(start[t].entries[a := Dir(e)])];
        assert start[t].entries[a := Dir(e)][a := Dir(d)] == start[t].entries[a := Dir(d)];
      }
      Commit(root[t := Dir(root[t].entries[a := Dir(d)])]);
    }

    /** `renameDatabase` in one architecture of the snapshot at `t`, call by call; the calls
        whose numbers are in `failing` fail. */
    method RenameDatabaseIn(t: string, a: string, o: string, n: string, failing: set<nat>) returns (ok: bool)
      requires t in root && root[t].Dir? && a in root[t].entries && root[t].entries[a].Dir?
      modifies this`root, this`trace
      ensures OnlyAt(old(root), root, t) && old(trace) <= trace && AllOnlyAt(old(root), trace[|old(trace)|..], t)
      ensures var d, renamed := old(root)[t].entries[a].entries, RenameDatabase(old(root)[t].entries[a].entries, o, n);
              && (ok ==> renamed.Some? && root == old(root)[t := Dir(old(root)[t].entries[a := Dir(renamed.value)])])
              && (failing == {} && renamed.Some? ==> ok)
    {
      hide MoveEntry, DatabaseName, LinkName;
      ghost var start := root;
      var d := root[t].entries[a].entries;
      var moved := MoveEntry(d, DatabaseName(o), DatabaseName(n));
      if 0 in failing || moved.None? { return false; }
      d := moved.value;
      PutArchitecture(t, a, d, start);
      if 1 in failing { return false; }
      if LinkName(o) !in d { return true; }
      if !d[LinkName(o)].Link? {
        moved := MoveEntry(d, LinkName(o), LinkName(n));
        if 2 in failing || moved.None? { return false; }
        PutArchitecture(t, a, moved.value, start);
        return true;
      }
      if 3 in failing || d[LinkName(o)].target != DatabaseName(o) { return false; }
      if 4 in failing { return false; }
      var without := d - {LinkName(o)};
      PutArchitecture(t, a, without, start);
      if 5 in failing || LinkName(n) in without { return false; }
      PutArchitecture(t, a, without[LinkName(n) := Link(DatabaseName(n))], start);
      ok := true;
    }

    /** The loop over the architectures of the snapshot. */
    method RenameDatabasesIn(t: string, o: string, n: string, failing: map<string, set<nat>>) returns (ok: bool)
      requires t in root && root[t].Dir?
      modifies this`root, this`trace
      ensures OnlyAt(old(root), root, t) && old(trace) <= trace && AllOnlyAt(old(root), trace[|old(trace)|..], t)
      ensures var renamed := RenameAll(old(root)[t].entries, o, n);
              && (ok ==> renamed.Some? && root == old(root)[t := Dir(renamed.value)])
              && (failing == map[] && renamed.Some? ==> ok)
    {
      ghost var start, archs := root, root[t].entries;
      var architectures := RepositoryArchitectures(root[t].entries, o);
      assert architectures[..0] == [];
      assert RenamedSome(archs, architectures[..0], o, n) == archs;
      for i := 0 to |architectures|
        invariant OnlyAt(start, root, t) && old(trace) <= trace && AllOnlyAt(start, trace[|old(trace)|..], t)
        invariant forall a | a in architectures[..i] :: RenameDatabase(archs[a].entries, o, n).Some?
        invariant root == start[t := Dir(RenamedSome(archs, architectures[..i], o, n))]
      {
        hide RenameDatabase, RenameAll, IsArchitecture;
        var a := architectures[i];
        assert a in architectures;
        NotYetCopied(architectures, i);
        ghost var before, history := root, trace;
        var renamed := RenameDatabaseIn(t, a, o, n, if a in failing then failing[a] else {});
        OnlyAtExtends(start, before, t, old(trace), history, trace);
        if !renamed { return false; }
        RenamedOneMore(archs, architectures, i, o, n);
      }
      assert architectures[..|architectures|] == architectures;
      assert RenameAll(archs, o, n).value == RenamedSome(archs, architectures, o, n);
      ok := true;
    }

    /** Fill the empty snapshot at `t`: copy the old repository, rename its databases. */
    method FillSnapshot(o: string, n: string, t: string, copyFailing: set<seq<string>>,
                        dbFailing: map<string, set<nat>>, faults: set<Call>)
      returns (failure: Option<Error>)
      requires o in root && root[o].Dir? && t in root && root[t] == Dir(map[]) && o != t
      modifies this`root, this`trace
      ensures OnlyAt(old(root), root, t) && old(trace) <= trace && AllOnlyAt(old(root), trace[|old(trace)|..], t)
      ensures var renamed := RenameAll(old(root)[o].entries, o, n);
              && (failure.None? ==>
                    && Copyable(old(root)[o]) && renamed.Some? && CopySnapshot !in faults && RenameDatabases !in faults
                    && root == old(root)[t := Dir(renamed.value)])
              && (failure.Some? ==> failure.value in {SnapshotFailed, DatabaseFailed})
              && (failure.Some? && copyFailing == {} && dbFailing == map[] ==>
                    if CopySnapshot in faults || !Copyable(old(root)[o]) then failure.value == SnapshotFailed
                    else failure.value == DatabaseFailed && (RenameDatabases in faults || renamed.None?))
              && ((copyFailing == {} && dbFailing == map[] && CopySnapshot !in faults && RenameDatabases !in faults
                   && Copyable(old(root)[o]) && renamed.Some?) ==> failure.None?)
    {
      hide RenameAll, Copyable;
      ghost var start := root;
      if CopySnapshot in faults { return Some(SnapshotFailed); }
      var copied := CopyDirectory(o, t, [], copyFailing);
      if !copied { return Some(SnapshotFailed); }
      assert root == start[t := start[o]];
      if RenameDatabases in faults { return Some(DatabaseFailed); }
      ghost var before, history := root, trace;
      var renamed := RenameDatabasesIn(t, o, n, dbFailing);
      OnlyAtExtends(start, before, t, old(trace), history, trace);
      if !renamed { return Some(DatabaseFailed); }
      assert before[t := root[t]] == start[t := root[t]];
      failure := None;
    }

    /** Put the finished snapshot in place of the old repository. */
    method Replace(o: string, n: string, t: string, remnant: Node, faults: set<Call>, ghost op: Op, ghost start: Tree)
      returns (failure: Option<Error>)
      requires op.action.Rename? && op.action.repository == o && op.action.newName == n
      requires t == TemporaryName(n, op.action.suffix)
      requires op.faults == faults && op.action.remnant == remnant && op.Rejection().None?
      requires Passed(op, start, INSTALLING) && root == start[t := Snapshot(op, start)]
      modifies this`root, this`trace
      ensures failure == if DeleteOld in faults then Some(DeleteFailed) else None
      ensures root == DeleteTree(start[n := Snapshot(op, start)], o, DeleteOld in faults, remnant) && t !in root
      ensures old(trace) <= trace && NothingLostIn(op, start, trace[|old(trace)|..])
    {
      hide RenameAll, Copyable;
      TemporaryIsNoComponent(n, op.action.suffix);
      assert (root - {t})[n := root[t]] == start[n := root[t]];
      Commit((root - {t})[n := root[t]]);
      Commit(DeleteTree(root, o, DeleteOld in faults, remnant));
      failure := if DeleteOld in faults then Some(DeleteFailed) else None;
    }

    /** Fill the snapshot and put it in place. */
    method Substitute(o: string, n: string, t: string, copyFailing: set<seq<string>>, dbFailing: map<string, set<nat>>,
                      remnant: Node, faults: set<Call>, ghost op: Op, ghost start: Tree)
      returns (failure: Option<Error>)
      requires op.action.Rename? && op.action.repository == o && op.action.newName == n
      requires t == TemporaryName(n, op.action.suffix)
      requires op.faults == faults && op.action.remnant == remnant && !Refused(op)
      requires Passed(op, start, {StatOld, StatNew, MakeTemporary}) && root == start[t := Dir(map[])]
      modifies this`root, this`trace
      ensures Substituted(op, start, root, failure)
      ensures failure.Some? ==> failure.value in LATER
      ensures failure.Some? && copyFailing == {} && dbFailing == map[] ==> RenameFails(op, start, failure.value)
      ensures Passed(op, start, INSTALLING + {DeleteOld}) && copyFailing == {} && dbFailing == map[] ==> failure.None?
      ensures old(trace) <= trace && NothingLostIn(op, start, trace[|old(trace)|..])
    {
      hide RenameAll, Copyable, NothingLost, RenameFails;
      TemporaryIsNoComponent(n, op.action.suffix);
      ghost var history := trace;
      failure := FillSnapshot(o, n, t, copyFailing, dbFailing, faults);
      if failure.Some? && copyFailing == {} && dbFailing == map[] { FillFails(op, start, failure.value); }
      if failure.None? { LaterFails(op, start); }
      OnlyAtExtends(start, start[t := Dir(map[])], t, history, history, trace);
      HarmlessIn(op, start, trace[|history|..]);
      if failure.None? && InstallSnapshot in faults { failure := Some(InstallFailed); }
      if failure.None? {
        assert start[t := Dir(map[])][t := root[t]] == start[t := root[t]];
        ghost var filled := trace;
        failure := Replace(o, n, t, remnant, faults, op, start);
        assert trace[|history|..] == filled[|history|..] + trace[|filled|..];
      }
    }

    /** Everything after the checks; the temporary directory is removed in the end. */
    method RenameChecked(o: string, n: string, t: string, copyFailing: set<seq<string>>,
                         dbFailing: map<string, set<nat>>,
                         remnant: Node, faults: set<Call>, ghost op: Op)
      returns (result: Result)
      requires op.action.Rename? && op.action.repository == o && op.action.newName == n
      requires t == TemporaryName(n, op.action.suffix)
      requires op.faults == faults && op.action.remnant == remnant && !Refused(op)
      requires Passed(op, root, {StatOld, StatNew, MakeTemporary})
      modifies this`root, this`trace
      ensures RenameContract(op, old(root), root, result, copyFailing == {} && dbFailing == map[])
      ensures old(trace) <= trace && NothingLostIn(op, old(root), trace[|old(trace)|..])
    {
      hide RenameAll, Copyable, NothingLost, Passed, OldHalfDeleted, Renamed, RenameContract, DeleteTree;
      ghost var start, history := root, trace;
      Commit(root[t := Dir(map[])]);
      ghost var made := trace;
      HarmlessIn(op, start, [root]);
      var failure := Substitute(o, n, t, copyFailing, dbFailing, remnant, faults, op, start);
      ghost var before, done := root, trace;
      Commit(DeleteTree(root, t, DeleteTemporary in faults, remnant));
      SubstitutedEnd(op, start, before, failure, copyFailing == {} && dbFailing == map[]);
      result := if failure.Some? then Failed(failure.value) else Ok;
      assert trace[|history|..] == [made[|history|]] + done[|made|..] + [root];
    }

    /** Rename a repository. At every moment, whatever fails, nothing is lost: the old
        repository is as it was, or the new one is its complete renamed copy. */
    method Rename(o: string, n: string, suffix: string, copyFailing: set<seq<string>>, dbFailing: map<string, set<nat>>,
                  remnant: Node, faults: set<Call>)
      returns (result: Result)
      modifies this`root, this`trace
      ensures var op := Op(Operations.Rename(o, n, suffix, map[], remnant), faults);
              && RenameContract(op, old(root), root, result, copyFailing == {} && dbFailing == map[])
              && (result == Failed(RepositoryNotFound) <==>
                    !Refused(op) && StatOld !in faults && o !in old(root))
              && old(trace) <= trace && NothingLostIn(op, old(root), trace[|old(trace)|..])
    {
      hide RenameAll, Copyable, RenameContract, NothingLost;
      ghost var op := Op(Operations.Rename(o, n, suffix, map[], remnant), faults);
      ghost var smooth := copyFailing == {} && dbFailing == map[];
      NotFoundExactly(op, root, smooth);
      var t := TemporaryName(n, suffix);
      if Refused(op) { RefusedBy(op, root, smooth); } else if !Passed(op, root, {StatOld, StatNew, MakeTemporary}) {
        StoppedBy(op, root, smooth);
      }
      if !Component(o) || !Component(n) { return Failed(InvalidName); }
      if o == n { return Failed(SameName); }
      if OpenGlobal in faults || FlockGlobal in faults { return Failed(LockFailed); }
      if StatOld in faults { return Failed(StatFailed); }
      if o !in root { return Failed(RepositoryNotFound); }
      if !root[o].Dir? { return Failed(NotADirectory); }
      if n in root { return Failed(AlreadyExists); }
      if StatNew in faults { return Failed(StatFailed); }
      if MakeTemporary in faults || t in root { return Failed(SnapshotFailed); }
      result := RenameChecked(o, n, t, copyFailing, dbFailing, remnant, faults, op);
    }
  }

  /** One step further along the machine. */
  lemma Advanced(op: Op, start: Tree, root: Tree, l: Local, v: View, next: Tree) returns (m: Local, w: View)
    requires At(op, start, root, l, v) && !l.pc.Done?
    requires var (m, w) := StepView(op, l, v);
             next == Store(root, op.action.repository, op.action.architecture, w, m.made)
             || (w == v && next == root && (m.made ==> op.action.repository in root))
             || (w.Present? && next == Store(root, op.action.repository, op.action.architecture, w, true))
    ensures (m, w) == StepView(op, l, v) && At(op, start, next, m, w)
    ensures ViewOf(next, op.action.repository, op.action.architecture) == w
    ensures (m.made ==> op.action.repository in next) && (Kept(start) ==> Kept(next))
  {
    AtNext(op, start, root, l, v, next);
    m, w := StepView(op, l, v).0, StepView(op, l, v).1;
  }

  // ---------- Rename ----------

  /** `next` is `start` except below the top-level name `t`, a directory. */
  ghost predicate OnlyAt(start: Tree, next: Tree, t: string) {
    && t in next && next[t].Dir?
    && (forall k | k != t :: (k in next <==> k in start) && (k in start ==> next[k] == start[k]))
  }

  ghost predicate AllOnlyAt(start: Tree, trees: seq<Tree>, t: string) {
    forall i | 0 <= i < |trees| :: OnlyAt(start, trees[i], t)
  }

  /** A trace that goes on from `mid`. */
  lemma OnlyAtExtends(start: Tree, mid: Tree, t: string, first: seq<Tree>, second: seq<Tree>, third: seq<Tree>)
    requires first <= second <= third && OnlyAt(start, mid, t)
    requires AllOnlyAt(start, second[|first|..], t) && AllOnlyAt(mid, third[|second|..], t)
    ensures AllOnlyAt(start, third[|first|..], t)
  {
    forall i | 0 <= i < |third[|first|..]|
      ensures OnlyAt(start, third[|first|..][i], t)
    {
      var k := |first| + i;
      if k < |second| {
        assert third[|first|..][i] == second[|first|..][i];
      } else {
        assert third[|first|..][i] == third[|second|..][k - |second|];
      }
    }
  }

  lemma GraftIsDirectory(n: Node, path: seq<string>, x: Node)
    requires HasParent(n, path) && path != []
    ensures Graft(n, path, x).Dir?
  {
  }

  lemma DestinationIsDirectory(n: Node, path: seq<string>)
    requires Lookup(n, path).Some? && Lookup(n, path).value.Dir?
    ensures n.Dir?
  {
  }

  /** What can be copied is exactly what has no special file at any path. */
  lemma CopyableExactly(n: Node)
    ensures Copyable(n) <==> forall path :: Lookup(n, path) != Some(Special)
  {
    if Copyable(n) {
      forall path
        ensures Lookup(n, path) != Some(Special)
      {
        CopyableAt(n, path);
      }
    } else {
      var path := SpecialAt(n);
    }
  }

  lemma {:induction false} CopyableAt(n: Node, path: seq<string>)
    requires Copyable(n)
    ensures Lookup(n, path) != Some(Special)
    decreases |path|
  {
    if path != [] && n.Dir? && path[0] in n.entries { CopyableAt(n.entries[path[0]], path[1..]); }
  }

  lemma {:induction false} SpecialAt(n: Node) returns (path: seq<string>)
    requires !Copyable(n)
    ensures Lookup(n, path) == Some(Special)
  {
    path := [];
    if n.Dir? {
      var k :| k in n.entries && !Copyable(n.entries[k]);
      path := SpecialAt(n.entries[k]);
      assert ([k] + path)[1..] == path;
      path := [k] + path;
    }
  }

  function Copied(entries: Tree, names: seq<string>): Tree {
    map k | k in entries && k in names :: entries[k]
  }

  /** The directory at `path` below `destination` holds `sofar`; nothing else has changed. */
  ghost predicate CopyingTo(start: Tree, root: Tree, destination: string, path: seq<string>, sofar: Tree) {
    && destination in start && OnlyAt(start, root, destination)
    && HasParent(start[destination], path) && HasParent(root[destination], path)
    && Lookup(root[destination], path) == Some(Dir(sofar))
    && root[destination] == Graft(start[destination], path, Dir(sofar))
  }

  lemma CopyingStarts(start: Tree, destination: string, path: seq<string>)
    requires destination in start && Lookup(start[destination], path) == Some(Dir(map[]))
    ensures CopyingTo(start, start, destination, path, map[])
  {
    if |path| > 0 { ParentExists(start[destination], path); }
    DestinationIsDirectory(start[destination], path);
    GraftSame(start[destination], path, Dir(map[]));
  }

  lemma CopyingFacts(start: Tree, root: Tree, source: string, destination: string, path: seq<string>, sofar: Tree)
    requires CopyingTo(start, root, destination, path, sofar) && source in start && source != destination
    ensures HasParent(start[destination], path)
    ensures source in root && root[source] == start[source] && destination in root && OnlyAt(start, root, destination)
    ensures root[destination].Dir? && HasParent(root[destination], path)
            && Lookup(root[destination], path) == Some(Dir(sofar))
  {
  }

  lemma NothingCopied(entries: Tree, names: seq<string>)
    ensures Copied(entries, names[..0]) == map[]
  {
  }

  lemma CopyingEnds(start: Tree, root: Tree, destination: string, path: seq<string>, entries: Tree, names: seq<string>)
    requires IsListing(names, entries)
    requires CopyingTo(start, root, destination, path, Copied(entries, names[..|names|]))
    ensures OnlyAt(start, root, destination) && root[destination] == Graft(start[destination], path, Dir(entries))
    ensures (forall j | 0 <= j < |names| :: Copyable(entries[names[j]])) ==> Copyable(Dir(entries))
  {
    assert names[..|names|] == names;
    assert Copied(entries, names) == entries;
  }

  lemma OnlyAtTwice(start: Tree, mid: Tree, end: Tree, t: string)
    requires OnlyAt(start, mid, t) && OnlyAt(mid, end, t)
    ensures OnlyAt(start, end, t)
  {
  }

  lemma CopyingGoesOn(start: Tree, before: Tree, after: Tree, destination: string, path: seq<string>,
                      entries: Tree, names: seq<string>, i: nat)
    requires i < |names| && names[i] in entries
             && CopyingTo(start, before, destination, path, Copied(entries, names[..i]))
    requires OnlyAt(start, after, destination)
    requires after[destination] ==
             Graft(before[destination], path, Dir(Copied(entries, names[..i])[names[i] := entries[names[i]]]))
    ensures CopyingTo(start, after, destination, path, Copied(entries, names[..i + 1]))
  {
    hide Lookup, Graft, HasParent, Copied;
    CopiedStep(start[destination], path, entries, names, i);
  }

  /** One more entry copied into the directory at `path`. */
  lemma CopiedStep(n: Node, path: seq<string>, entries: Tree, names: seq<string>, i: nat)
    requires HasParent(n, path) && i < |names| && names[i] in entries
    ensures var now, later := Dir(Copied(entries, names[..i])), Dir(Copied(entries, names[..i + 1]));
            && Copied(entries, names[..i])[names[i] := entries[names[i]]] == Copied(entries, names[..i + 1])
            && HasParent(Graft(n, path, now), path) && HasParent(Graft(n, path, later), path)
            && Graft(Graft(n, path, now), path, later) == Graft(n, path, later)
            && Lookup(Graft(n, path, later), path) == Some(later)
  {
    var now, later := Dir(Copied(entries, names[..i])), Dir(Copied(entries, names[..i + 1]));
    assert names[..i + 1] == names[..i] + [names[i]];
    GraftTwice(n, path, now, later);
    LookupGraft(n, path, later);
    if |path| > 0 { ParentExists(Graft(n, path, later), path); }
  }

  lemma NextToCopy(entries: Tree, names: seq<string>, i: nat)
    requires IsListing(names, entries) && i < |names|
    ensures names[i] in entries && names[i] !in Copied(entries, names[..i])
  {
    assert names[i] in names;
    NotYetCopied(names, i);
  }

  lemma NotYetCopied(names: seq<string>, i: nat)
    requires Text.StrictlyOrdered(names, NameKey) && i < |names|
    ensures names[i] !in names[..i]
  {
    if names[i] in names[..i] {
      var j :| 0 <= j < i && names[j] == names[i];
      Text.KeyLessIrreflexive(NameKey(names[i]));
    }
  }

  lemma {:induction false} GraftSame(n: Node, path: seq<string>, x: Node)
    requires Lookup(n, path) == Some(x)
    ensures HasParent(n, path)
    ensures Graft(n, path, x) == n
    decreases |path|
  {
    if path != [] {
      ParentExists(n, path);
      assert path[..|path| - 1] != [] ==> path[..|path| - 1][0] == path[0];
      assert |path| > 1 ==> path[..|path| - 1][1..] == path[1..][..|path[1..]| - 1];
      GraftSame(n.entries[path[0]], path[1..], x);
      assert n.entries[path[0] := n.entries[path[0]]] == n.entries;
    }
  }

  /** The databases of `done` renamed. */
  ghost function RenamedSome(archs: Tree, done: seq<string>, o: string, n: string): Tree
    requires forall a | a in done :: a in archs && archs[a].Dir? && RenameDatabase(archs[a].entries, o, n).Some?
  {
    map a | a in archs :: if a in done then Dir(RenameDatabase(archs[a].entries, o, n).value) else archs[a]
  }

  lemma RenamedOneMore(archs: Tree, names: seq<string>, i: nat, o: string, n: string)
    requires i < |names| && names[i] !in names[..i]
    requires forall a | a in names[..i + 1] ::
             a in archs && archs[a].Dir? && RenameDatabase(archs[a].entries, o, n).Some?
    ensures RenamedSome(archs, names[..i], o, n)[names[i] := Dir(RenameDatabase(archs[names[i]].entries, o, n).value)]
            == RenamedSome(archs, names[..i + 1], o, n)
    ensures names[..i + 1] == names[..i] + [names[i]]
  {
    assert names[..i + 1] == names[..i] + [names[i]];
  }

  /** What Rename promises about its outcome; `smooth` says that no single copy or database
      call fails. */
  ghost predicate RenameContract(op: Op, start: Tree, root: Tree, result: Result, smooth: bool)
    requires op.action.Rename?
  {
    && (result == Ok ==> !Refused(op) && Renamed(op, start, root))
    && (!Refused(op) && Passed(op, start, INSTALLING + {DeleteOld}) && smooth ==> result == Ok)
    && (result.Failed? && result.error == DeleteFailed ==> OldHalfDeleted(op, start, root))
    && (result.Failed? && result.error != DeleteFailed ==>
          root == start || (DeleteTemporary in op.faults && TemporaryLeft(op, start, root)))
    && !result.Published?
    && (forall e | e in GUARDS :: result == Failed(e) <==> !Refused(op) && RenameFails(op, start, e))
    && (!Refused(op) && smooth ==> forall e :: result == Failed(e) <==> RenameFails(op, start, e))
    && (Refused(op) ==> result == Apply(op, start).0)
    && (!Refused(op) && result.Failed? ==> result.error in GUARDS + LATER)
  }

  /** The errors of the checks before anything is written. */
  const GUARDS := {RepositoryNotFound, NotADirectory, AlreadyExists, StatFailed}

  /** The errors after that. */
  const LATER := {SnapshotFailed, DatabaseFailed, InstallFailed, DeleteFailed}

  /** Every outcome allowed where the operation stops before it writes anything. */
  lemma StoppedBy(op: Op, root: Tree, smooth: bool)
    requires op.action.Rename? && !Refused(op) && !Passed(op, root, {StatOld, StatNew, MakeTemporary})
    ensures forall e | e in GUARDS + {SnapshotFailed} && RenameFails(op, root, e) ::
              RenameContract(op, root, root, Failed(e), smooth)
  {
    forall e | e in GUARDS + {SnapshotFailed} && RenameFails(op, root, e)
      ensures RenameContract(op, root, root, Failed(e), smooth)
    {
      OneRenameError(op, root, e);
    }
  }

  lemma NotFoundExactly(op: Op, start: Tree, smooth: bool)
    requires op.action.Rename?
    ensures forall root, result | RenameContract(op, start, root, result, smooth) ::
              result == Failed(RepositoryNotFound) <==>
                !Refused(op) && StatOld !in op.faults && op.action.repository !in start
  {
    RefusedAnswer(op, start);
    assert RepositoryNotFound in GUARDS;
    hide Apply;
  }

  lemma RefusedBy(op: Op, root: Tree, smooth: bool)
    requires op.action.Rename? && Refused(op)
    ensures RenameContract(op, root, root, Apply(op, root).0, smooth)
  {
    RefusedLeavesTree(op, root);
  }

  ghost predicate NothingLostIn(op: Op, start: Tree, trees: seq<Tree>)
    requires op.action.Rename?
  {
    forall i | 0 <= i < |trees| :: NothingLost(op, start, trees[i])
  }

  lemma HarmlessIn(op: Op, start: Tree, trees: seq<Tree>)
    requires op.action.Rename? && Passed(op, start, {StatOld, StatNew, MakeTemporary}) && op.Rejection().None?
    requires AllOnlyAt(start, trees, TemporaryName(op.action.newName, op.action.suffix))
    ensures NothingLostIn(op, start, trees)
  {
    TemporaryIsNoComponent(op.action.newName, op.action.suffix);
  }

  /** What stands before the temporary directory is removed. */
  ghost predicate Substituted(op: Op, start: Tree, root: Tree, failure: Option<Error>)
    requires op.action.Rename?
  {
    var t := TemporaryName(op.action.newName, op.action.suffix);
    match failure
    case None => Renamed(op, start, root)
    case Some(e) => if e == DeleteFailed then OldHalfDeleted(op, start, root) else OnlyAt(start, root, t)
  }

  lemma FillFails(op: Op, start: Tree, e: Error)
    requires op.action.Rename? && Passed(op, start, {StatOld, StatNew, MakeTemporary})
    requires var o, n := op.action.repository, op.action.newName;
             if CopySnapshot in op.faults || !Copyable(start[o]) then e == SnapshotFailed
             else e == DatabaseFailed && (RenameDatabases in op.faults || RenameAll(start[o].entries, o, n).None?)
    ensures RenameFails(op, start, e)
  {
    hide RenameAll, Copyable;
  }

  lemma LaterFails(op: Op, start: Tree)
    requires op.action.Rename? && Passed(op, start, {StatOld, StatNew, MakeTemporary, CopySnapshot, RenameDatabases})
    ensures InstallSnapshot in op.faults ==> RenameFails(op, start, InstallFailed)
    ensures InstallSnapshot !in op.faults && DeleteOld in op.faults ==> RenameFails(op, start, DeleteFailed)
  {
    hide RenameAll, Copyable;
  }

  lemma GuardsPassed(op: Op, start: Tree)
    requires op.action.Rename? && Passed(op, start, {StatOld, StatNew, MakeTemporary})
    ensures forall e | e in GUARDS :: !RenameFails(op, start, e)
  {
    hide RenameAll, Copyable;
  }

  /** Removing it gives the outcome and loses nothing. */
  lemma SubstitutedEnd(op: Op, start: Tree, before: Tree, failure: Option<Error>, smooth: bool)
    requires op.action.Rename? && !Refused(op) && Passed(op, start, {StatOld, StatNew, MakeTemporary})
    requires Substituted(op, start, before, failure)
    requires failure.Some? ==> failure.value in LATER && (smooth ==> RenameFails(op, start, failure.value))
    requires Passed(op, start, INSTALLING + {DeleteOld}) && smooth ==> failure.None?
    ensures var root := DeleteTree(before, TemporaryName(op.action.newName, op.action.suffix),
              DeleteTemporary in op.faults, op.action.remnant);
            && NothingLost(op, start, root)
            && RenameContract(op, start, root, if failure.Some? then Failed(failure.value) else Ok, smooth)
  {
    GuardsPassed(op, start);
    if failure.Some? && smooth { OneRenameError(op, start, failure.value); }
    if failure.None? { NoRenameError(op, start); }
    hide RenameFails, RenameAll, Copyable;
    if failure.None? || failure.value == DeleteFailed {
      TemporaryGone(op, start, before, failure);
    } else {
      TemporaryEnd(op, start, before);
    }
    hide NothingLost, OldHalfDeleted, Renamed, TemporaryLeft, DeleteTree, Passed;
  }

  /** Nothing is left to remove. */
  lemma TemporaryGone(op: Op, start: Tree, before: Tree, failure: Option<Error>)
    requires op.action.Rename? && op.Rejection().None? && Substituted(op, start, before, failure)
    requires failure.None? || failure.value == DeleteFailed
    ensures var t := TemporaryName(op.action.newName, op.action.suffix);
            DeleteTree(before, t, DeleteTemporary in op.faults, op.action.remnant) == before
    ensures NothingLost(op, start, before)
  {
    hide RenameAll, Copyable, IsRemnant;
    TemporaryIsNoComponent(op.action.newName, op.action.suffix);
  }

  lemma TemporaryEnd(op: Op, start: Tree, before: Tree)
    requires op.action.Rename? && op.Rejection().None? && Passed(op, start, {StatOld, StatNew, MakeTemporary})
    requires OnlyAt(start, before, TemporaryName(op.action.newName, op.action.suffix))
    ensures var root := DeleteTree(before, TemporaryName(op.action.newName, op.action.suffix),
              DeleteTemporary in op.faults, op.action.remnant);
            && NothingLost(op, start, root)
            && (root == start || (DeleteTemporary in op.faults && TemporaryLeft(op, start, root)))
  {
    hide RenameAll, Copyable, IsRemnant;
    var t := TemporaryName(op.action.newName, op.action.suffix);
    TemporaryIsNoComponent(op.action.newName, op.action.suffix);
    assert before - {t} == start;
    assert before == start[t := before[t]];
    assert DeleteTemporary in op.faults ==>
      DeleteTree(before, t, true, op.action.remnant) == start[t := DeleteTree(before, t, true, op.action.remnant)[t]];
  }
}
