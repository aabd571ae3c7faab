/** The directory tree under the data root, the package databases in it, and the single
    system calls the service makes on one directory.

    A tree is a finite recursive value. Each system call is one total function from a
    directory to the directory it leaves, `None` where the call is refused. */
module FileTree {
  import opened Options
  import opened Names

  datatype Package = Package(
    name: string, version: string, architecture: string, description: string,
    filename: string, size: int, depends: seq<string>)

  /** What a regular file holds: uninterpreted bytes, or a package database. */
  datatype Data = Blob(bytes: string) | Database(packages: map<string, Package>)

  datatype Node = File(data: Data) | Link(target: string) | Dir(entries: map<string, Node>) | Special

  type Tree = map<string, Node>

  // ---------- system calls on one directory ----------

  /** `os.Rename` of a regular file onto `name`: replaces a file or link, never a directory. */
  function MoveOnto(d: Tree, name: string, node: Node): Option<Tree> {
    if name in d && d[name].Dir? then None else Some(d[name := node])
  }

  /** `os.Remove`, with a missing entry tolerated as the service does. */
  function Delete(d: Tree, name: string): Option<Tree> {
    if name in d && d[name].Dir? && d[name].entries != map[] then None else Some(d - {name})
  }

  /** The database of `repository` in one architecture directory: `None` when the file
      there cannot be read as a database, empty when there is no file. */
  function Packages(d: Tree, repository: string): Option<map<string, Package>> {
    var n := DatabaseName(repository);
    if n !in d then Some(map[])
    else if d[n].File? && d[n].data.Database? then Some(d[n].data.packages)
    else None
  }

  function WithPackages(d: Tree, repository: string, m: map<string, Package>): Tree {
    d[DatabaseName(repository) := File(Database(m))]
  }

  /** `repo-add`: enter the package under its name, creating database and link as needed. */
  function DatabaseAdd(d: Tree, repository: string, pkg: Package): Option<Tree> {
    var link := LinkName(repository);
    match Packages(d, repository)
    case None => None
    case Some(m) =>
      if link in d && !d[link].Link? then None
      else Some(WithPackages(d, repository, m[pkg.name := pkg])[link := Link(DatabaseName(repository))])
  }

  /** `repo-remove`: drop the package of that name. */
  function DatabaseDrop(d: Tree, repository: string, name: string): Option<Tree> {
    match Packages(d, repository)
    case None => None
    case Some(m) => if name in m then Some(WithPackages(d, repository, m - {name})) else None
  }

  predicate IsSignatureName(n: string) {
    HasSuffix(n, ".sig") && PackageFile(n[..|n| - 4])
  }

  lemma SignatureNameRoundTrip(f: string)
    requires PackageFile(f)
    ensures IsSignatureName(SignatureName(f)) && SignatureName(f)[..|SignatureName(f)| - 4] == f
  {
    var n := SignatureName(f);
    assert n[..|n| - 4] == f && n[|n| - 4..] == ".sig";
  }

  /** Database and link names are neither package nor signature names. */
  lemma Reserved(r: string)
    ensures !PackageFile(DatabaseName(r)) && !PackageFile(LinkName(r))
    ensures !IsSignatureName(DatabaseName(r)) && !IsSignatureName(LinkName(r))
    ensures !IsForeign(DatabaseName(r)) && !IsForeign(LinkName(r))
    ensures DatabaseName(r) != LinkName(r)
  {
    var d, l := DatabaseName(r), LinkName(r);
    assert d[|d| - 10..] == ".db.tar.gz" && l[|l| - 3..] == ".db";
    assert d[|d| - 1] == 'z' && d[|d| - 8] == 'b' && d[|d| - 2] == 'g' && l[|l| - 1] == 'b';
    if PackageFile(d) { PackageTail(d); }
    if PackageFile(l) { PackageTail(l); }
    assert d[|d| - 4..][3] == 'z';
    assert |l| >= 4 ==> l[|l| - 4..][3] == 'b';
  }

  /** `HasSignature`: a regular signature file stands beside `filename`. */
  predicate HasSignature(d: Tree, filename: string) {
    SignatureName(filename) in d && d[SignatureName(filename)].File?
  }

  // ---------- the invariant of one architecture directory ----------

  /** A file the service neither reads nor writes, such as the `.files` and `.old` companions
      that `repo-add` keeps. */
  predicate IsForeign(n: string) {
    !PackageFile(n) && !IsSignatureName(n) && !HasSuffix(n, ".db") && !HasSuffix(n, ".db.tar.gz")
  }

  /** Every entry is of a kind found in an architecture directory: the database of this
      repository and perhaps its link, packages, signatures, and foreign files and links. */
  ghost predicate KnownEntries(repository: string, d: Tree) {
    && (forall n | n in d ::
          || (n == DatabaseName(repository) && d[n].File? && d[n].data.Database?)
          || (n == LinkName(repository) && d[n] == Link(DatabaseName(repository)))
          || (PackageFile(n) && d[n].File? && d[n].data.Blob?)
          || (IsSignatureName(n) && d[n].File? && d[n].data.Blob?)
          || (IsForeign(n) && (d[n].File? || d[n].Link?)))
    && (LinkName(repository) in d ==> DatabaseName(repository) in d)
  }

  /** No dangling entry: each database entry names a package file that is present, and no
      two entries share a file. */
  ghost predicate NoDangling(d: Tree, m: map<string, Package>) {
    && (forall p | p in m :: m[p].name == p && PackageFile(m[p].filename) && m[p].filename in d)
    && (forall p, q | p in m && q in m && m[p].filename == m[q].filename :: p == q)
  }

  ghost predicate Consistent(repository: string, d: Tree) {
    && KnownEntries(repository, d)
    && Packages(d, repository).Some?
    && NoDangling(d, Packages(d, repository).value)
  }

  /** The invariant of the whole tree: below every name the service accepts as a repository
      there are only consistent architecture directories. */
  ghost predicate Kept(root: Tree) { KeptBut(root, {}) }

  /** The invariant, except for the repositories named in `bad`. */
  ghost predicate KeptBut(root: Tree, bad: set<string>) {
    forall r | r in root && Component(r) && r !in bad :: root[r].Dir? && KeptRepository(r, root[r].entries)
  }

  /** The invariant of one repository. */
  ghost predicate KeptAt(root: Tree, r: string) {
    r in root ==> root[r].Dir? && KeptRepository(r, root[r].entries)
  }

  ghost predicate KeptRepository(r: string, archs: Tree) {
    forall a | a in archs :: Component(a) && archs[a].Dir? && Consistent(r, archs[a].entries)
  }

  // ---------- the part of the tree one target can see ----------

  /** What stands at `repository/architecture`. A missing repository directory and a missing
      architecture directory look the same from here. */
  datatype View = Blocked(obstacle: Node) | Missing | Present(node: Node)

  function ViewOf(root: Tree, r: string, a: string): View {
    if r !in root then Missing
    else if !root[r].Dir? then Blocked(root[r])
    else if a !in root[r].entries then Missing
    else Present(root[r].entries[a])
  }

  function Architectures(root: Tree, r: string): Tree {
    if r in root && root[r].Dir? then root[r].entries else map[]
  }

  /** Write a view back; `made` says that the repository directory exists by now. */
  function Store(root: Tree, r: string, a: string, v: View, made: bool): Tree {
    match v
    case Present(n) => root[r := Dir(Architectures(root, r)[a := n])]
    case _ => if made && r !in root then root[r := Dir(map[])] else root
  }

  /** A step from `v` to `w` that a target operation may take: it never removes the
      directory and never touches an obstacle. */
  predicate Evolves(v: View, w: View) {
    && (w.Missing? ==> v.Missing?)
    && (v.Blocked? ==> w == v)
    && (w.Blocked? ==> w == v)
  }

  /** Storing a view shows exactly that view at its target. */
  lemma StoreView(root: Tree, r: string, a: string, v: View, made: bool)
    requires Evolves(ViewOf(root, r, a), v)
    ensures ViewOf(Store(root, r, a, v, made), r, a) == v
  {
  }

  /** Storing at one target is invisible at every other. */
  lemma StoreFrame(root: Tree, r: string, a: string, v: View, made: bool, q: string, b: string)
    requires Evolves(ViewOf(root, r, a), v)
    requires (q, b) != (r, a)
    ensures ViewOf(Store(root, r, a, v, made), q, b) == ViewOf(root, q, b)
  {
  }

  lemma StoreTwice(root: Tree, r: string, a: string, v: View, made: bool, w: View, later: bool)
    requires Evolves(ViewOf(root, r, a), v) && Evolves(v, w)
    requires made ==> later
    ensures Store(Store(root, r, a, v, made), r, a, w, later) == Store(root, r, a, w, later)
  {
    if v.Present? {
      assert w.Present?;
      assert Architectures(root, r)[a := v.node][a := w.node] == Architectures(root, r)[a := w.node];
    }
  }

  /** Two trees with the same repositories and the same view everywhere are equal. */
  lemma TreeExtensionality(s: Tree, t: Tree)
    requires s.Keys == t.Keys
    requires forall r, a :: ViewOf(s, r, a) == ViewOf(t, r, a)
    ensures s == t
  {
    forall r | r in s
      ensures s[r] == t[r]
    {
      assert ViewOf(s, r, "") == ViewOf(t, r, "");
      if s[r].Dir? {
        forall a
          ensures a in s[r].entries <==> a in t[r].entries
          ensures a in s[r].entries ==> s[r].entries[a] == t[r].entries[a]
        {
          assert ViewOf(s, r, a) == ViewOf(t, r, a);
        }
        assert s[r].entries == t[r].entries;
      }
    }
  }
}
