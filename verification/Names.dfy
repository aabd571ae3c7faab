/** The names pkgdepot gives to files, and why no two kinds of them can clash.

    A repository or architecture name ("component") and an uploaded package filename are
    checked against two patterns; every other name in a repository directory is derived
    from them by appending a suffix. */
module Names {

  predicate AlphaNumeric(c: char) {
    'a' <= c <= 'z' || 'A' <= c <= 'Z' || '0' <= c <= '9'
  }

  predicate ComponentChar(c: char) {
    AlphaNumeric(c) || c in "_.+-"
  }

  /** `^[A-Za-z0-9][A-Za-z0-9_.+-]*$` */
  predicate Component(s: string) {
    s != "" && AlphaNumeric(s[0]) && forall i | 0 <= i < |s| :: ComponentChar(s[i])
  }

  predicate HasSuffix(s: string, suffix: string) {
    |suffix| <= |s| && s[|s| - |suffix|..] == suffix
  }

  /** `\.pkg\.tar(?:\.gz|\.bz2|\.xz|\.zst)?$` on a name that is its own base name. */
  predicate PackageFile(s: string) {
    && '/' !in s
    && (|| HasSuffix(s, ".pkg.tar")
        || HasSuffix(s, ".pkg.tar.gz")
        || HasSuffix(s, ".pkg.tar.bz2")
        || HasSuffix(s, ".pkg.tar.xz")
        || HasSuffix(s, ".pkg.tar.zst"))
  }

  /** A stem, `.pkg.tar`, and at most one of four compressions. */
  lemma PackageFileExactly(s: string)
    ensures PackageFile(s) <==>
            && '/' !in s
            && exists stem, compression | compression in {"", ".gz", ".bz2", ".xz", ".zst"} ::
                 IsPackageName(s, stem, compression)
  {
    assert ".pkg.tar" + "" == ".pkg.tar" && ".pkg.tar" + ".gz" == ".pkg.tar.gz";
    assert ".pkg.tar" + ".bz2" == ".pkg.tar.bz2" && ".pkg.tar" + ".xz" == ".pkg.tar.xz";
    assert ".pkg.tar" + ".zst" == ".pkg.tar.zst";
    PackageNameSuffix(s, "");
    PackageNameSuffix(s, ".gz");
    PackageNameSuffix(s, ".bz2");
    PackageNameSuffix(s, ".xz");
    PackageNameSuffix(s, ".zst");
    hide HasSuffix, IsPackageName;
  }

  lemma PackageNameSuffix(s: string, compression: string)
    ensures HasSuffix(s, ".pkg.tar" + compression) <==> exists stem :: IsPackageName(s, stem, compression)
  {
    var suffix := ".pkg.tar" + compression;
    if HasSuffix(s, suffix) {
      assert IsPackageName(s, s[..|s| - |suffix|], compression);
    }
    if stem :| IsPackageName(s, stem, compression) {
      assert s[|stem|..] == suffix;
    }
  }

  predicate IsPackageName(s: string, stem: string, compression: string) { s == stem + (".pkg.tar" + compression) }

  function DatabaseName(repository: string): string { repository + ".db.tar.gz" }

  function LinkName(repository: string): string { repository + ".db" }

  function SignatureName(filename: string): string { filename + ".sig" }

  function TemporaryName(repository: string, suffix: string): string {
    "." + repository + "-rename-" + suffix
  }

  const GLOBAL_LOCK: string := "repositories.lock"

  function TargetLock(repository: string, architecture: string): string {
    repository + "-" + architecture + ".lock"
  }

  function MutexKey(repository: string, architecture: string): string {
    repository + "/" + architecture
  }

  // ---------- tails: how the derived names are told apart ----------

  lemma SuffixChar(s: string, suffix: string, k: nat)
    requires HasSuffix(s, suffix) && k < |suffix|
    ensures s[|s| - |suffix| + k] == suffix[k]
  {
    assert s[|s| - |suffix|..][k] == s[|s| - |suffix| + k];
  }

  /** The characters at fixed distances from the end that separate the four kinds. */
  lemma PackageTail(f: string)
    requires PackageFile(f)
    ensures |f| >= 8
    ensures f[|f| - 1] in "rz2t"
    ensures f[|f| - 1] == 'z' ==> |f| >= 11 && f[|f| - 2] in "gx"
    ensures f[|f| - 1] == 'z' && f[|f| - 2] == 'g' ==> f[|f| - 8] == 'g'
  {
    if HasSuffix(f, ".pkg.tar") {
      SuffixChar(f, ".pkg.tar", 7);
    } else if HasSuffix(f, ".pkg.tar.gz") {
      SuffixChar(f, ".pkg.tar.gz", 10);
      SuffixChar(f, ".pkg.tar.gz", 9);
      SuffixChar(f, ".pkg.tar.gz", 3);
    } else if HasSuffix(f, ".pkg.tar.bz2") {
      SuffixChar(f, ".pkg.tar.bz2", 11);
    } else if HasSuffix(f, ".pkg.tar.xz") {
      SuffixChar(f, ".pkg.tar.xz", 10);
      SuffixChar(f, ".pkg.tar.xz", 9);
    } else {
      SuffixChar(f, ".pkg.tar.zst", 11);
    }
  }

  /** Package, signature, database and link names never coincide, whichever repositories
      and packages they belong to. */
  lemma NamesDisjoint(f: string, g: string, r: string, q: string)
    requires PackageFile(f)
    ensures f != SignatureName(g) && f != DatabaseName(r) && f != LinkName(r)
    ensures SignatureName(g) != DatabaseName(r) && SignatureName(g) != LinkName(r)
    ensures DatabaseName(r) != LinkName(q)
  {
    PackageTail(f);
    var s, d, l := SignatureName(g), DatabaseName(r), LinkName(r);
    assert s[|s| - 1] == 'g';
    assert d[|d| - 1] == 'z' && d[|d| - 2] == 'g' && d[|d| - 8] == 'b';
    assert l[|l| - 1] == 'b';
    DatabaseIsNoLink(r, q);
  }

  lemma DatabaseIsNoLink(r: string, q: string)
    ensures DatabaseName(r) != LinkName(q)
  {
    var d, l := DatabaseName(r), LinkName(q);
    assert d[|d| - 1] == 'z' && l[|l| - 1] == 'b';
  }

  lemma AppendInjective(a: string, b: string, suffix: string)
    requires a + suffix == b + suffix
    ensures a == b
  {
    assert |a| == |b|;
    assert a == (a + suffix)[..|a|] && b == (b + suffix)[..|b|];
  }

  lemma DerivedNamesInjective(a: string, b: string)
    ensures DatabaseName(a) == DatabaseName(b) ==> a == b
    ensures LinkName(a) == LinkName(b) ==> a == b
    ensures SignatureName(a) == SignatureName(b) ==> a == b
  {
    if DatabaseName(a) == DatabaseName(b) { AppendInjective(a, b, ".db.tar.gz"); }
    if LinkName(a) == LinkName(b) { AppendInjective(a, b, ".db"); }
    if SignatureName(a) == SignatureName(b) { AppendInjective(a, b, ".sig"); }
  }

  /** The snapshot directory of a rename is never taken for a repository. */
  lemma TemporaryIsNoComponent(repository: string, suffix: string)
    ensures !Component(TemporaryName(repository, suffix))
  {
    assert TemporaryName(repository, suffix)[0] == '.';
  }

  // ---------- lock names ----------

  /** A component contains no slash, so the mutex key identifies its target. */
  lemma MutexKeyInjective(r: string, a: string, q: string, b: string)
    requires Component(r) && Component(a) && Component(q) && Component(b)
    requires MutexKey(r, a) == MutexKey(q, b)
    ensures r == q && a == b
  {
    var k := MutexKey(r, a);
    assert k[|r|] == '/' && k[|q|] == '/';
    assert forall i | 0 <= i < |q| :: k[i] == q[i] && q[i] != '/';
    assert forall i | 0 <= i < |r| :: k[i] == r[i] && r[i] != '/';
    assert r == k[..|r|] && q == k[..|q|];
    assert a == k[|r| + 1..] && b == k[|q| + 1..];
  }

  /** `a` begins with `x` between hyphens where `q` continues `r` by it. */
  predicate HyphenMoved(r: string, a: string, q: string, b: string, x: string) {
    q == r + "-" + x && a == x + "-" + b
  }

  lemma HyphenMoves(r: string, a: string, q: string, b: string)
    requires TargetLock(r, a) == TargetLock(q, b) && |r| < |q|
    ensures exists x :: HyphenMoved(r, a, q, b, x)
  {
    var k, l := r + "-" + a, q + "-" + b;
    AppendInjective(k, l, ".lock");
    assert k[..|r|] == r && l[..|q|] == q && k[|r|] == '-' && l[|q|] == '-';
    var x := q[|r| + 1..];
    assert q == r + "-" + x;
    assert a == k[|r| + 1..] == l[|r| + 1..] == x + "-" + b;
    assert HyphenMoved(r, a, q, b, x);
  }

  /** The lock file name does not identify its target: targets of different repositories share
      one exactly if a hyphenated part can move from the one's architecture to the other's
      repository. */
  lemma TargetLockCollision(r: string, a: string, q: string, b: string)
    requires r != q
    ensures TargetLock(r, a) == TargetLock(q, b) <==>
            (exists x :: HyphenMoved(r, a, q, b, x)) || (exists x :: HyphenMoved(q, b, r, a, x))
  {
    assert r == TargetLock(r, a)[..|r|] && q == TargetLock(q, b)[..|q|];
    if TargetLock(r, a) == TargetLock(q, b) {
      if |r| < |q| { HyphenMoves(r, a, q, b); }
      if |q| < |r| { HyphenMoves(q, b, r, a); }
    }
    if x :| HyphenMoved(r, a, q, b, x) {
      assert r + "-" + (x + "-" + b) + ".lock" == r + "-" + x + "-" + b + ".lock";
    }
    if x :| HyphenMoved(q, b, r, a, x) {
      assert q + "-" + (x + "-" + a) + ".lock" == q + "-" + x + "-" + a + ".lock";
    }
  }

  /** Of one repository only the same target shares it. */
  lemma TargetLockOfRepository(r: string, a: string, b: string)
    requires TargetLock(r, a) == TargetLock(r, b)
    ensures a == b
  {
    AppendInjective(r + "-" + a, r + "-" + b, ".lock");
    assert a == (r + "-" + a)[|r| + 1..] == (r + "-" + b)[|r| + 1..] == b;
  }

  /** Two valid targets that share a lock file. */
  lemma TargetLockShared()
    ensures Component("a-b") && Component("c") && Component("a") && Component("b-c")
    ensures TargetLock("a-b", "c") == TargetLock("a", "b-c")
  {
    assert HyphenMoved("a", "b-c", "a-b", "c", "b");
    TargetLockCollision("a", "b-c", "a-b", "c");
  }

  /** No target's lock file is the global one. */
  lemma TargetLockNotGlobal(r: string, a: string)
    ensures TargetLock(r, a) != GLOBAL_LOCK
  {
    assert TargetLock(r, a)[|r|] == '-';
    assert forall i | 0 <= i < |GLOBAL_LOCK| :: GLOBAL_LOCK[i] != '-';
  }
}
