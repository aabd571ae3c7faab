/** `ParsePackageInfo`: the `.PKGINFO` of a package archive, from the lines a scanner delivers. */
module PackageInfo {
  import opened FileTree
  import opened Dependencies
  import Text

  const MAX_METADATA_BYTES := 262144

  datatype Parsed =
    | Ok(pkg: Package)
    | MetadataTooLong
    | InvalidLine(line: string)
    | TooManyDependencies
    | DependenciesTooLong
    | ScanFailed
    | Incomplete

  // ---------- one line ----------

  /** `unicode.IsSpace`. */
  predicate IsSpace(c: char) {
    || '\t' <= c <= '\r' || c == ' ' || c == '\U{0085}' || c == '\U{00A0}' || c == '\U{1680}'
    || '\U{2000}' <= c <= '\U{200A}' || c == '\U{2028}' || c == '\U{2029}' || c == '\U{202F}'
    || c == '\U{205F}' || c == '\U{3000}'
  }

  /** `strings.TrimSpace`. */
  function TrimSpace(s: string): string { TrimBetween(s, 0, |s|) }

  function TrimBetween(s: string, i: nat, j: nat): string
    requires i <= j <= |s|
    decreases j - i
  {
    if i < j && IsSpace(s[i]) then TrimBetween(s, i + 1, j)
    else if i < j && IsSpace(s[j - 1]) then TrimBetween(s, i, j - 1)
    else s[i..j]
  }

  predicate SeparatorAt(s: string, k: nat) {
    k + 3 <= |s| && s[k] == ' ' && s[k + 1] == '=' && s[k + 2] == ' '
  }

  predicate HasSeparator(s: string) { exists k: nat | k < |s| :: SeparatorAt(s, k) }

  /** Where the first separator at or after `k` stands. */
  function Separator(s: string, k: nat): (at: nat)
    requires k <= |s|
    ensures k <= at <= |s|
    ensures forall j: nat | k <= j < at :: !SeparatorAt(s, j)
    ensures at < |s| ==> SeparatorAt(s, at)
    decreases |s| - k
  {
    if k == |s| || SeparatorAt(s, k) then k else Separator(s, k + 1)
  }

  /** What a line sets: nothing if it is blank, a comment, or not of the form `key = value`. */
  datatype Line = Ignored | Malformed | Sets(key: string, value: string)

  function ReadLine(line: string): Line {
    var t := TrimSpace(line);
    if t == "" || t[0] == '#' then Ignored
    else if Separator(t, 0) == |t| then Malformed
    else Sets(t[..Separator(t, 0)], t[Separator(t, 0) + 3..])
  }

  // ---------- the declarative reading of the first n lines ----------

  /** Every value set for a key, in order. */
  function Values(lines: seq<string>, n: nat, key: string): seq<string>
    requires n <= |lines|
  {
    if n == 0 then []
    else
      var line := ReadLine(lines[n - 1]);
      Values(lines, n - 1, key) + if line.Sets? && line.key == key then [line.value] else []
  }

  function Last(values: seq<string>): string {
    if |values| == 0 then "" else values[|values| - 1]
  }

  /** The bytes scanned, one for the end of each line included. */
  function Metadata(lines: seq<string>, n: nat): nat
    requires n <= |lines|
  {
    if n == 0 then 0 else Metadata(lines, n - 1) + Text.Size(lines[n - 1]) + 1
  }

  ghost predicate AllLinesValid(lines: seq<string>, n: nat)
    requires n <= |lines|
  {
    forall k: nat | k < n :: !ReadLine(lines[k]).Malformed?
  }

  /** The condition on a whole input that its lines must meet. */
  ghost predicate Acceptable(lines: seq<string>, n: nat)
    requires n <= |lines|
  {
    && Metadata(lines, n) <= MAX_METADATA_BYTES
    && AllLinesValid(lines, n)
    && |Values(lines, n, "depend")| <= MAX_DEPENDENCIES
    && Bytes(Values(lines, n, "depend")) <= MAX_DEPENDENCY_BYTES
  }

  /** Why an input whose first `n` lines were acceptable is rejected at the next. */
  function Reason(lines: seq<string>, n: nat): Parsed
    requires n < |lines|
  {
    if Metadata(lines, n + 1) > MAX_METADATA_BYTES then MetadataTooLong
    else if ReadLine(lines[n]).Malformed? then InvalidLine(TrimSpace(lines[n]))
    else if |Values(lines, n + 1, "depend")| > MAX_DEPENDENCIES then TooManyDependencies
    else DependenciesTooLong
  }

  function Described(lines: seq<string>, n: nat): Package
    requires n <= |lines|
  {
    Package(Last(Values(lines, n, "pkgname")), Last(Values(lines, n, "pkgver")), Last(Values(lines, n, "arch")),
            Last(Values(lines, n, "pkgdesc")), "", 0, Values(lines, n, "depend"))
  }

  /** What remains unacceptable, whatever follows. */
  lemma {:induction false} AcceptablePrefix(lines: seq<string>, n: nat, k: nat)
    requires k <= n <= |lines| && Acceptable(lines, n)
    ensures Acceptable(lines, k)
  {
    if k < n {
      var before, all := Values(lines, n - 1, "depend"), Values(lines, n, "depend");
      BytesOfPrefix(all, |before|);
      assert all[..|before|] == before;
      AcceptablePrefix(lines, n - 1, k);
    }
  }

  // ---------- the loop ----------

  ghost predicate Outcome(lines: seq<string>, scanned: bool, r: Parsed) {
    if Acceptable(lines, |lines|) then
      var pkg := Described(lines, |lines|);
      r == if !scanned then ScanFailed
           else if |pkg.name| == 0 || |pkg.version| == 0 || |pkg.architecture| == 0 then Incomplete
           else Ok(pkg)
    else
      exists n: nat | n < |lines| :: Acceptable(lines, n) && !Acceptable(lines, n + 1) && r == Reason(lines, n)
  }

  lemma RejectedAt(lines: seq<string>, n: nat, scanned: bool)
    requires n < |lines| && Acceptable(lines, n) && !Acceptable(lines, n + 1)
    ensures Outcome(lines, scanned, Reason(lines, n))
  {
    if Acceptable(lines, |lines|) { AcceptablePrefix(lines, |lines|, n + 1); }
  }

  lemma MetadataStep(lines: seq<string>, n: nat, scanned: bool)
    requires n < |lines| && Acceptable(lines, n)
    ensures Metadata(lines, n + 1) == Metadata(lines, n) + Text.Size(lines[n]) + 1
    ensures Metadata(lines, n + 1) > MAX_METADATA_BYTES ==> Outcome(lines, scanned, MetadataTooLong)
  {
    if Metadata(lines, n + 1) > MAX_METADATA_BYTES { RejectedAt(lines, n, scanned); }
  }

  lemma SetsNothing(lines: seq<string>, n: nat, key: string)
    requires n < |lines| && !ReadLine(lines[n]).Sets?
    ensures Values(lines, n + 1, key) == Values(lines, n, key)
  {
  }

  lemma IgnoredStep(lines: seq<string>, n: nat)
    requires n < |lines| && Acceptable(lines, n) && Metadata(lines, n + 1) <= MAX_METADATA_BYTES
    requires ReadLine(lines[n]).Ignored?
    ensures Acceptable(lines, n + 1) && Described(lines, n + 1) == Described(lines, n)
  {
    SetsNothing(lines, n, "pkgname");
    SetsNothing(lines, n, "pkgver");
    SetsNothing(lines, n, "arch");
    SetsNothing(lines, n, "pkgdesc");
    SetsNothing(lines, n, "depend");
    assert AllLinesValid(lines, n + 1);
    hide Values, Metadata, ReadLine, AllLinesValid, Bytes;
  }

  lemma MalformedStep(lines: seq<string>, n: nat, scanned: bool)
    requires n < |lines| && Acceptable(lines, n) && Metadata(lines, n + 1) <= MAX_METADATA_BYTES
    requires ReadLine(lines[n]).Malformed?
    ensures Outcome(lines, scanned, InvalidLine(TrimSpace(lines[n])))
  {
    assert !AllLinesValid(lines, n + 1);
    RejectedAt(lines, n, scanned);
  }

  /** The package with one more value set. */
  function Set(pkg: Package, key: string, value: string): Package {
    if key == "pkgname" then pkg.(name := value)
    else if key == "pkgver" then pkg.(version := value)
    else if key == "arch" then pkg.(architecture := value)
    else if key == "pkgdesc" then pkg.(description := value)
    else if key == "depend" then pkg.(depends := pkg.depends + [value])
    else pkg
  }

  lemma SetOthers(lines: seq<string>, n: nat, key: string, value: string, other: string)
    requires n < |lines| && ReadLine(lines[n]) == Sets(key, value)
    ensures Values(lines, n + 1, other) ==
              if other == key then Values(lines, n, other) + [value] else Values(lines, n, other)
  {
  }

  lemma SetStep(lines: seq<string>, n: nat, key: string, value: string)
    requires n < |lines| && ReadLine(lines[n]) == Sets(key, value)
    ensures Described(lines, n + 1) == Set(Described(lines, n), key, value)
  {
    SetOthers(lines, n, key, value, "pkgname");
    SetOthers(lines, n, key, value, "pkgver");
    SetOthers(lines, n, key, value, "arch");
    SetOthers(lines, n, key, value, "pkgdesc");
    SetOthers(lines, n, key, value, "depend");
    hide Values;
  }

  lemma OtherKeyStep(lines: seq<string>, n: nat, key: string, value: string)
    requires n < |lines| && Acceptable(lines, n) && Metadata(lines, n + 1) <= MAX_METADATA_BYTES
    requires ReadLine(lines[n]) == Sets(key, value) && key != "depend"
    ensures Acceptable(lines, n + 1)
  {
    assert Values(lines, n + 1, "depend") == Values(lines, n, "depend");
  }

  /** One more dependency breaks a limit, or is acceptable. */
  lemma DependLimits(lines: seq<string>, n: nat, value: string)
    requires n < |lines| && Acceptable(lines, n) && Metadata(lines, n + 1) <= MAX_METADATA_BYTES
    requires ReadLine(lines[n]) == Sets("depend", value)
    ensures var depends := Values(lines, n, "depend"); var bytes := Bytes(depends) + Text.Size(value);
            && (Acceptable(lines, n + 1) <==> |depends| < MAX_DEPENDENCIES && bytes <= MAX_DEPENDENCY_BYTES)
            && Reason(lines, n) == (if |depends| >= MAX_DEPENDENCIES then TooManyDependencies else DependenciesTooLong)
            && Bytes(depends + [value]) == bytes
  {
    var depends := Values(lines, n, "depend");
    assert Values(lines, n + 1, "depend") == depends + [value];
    assert AllLinesValid(lines, n + 1);
    hide Bytes, Metadata, Values, ReadLine, AllLinesValid;
    BytesNext(depends, value);
  }

  lemma DependStep(lines: seq<string>, n: nat, key: string, value: string, scanned: bool)
    requires n < |lines| && Acceptable(lines, n) && Metadata(lines, n + 1) <= MAX_METADATA_BYTES
    requires ReadLine(lines[n]) == Sets(key, value) && key == "depend"
    ensures var depends := Described(lines, n).depends; var bytes := Bytes(depends) + Text.Size(value);
            if |depends| >= MAX_DEPENDENCIES then Outcome(lines, scanned, TooManyDependencies)
            else if bytes > MAX_DEPENDENCY_BYTES then Outcome(lines, scanned, DependenciesTooLong)
            else Acceptable(lines, n + 1) && Bytes(depends + [value]) == bytes
  {
    DependLimits(lines, n, value);
    hide Bytes, Metadata, Values, ReadLine, Acceptable, Reason, Outcome, Last;
    if !Acceptable(lines, n + 1) { RejectedAt(lines, n, scanned); }
  }

  /** Accepts exactly the acceptable inputs that set a name, version and architecture; and
      rejects any other for the first line that makes it unacceptable. */
  method ParsePackageInfo(lines: seq<string>, scanned: bool) returns (r: Parsed)
    ensures Outcome(lines, scanned, r)
  {
    var pkg := Package("", "", "", "", "", 0, []);
    var metadataBytes: nat, dependencyBytes: nat := 0, 0;
    for i := 0 to |lines|
      invariant Acceptable(lines, i) && pkg == Described(lines, i)
      invariant metadataBytes == Metadata(lines, i) && dependencyBytes == Bytes(pkg.depends)
    {
      hide Described, Acceptable, Bytes, Outcome, Metadata, ReadLine, Separator;
      MetadataStep(lines, i, scanned);
      metadataBytes := metadataBytes + Text.Size(lines[i]) + 1;
      if metadataBytes > MAX_METADATA_BYTES {
        return MetadataTooLong;
      }
      match ReadLine(lines[i]) {
        case Ignored => IgnoredStep(lines, i);
        case Malformed =>
          MalformedStep(lines, i, scanned);
          return InvalidLine(TrimSpace(lines[i]));
        case Sets(key, value) =>
          SetStep(lines, i, key, value);
          if key == "depend" {
            DependStep(lines, i, key, value, scanned);
            if |pkg.depends| >= MAX_DEPENDENCIES {
              return TooManyDependencies;
            }
            dependencyBytes := dependencyBytes + Text.Size(value);
            if dependencyBytes > MAX_DEPENDENCY_BYTES {
              return DependenciesTooLong;
            }
          } else {
            OtherKeyStep(lines, i, key, value);
          }
          pkg := Set(pkg, key, value);
      }
    }
    if !scanned {
      return ScanFailed;
    }
    if |pkg.name| == 0 || |pkg.version| == 0 || |pkg.architecture| == 0 {
      return Incomplete;
    }
    return Ok(pkg);
  }

  // ---------- what the reading promises ----------

  lemma {:induction false} TrimBetweenExact(s: string, i: nat, j: nat) returns (k: nat, l: nat)
    requires i <= j <= |s|
    ensures i <= k <= l <= j && TrimBetween(s, i, j) == s[k..l]
    ensures forall m | i <= m < k || l <= m < j :: IsSpace(s[m])
    ensures k < l ==> !IsSpace(s[k]) && !IsSpace(s[l - 1])
    decreases j - i
  {
    hide IsSpace;
    if i < j && IsSpace(s[i]) {
      k, l := TrimBetweenExact(s, i + 1, j);
    } else if i < j && IsSpace(s[j - 1]) {
      k, l := TrimBetweenExact(s, i, j - 1);
    } else {
      k, l := i, j;
    }
  }

  /** Trimming takes the white space off both ends and nothing else. */
  lemma TrimSpaceExact(s: string) returns (i: nat, j: nat)
    ensures i <= j <= |s| && TrimSpace(s) == s[i..j]
    ensures forall k | 0 <= k < i || j <= k < |s| :: IsSpace(s[k])
    ensures i < j ==> !IsSpace(s[i]) && !IsSpace(s[j - 1])
  {
    i, j := TrimBetweenExact(s, 0, |s|);
  }

  lemma SeparatorText(t: string, at: nat)
    requires at <= |t| && (at < |t| ==> SeparatorAt(t, at))
    ensures at < |t| ==> at + 3 <= |t| && t[at..at + 3] == " = "
  {
  }

  /** A line is malformed exactly when it is neither blank nor a comment and has no separator;
      otherwise it is cut at the first one. */
  lemma ReadLineExact(line: string)
    ensures var t := TrimSpace(line);
            match ReadLine(line)
            case Ignored => t == "" || t[0] == '#'
            case Malformed => t != "" && t[0] != '#' && !HasSeparator(t)
            case Sets(key, value) =>
              t != "" && t[0] != '#' && t == key + " = " + value && forall k: nat | k < |key| :: !SeparatorAt(t, k)
  {
    hide TrimSpace, IsSpace, SeparatorAt;
    var t := TrimSpace(line);
    var at := Separator(t, 0);
    assert at < |t| ==> t[at..at + 3] == " = " by { SeparatorText(t, at); }
    if at < |t| { assert t == t[..at] + t[at..at + 3] + t[at + 3..]; }
  }

  /** The whole-input condition for acceptance. */
  lemma AcceptedExactly(lines: seq<string>, scanned: bool, r: Parsed)
    requires Outcome(lines, scanned, r)
    ensures r.Ok? <==>
            && scanned && Acceptable(lines, |lines|)
            && Last(Values(lines, |lines|, "pkgname")) != "" && Last(Values(lines, |lines|, "pkgver")) != ""
            && Last(Values(lines, |lines|, "arch")) != ""
    ensures r.Ok? ==> r.pkg == Described(lines, |lines|)
    ensures r.Ok? ==> r.pkg.depends == Values(lines, |lines|, "depend")
    ensures Acceptable(lines, |lines|) <==>
            && Metadata(lines, |lines|) <= 262144
            && (forall k: nat | k < |lines| :: var t := TrimSpace(lines[k]); t == "" || t[0] == '#' || HasSeparator(t))
            && |Values(lines, |lines|, "depend")| <= 256
            && Bytes(Values(lines, |lines|, "depend")) <= 65536
    ensures r.ScanFailed? <==> Acceptable(lines, |lines|) && !scanned
  {
    forall k: nat | k < |lines|
      ensures ReadLine(lines[k]).Malformed? <==>
                var t := TrimSpace(lines[k]); !(t == "" || t[0] == '#' || HasSeparator(t))
    {
      MalformedExactly(lines[k]);
    }
  }

  lemma MalformedExactly(line: string)
    ensures ReadLine(line).Malformed? <==> var t := TrimSpace(line); !(t == "" || t[0] == '#' || HasSeparator(t))
  {
    ReadLineExact(line);
    hide TrimSpace, ReadLine;
    var t := TrimSpace(line);
    if ReadLine(line).Sets? { assert SeparatorAt(t, |ReadLine(line).key|); }
  }

  /** The first line that makes an input unacceptable decides the error: its length before its
      form, its form before the dependency limits, their number before their bytes. */
  lemma RejectedFor(lines: seq<string>, scanned: bool, r: Parsed, n: nat)
    requires Outcome(lines, scanned, r) && n < |lines| && Acceptable(lines, n) && !Acceptable(lines, n + 1)
    ensures var t, depends := TrimSpace(lines[n]), Values(lines, n + 1, "depend");
            var long, form := Metadata(lines, n + 1) > 262144, t == "" || t[0] == '#' || HasSeparator(t);
            && (r == MetadataTooLong <==> long)
            && (r.InvalidLine? <==> !long && !form) && (r.InvalidLine? ==> r.line == t)
            && (r == TooManyDependencies <==> !long && form && |depends| > 256)
            && (r == DependenciesTooLong <==> !long && form && |depends| <= 256 && Bytes(depends) > 65536)
  {
    hide Values, Metadata, Bytes, HasSeparator, TrimSpace;
    RejectedFirst(lines, scanned, r, n);
    MalformedExactly(lines[n]);
    hide ReadLine, Outcome;
    assert AllLinesValid(lines, n + 1) <==> AllLinesValid(lines, n) && !ReadLine(lines[n]).Malformed?;
    hide AllLinesValid;
  }

  lemma RejectedFirst(lines: seq<string>, scanned: bool, r: Parsed, n: nat)
    requires Outcome(lines, scanned, r) && n < |lines| && Acceptable(lines, n) && !Acceptable(lines, n + 1)
    ensures r == Reason(lines, n)
  {
    hide Acceptable, Reason, Described;
    if Acceptable(lines, |lines|) { AcceptablePrefix(lines, |lines|, n + 1); }
    var m: nat :| m < |lines| && Acceptable(lines, m) && !Acceptable(lines, m + 1) && r == Reason(lines, m);
    if m < n { AcceptablePrefix(lines, n, m + 1); }
    if n < m { AcceptablePrefix(lines, m, n + 1); }
  }

  /** A key has the value it is last set to. */
  lemma {:induction false} LastValue(lines: seq<string>, n: nat, k: nat, key: string)
    requires k < n <= |lines| && ReadLine(lines[k]).Sets? && ReadLine(lines[k]).key == key
    requires forall j: nat | k < j < n :: !(ReadLine(lines[j]).Sets? && ReadLine(lines[j]).key == key)
    ensures Last(Values(lines, n, key)) == ReadLine(lines[k]).value
  {
    hide ReadLine;
    if n > k + 1 { LastValue(lines, n - 1, k, key); }
  }

  // ---------- round trip ----------

  predicate Trimmed(s: string) { |s| > 0 && !IsSpace(s[0]) && !IsSpace(s[|s| - 1]) }

  predicate IsKey(key: string) {
    Trimmed(key) && key[0] != '#' && forall k | 0 <= k < |key| :: key[k] != ' '
  }

  function Assign(key: string, value: string): string { key + " = " + value }

  function Print(sets: seq<(string, string)>): seq<string> {
    if |sets| == 0 then []
    else Print(sets[..|sets| - 1]) + [Assign(sets[|sets| - 1].0, sets[|sets| - 1].1)]
  }

  /** The values of a key in a list of assignments. */
  function Gather(sets: seq<(string, string)>, key: string): seq<string> {
    if |sets| == 0 then []
    else Gather(sets[..|sets| - 1], key) + if sets[|sets| - 1].0 == key then [sets[|sets| - 1].1] else []
  }

  lemma AssignRead(key: string, value: string)
    requires IsKey(key) && Trimmed(value)
    ensures ReadLine(Assign(key, value)) == Sets(key, value)
  {
    var t := Assign(key, value);
    assert t[0] == key[0] && t[|t| - 1] == value[|value| - 1];
    assert TrimSpace(t) == t[0..|t|] == t;
    assert SeparatorAt(t, |key|);
    forall k: nat | k < |key|
      ensures !SeparatorAt(t, k)
    {
      assert t[k] == key[k];
    }
    assert Separator(t, 0) == |key|;
    assert t[..|key|] == key && t[|key| + 3..] == value;
  }

  lemma {:induction false} ValuesOfPrefix(lines: seq<string>, more: seq<string>, n: nat, key: string)
    requires n <= |lines|
    ensures Values(lines + more, n, key) == Values(lines, n, key)
  {
    if n > 0 {
      ValuesOfPrefix(lines, more, n - 1, key);
    }
  }

  /** Reading printed assignments gives every key its values in order, and no line is refused. */
  lemma {:induction false} PrintedRead(sets: seq<(string, string)>, key: string)
    requires forall i | 0 <= i < |sets| :: IsKey(sets[i].0) && Trimmed(sets[i].1)
    ensures |Print(sets)| == |sets| && AllLinesValid(Print(sets), |sets|)
    ensures Values(Print(sets), |sets|, key) == Gather(sets, key)
  {
    if |sets| > 0 {
      var earlier, last := sets[..|sets| - 1], sets[|sets| - 1];
      PrintedRead(earlier, key);
      AssignRead(last.0, last.1);
      ValuesOfPrefix(Print(earlier), [Assign(last.0, last.1)], |earlier|, key);
      OneMoreValid(Print(earlier), Assign(last.0, last.1));
      hide IsKey, Trimmed, ReadLine, AllLinesValid, Assign;
    }
  }

  lemma OneMoreValid(lines: seq<string>, line: string)
    requires AllLinesValid(lines, |lines|) && !ReadLine(line).Malformed?
    ensures AllLinesValid(lines + [line], |lines| + 1)
  {
    hide ReadLine;
  }

  lemma {:induction false} GatherAppend(a: seq<(string, string)>, b: seq<(string, string)>, key: string)
    ensures Gather(a + b, key) == Gather(a, key) + Gather(b, key)
  {
    if |b| == 0 {
      assert a + b == a;
    } else {
      assert (a + b)[..|a + b| - 1] == a + b[..|b| - 1];
      GatherAppend(a, b[..|b| - 1], key);
    }
  }

  function AllOf(key: string, values: seq<string>): seq<(string, string)> {
    seq(|values|, i requires 0 <= i < |values| => (key, values[i]))
  }

  lemma {:induction false} GatherAllOf(name: string, values: seq<string>, key: string)
    ensures Gather(AllOf(name, values), key) == if key == name then values else []
  {
    if |values| > 0 {
      assert AllOf(name, values)[..|values| - 1] == AllOf(name, values[..|values| - 1]);
      GatherAllOf(name, values[..|values| - 1], key);
    }
  }

  /** The assignments that describe a package. */
  function Assignments(p: Package): seq<(string, string)> {
    AllOf("pkgname", [p.name]) + AllOf("pkgver", [p.version]) + AllOf("arch", [p.architecture])
    + AllOf("pkgdesc", if p.description == "" then [] else [p.description]) + AllOf("depend", p.depends)
  }

  lemma AssignmentsGathered(p: Package, key: string)
    ensures Gather(Assignments(p), key) ==
            (if key == "pkgname" then [p.name] else []) + (if key == "pkgver" then [p.version] else [])
            + (if key == "arch" then [p.architecture] else [])
            + (if key == "pkgdesc" && p.description != "" then [p.description] else [])
            + (if key == "depend" then p.depends else [])
  {
    var name, version := AllOf("pkgname", [p.name]), AllOf("pkgver", [p.version]);
    var arch := AllOf("arch", [p.architecture]);
    var description := if p.description == "" then [] else [p.description];
    GatherAppend(name, version, key);
    GatherAppend(name + version, arch, key);
    GatherAppend(name + version + arch, AllOf("pkgdesc", description), key);
    GatherAppend(name + version + arch + AllOf("pkgdesc", description), AllOf("depend", p.depends), key);
    GatherAllOf("pkgname", [p.name], key);
    GatherAllOf("pkgver", [p.version], key);
    GatherAllOf("arch", [p.architecture], key);
    GatherAllOf("pkgdesc", description, key);
    GatherAllOf("depend", p.depends, key);
    hide Gather, AllOf;
  }

  predicate Printable(p: Package) {
    && Trimmed(p.name) && Trimmed(p.version) && Trimmed(p.architecture)
    && (p.description == "" || Trimmed(p.description)) && p.filename == "" && p.size == 0
    && forall i | 0 <= i < |p.depends| :: Trimmed(p.depends[i])
  }

  lemma AssignmentsClean(p: Package)
    requires Printable(p)
    ensures forall i | 0 <= i < |Assignments(p)| :: IsKey(Assignments(p)[i].0) && Trimmed(Assignments(p)[i].1)
  {
    assert IsKey("pkgname") && IsKey("pkgver") && IsKey("arch") && IsKey("pkgdesc") && IsKey("depend");
    hide IsKey, Trimmed;
  }

  lemma NotEmpty(p: Package)
    requires Printable(p)
    ensures |p.name| > 0 && |p.version| > 0 && |p.architecture| > 0
  {
  }

  lemma Printed(p: Package, sets: seq<(string, string)>, key: string)
    requires sets == Assignments(p) && forall i | 0 <= i < |sets| :: IsKey(sets[i].0) && Trimmed(sets[i].1)
    ensures |Print(sets)| == |sets| && AllLinesValid(Print(sets), |sets|)
    ensures Values(Print(sets), |sets|, key) ==
            (if key == "pkgname" then [p.name] else []) + (if key == "pkgver" then [p.version] else [])
            + (if key == "arch" then [p.architecture] else [])
            + (if key == "pkgdesc" && p.description != "" then [p.description] else [])
            + (if key == "depend" then p.depends else [])
  {
    PrintedRead(sets, key);
    AssignmentsGathered(p, key);
  }

  lemma ScalarsPrinted(p: Package)
    requires Printable(p)
    ensures var lines := Print(Assignments(p));
            && AllLinesValid(lines, |lines|)
            && Last(Values(lines, |lines|, "pkgname")) == p.name && Last(Values(lines, |lines|, "pkgver")) == p.version
            && Last(Values(lines, |lines|, "arch")) == p.architecture
  {
    var sets := Assignments(p);
    AssignmentsClean(p);
    Printed(p, sets, "pkgname");
    Printed(p, sets, "pkgver");
    Printed(p, sets, "arch");
    hide Print, Values, Assignments, IsKey, Trimmed, AllLinesValid;
  }

  lemma ListsPrinted(p: Package)
    requires Printable(p)
    ensures var lines := Print(Assignments(p));
            Last(Values(lines, |lines|, "pkgdesc")) == p.description && Values(lines, |lines|, "depend") == p.depends
  {
    var sets := Assignments(p);
    AssignmentsClean(p);
    Printed(p, sets, "pkgdesc");
    Printed(p, sets, "depend");
    hide Print, Values, Assignments, IsKey, Trimmed, AllLinesValid;
  }

  /** Parsing the printed assignments of a package gives it back, its dependencies in order,
      as long as the limits allow. */
  lemma PrintedParses(p: Package, r: Parsed)
    requires Printable(p)
    ensures var lines := Print(Assignments(p));
            && Judge(p.depends) == Within && Metadata(lines, |lines|) <= MAX_METADATA_BYTES && Outcome(lines, true, r)
            ==> r == Ok(p)
  {
    ScalarsPrinted(p);
    ListsPrinted(p);
    NotEmpty(p);
    hide Print, Values, Assignments, Printable, Metadata, AllLinesValid, Last, Judge;
  }
}
