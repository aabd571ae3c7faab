/** `parseDescription`: one `desc` entry of a package database, from the lines a scanner
    delivers. */
module Description {
  import opened FileTree
  import opened Dependencies
  import Numbers
  import Text

  datatype Parsed =
    | Ok(pkg: Package)
    | TooManyDependencies
    | DependenciesTooLong
    | ScanFailed
    | Incomplete

  predicate IsHeader(line: string) {
    line != "" && line[0] == '%' && line[|line| - 1] == '%'
  }

  /** `strings.Trim(line, "%")`. */
  function Trim(line: string): string { TrimBetween(line, 0, |line|) }

  function TrimBetween(line: string, i: nat, j: nat): string
    requires i <= j <= |line|
    decreases j - i
  {
    if i < j && line[i] == '%' then TrimBetween(line, i + 1, j)
    else if i < j && line[j - 1] == '%' then TrimBetween(line, i, j - 1)
    else line[i..j]
  }

  // ---------- the declarative reading ----------

  /** The section in force before line `k`: the one the last header line before it names. */
  function InForce(lines: seq<string>, k: nat): string
    requires k <= |lines|
  {
    if k == 0 then ""
    else if IsHeader(lines[k - 1]) then Trim(lines[k - 1])
    else InForce(lines, k - 1)
  }

  /** Line `k` is a value of `section`. */
  predicate IsValue(lines: seq<string>, k: nat, section: string)
    requires k < |lines|
  {
    lines[k] != "" && !IsHeader(lines[k]) && section != "" && InForce(lines, k) == section
  }

  /** The values of a section among the first `n` lines, in order, however often its header is
      repeated. */
  function Values(lines: seq<string>, n: nat, section: string): seq<string>
    requires n <= |lines|
  {
    if n == 0 then []
    else Values(lines, n - 1, section) + if IsValue(lines, n - 1, section) then [lines[n - 1]] else []
  }

  function All(lines: seq<string>, section: string): seq<string> {
    Values(lines, |lines|, section)
  }

  function First(values: seq<string>): string {
    if |values| == 0 then "" else values[0]
  }

  /** What the lines describe. */
  function Meaning(lines: seq<string>, scanned: bool): Parsed {
    var depends := All(lines, "DEPENDS");
    var size := First(All(lines, "CSIZE"));
    var pkg := Package(
      First(All(lines, "NAME")), First(All(lines, "VERSION")), First(All(lines, "ARCH")),
      First(All(lines, "DESC")), First(All(lines, "FILENAME")),
      if size == "" then 0 else Numbers.ParseInt64(size), depends);
    match Judge(depends)
    case TooMany => TooManyDependencies
    case TooLong => DependenciesTooLong
    case Within => Conclude(pkg, scanned)
  }

  /** The checks after the last line. */
  function Conclude(pkg: Package, scanned: bool): Parsed {
    if !scanned then ScanFailed
    else if pkg.name == "" || pkg.version == "" then Incomplete
    else Ok(pkg)
  }

  // ---------- the loop ----------

  type Table = map<string, seq<string>>

  function Get(values: Table, section: string): seq<string> {
    if section in values then values[section] else []
  }

  /** `values[section] = append(values[section], line)`. */
  function Append(values: Table, section: string, line: string): Table {
    values[section := Get(values, section) + [line]]
  }

  ghost predicate Collected(values: Table, lines: seq<string>, n: nat)
    requires n <= |lines|
  {
    forall section :: Get(values, section) == Values(lines, n, section)
  }

  lemma NotCollected(values: Table, lines: seq<string>, n: nat)
    requires n < |lines| && Collected(values, lines, n)
    requires IsHeader(lines[n]) || lines[n] == "" || InForce(lines, n) == ""
    ensures Collected(values, lines, n + 1)
    ensures Values(lines, n + 1, "DEPENDS") == Values(lines, n, "DEPENDS")
  {
  }

  lemma Collect(values: Table, lines: seq<string>, n: nat, section: string)
    requires n < |lines| && Collected(values, lines, n) && IsValue(lines, n, section)
    ensures Collected(Append(values, section, lines[n]), lines, n + 1)
    ensures Values(lines, n + 1, section) == Get(values, section) + [lines[n]]
    ensures section != "DEPENDS" ==> Values(lines, n + 1, "DEPENDS") == Values(lines, n, "DEPENDS")
  {
    var longer := Append(values, section, lines[n]);
    forall other
      ensures Get(longer, other) == Values(lines, n + 1, other)
    {
      assert Get(values, other) == Values(lines, n, other);
    }
  }

  lemma {:induction false} ValuesPrefix(lines: seq<string>, n: nat, section: string)
    requires n <= |lines|
    ensures Values(lines, n, section) <= All(lines, section)
    decreases |lines| - n
  {
    if n < |lines| {
      ValuesPrefix(lines, n + 1, section);
      assert Values(lines, n, section) <= Values(lines, n + 1, section);
    }
  }

  /** A limit broken part way decides for the whole input. */
  lemma BrokenEarly(lines: seq<string>, n: nat, scanned: bool)
    requires n <= |lines| && Judge(Values(lines, n, "DEPENDS")) != Within
    ensures Meaning(lines, scanned) ==
            if Judge(Values(lines, n, "DEPENDS")).TooMany? then TooManyDependencies else DependenciesTooLong
  {
    ValuesPrefix(lines, n, "DEPENDS");
    var early, all := Values(lines, n, "DEPENDS"), All(lines, "DEPENDS");
    assert all == early + all[|early|..];
    JudgeSettled(early, all[|early|..]);
  }

  /** What the loop knows before line `n`. */
  ghost predicate Running(values: Table, section: string, dependencyBytes: nat,
                          lines: seq<string>, n: nat)
    requires n <= |lines|
  {
    && Collected(values, lines, n)
    && section == InForce(lines, n)
    && Judge(Get(values, "DEPENDS")) == Within
    && dependencyBytes == Bytes(Get(values, "DEPENDS"))
  }

  lemma NothingRead(lines: seq<string>)
    ensures Running(map[], "", 0, lines, 0)
  {
  }

  lemma HeaderStep(values: Table, section: string, dependencyBytes: nat, lines: seq<string>, n: nat)
    requires n < |lines| && Running(values, section, dependencyBytes, lines, n) && IsHeader(lines[n])
    ensures Running(values, Trim(lines[n]), dependencyBytes, lines, n + 1)
  {
    NotCollected(values, lines, n);
  }

  lemma SkipStep(values: Table, section: string, dependencyBytes: nat, lines: seq<string>, n: nat)
    requires n < |lines| && Running(values, section, dependencyBytes, lines, n) && !IsHeader(lines[n])
    requires |lines[n]| == 0 || |section| == 0
    ensures Running(values, section, dependencyBytes, lines, n + 1)
  {
    NotCollected(values, lines, n);
  }

  /** The checks at one more dependency. */
  lemma DependencyStep(values: Table, section: string, dependencyBytes: nat,
                       lines: seq<string>, n: nat, scanned: bool)
    requires n < |lines| && Running(values, section, dependencyBytes, lines, n) && section == "DEPENDS"
    requires |lines[n]| > 0 && !IsHeader(lines[n])
    ensures var bytes := dependencyBytes + Text.Size(lines[n]);
            if |Get(values, section)| >= MAX_DEPENDENCIES then Meaning(lines, scanned) == TooManyDependencies
            else if bytes > MAX_DEPENDENCY_BYTES then Meaning(lines, scanned) == DependenciesTooLong
            else Running(Append(values, section, lines[n]), section, bytes, lines, n + 1)
  {
    var had := Get(values, section);
    Collect(values, lines, n, section);
    hide Values, Meaning, Judge, Bytes;
    JudgeNext(had, lines[n]);
    BytesNext(had, lines[n]);
    if Judge(had + [lines[n]]) != Within {
      BrokenEarly(lines, n + 1, scanned);
    }
  }

  lemma ValueStep(values: Table, section: string, dependencyBytes: nat, lines: seq<string>, n: nat)
    requires n < |lines| && Running(values, section, dependencyBytes, lines, n)
    requires |lines[n]| > 0 && !IsHeader(lines[n]) && |section| > 0 && section != "DEPENDS"
    ensures Running(Append(values, section, lines[n]), section, dependencyBytes, lines, n + 1)
  {
    Collect(values, lines, n, section);
  }

  function Assemble(values: Table): Package {
    var size := First(Get(values, "CSIZE"));
    Package(
      First(Get(values, "NAME")), First(Get(values, "VERSION")), First(Get(values, "ARCH")),
      First(Get(values, "DESC")), First(Get(values, "FILENAME")),
      if size == "" then 0 else Numbers.ParseInt64(size), Get(values, "DEPENDS"))
  }

  lemma Assembled(values: Table, section: string, dependencyBytes: nat,
                  lines: seq<string>, scanned: bool)
    requires Running(values, section, dependencyBytes, lines, |lines|)
    ensures Meaning(lines, scanned) == Conclude(Assemble(values), scanned)
  {
    hide Get, Values, First, Judge, Conclude;
    assert Judge(Get(values, "DEPENDS")) == Within;
    forall other
      ensures All(lines, other) == Get(values, other)
    {
    }
  }

  method ParseDescription(lines: seq<string>, scanned: bool) returns (r: Parsed)
    ensures r == Meaning(lines, scanned)
  {
    var values: Table := map[];
    var section := "";
    var dependencyBytes: nat := 0;
    hide *;
    NothingRead(lines);
    for i := 0 to |lines|
      invariant Running(values, section, dependencyBytes, lines, i)
    {
      var line := lines[i];
      if IsHeader(line) {
        HeaderStep(values, section, dependencyBytes, lines, i);
        section := Trim(line);
        continue;
      }
      if line != "" && section != "" {
        if section == "DEPENDS" {
          DependencyStep(values, section, dependencyBytes, lines, i, scanned);
          if |Get(values, section)| >= MAX_DEPENDENCIES {
            return TooManyDependencies;
          }
          dependencyBytes := dependencyBytes + Text.Size(line);
          if dependencyBytes > MAX_DEPENDENCY_BYTES {
            return DependenciesTooLong;
          }
        } else {
          ValueStep(values, section, dependencyBytes, lines, i);
        }
        values := Append(values, section, line);
      } else {
        SkipStep(values, section, dependencyBytes, lines, i);
      }
    }
    Assembled(values, section, dependencyBytes, lines, scanned);
    r := Conclude(Assemble(values), scanned);
  }

  // ---------- what the reading promises ----------

  /** The dependency limits reject exactly when the whole input breaks one of them. */
  lemma RejectedExactly(lines: seq<string>, scanned: bool)
    ensures var r, depends := Meaning(lines, scanned), All(lines, "DEPENDS");
            && ((r.TooManyDependencies? || r.DependenciesTooLong?) <==> (|depends| > 256 || Bytes(depends) > 65536))
            && (r.DependenciesTooLong? <==> Bytes(if |depends| <= 256 then depends else depends[..256]) > 65536)
  {
    assert Judge(All(lines, "DEPENDS")) == Within <==>
      |All(lines, "DEPENDS")| <= MAX_DEPENDENCIES && Bytes(All(lines, "DEPENDS")) <= MAX_DEPENDENCY_BYTES;
  }

  /** A package is read exactly if the limits hold, the scan succeeded and a name and a version
      are given; its fields are the first values of their sections. */
  lemma AcceptedExactly(lines: seq<string>, scanned: bool)
    ensures var r, depends := Meaning(lines, scanned), All(lines, "DEPENDS");
            var name, version := First(All(lines, "NAME")), First(All(lines, "VERSION"));
            var within := |depends| <= 256 && Bytes(depends) <= 65536;
            && (r.Ok? <==> within && scanned && name != "" && version != "")
            && (r.ScanFailed? <==> within && !scanned)
            && (r.Incomplete? <==> within && scanned && (name == "" || version == ""))
            && (r.Ok? ==>
                  && r.pkg.name == name && r.pkg.version == version && r.pkg.depends == depends
                  && r.pkg.architecture == First(All(lines, "ARCH"))
                  && r.pkg.description == First(All(lines, "DESC"))
                  && r.pkg.filename == First(All(lines, "FILENAME"))
                  && var size := First(All(lines, "CSIZE"));
                     r.pkg.size == if size == "" then 0 else Numbers.ParseInt64(size))
  {
    RejectedExactly(lines, scanned);
  }

  /** A scalar is the first value line under any section of its name. */
  lemma {:induction false} FirstValue(lines: seq<string>, n: nat, k: nat, section: string)
    requires k < n <= |lines| && IsValue(lines, k, section)
    requires forall j: nat | j < k :: !IsValue(lines, j, section)
    ensures Values(lines, n, section) != [] && First(Values(lines, n, section)) == lines[k]
  {
    if n == k + 1 {
      NoValue(lines, k, section);
    } else {
      FirstValue(lines, n - 1, k, section);
    }
  }

  lemma {:induction false} NoValue(lines: seq<string>, n: nat, section: string)
    requires n <= |lines| && forall j: nat | j < n :: !IsValue(lines, j, section)
    ensures Values(lines, n, section) == []
  {
    if n > 0 {
      NoValue(lines, n - 1, section);
    }
  }

  /** Text before it does not change how a run of lines without headers is read. */
  lemma {:induction false} PlainInForce(before: seq<string>, body: seq<string>, k: nat)
    requires k <= |body| && forall j | 0 <= j < |body| :: !IsHeader(body[j])
    ensures InForce(before + body, |before| + k) == InForce(before, |before|)
  {
    if k == 0 {
      InForceAppend(before, body, |before|);
    } else {
      PlainInForce(before, body, k - 1);
    }
  }

  lemma {:induction false} InForceAppend(lines: seq<string>, more: seq<string>, k: nat)
    requires k <= |lines|
    ensures InForce(lines + more, k) == InForce(lines, k)
  {
    if k > 0 {
      InForceAppend(lines, more, k - 1);
    }
  }

  lemma {:induction false} ValuesAppend(lines: seq<string>, more: seq<string>, n: nat, section: string)
    requires n <= |lines|
    ensures Values(lines + more, n, section) == Values(lines, n, section)
  {
    if n > 0 {
      ValuesAppend(lines, more, n - 1, section);
      InForceAppend(lines, more, n - 1);
    }
  }

  function NonBlank(body: seq<string>): seq<string> {
    if |body| == 0 then []
    else NonBlank(body[..|body| - 1]) + if body[|body| - 1] == "" then [] else [body[|body| - 1]]
  }

  lemma {:induction false} PlainValues(before: seq<string>, body: seq<string>, section: string)
    requires section != "" && forall j | 0 <= j < |body| :: !IsHeader(body[j])
    ensures All(before + body, section) ==
            All(before, section) + if InForce(before, |before|) == section then NonBlank(body) else []
  {
    if |body| == 0 {
      assert before + body == before;
    } else {
      var shorter, last := body[..|body| - 1], body[|body| - 1];
      PlainValues(before, shorter, section);
      assert before + body == (before + shorter) + [last];
      ValuesAppend(before + shorter, [last], |before + shorter|, section);
      PlainInForce(before, body, |shorter|);
    }
  }

  /** A section contributes its non-blank lines after all earlier ones of that name, and to no
      other section. */
  lemma SectionAppends(before: seq<string>, name: string, body: seq<string>, section: string)
    requires IsHeader(name) && section != "" && forall j | 0 <= j < |body| :: !IsHeader(body[j])
    ensures All(before + [name] + body, section) ==
            All(before, section) + if Trim(name) == section then NonBlank(body) else []
  {
    var named := before + [name];
    PlainValues(named, body, section);
    assert InForce(named, |named|) == Trim(name);
    assert All(named, section) == All(before, section) by {
      ValuesAppend(before, [name], |before|, section);
      assert !IsValue(named, |before|, section);
    }
    hide *;
  }

  lemma {:induction false} BlankSkipped(a: seq<string>, b: seq<string>, section: string)
    ensures InForce(a + [""] + b, |a| + 1 + |b|) == InForce(a + b, |a| + |b|)
    ensures All(a + [""] + b, section) == All(a + b, section)
    decreases |b|
  {
    if |b| == 0 {
      assert a + b == a && a + [""] + b == a + [""];
      InForceAppend(a, [""], |a|);
      ValuesAppend(a, [""], |a|, section);
    } else {
      var c, last := b[..|b| - 1], b[|b| - 1];
      BlankSkipped(a, c, section);
      assert a + b == (a + c) + [last];
      assert a + [""] + b == (a + [""] + c) + [last];
      InForceAppend(a + c, [last], |a + c|);
      InForceAppend(a + [""] + c, [last], |a + [""] + c|);
      ValuesAppend(a + c, [last], |a + c|, section);
      ValuesAppend(a + [""] + c, [last], |a + [""] + c|, section);
    }
  }

  /** A blank line anywhere changes nothing. */
  lemma BlankLinesIrrelevant(a: seq<string>, b: seq<string>, scanned: bool)
    ensures Meaning(a + [""] + b, scanned) == Meaning(a + b, scanned)
  {
    BlankSkipped(a, b, "NAME");
    BlankSkipped(a, b, "VERSION");
    BlankSkipped(a, b, "ARCH");
    BlankSkipped(a, b, "DESC");
    BlankSkipped(a, b, "FILENAME");
    BlankSkipped(a, b, "CSIZE");
    BlankSkipped(a, b, "DEPENDS");
  }

  // ---------- round trip ----------

  function Header(name: string): string { "%" + name + "%" }

  /** Sections as a database entry lists them; one without values is left out. */
  function Render(sections: seq<(string, seq<string>)>): seq<string> {
    if |sections| == 0 then []
    else
      var (name, body) := sections[|sections| - 1];
      Render(sections[..|sections| - 1]) + if body == [] then [] else [Header(name)] + body + [""]
  }

  /** The values of all sections of that name, in order. */
  function Gather(sections: seq<(string, seq<string>)>, name: string): seq<string> {
    if |sections| == 0 then []
    else
      var last := sections[|sections| - 1];
      Gather(sections[..|sections| - 1], name) + if last.0 == name then last.1 else []
  }

  predicate IsPlain(line: string) { line != "" && !IsHeader(line) }

  predicate IsName(name: string) { name != "" && name[0] != '%' && name[|name| - 1] != '%' }

  predicate IsSection(s: (string, seq<string>)) {
    IsName(s.0) && forall i | 0 <= i < |s.1| :: IsPlain(s.1[i])
  }

  lemma {:induction false} NonBlankPlain(body: seq<string>)
    requires forall i | 0 <= i < |body| :: IsPlain(body[i])
    ensures NonBlank(body) == body
  {
    if |body| > 0 {
      NonBlankPlain(body[..|body| - 1]);
      assert body == body[..|body| - 1] + [body[|body| - 1]];
    }
  }

  lemma HeaderOf(name: string)
    requires IsName(name)
    ensures IsHeader(Header(name)) && Trim(Header(name)) == name
  {
    var h := Header(name);
    assert h[1] == name[0] && h[|h| - 2] == name[|name| - 1];
    assert TrimBetween(h, 0, |h|) == TrimBetween(h, 1, |h|) == TrimBetween(h, 1, |h| - 1) == h[1..|h| - 1] == name;
  }

  /** Reading rendered sections gives each name its values, repeated sections joined. */
  lemma {:induction false} RenderedRead(sections: seq<(string, seq<string>)>, name: string)
    requires name != "" && forall i | 0 <= i < |sections| :: IsSection(sections[i])
    ensures All(Render(sections), name) == Gather(sections, name)
  {
    if |sections| > 0 {
      var earlier := sections[..|sections| - 1];
      var (header, body) := sections[|sections| - 1];
      RenderedRead(earlier, name);
      assert IsSection(sections[|sections| - 1]);
      if body == [] {
        assert Render(sections) == Render(earlier);
      } else {
        HeaderOf(header);
        assert Render(sections) == Render(earlier) + [Header(header)] + (body + [""]);
        SectionAppends(Render(earlier), Header(header), body + [""], name);
        assert (body + [""])[..|body|] == body;
        NonBlankPlain(body);
      }
    }
  }

  predicate DistinctNames(sections: seq<(string, seq<string>)>) {
    forall i, j | 0 <= i < j < |sections| :: sections[i].0 != sections[j].0
  }

  lemma {:induction false} GatherNone(sections: seq<(string, seq<string>)>, name: string)
    requires forall i | 0 <= i < |sections| :: sections[i].0 != name
    ensures Gather(sections, name) == []
  {
    if |sections| > 0 {
      GatherNone(sections[..|sections| - 1], name);
    }
  }

  lemma {:induction false} GatherOne(sections: seq<(string, seq<string>)>, k: nat)
    requires DistinctNames(sections) && k < |sections|
    ensures Gather(sections, sections[k].0) == sections[k].1
  {
    var earlier := sections[..|sections| - 1];
    if k == |earlier| {
      GatherNone(earlier, sections[k].0);
    } else {
      GatherOne(earlier, k);
    }
  }

  function Scalar(value: string): seq<string> {
    if value == "" then [] else [value]
  }

  /** The sections `repo-add` writes for a package. */
  function Sections(p: Package): seq<(string, seq<string>)>
    requires p.size >= 0
  {
    [("FILENAME", Scalar(p.filename)), ("NAME", Scalar(p.name)), ("VERSION", Scalar(p.version)),
     ("DESC", Scalar(p.description)), ("CSIZE", [Numbers.Decimal(p.size)]), ("ARCH", Scalar(p.architecture)),
     ("DEPENDS", p.depends)]
  }

  predicate Renderable(p: Package) {
    && IsPlain(p.name) && IsPlain(p.version)
    && !IsHeader(p.filename) && !IsHeader(p.description) && !IsHeader(p.architecture)
    && 0 <= p.size <= Numbers.MAX_INT64
    && Judge(p.depends) == Within
    && forall i | 0 <= i < |p.depends| :: IsPlain(p.depends[i])
  }

  lemma SectionsOf(p: Package)
    requires Renderable(p)
    ensures DistinctNames(Sections(p))
    ensures forall i | 0 <= i < 7 :: IsSection(Sections(p)[i])
  {
    Numbers.DigitsOnly(p.size);
  }

  /** Parsing the entry written for a package gives the package back. */
  lemma RenderedParses(p: Package)
    requires Renderable(p)
    ensures Meaning(Render(Sections(p)), true) == Ok(p)
  {
    var sections := Sections(p);
    SectionsOf(p);
    hide All, Render, Gather, Judge, DistinctNames, IsSection;
    forall k | 0 <= k < 7
      ensures All(Render(sections), sections[k].0) == sections[k].1
    {
      hide Sections;
      assert sections[k].0 != "" by { NamedSection(sections[k]); }
      RenderedRead(sections, sections[k].0);
      GatherOne(sections, k);
    }
    assert All(Render(sections), sections[0].0) == sections[0].1;
    assert All(Render(sections), sections[1].0) == sections[1].1;
    assert All(Render(sections), sections[2].0) == sections[2].1;
    assert All(Render(sections), sections[3].0) == sections[3].1;
    assert All(Render(sections), sections[4].0) == sections[4].1;
    assert All(Render(sections), sections[5].0) == sections[5].1;
    assert All(Render(sections), sections[6].0) == sections[6].1;
    Numbers.ParseDecimal(p.size);
    Numbers.DigitsOnly(p.size);
  }

  lemma NamedSection(s: (string, seq<string>))
    requires IsSection(s)
    ensures s.0 != ""
  {
  }
}
