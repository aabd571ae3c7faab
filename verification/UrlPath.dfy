/** How the client builds request URLs: `appendURLPath` on top of the path encoding of Go's
    `net/url` (sections 2.1 and 3.3 of RFC 3986). Paths are sequences of bytes. */
module UrlPath {
  import opened Options

  type Byte = c: char | c as int < 256
  type Bytes = seq<Byte>

  // ---------- percent-encoding ----------

  predicate IsUnreserved(c: Byte) {
    'a' <= c <= 'z' || 'A' <= c <= 'Z' || '0' <= c <= '9' || c == '-' || c == '_' || c == '.' || c == '~'
  }

  /** What `shouldEscape` leaves alone in a whole path. */
  predicate InPath(c: Byte) {
    IsUnreserved(c) || c == '$' || c == '&' || c == '+' || c == ',' || c == '/' || c == ':' || c == ';' || c == '='
      || c == '@'
  }

  /** What `shouldEscape` leaves alone in one path segment. */
  predicate InSegment(c: Byte) {
    IsUnreserved(c) || c == '$' || c == '&' || c == '+' || c == ':' || c == '=' || c == '@'
  }

  /** What `validEncoded` accepts in a path besides. */
  predicate Tolerated(c: Byte) {
    c == '!' || c == '\'' || c == '(' || c == ')' || c == '*' || c == '[' || c == ']' || c == '%'
  }

  predicate ValidEncoded(s: Bytes) { forall i | 0 <= i < |s| :: InPath(s[i]) || Tolerated(s[i]) }

  function HexDigit(n: nat): Byte
    requires n < 16
  {
    if n < 10 then (n + '0' as int) as char else (n - 10 + 'A' as int) as char
  }

  function Unhex(c: Byte): (r: Option<nat>)
    ensures r.Some? ==> r.value < 16
  {
    if '0' <= c <= '9' then Some(c as int - '0' as int)
    else if 'a' <= c <= 'f' then Some(c as int - 'a' as int + 10)
    else if 'A' <= c <= 'F' then Some(c as int - 'A' as int + 10)
    else None
  }

  function EscapeByte(c: Byte, keep: Byte -> bool): Bytes {
    if keep(c) then [c] else ['%', HexDigit(c as int / 16), HexDigit(c as int % 16)]
  }

  function Escape(s: Bytes, keep: Byte -> bool): Bytes {
    if |s| == 0 then [] else EscapeByte(s[0], keep) + Escape(s[1..], keep)
  }

  /** `url.PathEscape`. */
  function PathEscape(s: Bytes): Bytes { Escape(s, InSegment) }

  /** The byte that an escape at the start of `s` stands for. */
  function EscapedByte(s: Bytes): Option<Byte> {
    if |s| < 3 || Unhex(s[1]).None? || Unhex(s[2]).None? then None
    else Some((16 * Unhex(s[1]).value + Unhex(s[2]).value) as char)
  }

  /** How many bytes the first decoded byte takes. */
  function Taken(s: Bytes): nat { if |s| > 0 && s[0] == '%' then 3 else 1 }

  function FirstByte(s: Bytes): (r: Option<Byte>)
    ensures r.Some? ==> Taken(s) <= |s|
  {
    if |s| == 0 then None else if s[0] != '%' then Some(s[0]) else EscapedByte(s)
  }

  /** `unescape` of a path; `None` for a malformed escape. */
  function Unescape(s: Bytes): Option<Bytes> {
    if |s| == 0 then Some([])
    else if FirstByte(s).None? then None
    else match Unescape(s[Taken(s)..]) case None => None case Some(t) => Some([FirstByte(s).value] + t)
  }

  lemma EscapeByteDecodes(c: Byte, keep: Byte -> bool, rest: Bytes)
    requires !keep('%') && Unescape(rest).Some?
    ensures Unescape(EscapeByte(c, keep) + rest) == Some([c] + Unescape(rest).value)
  {
    var e := EscapeByte(c, keep);
    assert (e + rest)[|e|..] == rest;
    if !keep(c) {
      assert EscapedByte(e + rest) == Some(c);
    }
  }

  lemma {:induction false} EscapeDecodes(s: Bytes, keep: Byte -> bool)
    requires !keep('%')
    ensures Unescape(Escape(s, keep)) == Some(s)
  {
    if |s| > 0 {
      EscapeDecodes(s[1..], keep);
      EscapeByteDecodes(s[0], keep, Escape(s[1..], keep));
      assert s == [s[0]] + s[1..];
    }
  }

  /** What a decodable string is followed by is decoded by itself. */
  lemma {:induction false} UnescapeAppend(a: Bytes, b: Bytes)
    requires Unescape(a).Some?
    ensures Unescape(b).None? ==> Unescape(a + b).None?
    ensures Unescape(b).Some? ==> Unescape(a + b) == Some(Unescape(a).value + Unescape(b).value)
  {
    if |a| == 0 {
      assert a + b == b && Unescape(a).value == [];
      assert Unescape(b).Some? ==> [] + Unescape(b).value == Unescape(b).value;
    } else {
      var n := Taken(a);
      assert FirstByte(a + b) == FirstByte(a) && Taken(a + b) == n;
      assert (a + b)[n..] == a[n..] + b;
      UnescapeAppend(a[n..], b);
      if Unescape(b).Some? {
        Associates([FirstByte(a).value], Unescape(a[n..]).value, Unescape(b).value);
      }
      hide EscapedByte, FirstByte, Taken;
    }
  }

  lemma Associates(a: Bytes, b: Bytes, c: Bytes)
    ensures a + (b + c) == a + b + c
  {
  }

  /** A slash at the end of a decodable string is not part of an escape. */
  lemma {:induction false} UnescapeSlash(a: Bytes)
    requires Unescape(a + "/").Some?
    ensures Unescape(a).Some? && Unescape(a + "/").value == Unescape(a).value + "/"
  {
    if |a| > 0 {
      var n := if a[0] == '%' then 3 else 1;
      if n <= |a| {
        assert (a + "/")[n..] == a[n..] + "/";
        UnescapeSlash(a[n..]);
      } else {
        assert (a + "/")[|a|] == '/';
      }
    }
  }

  // ---------- trimming and splitting ----------

  /** `strings.TrimRight(s, "/")`. */
  function TrimRight(s: Bytes): Bytes {
    if |s| > 0 && s[|s| - 1] == '/' then TrimRight(s[..|s| - 1]) else s
  }

  predicate EndsInSlash(s: Bytes) { |s| > 0 && s[|s| - 1] == '/' }

  predicate EndsInEncodedSlash(s: Bytes) {
    |s| >= 3 && s[|s| - 3] == '%' && s[|s| - 2] == '2' && (s[|s| - 1] == 'F' || s[|s| - 1] == 'f')
  }

  lemma {:induction false} TrimRightEnds(s: Bytes)
    ensures !EndsInSlash(TrimRight(s))
  {
    if EndsInSlash(s) {
      TrimRightEnds(s[..|s| - 1]);
    }
  }

  /** Trimming a decodable string leaves it decodable, and takes off slashes of the decoded one. */
  lemma {:induction false} TrimRightDecodes(s: Bytes)
    requires Unescape(s).Some?
    ensures Unescape(TrimRight(s)).Some?
    ensures TrimRight(Unescape(TrimRight(s)).value) == TrimRight(Unescape(s).value)
  {
    if EndsInSlash(s) {
      var shorter := s[..|s| - 1];
      assert s == shorter + "/";
      UnescapeSlash(shorter);
      TrimRightDecodes(shorter);
      var t := Unescape(shorter).value;
      assert (t + "/")[..|t|] == t;
    }
  }

  /** A decoded string ends in a slash if its encoding ends in one, plain or encoded. */
  lemma {:induction false} DecodedEnd(s: Bytes)
    requires Unescape(s).Some?
    ensures EndsInSlash(Unescape(s).value) <==> EndsInSlash(s) || EndsInEncodedSlash(s)
    decreases |s|
  {
    if |s| > 0 {
      var n := if s[0] == '%' then 3 else 1;
      DecodedEnd(s[n..]);
      if s[0] == '%' { assert s[1] != '%' && s[2] != '%'; }
    }
  }

  /** `strings.Join(parts, "/")`. */
  function Join(parts: seq<Bytes>): Bytes {
    if |parts| == 0 then [] else if |parts| == 1 then parts[0]
    else Join(parts[..|parts| - 1]) + "/" + parts[|parts| - 1]
  }

  function SplitAt(s: Bytes, n: nat): seq<Bytes>
    requires n <= |s|
    ensures |SplitAt(s, n)| > 0
  {
    if n == 0 then [[]]
    else
      var parts := SplitAt(s, n - 1);
      if s[n - 1] == '/' then parts + [[]]
      else parts[|parts| - 1 := parts[|parts| - 1] + [s[n - 1]]]
  }

  /** The segments of a path: `strings.Split(s, "/")`. */
  function Split(s: Bytes): seq<Bytes> { SplitAt(s, |s|) }

  lemma {:induction false} SplitPrefix(s: Bytes, t: Bytes, n: nat)
    requires n <= |s|
    ensures SplitAt(s + t, n) == SplitAt(s, n)
  {
    if n > 0 {
      SplitPrefix(s, t, n - 1);
    }
  }

  /** A segment without a slash is one segment more. */
  lemma {:induction false} SplitSegment(s: Bytes, t: Bytes, n: nat)
    requires n <= |t| && forall i | 0 <= i < |t| :: t[i] != '/'
    ensures SplitAt(s + "/" + t, |s| + 1 + n) == Split(s) + [t[..n]]
  {
    var whole := s + "/" + t;
    if n == 0 {
      assert whole == s + ("/" + t);
      SplitPrefix(s, "/" + t, |s|);
    } else {
      SplitSegment(s, t, n - 1);
      assert whole[|s| + n] == t[n - 1];
      assert t[..n] == t[..n - 1] + [t[n - 1]];
      var parts := Split(s) + [t[..n - 1]];
      assert parts[|parts| - 1 := t[..n]] == Split(s) + [t[..n]];
    }
  }

  predicate NoSlash(s: Bytes) { forall i | 0 <= i < |s| :: s[i] != '/' }

  lemma {:induction false} SplitJoin(s: Bytes, parts: seq<Bytes>)
    requires |parts| > 0 && forall i | 0 <= i < |parts| :: NoSlash(parts[i])
    ensures Split(s + "/" + Join(parts)) == Split(s) + parts
  {
    var last := parts[|parts| - 1];
    assert last[..|last|] == last;
    if |parts| == 1 {
      SplitSegment(s, last, |last|);
      assert Split(s) + [last] == Split(s) + parts;
    } else {
      var earlier := parts[..|parts| - 1];
      SplitJoin(s, earlier);
      var head := s + "/" + Join(earlier);
      SplitSegment(head, last, |last|);
      assert s + "/" + Join(parts) == head + "/" + last;
      assert Split(s) + earlier + [last] == Split(s) + parts;
    }
  }

  // ---------- URLs ----------

  /** A `url.URL`: the decoded path, the encoding to prefer for it, and everything else. */
  datatype URL = URL(path: Bytes, rawPath: Bytes, rest: string)

  /** `URL.EscapedPath`: what is sent over the wire. */
  function EscapedPath(u: URL): Bytes {
    if |u.rawPath| > 0 && ValidEncoded(u.rawPath) && Unescape(u.rawPath) == Some(u.path) then u.rawPath
    else if u.path == ['*'] then ['*']
    else Escape(u.path, InPath)
  }

  lemma {:induction false} EscapeIsValid(s: Bytes)
    ensures ValidEncoded(Escape(s, InPath)) && ValidEncoded(PathEscape(s)) && NoSlash(PathEscape(s))
  {
    if |s| > 0 {
      EscapeIsValid(s[1..]);
      HexDigitsPlain(s[0]);
    }
  }

  lemma HexDigitsPlain(c: Byte)
    ensures IsUnreserved(HexDigit(c as int / 16)) && IsUnreserved(HexDigit(c as int % 16))
    ensures HexDigit(c as int / 16) != '/' && HexDigit(c as int % 16) != '/'
  {
  }

  lemma Single(c: Byte)
    requires c != '%'
    ensures Unescape([c]) == Some([c])
  {
    assert [c][1..] == [];
    assert Unescape([c][1..]) == Some([]) && [c] + [] == [c];
  }

  /** The wire form of any URL is a valid encoding of its path. */
  lemma EscapedPathDecodes(u: URL)
    ensures ValidEncoded(EscapedPath(u)) && Unescape(EscapedPath(u)) == Some(u.path)
  {
    EscapeDecodes(u.path, InPath);
    EscapeIsValid(u.path);
    Single('*');
  }

  function EscapeAll(components: seq<Bytes>): seq<Bytes> {
    seq(|components|, i requires 0 <= i < |components| => PathEscape(components[i]))
  }

  /** What `appendURLPath` returns. */
  function Append(base: URL, components: seq<Bytes>): URL {
    URL(TrimRight(base.path) + "/" + Join(components),
        TrimRight(EscapedPath(base)) + "/" + Join(EscapeAll(components)), base.rest)
  }

  method AppendURLPath(base: URL, components: seq<Bytes>) returns (endpoint: URL)
    ensures endpoint == Append(base, components)
  {
    var escaped: seq<Bytes> := [];
    for i := 0 to |components|
      invariant escaped == EscapeAll(components[..i])
    {
      assert EscapeAll(components[..i + 1]) == EscapeAll(components[..i]) + [PathEscape(components[i])];
      escaped := escaped + [PathEscape(components[i])];
    }
    assert components[..|components|] == components;
    endpoint := base;
    endpoint := endpoint.(path := TrimRight(base.path) + "/" + Join(components));
    endpoint := endpoint.(rawPath := TrimRight(EscapedPath(base)) + "/" + Join(escaped));
  }

  lemma {:induction false} JoinDecodes(components: seq<Bytes>)
    ensures Unescape(Join(EscapeAll(components))) == Some(Join(components))
    ensures ValidEncoded(Join(EscapeAll(components)))
  {
    if |components| > 0 {
      var last, earlier := components[|components| - 1], components[..|components| - 1];
      EscapeDecodes(last, InSegment);
      EscapeIsValid(last);
      JoinDecodes(earlier);
      if |components| > 1 {
        var head := Join(EscapeAll(earlier));
        assert EscapeAll(components)[..|components| - 1] == EscapeAll(earlier);
        SlashDecodes(head, PathEscape(last));
      }
    }
  }

  lemma SlashDecodes(a: Bytes, b: Bytes)
    requires Unescape(a).Some? && Unescape(b).Some?
    ensures Unescape(a + "/" + b) == Some(Unescape(a).value + "/" + Unescape(b).value)
  {
    Single('/');
    UnescapeAppend("/", b);
    UnescapeAppend(a, "/" + b);
    Associates(a, "/", b);
    Associates(Unescape(a).value, "/", Unescape(b).value);
    hide Unescape;
  }

  /** The base path does not end in an encoded slash, trailing slashes aside. */
  predicate PlainEnd(base: URL) { !EndsInEncodedSlash(TrimRight(EscapedPath(base))) }

  /** The encoded path decodes to the path exactly if the base does not end in an encoded
      slash; otherwise trimming the decoded path takes off more. */
  lemma RawPathDecodes(base: URL, components: seq<Bytes>)
    ensures var u := Append(base, components);
            && Unescape(u.rawPath).Some? && ValidEncoded(u.rawPath)
            && (Unescape(u.rawPath).value == u.path <==> PlainEnd(base))
  {
    EscapedPathDecodes(base);
    var trimmed := TrimRight(EscapedPath(base));
    TrimRightDecodes(EscapedPath(base));
    TrimRightEnds(EscapedPath(base));
    DecodedEnd(trimmed);
    JoinDecodes(components);
    SlashDecodes(trimmed, Join(EscapeAll(components)));
    TrimRightKeepsValid(EscapedPath(base));
    var decoded := Unescape(trimmed).value;
    if EndsInSlash(decoded) {
      TrimRightShorter(decoded);
    }
  }

  lemma {:induction false} TrimRightKeepsValid(s: Bytes)
    requires ValidEncoded(s)
    ensures ValidEncoded(TrimRight(s))
  {
    if EndsInSlash(s) {
      TrimRightKeepsValid(s[..|s| - 1]);
    }
  }

  lemma {:induction false} TrimRightShorter(s: Bytes)
    ensures |TrimRight(s)| <= |s| && (EndsInSlash(s) ==> |TrimRight(s)| < |s|)
  {
    if EndsInSlash(s) {
      TrimRightShorter(s[..|s| - 1]);
    }
  }

  /** The path goes over the wire as it was encoded exactly under the same condition. */
  lemma WireForm(base: URL, components: seq<Bytes>)
    ensures var u := Append(base, components);
            EscapedPath(u) == u.rawPath <==> PlainEnd(base)
  {
    var u := Append(base, components);
    RawPathDecodes(base, components);
    EscapedPathDecodes(u);
  }

  /** Splitting the encoded path and decoding its segments gives the segments of the base,
      then exactly the given components, even those that contain `/` or `%`. */
  lemma SplitsBack(base: URL, components: seq<Bytes>)
    requires |components| > 0
    ensures var segments, before := Split(Append(base, components).rawPath), Split(TrimRight(EscapedPath(base)));
            && |segments| == |before| + |components| && segments[..|before|] == before
            && forall i | 0 <= i < |components| :: Unescape(segments[|before| + i]) == Some(components[i])
  {
    var escaped := EscapeAll(components);
    forall i | 0 <= i < |components|
      ensures NoSlash(escaped[i]) && Unescape(escaped[i]) == Some(components[i])
    {
      EscapeIsValid(components[i]);
      EscapeDecodes(components[i], InSegment);
    }
    SplitJoin(TrimRight(EscapedPath(base)), escaped);
  }

  // ---------- appending to an appended path ----------

  lemma {:induction false} JoinAppend(a: seq<Bytes>, b: seq<Bytes>)
    requires |a| > 0 && |b| > 0
    ensures Join(a + b) == Join(a) + "/" + Join(b)
  {
    var last := b[|b| - 1];
    assert (a + b)[..|a + b| - 1] == a + b[..|b| - 1];
    if |b| == 1 {
      assert a + b[..0] == a;
    } else {
      JoinAppend(a, b[..|b| - 1]);
      assert Join(a) + "/" + Join(b[..|b| - 1]) + "/" + last == Join(a) + "/" + (Join(b[..|b| - 1]) + "/" + last);
    }
  }

  lemma JoinEnd(parts: seq<Bytes>)
    requires |parts| > 0 && |parts[|parts| - 1]| > 0
    ensures |Join(parts)| > 0 && Join(parts)[|Join(parts)| - 1] == parts[|parts| - 1][|parts[|parts| - 1]| - 1]
  {
  }

  lemma NothingToTrim(s: Bytes)
    requires !EndsInSlash(s)
    ensures TrimRight(s) == s
  {
  }

  lemma Regroup(head: Bytes, x: Bytes, y: Bytes)
    ensures head + (x + "/" + y) == head + x + "/" + y
  {
  }

  lemma AppendedPath(base: URL, a: seq<Bytes>)
    requires |a| > 0 && |a[|a| - 1]| > 0 && !EndsInSlash(a[|a| - 1])
    ensures !EndsInSlash(Append(base, a).path)
    ensures TrimRight(Append(base, a).path) == TrimRight(base.path) + "/" + Join(a)
  {
    JoinEnd(a);
    NothingToTrim(Append(base, a).path);
  }

  lemma AppendedRawPath(base: URL, a: seq<Bytes>)
    requires PlainEnd(base) && |a| > 0 && |a[|a| - 1]| > 0 && !EndsInSlash(a[|a| - 1])
    ensures PlainEnd(Append(base, a))
    ensures TrimRight(EscapedPath(Append(base, a))) == TrimRight(EscapedPath(base)) + "/" + Join(EscapeAll(a))
  {
    var u := Append(base, a);
    WireForm(base, a);
    RawPathDecodes(base, a);
    AppendedPath(base, a);
    DecodedEnd(u.rawPath);
    NothingToTrim(u.rawPath);
    hide Join, EscapedPath, Unescape, EndsInEncodedSlash;
  }

  lemma EscapeAllAppend(a: seq<Bytes>, b: seq<Bytes>)
    ensures EscapeAll(a + b) == EscapeAll(a) + EscapeAll(b)
  {
  }

  lemma PathTwice(base: URL, a: seq<Bytes>, b: seq<Bytes>)
    requires |a| > 0 && |b| > 0 && |a[|a| - 1]| > 0 && !EndsInSlash(a[|a| - 1])
    ensures Append(Append(base, a), b).path == Append(base, a + b).path
  {
    AppendedPath(base, a);
    JoinAppend(a, b);
    Regroup(TrimRight(base.path) + "/", Join(a), Join(b));
    hide Join, TrimRight;
  }

  lemma RawPathTwice(base: URL, a: seq<Bytes>, b: seq<Bytes>)
    requires PlainEnd(base) && |a| > 0 && |b| > 0 && |a[|a| - 1]| > 0 && !EndsInSlash(a[|a| - 1])
    ensures Append(Append(base, a), b).rawPath == Append(base, a + b).rawPath
  {
    AppendedRawPath(base, a);
    EscapeAllAppend(a, b);
    JoinAppend(EscapeAll(a), EscapeAll(b));
    Regroup(TrimRight(EscapedPath(base)) + "/", Join(EscapeAll(a)), Join(EscapeAll(b)));
    hide Join, TrimRight, EscapedPath, EscapeAll, PlainEnd;
  }

  /** Appending twice, as `repositoryURL` does, is appending once, provided the last component
      of the first is neither empty nor ends in a slash. */
  lemma AppendTwice(base: URL, a: seq<Bytes>, b: seq<Bytes>)
    requires PlainEnd(base) && |a| > 0 && |b| > 0
    requires |a[|a| - 1]| > 0 && !EndsInSlash(a[|a| - 1])
    ensures Append(Append(base, a), b) == Append(base, a + b)
    ensures PlainEnd(Append(base, a))
  {
    AppendedRawPath(base, a);
    PathTwice(base, a, b);
    RawPathTwice(base, a, b);
    hide PlainEnd, Join, TrimRight, EscapedPath;
  }

  const API: seq<Bytes> := ["api", "v1", "repositories"]

  function RepositoryURL(base: URL, repository: Bytes): URL { Append(Append(base, API), [repository]) }

  lemma RepositorySegments(base: URL, repository: Bytes)
    requires PlainEnd(base)
    ensures var u := RepositoryURL(base, repository);
            && EscapedPath(u) == u.rawPath && Unescape(u.rawPath) == Some(u.path)
            && var segments, before := Split(u.rawPath), Split(TrimRight(EscapedPath(base)));
               && |segments| == |before| + 4 && segments[..|before|] == before
               && (forall i | 0 <= i < 3 :: Unescape(segments[|before| + i]) == Some(API[i]))
               && Unescape(segments[|before| + 3]) == Some(repository)
  {
    var all := API + [repository];
    AppendTwice(base, API, [repository]);
    hide Append, EscapedPath, PlainEnd, Split, Unescape;
    WireForm(base, all);
    RawPathDecodes(base, all);
    SplitsBack(base, all);
    assert all[..3] == API && all[3] == repository;
    forall i | 0 <= i < 3
      ensures all[i] == API[i]
    {
    }
  }

  /** `repositoryURL`: the wire path has the base's segments, the three fixed ones, and one that
      decodes to the repository, whatever it contains. */
  lemma RepositoryURLSplitsBack(base: URL, repository: Bytes)
    requires PlainEnd(base)
    ensures var u := RepositoryURL(base, repository);
            && EscapedPath(u) == u.rawPath && Unescape(u.rawPath) == Some(u.path)
            && var segments, before := Split(u.rawPath), Split(TrimRight(EscapedPath(base)));
               && |segments| == |before| + 4 && segments[..|before|] == before
               && Unescape(segments[|before|]) == Some("api") && Unescape(segments[|before| + 1]) == Some("v1")
               && Unescape(segments[|before| + 2]) == Some("repositories")
               && Unescape(segments[|before| + 3]) == Some(repository)
  {
    hide RepositoryURL, EscapedPath, TrimRight, Split, Unescape, PlainEnd;
    RepositorySegments(base, repository);
    var segments, n := Split(RepositoryURL(base, repository).rawPath), |Split(TrimRight(EscapedPath(base)))|;
    assert Unescape(segments[n + 0]) == Some(API[0]) && Unescape(segments[n + 1]) == Some(API[1]);
    assert Unescape(segments[n + 2]) == Some(API[2]);
  }

  lemma EncodedSlashDecodes()
    ensures Unescape("/a%2F") == Some("/a/")
  {
    Single('/');
    Single('a');
    assert Unescape("%2F") == Some("/") by { assert "%2F"[3..] == ""; }
    UnescapeAppend("/", "a");
    assert "/" + "a" == "/a" && Unescape("/a") == Some("/a");
    UnescapeAppend("/a", "%2F");
    assert "/a" + "%2F" == "/a%2F" && "/a" + "/" == "/a/";
  }

  lemma EncodedSlashBase()
    ensures EscapedPath(URL("/a/", "/a%2F", "")) == "/a%2F" && !PlainEnd(URL("/a/", "/a%2F", ""))
  {
    EncodedSlashDecodes();
    assert ValidEncoded("/a%2F");
    hide Unescape, ValidEncoded;
  }

  /** With a base that ends in an encoded slash the property fails. */
  lemma EncodedSlashLost()
    ensures var u := Append(URL("/a/", "/a%2F", ""), ["x"]);
            u.path == "/a/x" && u.rawPath == "/a%2F/x" && EscapedPath(u) != u.rawPath
  {
    EncodedSlashBase();
    EncodedSlashParts();
    hide EscapedPath, PlainEnd, EscapeAll, TrimRight;
    WireForm(URL("/a/", "/a%2F", ""), ["x"]);
  }

  lemma EncodedSlashParts()
    ensures EscapeAll(["x"]) == ["x"] && Join(["x"]) == "x" && TrimRight("/a/") == "/a" && TrimRight("/a%2F") == "/a%2F"
  {
    assert "x"[1..] == "" && PathEscape("x") == "x";
    assert "/a/"[..2] == "/a";
  }
}
