/** The `WWW-Authenticate` challenges of the API (section 3 of RFC 6750), and how a client reads
    them by the quoted-string grammar (section 5.6.4 of RFC 9110). */
module Challenge {
  import opened Options

  datatype Param = Param(name: string, value: string)

  // ---------- writing ----------

  function QuoteChar(c: char): string {
    if c == '\\' then "\\\\" else if c == '"' then "\\\"" else if c == '\r' || c == '\n' then "" else [c]
  }

  /** `quoteChallenge`. */
  function Quote(value: string): string {
    if |value| == 0 then "" else QuoteChar(value[0]) + Quote(value[1..])
  }

  function Written(p: Param): string { p.name + "=\"" + (Quote(p.value) + "\"") }

  function WrittenList(params: seq<Param>): string {
    if |params| == 0 then ""
    else if |params| == 1 then Written(params[0])
    else Written(params[0]) + (", " + WrittenList(params[1..]))
  }

  function Optional(name: string, value: string): seq<Param> {
    if |value| == 0 then [] else [Param(name, value)]
  }

  /** The parameters of an error challenge: three always, two if there is something to say. */
  function ErrorParams(code: string, description: string, scope: string, realm: string, metadata: string): seq<Param> {
    [Param("error", code), Param("error_description", description), Param("realm", realm)]
    + (Optional("scope", scope) + Optional("resource_metadata", metadata))
  }

  function ChallengeParams(realm: string, metadata: string): seq<Param> {
    [Param("realm", realm)] + Optional("resource_metadata", metadata)
  }

  lemma {:induction false} WrittenAppend(a: seq<Param>, p: Param)
    requires |a| > 0
    ensures WrittenList(a + [p]) == WrittenList(a) + ", " + Written(p)
  {
    if |a| > 1 {
      assert (a + [p])[1..] == a[1..] + [p];
      WrittenAppend(a[1..], p);
    } else {
      assert (a + [p])[1..] == [p];
    }
  }

  lemma Associates(a: string, b: string, c: string)
    ensures a + (b + c) == a + b + c
  {
  }

  /** One more parameter behind a text that lacks only the quote that closes the last one. */
  lemma NextParam(text: string, params: seq<Param>, literal: string, p: Param)
    requires |params| > 0 && text + "\"" == "Bearer " + WrittenList(params)
    requires literal == "\"" + (", " + (p.name + "=\""))
    ensures text + literal + Quote(p.value) + "\"" == "Bearer " + WrittenList(params + [p])
  {
    var closed, quoted := text + "\"", Quote(p.value) + "\"";
    calc {
      text + literal + Quote(p.value) + "\"";
      { Associates(text + literal, Quote(p.value), "\""); }
      text + literal + quoted;
      { Associates(text, "\"", ", " + (p.name + "=\"")); }
      closed + (", " + (p.name + "=\"")) + quoted;
      { Associates(closed, ", ", p.name + "=\""); }
      closed + ", " + (p.name + "=\"") + quoted;
      { Associates(closed + ", ", p.name + "=\"", quoted); }
      closed + ", " + (p.name + "=\"" + quoted);
      closed + ", " + Written(p);
    }
    WrittenAppend(params, p);
    hide WrittenList, Written, Quote;
    Associates("Bearer ", WrittenList(params), ", ");
    Associates("Bearer ", WrittenList(params) + ", ", Written(p));
  }

  lemma FirstParam(p: Param, literal: string)
    requires literal == "Bearer " + (p.name + "=\"")
    ensures literal + Quote(p.value) + "\"" == "Bearer " + WrittenList([p])
  {
    Associates(literal, Quote(p.value), "\"");
    Associates("Bearer ", p.name + "=\"", Quote(p.value) + "\"");
    hide Quote;
  }

  /** One more parameter behind a complete text. */
  lemma MoreParam(text: string, params: seq<Param>, literal: string, p: Param)
    requires |params| > 0 && text == "Bearer " + WrittenList(params) && literal == ", " + (p.name + "=\"")
    ensures text + literal + Quote(p.value) + "\"" == "Bearer " + WrittenList(params + [p])
  {
    var quoted := Quote(p.value) + "\"";
    Associates(text + literal, Quote(p.value), "\"");
    Associates(text, ", ", p.name + "=\"");
    Associates(text + ", ", p.name + "=\"", quoted);
    WrittenAppend(params, p);
    assert Written(p) == p.name + "=\"" + quoted;
    hide WrittenList, Written, Quote;
    Associates("Bearer ", WrittenList(params), ", ");
    Associates("Bearer ", WrittenList(params) + ", ", Written(p));
  }

  /** The part of an error challenge that is always there. */
  function Always(code: string, description: string, realm: string): string {
    "Bearer error=\"" + Quote(code) + "\", error_description=\"" + Quote(description) + "\", realm=\"" + Quote(realm)
      + "\""
  }

  lemma AlwaysWritten(code: string, description: string, realm: string)
    ensures Always(code, description, realm) ==
            "Bearer " + WrittenList(
              [Param("error", code)] + [Param("error_description", description)] + [Param("realm", realm)])
  {
    var e, d, r := Param("error", code), Param("error_description", description), Param("realm", realm);
    var first := "Bearer error=\"" + Quote(code);
    var second := first + "\", error_description=\"" + Quote(description);
    FirstParam(e, "Bearer error=\"");
    SecondParam(first, e, d);
    NextParam(second, [e] + [d], "\", realm=\"", r);
    hide WrittenList, Quote, Written;
  }

  lemma SecondParam(first: string, e: Param, d: Param)
    requires first + "\"" == "Bearer " + WrittenList([e]) && d.name == "error_description"
    ensures first + "\", error_description=\"" + Quote(d.value) + "\"" == "Bearer " + WrittenList([e] + [d])
  {
    NextParam(first, [e], "\", error_description=\"", d);
    hide WrittenList, Quote, Written;
  }

  /** `writeBearerError`: the header it sets. */
  method BearerError(code: string, description: string, scope: string, realm: string, metadata: string)
    returns (challenge: string)
    ensures challenge == "Bearer " + WrittenList(ErrorParams(code, description, scope, realm, metadata))
  {
    AlwaysWritten(code, description, realm);
    hide WrittenList, Quote, Written, Always;
    challenge := Always(code, description, realm);
    ghost var params := [Param("error", code)] + [Param("error_description", description)] + [Param("realm", realm)];
    if |scope| > 0 {
      MoreParam(challenge, params, ", scope=\"", Param("scope", scope));
      params := params + [Param("scope", scope)];
      challenge := challenge + ", scope=\"" + Quote(scope) + "\"";
    }
    if |metadata| > 0 {
      MoreParam(challenge, params, ", resource_metadata=\"", Param("resource_metadata", metadata));
      params := params + [Param("resource_metadata", metadata)];
      challenge := challenge + ", resource_metadata=\"" + Quote(metadata) + "\"";
    }
    assert params == ErrorParams(code, description, scope, realm, metadata);
  }

  /** `writeBearerChallenge`: the header it sets. */
  method BearerChallenge(realm: string, metadata: string) returns (challenge: string)
    ensures challenge == "Bearer " + WrittenList(ChallengeParams(realm, metadata))
  {
    FirstParam(Param("realm", realm), "Bearer realm=\"");
    hide WrittenList, Quote, Written;
    challenge := "Bearer realm=\"" + Quote(realm) + "\"";
    if |metadata| > 0 {
      MoreParam(challenge, [Param("realm", realm)], ", resource_metadata=\"", Param("resource_metadata", metadata));
      challenge := challenge + ", resource_metadata=\"" + Quote(metadata) + "\"";
    }
  }

  // ---------- reading ----------

  /** What may stand in a quoted-string: anything but control characters, tab excepted. */
  predicate IsText(c: char) { c == '\t' || (c >= ' ' && c != '\U{007F}') }

  predicate IsTokenChar(c: char) {
    || 'a' <= c <= 'z' || 'A' <= c <= 'Z' || '0' <= c <= '9'
    || c == '!' || '#' <= c <= '\'' || c == '*' || c == '+' || c == '-' || c == '.'
    || '^' <= c <= '`' || c == '|' || c == '~'
  }

  datatype Read = Read(value: string, rest: string)

  /** The rest of a quoted-string whose opening quote has been read. */
  function ReadQuoted(s: string): (r: Option<Read>)
    ensures r.Some? ==> |r.value.rest| < |s|
  {
    if |s| == 0 then None
    else if s[0] == '"' then Some(Read("", s[1..]))
    else
      var n := if s[0] == '\\' then 2 else 1;
      if |s| < n || !IsText(s[n - 1]) then None
      else match ReadQuoted(s[n..])
        case None => None
        case Some(r) => Some(Read([s[n - 1]] + r.value, r.rest))
  }

  function ReadToken(s: string): (r: Read)
    ensures |r.rest| <= |s|
  {
    if |s| == 0 || !IsTokenChar(s[0]) then Read("", s)
    else var r := ReadToken(s[1..]); Read([s[0]] + r.value, r.rest)
  }

  function SkipSpace(s: string): (r: string)
    ensures |r| <= |s|
  {
    if |s| > 0 && (s[0] == ' ' || s[0] == '\t') then SkipSpace(s[1..]) else s
  }

  /** `token "=" quoted-string`. */
  function ReadParam(s: string): (r: Option<(Param, string)>)
    ensures r.Some? ==> |r.value.1| < |s|
  {
    var Read(name, rest) := ReadToken(s);
    if |name| == 0 || |rest| < 2 || rest[0] != '=' || rest[1] != '"' then None
    else match ReadQuoted(rest[2..])
      case None => None
      case Some(q) => Some((Param(name, q.value), q.rest))
  }

  /** A comma-separated list of parameters, optional white space around the commas. */
  function ReadParams(s: string): Option<seq<Param>>
    decreases |s|
  {
    match ReadParam(s)
    case None => None
    case Some((p, rest)) =>
      var after := SkipSpace(rest);
      if |after| == 0 then Some([p])
      else if after[0] != ',' then None
      else match ReadParams(SkipSpace(after[1..]))
        case None => None
        case Some(more) => Some([p] + more)
  }

  datatype Challenge = Challenge(scheme: string, params: seq<Param>)

  function ReadChallenge(s: string): Option<Challenge> {
    var Read(scheme, rest) := ReadToken(s);
    if |scheme| == 0 || |rest| == 0 || rest[0] != ' ' then None
    else match ReadParams(SkipSpace(rest))
      case None => None
      case Some(params) => Some(Challenge(scheme, params))
  }

  // ---------- what is read is what was written ----------

  /** The value without carriage returns and line feeds. */
  function Clean(value: string): string {
    if |value| == 0 then "" else (if value[0] == '\r' || value[0] == '\n' then "" else [value[0]]) + Clean(value[1..])
  }

  /** No control characters besides tab, and the CR and LF that writing drops. */
  predicate Readable(value: string) {
    forall i | 0 <= i < |value| :: IsText(value[i]) || value[i] == '\r' || value[i] == '\n'
  }

  lemma {:induction false} CleanUnchanged(value: string)
    requires forall i | 0 <= i < |value| :: value[i] != '\r' && value[i] != '\n'
    ensures Clean(value) == value
  {
    if |value| > 0 {
      CleanUnchanged(value[1..]);
      assert value == [value[0]] + value[1..];
    }
  }

  lemma {:induction false} QuotedReadsBack(value: string, rest: string)
    ensures ReadQuoted(Quote(value) + "\"" + rest) ==
            if Readable(value) then Some(Read(Clean(value), rest)) else None
  {
    var s := Quote(value) + "\"" + rest;
    if |value| == 0 {
      assert s[1..] == rest;
    } else {
      var c, more := value[0], value[1..];
      var head, tail := QuoteChar(c), Quote(more) + "\"" + rest;
      QuotedReadsBack(more, rest);
      assert s == head + tail;
      assert Readable(value) <==> (IsText(c) || c == '\r' || c == '\n') && Readable(more);
      assert s[|head|..] == tail;
      if |head| == 0 {
        assert s == tail && Clean(value) == Clean(more);
      } else {
        assert s[0] != '"' && s[|head| - 1] == c && (s[0] == '\\' <==> |head| == 2);
        if IsText(c) && Readable(more) {
          assert Clean(value) == [c] + Clean(more);
        }
      }
    }
  }

  predicate IsToken(s: string) { |s| > 0 && forall i | 0 <= i < |s| :: IsTokenChar(s[i]) }

  lemma {:induction false} TokenReads(name: string, rest: string)
    requires forall i | 0 <= i < |name| :: IsTokenChar(name[i])
    requires |rest| > 0 && !IsTokenChar(rest[0])
    ensures ReadToken(name + rest) == Read(name, rest)
  {
    if |name| == 0 {
      assert name + rest == rest;
    } else {
      assert (name + rest)[1..] == name[1..] + rest;
      TokenReads(name[1..], rest);
      assert name == [name[0]] + name[1..];
    }
  }

  lemma ParamReadsBack(p: Param, rest: string)
    requires IsToken(p.name)
    ensures ReadParam(Written(p) + rest) ==
            if Readable(p.value) then Some((Param(p.name, Clean(p.value)), rest)) else None
  {
    var quoted := Quote(p.value) + "\"" + rest;
    assert Written(p) + rest == p.name + ("=\"" + quoted);
    TokenReads(p.name, "=\"" + quoted);
    assert ("=\"" + quoted)[2..] == quoted;
    QuotedReadsBack(p.value, rest);
  }

  function Cleaned(params: seq<Param>): seq<Param> {
    seq(|params|, i requires 0 <= i < |params| => Param(params[i].name, Clean(params[i].value)))
  }

  predicate AllReadable(params: seq<Param>) { forall i | 0 <= i < |params| :: Readable(params[i].value) }

  /** Behind a comma the list goes on. */
  lemma ListGoesOn(s: string, p: Param, more: string)
    requires ReadParam(s) == Some((p, ", " + more)) && |more| > 0 && IsTokenChar(more[0])
    ensures ReadParams(s) == match ReadParams(more) case None => None case Some(ps) => Some([p] + ps)
  {
    var rest := ", " + more;
    SpaceSkipped(more);
    assert rest[1..] == " " + more && SkipSpace(rest) == rest;
    hide ReadParam, SkipSpace, IsTokenChar;
  }

  lemma {:induction false} ParamsReadBack(params: seq<Param>)
    requires |params| > 0 && forall i | 0 <= i < |params| :: IsToken(params[i].name)
    ensures ReadParams(WrittenList(params)) == if AllReadable(params) then Some(Cleaned(params)) else None
  {
    var p := params[0];
    if |params| == 1 {
      assert Written(p) + "" == Written(p);
      ParamReadsBack(p, "");
      assert Cleaned(params) == [Param(p.name, Clean(p.value))];
      hide Written, ReadParam, Readable, IsToken;
    } else {
      var more := params[1..];
      ParamReadsBack(p, ", " + WrittenList(more));
      ParamsReadBack(more);
      StartsWithToken(more);
      assert AllReadable(params) <==> Readable(p.value) && AllReadable(more);
      assert Cleaned(params) == [Param(p.name, Clean(p.value))] + Cleaned(more);
      if Readable(p.value) {
        ListGoesOn(WrittenList(params), Param(p.name, Clean(p.value)), WrittenList(more));
      }
      hide Written, ReadParam, Readable, IsToken, Cleaned, AllReadable, SkipSpace;
    }
  }

  lemma StartsWithToken(params: seq<Param>)
    requires |params| > 0 && IsToken(params[0].name)
    ensures |WrittenList(params)| > 0 && IsTokenChar(WrittenList(params)[0])
  {
  }

  /** Reading a written challenge gives exactly the parameters written, in order, each value
      with only CR and LF removed; unless a value has another control character, which the
      grammar does not allow, and then it gives nothing. */
  lemma ReadsBack(params: seq<Param>)
    requires |params| > 0 && forall i | 0 <= i < |params| :: IsToken(params[i].name)
    ensures ReadChallenge("Bearer " + WrittenList(params)) ==
            if AllReadable(params) then Some(Challenge("Bearer", Cleaned(params))) else None
  {
    StartsWithToken(params);
    ParamsReadBack(params);
    SchemeReads(WrittenList(params));
    hide ReadParams, WrittenList, AllReadable, IsToken, Cleaned;
  }

  lemma SchemeReads(list: string)
    requires |list| > 0 && IsTokenChar(list[0])
    ensures ReadChallenge("Bearer " + list) ==
            match ReadParams(list) case None => None case Some(params) => Some(Challenge("Bearer", params))
  {
    BearerReads(list);
    SpaceSkipped(list);
    hide ReadParams, SkipSpace, IsTokenChar, ReadToken;
  }

  lemma BearerReads(list: string)
    ensures ReadToken("Bearer " + list) == Read("Bearer", " " + list)
  {
    assert "Bearer " + list == "Bearer" + (" " + list);
    TokenReads("Bearer", " " + list);
  }

  lemma SpaceSkipped(list: string)
    requires |list| > 0 && IsTokenChar(list[0])
    ensures SkipSpace(list) == list && SkipSpace(" " + list) == list && (" " + list)[1..] == list
  {
    assert (" " + list)[1..] == list;
  }

  lemma ErrorNames(code: string, description: string, scope: string, realm: string, metadata: string)
    ensures var params := ErrorParams(code, description, scope, realm, metadata);
            forall i | 0 <= i < |params| :: IsToken(params[i].name)
  {
    assert IsToken("error") && IsToken("error_description") && IsToken("realm") && IsToken("scope")
           && IsToken("resource_metadata");
    hide IsToken;
  }

  /** The error challenge reads back; the optional parameters are there exactly if not empty. */
  lemma ErrorReadsBack(code: string, description: string, scope: string, realm: string, metadata: string)
    ensures var params := ErrorParams(code, description, scope, realm, metadata);
            && ReadChallenge("Bearer " + WrittenList(params)) ==
               (if AllReadable(params) then Some(Challenge("Bearer", Cleaned(params))) else None)
            && |params| == 3 + (if |scope| > 0 then 1 else 0) + (if |metadata| > 0 then 1 else 0)
            && params[0] == Param("error", code) && params[1] == Param("error_description", description)
            && params[2] == Param("realm", realm)
            && (|scope| > 0 ==> params[3] == Param("scope", scope))
            && (|metadata| > 0 ==> params[|params| - 1] == Param("resource_metadata", metadata))
  {
    ErrorNames(code, description, scope, realm, metadata);
    ReadsBack(ErrorParams(code, description, scope, realm, metadata));
    hide ReadChallenge, WrittenList, AllReadable, Cleaned;
  }

  lemma ChallengeReadsBack(realm: string, metadata: string)
    ensures var params := ChallengeParams(realm, metadata);
            && ReadChallenge("Bearer " + WrittenList(params)) ==
               (if AllReadable(params) then Some(Challenge("Bearer", Cleaned(params))) else None)
            && |params| == (if |metadata| > 0 then 2 else 1) && params[0] == Param("realm", realm)
            && (|metadata| > 0 ==> params[1] == Param("resource_metadata", metadata))
  {
    assert IsToken("realm") && IsToken("resource_metadata");
    hide ReadChallenge, WrittenList, AllReadable, Cleaned, IsToken;
    ReadsBack(ChallengeParams(realm, metadata));
  }
}
