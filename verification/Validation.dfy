/** Validation of a test definition (pkg/testdef/validate.go). */
module Validation {
  import opened Wrappers
  import opened TestDef
  import opened Text
  import Templates

  const MAX_BODY_SIZE := 16777216
  const MAX_STATUS := 999
  const TCHAR_PUNCTUATION := "!#$%&'*+-.^_`|~"
  const LEVELS: seq<string> := [LEVEL_MUST, LEVEL_SHOULD, LEVEL_MAY, LEVEL_INFO]

  /** Regular expressions, protocol names, citations and clocks, left uninterpreted. */
  datatype Checks = Checks(
    compiles: string -> bool,
    knownProto: string -> bool,
    validRef: string -> bool,
    clock: Templates.Clock)

  datatype LineKind = SendLine | ExpectLine | NameLine

  datatype LineError = BadFieldName | NeedsValue | BadTemplate | BadRegexp | NotNameOnly

  /** A problem with a definition, inside the response or the 1-based step it was found in. */
  datatype Error =
    | BadId | NoTitle | BadLevel | BadRef(ref: string)
    | BadProtocol(proto: string) | BadDependency(dep: string)
    | BadResponseName(name: string) | InResponse(name: string, err: Error) | EmptyResponse
    | BadStatus | BodyAndSize | BadBodySize | BadRanges | NegativeDelay | BadInterim(status: int)
    | BadLine(field: string, line: string, why: LineError)
    | InStep(number: nat, err: Error) | EmptyStep | WaitNotPositive | WaitSendsRequest
    | BadMethod | BadPath | BadQuery
    | UnknownResponse(name: string) | MissingRespondWith
    | BadExpectedStatus(status: int) | BadExpectedInterim(status: int) | ContradictoryForwarded
    | NoRequestStep

  predicate ValidToken(s: string) {
    && s != ""
    && forall i :: 0 <= i < |s| ==>
         'a' <= s[i] <= 'z' || 'A' <= s[i] <= 'Z' || '0' <= s[i] <= '9' || s[i] in TCHAR_PUNCTUATION
  }

  predicate ContainsAny(s: string, chars: string) {
    exists i :: 0 <= i < |s| && s[i] in chars
  }

  predicate InRange(v: int, lo: int, hi: int) {
    lo <= v <= hi
  }

  function CheckLine(checks: Checks, line: string, kind: LineKind): Option<LineError> {
    var l := SplitLine(line);
    if !ValidToken(l.name) then Some(BadFieldName)
    else
      match kind
      case SendLine =>
        if !l.hasValue then Some(NeedsValue)
        else if Templates.TemplatesOk(checks.clock, l.value) then None else Some(BadTemplate)
      case ExpectLine =>
        if "~" <= l.value && !checks.compiles(l.value[1..]) then Some(BadRegexp) else None
      case NameLine =>
        if l.hasValue then Some(NotNameOnly) else None
  }

  /**
   * A header line is accepted for sending exactly when it has a good name and a value that expands,
   * whenever it is sent, to text without a template.
   */
  lemma SentLinesHoldNoTemplate(checks: Checks, line: string, now: int)
    requires Templates.PlainDates(checks.clock)
    ensures var l := SplitLine(line);
      CheckLine(checks, line, SendLine) == None <==>
        ValidToken(l.name) && l.hasValue && !Contains(Templates.Expand(checks.clock, l.value, now), Templates.OPEN)
  {
    hide ValidToken, SplitLine;
    Templates.ExpandClearsTemplates(checks.clock, SplitLine(line).value, now);
  }

  predicate LinesOk(checks: Checks, lines: seq<string>, kind: LineKind) {
    forall i :: 0 <= i < |lines| ==> CheckLine(checks, lines[i], kind) == None
  }

  /** A token of section 5.6.2 of RFC 9110 is made of letters, digits and some punctuation. */
  ghost predicate IsTokenChar(c: char) {
    || 'a' <= c <= 'z' || 'A' <= c <= 'Z' || '0' <= c <= '9'
    || c in {'!', '#', '$', '%', '&', '\'', '*', '+', '-', '.', '^', '_', '`', '|', '~'}
  }

  ghost predicate IsToken(s: string) {
    s != "" && forall c :: c in s ==> IsTokenChar(c)
  }

  lemma Punctuation(c: char)
    ensures c in TCHAR_PUNCTUATION <==>
      c in {'!', '#', '$', '%', '&', '\'', '*', '+', '-', '.', '^', '_', '`', '|', '~'}
  {
  }

  lemma ValidTokenIsToken(s: string)
    ensures ValidToken(s) <==> IsToken(s)
  {
    if ValidToken(s) {
      forall c | c in s ensures IsTokenChar(c) {
        Punctuation(c);
      }
    }
    if IsToken(s) {
      forall i | 0 <= i < |s|
        ensures 'a' <= s[i] <= 'z' || 'A' <= s[i] <= 'Z' || '0' <= s[i] <= '9' || s[i] in TCHAR_PUNCTUATION
      {
        assert s[i] in s;
        Punctuation(s[i]);
      }
    }
  }

  /** Why a line is refused: each kind of line needs a field name, and then something of its own. */
  ghost predicate LineRefused(checks: Checks, line: string, kind: LineKind, why: LineError) {
    var l := SplitLine(line);
    match why
    case BadFieldName => !IsToken(l.name)
    case NeedsValue => IsToken(l.name) && kind == SendLine && !l.hasValue
    case BadTemplate =>
      IsToken(l.name) && kind == SendLine && l.hasValue && !Templates.TemplatesOk(checks.clock, l.value)
    case BadRegexp =>
      IsToken(l.name) && kind == ExpectLine && l.value != "" && l.value[0] == '~' && !checks.compiles(l.value[1..])
    case NotNameOnly => IsToken(l.name) && kind == NameLine && l.hasValue
  }

  lemma CheckLineIsExact(checks: Checks, line: string, kind: LineKind, why: LineError)
    ensures CheckLine(checks, line, kind) == Some(why) <==> LineRefused(checks, line, kind, why)
  {
    ValidTokenIsToken(SplitLine(line).name);
    hide ValidToken, IsToken, SplitLine, Templates.TemplatesOk;
  }

  ghost predicate LineDefect(checks: Checks, field: string, lines: seq<string>, kind: LineKind, e: Error) {
    e.BadLine? && e.field == field && e.line in lines && LineRefused(checks, e.line, kind, e.why)
  }

  method CheckLines(checks: Checks, field: string, lines: seq<string>, kind: LineKind) returns (errs: seq<Error>)
    ensures errs == [] <==> LinesOk(checks, lines, kind)
    ensures forall e :: e in errs <==> LineDefect(checks, field, lines, kind, e)
  {
    hide CheckLine, LineRefused;
    errs := [];
    for i := 0 to |lines|
      invariant errs == [] <==> LinesOk(checks, lines[..i], kind)
      invariant forall e :: e in errs <==> LineDefect(checks, field, lines[..i], kind, e)
    {
      var bad := CheckLine(checks, lines[i], kind);
      forall why ensures bad == Some(why) <==> LineRefused(checks, lines[i], kind, why) {
        CheckLineIsExact(checks, lines[i], kind, why);
      }
      assert lines[..i + 1] == lines[..i] + [lines[i]];
      if bad.Some? {
        errs := errs + [BadLine(field, lines[i], bad.value)];
      }
    }
    assert lines[..|lines|] == lines;
  }

  // ---- identity ----

  predicate IdentityOk(checks: Checks, t: Test) {
    && ValidID(t.id) && TrimSpace(t.title) != "" && t.level in LEVELS
    && forall r :: r in t.refs ==> checks.validRef(r)
  }

  ghost predicate IdentityDefect(checks: Checks, t: Test, e: Error) {
    match e
    case BadId => !ValidID(t.id)
    case NoTitle => forall c :: c in t.title ==> IsUnicodeSpace(c)
    case BadLevel => t.level !in {"must", "should", "may", "info"}
    case BadRef(r) => r in t.refs && !checks.validRef(r)
    case _ => false
  }

  method ValidateIdentity(checks: Checks, t: Test) returns (errs: seq<Error>)
    ensures errs == [] <==> IdentityOk(checks, t)
    ensures forall e :: e in errs <==> IdentityDefect(checks, t, e)
  {
    TrimSpaceLeavesNothing(t.title);
    hide ValidID, TrimSpace, IsUnicodeSpace;
    errs := if ValidID(t.id) then [] else [BadId];
    if TrimSpace(t.title) == "" {
      errs := errs + [NoTitle];
    }
    if t.level !in LEVELS {
      errs := errs + [BadLevel];
    }
    for i := 0 to |t.refs|
      invariant errs == [] <==> IdentityOk(checks, t.(refs := t.refs[..i]))
      invariant forall e :: e in errs <==> IdentityDefect(checks, t.(refs := t.refs[..i]), e)
    {
      assert t.refs[..i + 1] == t.refs[..i] + [t.refs[i]];
      if !checks.validRef(t.refs[i]) {
        errs := errs + [BadRef(t.refs[i])];
      }
    }
    assert t.refs[..|t.refs|] == t.refs;
  }

  predicate DependencyOk(t: Test, d: string) {
    d != t.id && ValidID(d)
  }

  // ---- IDs ----

  /** A non-empty run of lowercase letters and digits. */
  ghost predicate IsIdPart(s: string) {
    s != "" && forall c :: c in s ==> 'a' <= c <= 'z' || '0' <= c <= '9'
  }

  /** Lowercase kebab-case: parts joined by single hyphens. */
  ghost predicate IsKebabCase(id: string) {
    exists parts: seq<string> :: parts != [] && (forall p :: p in parts ==> IsIdPart(p)) && id == Join(parts, "-")
  }

  lemma PartIsValidID(s: string)
    requires IsIdPart(s)
    ensures ValidID(s)
  {
    forall i | 0 <= i < |s| ensures IsIdChar(s[i]) && s[i] != '-' {
      assert s[i] in s;
    }
  }

  lemma {:induction false} JoinedPartsAreValidID(parts: seq<string>)
    requires parts != [] && forall p :: p in parts ==> IsIdPart(p)
    ensures ValidID(Join(parts, "-"))
    decreases |parts|
  {
    PartIsValidID(parts[0]);
    if |parts| > 1 {
      var rest := Join(parts[1..], "-");
      JoinedPartsAreValidID(parts[1..]);
      var id := parts[0] + "-" + rest;
      var n := |parts[0]|;
      assert forall i :: 0 <= i < |id| ==>
        id[i] == if i < n then parts[0][i] else if i == n then '-' else rest[i - n - 1];
      assert parts[0][n - 1] in parts[0];
    }
  }

  lemma FirstHyphen(id: string) returns (n: nat)
    ensures n <= |id| && (forall i :: 0 <= i < n ==> id[i] != '-') && (n < |id| ==> id[n] == '-')
  {
    n := 0;
    while n < |id| && id[n] != '-'
      invariant n <= |id| && forall i :: 0 <= i < n ==> id[i] != '-'
    {
      n := n + 1;
    }
  }

  lemma SplitAtHyphen(id: string, n: nat)
    requires ValidID(id) && n <= |id| && (forall i :: 0 <= i < n ==> id[i] != '-') && (n < |id| ==> id[n] == '-')
    ensures IsIdPart(id[..n]) && (n < |id| ==> ValidID(id[n + 1..]))
  {
    var first := id[..n];
    assert forall i :: 0 <= i < n ==> first[i] == id[i] && IsIdChar(id[i]);
    if n < |id| {
      var rest := id[n + 1..];
      assert forall i :: 0 <= i < |rest| ==> rest[i] == id[n + 1 + i];
    }
  }

  lemma {:induction false} ValidIDHasParts(id: string) returns (parts: seq<string>)
    requires ValidID(id)
    ensures parts != [] && (forall p :: p in parts ==> IsIdPart(p)) && id == Join(parts, "-")
    decreases |id|
  {
    var n := FirstHyphen(id);
    SplitAtHyphen(id, n);
    hide ValidID, IsIdPart;
    if n == |id| {
      parts := [id];
      assert id[..n] == id;
    } else {
      var rest := ValidIDHasParts(id[n + 1..]);
      parts := [id[..n]] + rest;
      assert parts[1..] == rest;
      assert id == id[..n] + "-" + id[n + 1..];
    }
  }

  /** An ID is valid exactly when it is kebab-case. */
  lemma ValidIDIsKebabCase(id: string)
    ensures ValidID(id) <==> IsKebabCase(id)
  {
    if ValidID(id) {
      var parts := ValidIDHasParts(id);
    }
    if IsKebabCase(id) {
      var parts: seq<string> :| parts != [] && (forall p :: p in parts ==> IsIdPart(p)) && id == Join(parts, "-");
      JoinedPartsAreValidID(parts);
    }
  }

  // ---- prerequisites ----

  /** Protocols are recognized, and no test requires itself or a malformed ID. */
  predicate PrerequisitesOk(checks: Checks, t: Test) {
    && (forall p :: p in t.protocols ==> checks.knownProto(p))
    && forall d :: d in t.deps ==> DependencyOk(t, d)
  }

  ghost predicate PrerequisiteDefect(checks: Checks, t: Test, e: Error) {
    match e
    case BadProtocol(p) => p in t.protocols && !checks.knownProto(p)
    case BadDependency(d) => d in t.deps && (d == t.id || !ValidID(d))
    case _ => false
  }

  method ValidatePrerequisites(checks: Checks, t: Test) returns (errs: seq<Error>)
    ensures errs == [] <==> PrerequisitesOk(checks, t)
    ensures forall e :: e in errs <==> PrerequisiteDefect(checks, t, e)
  {
    hide ValidID;
    errs := [];
    for i := 0 to |t.protocols|
      invariant errs == [] <==> forall p :: p in t.protocols[..i] ==> checks.knownProto(p)
      invariant forall e :: e in errs <==> PrerequisiteDefect(checks, t.(protocols := t.protocols[..i], deps := []), e)
    {
      assert t.protocols[..i + 1] == t.protocols[..i] + [t.protocols[i]];
      if !checks.knownProto(t.protocols[i]) {
        errs := errs + [BadProtocol(t.protocols[i])];
      }
    }
    assert t.protocols[..|t.protocols|] == t.protocols;
    ghost var before := errs;
    for i := 0 to |t.deps|
      invariant errs == [] <==> before == [] && forall d :: d in t.deps[..i] ==> DependencyOk(t, d)
      invariant forall e :: e in errs <==>
        e in before || (e.BadDependency? && e.dep in t.deps[..i] && (e.dep == t.id || !ValidID(e.dep)))
    {
      assert t.deps[..i + 1] == t.deps[..i] + [t.deps[i]];
      if !DependencyOk(t, t.deps[i]) {
        errs := errs + [BadDependency(t.deps[i])];
      }
    }
    assert t.deps[..|t.deps|] == t.deps;
  }

  // ---- responses ----

  predicate InterimStatusOk(status: int) {
    InRange(status, 100, 199) && status != 101
  }

  predicate InterimOk(checks: Checks, x: Interim) {
    InterimStatusOk(x.status) && LinesOk(checks, x.headers, SendLine)
  }

  ghost predicate InterimDefect(checks: Checks, x: Interim, e: Error) {
    || (e == BadInterim(x.status) && (x.status < 100 || x.status > 199 || x.status == 101))
    || LineDefect(checks, "interim headers", x.headers, SendLine, e)
  }

  method ValidateInterim(checks: Checks, interim: seq<Interim>) returns (errs: seq<Error>)
    ensures errs == [] <==> forall x :: x in interim ==> InterimOk(checks, x)
    ensures forall e :: e in errs <==> exists x :: x in interim && InterimDefect(checks, x, e)
  {
    hide LinesOk, LineDefect;
    errs := [];
    for i := 0 to |interim|
      invariant errs == [] <==> forall x :: x in interim[..i] ==> InterimOk(checks, x)
      invariant forall e :: e in errs <==> exists x :: x in interim[..i] && InterimDefect(checks, x, e)
    {
      var bad := if InterimStatusOk(interim[i].status) then [] else [BadInterim(interim[i].status)];
      var lines := CheckLines(checks, "interim headers", interim[i].headers, SendLine);
      assert forall e :: e in bad + lines <==> InterimDefect(checks, interim[i], e);
      assert bad + lines == [] <==> InterimOk(checks, interim[i]);
      assert interim[..i + 1] == interim[..i] + [interim[i]];
      errs := errs + (bad + lines);
    }
    assert interim[..|interim|] == interim;
  }

  predicate ResponseOk(checks: Checks, r: Response) {
    && (r.status != 0 ==> InRange(r.status, 200, MAX_STATUS))
    && !(r.body != "" && r.bodySize != 0) && InRange(r.bodySize, 0, MAX_BODY_SIZE)
    && (r.ranges ==> r.status == 0 || r.status == 200)
    && r.delay >= 0
    && LinesOk(checks, r.headers, SendLine) && LinesOk(checks, r.trailers, SendLine)
    && forall x :: x in r.interim ==> InterimOk(checks, x)
  }

  ghost predicate ResponseDefect(checks: Checks, r: Response, e: Error) {
    || (e == BadStatus && r.status != 0 && (r.status < 200 || r.status > 999))
    || (e == BodyAndSize && r.body != "" && r.bodySize != 0)
    || (e == BadBodySize && (r.bodySize < 0 || r.bodySize > 16 * 1024 * 1024))
    || (e == BadRanges && r.ranges && r.status != 0 && r.status != 200)
    || (e == NegativeDelay && r.delay < 0)
    || LineDefect(checks, "headers", r.headers, SendLine, e)
    || LineDefect(checks, "trailers", r.trailers, SendLine, e)
    || exists x :: x in r.interim && InterimDefect(checks, x, e)
  }

  method ValidateResponse(checks: Checks, r: Response) returns (errs: seq<Error>)
    ensures errs == [] <==> ResponseOk(checks, r)
    ensures forall e :: e in errs <==> ResponseDefect(checks, r, e)
  {
    hide LinesOk, LineDefect, InterimOk, InterimDefect;
    errs := [];
    if r.status != 0 && !InRange(r.status, 200, MAX_STATUS) {
      errs := errs + [BadStatus];
    }
    if r.body != "" && r.bodySize != 0 {
      errs := errs + [BodyAndSize];
    }
    if !InRange(r.bodySize, 0, MAX_BODY_SIZE) {
      errs := errs + [BadBodySize];
    }
    if r.ranges && r.status != 0 && r.status != 200 {
      errs := errs + [BadRanges];
    }
    if r.delay < 0 {
      errs := errs + [NegativeDelay];
    }
    var headers := CheckLines(checks, "headers", r.headers, SendLine);
    var trailers := CheckLines(checks, "trailers", r.trailers, SendLine);
    var interim := ValidateInterim(checks, r.interim);
    errs := errs + headers + trailers + interim;
  }

  /** Response names are IDs, so never empty, and no response is missing its definition. */
  predicate ResponsesOk(checks: Checks, t: Test) {
    forall name :: name in t.responses ==>
      ValidID(name) && t.responses[name].Some? && ResponseOk(checks, t.responses[name].value)
  }

  ghost predicate NamedResponseDefect(checks: Checks, r: Option<Response>, e: Error) {
    match r
    case None => e == EmptyResponse
    case Some(response) => ResponseDefect(checks, response, e)
  }

  ghost predicate ResponsesDefect(checks: Checks, t: Test, e: Error) {
    match e
    case BadResponseName(name) => name in t.responses && !ValidID(name)
    case InResponse(name, inner) => name in t.responses && NamedResponseDefect(checks, t.responses[name], inner)
    case _ => false
  }

  method ForResponse(name: string, errs: seq<Error>) returns (out: seq<Error>)
    ensures out == [] <==> errs == []
    ensures forall e :: e in out <==> e.InResponse? && e.name == name && e.err in errs
  {
    out := [];
    for i := 0 to |errs|
      invariant |out| == i && forall k :: 0 <= k < i ==> out[k] == InResponse(name, errs[k])
    {
      out := out + [InResponse(name, errs[i])];
    }
    forall e | e in errs ensures InResponse(name, e) in out {
      var k :| 0 <= k < |errs| && errs[k] == e;
      assert out[k] == InResponse(name, e);
    }
  }

  method ValidateNamedResponse(checks: Checks, name: string, r: Option<Response>) returns (errs: seq<Error>)
    ensures errs == [] <==> ValidID(name) && r.Some? && ResponseOk(checks, r.value)
    ensures forall e :: e in errs <==>
      || (e == BadResponseName(name) && !ValidID(name))
      || (e.InResponse? && e.name == name && NamedResponseDefect(checks, r, e.err))
  {
    hide ValidID, ResponseOk, ResponseDefect;
    var inner := [EmptyResponse];
    if r.Some? {
      inner := ValidateResponse(checks, r.value);
    }
    var outer := ForResponse(name, inner);
    errs := (if ValidID(name) then [] else [BadResponseName(name)]) + outer;
  }

  method ValidateResponses(checks: Checks, t: Test) returns (errs: seq<Error>)
    ensures errs == [] <==> ResponsesOk(checks, t)
    ensures forall e :: e in errs <==> ResponsesDefect(checks, t, e)
  {
    hide ValidID, ResponseOk, NamedResponseDefect;
    errs := [];
    var todo := t.responses.Keys;
    while todo != {}
      invariant todo <= t.responses.Keys
      invariant errs == [] <==> forall name :: name in t.responses && name !in todo ==>
        ValidID(name) && t.responses[name].Some? && ResponseOk(checks, t.responses[name].value)
      invariant forall e :: e in errs <==>
        (e.BadResponseName? || e.InResponse?) && e.name !in todo && ResponsesDefect(checks, t, e)
      decreases todo
    {
      var name :| name in todo;
      var more := ValidateNamedResponse(checks, name, t.responses[name]);
      errs := errs + more;
      todo := todo - {name};
    }
  }

  // ---- steps ----

  predicate RespondWithOk(t: Test, s: Step)
    requires s.Step?
  {
    && (s.respondWith != "" ==> s.respondWith in t.responses)
    && (s.respondWith == "" ==> |t.responses| <= 1)
  }

  ghost predicate RespondWithDefect(t: Test, s: Step, e: Error)
    requires s.Step?
  {
    || (e == UnknownResponse(s.respondWith) && s.respondWith != "" && s.respondWith !in t.responses)
    || (e == MissingRespondWith && s.respondWith == "" && |t.responses| > 1)
  }

  function ValidateRespondWith(t: Test, s: Step): (errs: seq<Error>)
    requires s.Step?
    ensures errs == [] <==> RespondWithOk(t, s)
    ensures forall e :: e in errs <==> RespondWithDefect(t, s, e)
  {
    if s.respondWith != "" && s.respondWith !in t.responses then [UnknownResponse(s.respondWith)]
    else if s.respondWith == "" && |t.responses| > 1 then [MissingRespondWith]
    else []
  }

  predicate StatusesOk(e: Expect) {
    && (forall c :: c in e.status ==> InRange(c, 100, MAX_STATUS))
    && (forall c :: c in e.interim ==> InRange(c, 100, 199))
  }

  ghost predicate StatusDefect(e: Expect, x: Error) {
    match x
    case BadExpectedStatus(c) => c in e.status && (c < 100 || c > 999)
    case BadExpectedInterim(c) => c in e.interim && (c < 100 || c > 199)
    case _ => false
  }

  method ValidateStatuses(e: Expect) returns (errs: seq<Error>)
    ensures errs == [] <==> StatusesOk(e)
    ensures forall x :: x in errs <==> StatusDefect(e, x)
  {
    errs := [];
    for i := 0 to |e.status|
      invariant errs == [] <==> forall c :: c in e.status[..i] ==> InRange(c, 100, MAX_STATUS)
      invariant forall x :: x in errs <==> StatusDefect(e.(status := e.status[..i], interim := []), x)
    {
      assert e.status[..i + 1] == e.status[..i] + [e.status[i]];
      if !InRange(e.status[i], 100, MAX_STATUS) {
        errs := errs + [BadExpectedStatus(e.status[i])];
      }
    }
    assert e.status[..|e.status|] == e.status;
    for i := 0 to |e.interim|
      invariant errs == [] <==> StatusesOk(e.(interim := e.interim[..i]))
      invariant forall x :: x in errs <==> StatusDefect(e.(interim := e.interim[..i]), x)
    {
      assert e.interim[..i + 1] == e.interim[..i] + [e.interim[i]];
      if !InRange(e.interim[i], 100, 199) {
        errs := errs + [BadExpectedInterim(e.interim[i])];
      }
    }
    assert e.interim[..|e.interim|] == e.interim;
  }

  predicate Contradictory(e: Expect) {
    e.forwarded == Some(false) && (e.forwardedHeaders != [] || e.forwardedHeadersAbsent != [])
  }

  predicate ExpectOk(checks: Checks, e: Expect) {
    && StatusesOk(e) && !Contradictory(e)
    && LinesOk(checks, e.headers, ExpectLine) && LinesOk(checks, e.trailers, ExpectLine)
    && LinesOk(checks, e.forwardedHeaders, ExpectLine)
    && LinesOk(checks, e.headersAbsent, NameLine) && LinesOk(checks, e.forwardedHeadersAbsent, NameLine)
  }

  ghost predicate ExpectDefect(checks: Checks, e: Expect, x: Error) {
    || StatusDefect(e, x)
    || (x == ContradictoryForwarded && e.forwarded == Some(false)
        && |e.forwardedHeaders| + |e.forwardedHeadersAbsent| > 0)
    || LineDefect(checks, "expect headers", e.headers, ExpectLine, x)
    || LineDefect(checks, "expect trailers", e.trailers, ExpectLine, x)
    || LineDefect(checks, "expect forwarded_headers", e.forwardedHeaders, ExpectLine, x)
    || LineDefect(checks, "expect headers_absent", e.headersAbsent, NameLine, x)
    || LineDefect(checks, "expect forwarded_headers_absent", e.forwardedHeadersAbsent, NameLine, x)
  }

  method ValidateExpect(checks: Checks, e: Expect) returns (errs: seq<Error>)
    ensures errs == [] <==> ExpectOk(checks, e)
    ensures forall x :: x in errs <==> ExpectDefect(checks, e, x)
  {
    hide LinesOk, LineDefect, StatusesOk, StatusDefect;
    errs := ValidateStatuses(e);
    if Contradictory(e) {
      errs := errs + [ContradictoryForwarded];
    }
    var a := CheckLines(checks, "expect headers", e.headers, ExpectLine);
    var b := CheckLines(checks, "expect trailers", e.trailers, ExpectLine);
    var c := CheckLines(checks, "expect forwarded_headers", e.forwardedHeaders, ExpectLine);
    var d := CheckLines(checks, "expect headers_absent", e.headersAbsent, NameLine);
    var f := CheckLines(checks, "expect forwarded_headers_absent", e.forwardedHeadersAbsent, NameLine);
    errs := errs + a + b + c + d + f;
  }

  predicate ValidPath(path: string) {
    "/" <= path && !ContainsAny(path, "?# ")
  }

  ghost predicate IsCleanPath(path: string) {
    path != "" && path[0] == '/' && '?' !in path && '#' !in path && ' ' !in path
  }

  ghost predicate IsCleanQuery(query: string) {
    '#' !in query && ' ' !in query
  }

  lemma CleanTarget(path: string, query: string)
    ensures ValidPath(path) <==> IsCleanPath(path)
    ensures ContainsAny(query, "# ") <==> !IsCleanQuery(query)
  {
    if path != "" {
      assert "/" <= path <==> path[0] == '/';
    }
  }

  predicate RequestOk(checks: Checks, t: Test, s: Step)
    requires s.Step?
  {
    && (s.httpMethod != "" ==> ValidToken(s.httpMethod))
    && (s.path != "" ==> ValidPath(s.path))
    && !ContainsAny(s.query, "# ")
    && LinesOk(checks, s.headers, SendLine)
    && RespondWithOk(t, s)
    && (s.expectation.Some? ==> ExpectOk(checks, s.expectation.value))
  }

  ghost predicate RequestDefect(checks: Checks, t: Test, s: Step, e: Error)
    requires s.Step?
  {
    || (e == BadMethod && s.httpMethod != "" && !IsToken(s.httpMethod))
    || (e == BadPath && s.path != "" && !IsCleanPath(s.path))
    || (e == BadQuery && !IsCleanQuery(s.query))
    || LineDefect(checks, "headers", s.headers, SendLine, e)
    || RespondWithDefect(t, s, e)
    || (s.expectation.Some? && ExpectDefect(checks, s.expectation.value, e))
  }

  method ValidateRequest(checks: Checks, t: Test, s: Step) returns (errs: seq<Error>)
    requires s.Step?
    ensures errs == [] <==> RequestOk(checks, t, s)
    ensures forall e :: e in errs <==> RequestDefect(checks, t, s, e)
  {
    ValidTokenIsToken(s.httpMethod);
    CleanTarget(s.path, s.query);
    hide IsCleanPath, IsCleanQuery, LinesOk, ExpectOk, ValidToken, IsToken, ContainsAny, RespondWithOk, ValidPath;
    hide LineDefect, ExpectDefect, RespondWithDefect;
    errs := [];
    if s.httpMethod != "" && !ValidToken(s.httpMethod) {
      errs := errs + [BadMethod];
    }
    if s.path != "" && !ValidPath(s.path) {
      errs := errs + [BadPath];
    }
    if ContainsAny(s.query, "# ") {
      errs := errs + [BadQuery];
    }
    var lines := CheckLines(checks, "headers", s.headers, SendLine);
    errs := errs + lines + ValidateRespondWith(t, s);
    if s.expectation.Some? {
      var more := ValidateExpect(checks, s.expectation.value);
      errs := errs + more;
    }
  }

  predicate SendsRequest(s: Step)
    requires s.Step?
  {
    || s.parallel || s.httpMethod != "" || s.path != "" || s.query != "" || s.body != "" || s.headers != []
    || s.respondWith != "" || s.arrange || s.expectation.Some?
  }

  predicate StepOk(checks: Checks, t: Test, s: Step) {
    && s.Step?
    && if s.IsWait() then s.wait.value > 0 && !SendsRequest(s) else RequestOk(checks, t, s)
  }

  ghost predicate StepDefect(checks: Checks, t: Test, s: Step, e: Error) {
    if s.NilStep? then e == EmptyStep
    else if s.wait.Some? then
      || (e == WaitNotPositive && s.wait.value <= 0)
      || (e == WaitSendsRequest && s.wait.value > 0
          && s != TestDef.Step.Step(s.wait, false, "", "", "", [], "", "", false, None))
    else RequestDefect(checks, t, s, e)
  }

  method ValidateStep(checks: Checks, t: Test, s: Step) returns (errs: seq<Error>)
    ensures errs == [] <==> StepOk(checks, t, s)
    ensures forall e :: e in errs <==> StepDefect(checks, t, s, e)
  {
    hide RequestOk, RequestDefect;
    if s.NilStep? {
      return [EmptyStep];
    }
    if s.IsWait() {
      return if s.wait.value <= 0 then [WaitNotPositive] else if SendsRequest(s) then [WaitSendsRequest] else [];
    }
    errs := ValidateRequest(checks, t, s);
  }

  predicate HasRequest(t: Test) {
    exists i :: 0 <= i < |t.steps| && t.steps[i].IsRequest()
  }

  predicate StepsOk(checks: Checks, t: Test) {
    (forall i :: 0 <= i < |t.steps| ==> StepOk(checks, t, t.steps[i])) && HasRequest(t)
  }

  ghost predicate StepsDefect(checks: Checks, t: Test, e: Error) {
    match e
    case InStep(n, inner) => 1 <= n <= |t.steps| && StepDefect(checks, t, t.steps[n - 1], inner)
    case NoRequestStep => forall i :: 0 <= i < |t.steps| ==> t.steps[i].NilStep? || t.steps[i].wait.Some?
    case _ => false
  }

  method ForStep(number: nat, errs: seq<Error>) returns (out: seq<Error>)
    ensures out == [] <==> errs == []
    ensures forall e :: e in out <==> e.InStep? && e.number == number && e.err in errs
  {
    out := [];
    for i := 0 to |errs|
      invariant |out| == i && forall k :: 0 <= k < i ==> out[k] == InStep(number, errs[k])
    {
      out := out + [InStep(number, errs[i])];
    }
    forall e | e in errs ensures InStep(number, e) in out {
      var k :| 0 <= k < |errs| && errs[k] == e;
      assert out[k] == InStep(number, e);
    }
  }

  method ValidateSteps(checks: Checks, t: Test) returns (errs: seq<Error>)
    ensures errs == [] <==> StepsOk(checks, t)
    ensures forall e :: e in errs <==> StepsDefect(checks, t, e)
  {
    hide StepOk, StepDefect;
    errs := [];
    var some := false;
    for i := 0 to |t.steps|
      invariant errs == [] <==> forall k :: 0 <= k < i ==> StepOk(checks, t, t.steps[k])
      invariant forall e :: e in errs <==> e.InStep? && e.number <= i && StepsDefect(checks, t, e)
      invariant some <==> exists k :: 0 <= k < i && t.steps[k].IsRequest()
    {
      var inner := ValidateStep(checks, t, t.steps[i]);
      var outer := ForStep(i + 1, inner);
      errs := errs + outer;
      some := some || t.steps[i].IsRequest();
    }
    if !some {
      errs := errs + [NoRequestStep];
    }
  }

  predicate ValidTest(checks: Checks, t: Test) {
    && IdentityOk(checks, t)
    && PrerequisitesOk(checks, t)
    && ResponsesOk(checks, t)
    && StepsOk(checks, t)
  }

  /** Something is wrong with the definition, and `e` says what and where. */
  ghost predicate Defect(checks: Checks, t: Test, e: Error) {
    || IdentityDefect(checks, t, e)
    || PrerequisiteDefect(checks, t, e)
    || ResponsesDefect(checks, t, e)
    || StepsDefect(checks, t, e)
  }

  method Validate(checks: Checks, t: Test) returns (errs: seq<Error>)
    ensures errs == [] <==> ValidTest(checks, t)
    ensures forall e :: e in errs <==> Defect(checks, t, e)
  {
    hide IdentityOk, PrerequisitesOk, ResponsesOk, StepsOk;
    hide IdentityDefect, PrerequisiteDefect, ResponsesDefect, StepsDefect;
    var a := ValidateIdentity(checks, t);
    var b := ValidatePrerequisites(checks, t);
    var c := ValidateResponses(checks, t);
    var d := ValidateSteps(checks, t);
    errs := a + b + c + d;
  }

  lemma ValidTestHasValidIds(checks: Checks, t: Test)
    requires ValidTest(checks, t)
    ensures ValidID(t.id) && t.id !in t.deps && forall d :: d in t.deps ==> ValidID(d)
  {
    hide ResponsesOk, StepsOk;
  }
}
