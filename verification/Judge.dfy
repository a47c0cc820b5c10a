/** Judging a test from what the client observed and what the origin logged (pkg/check). */
module Judge {
  import opened Wrappers
  import opened TestDef
  import opened Text
  import opened Protocol

  /** Regular expressions and field-name canonicalization, left uninterpreted. */
  datatype Library = Library(
    compiles: string -> bool,
    matches: (string, string) -> bool,
    canonical: string -> string)

  datatype Observation = Observation(
    status: int,
    header: Header,
    trailer: Header,
    interim: seq<int>,
    body: string,
    proto: string,
    err: Option<string>,
    ttfb: int,
    total: int,
    reused: bool)

  datatype Where = InResponse | InTrailer | InForwarded

  datatype Problem =
    | Missing(name: string)
    | BadPattern(name: string)
    | NoMatch(name: string, got: string, pattern: string)
    | Differs(name: string, got: string, want: string)

  datatype Message =
    | RequestFailed(err: string)
    | WrongStatus(status: int, accepted: seq<int>)
    | Field(part: Where, problem: Problem)
    | NotAbsent(part: Where, name: string, values: string)
    | WrongBody(body: string, wanted: string)
    | WrongInterim(received: seq<int>, expected: seq<int>)
    | AnsweredWithoutOrigin
    | ReachedOrigin(times: nat)
    | NeverReachedOrigin

  datatype Failure = Failure(step: nat, arrange: bool, message: Message)

  function Values(lib: Library, h: Header, name: string): seq<string> {
    if lib.canonical(name) in h then h[lib.canonical(name)] else []
  }

  /** What is wrong with one expectation line, if anything. */
  function MatchLine(lib: Library, line: string, h: Header): Option<Problem> {
    var l := SplitLine(line);
    var vals := Values(lib, h, l.name);
    if vals == [] then Some(Missing(l.name))
    else if !l.hasValue then None
    else
      var got := Join(vals, ", ");
      if "~" <= l.value then MatchPattern(lib, l.name, got, l.value[1..])
      else if got == l.value then None
      else Some(Differs(l.name, got, l.value))
  }

  function MatchPattern(lib: Library, name: string, got: string, pattern: string): Option<Problem> {
    if !lib.compiles(pattern) then Some(BadPattern(name))
    else if lib.matches(pattern, got) then None
    else Some(NoMatch(name, got, pattern))
  }

  function Unmatched(lib: Library, w: Where, lines: seq<string>, h: Header): seq<Message> {
    if lines == [] then []
    else
      var rest := Unmatched(lib, w, lines[..|lines| - 1], h);
      var p := MatchLine(lib, lines[|lines| - 1], h);
      if p.Some? then rest + [Field(w, p.value)] else rest
  }

  method MatchAll(lib: Library, w: Where, lines: seq<string>, h: Header) returns (msgs: seq<Message>)
    ensures msgs == Unmatched(lib, w, lines, h)
  {
    msgs := [];
    for i := 0 to |lines|
      invariant msgs == Unmatched(lib, w, lines[..i], h)
    {
      assert lines[..i + 1][..i] == lines[..i];
      var p := MatchLine(lib, lines[i], h);
      if p.Some? {
        msgs := msgs + [Field(w, p.value)];
      }
    }
    assert lines[..|lines|] == lines;
  }

  function Present(lib: Library, w: Where, names: seq<string>, h: Header): seq<Message> {
    if names == [] then []
    else
      var rest := Present(lib, w, names[..|names| - 1], h);
      var name := names[|names| - 1];
      var vals := Values(lib, h, name);
      if vals != [] then rest + [NotAbsent(w, name, Join(vals, ", "))] else rest
  }

  method AbsentAll(lib: Library, w: Where, names: seq<string>, h: Header) returns (msgs: seq<Message>)
    ensures msgs == Present(lib, w, names, h)
  {
    msgs := [];
    for i := 0 to |names|
      invariant msgs == Present(lib, w, names[..i], h)
    {
      assert names[..i + 1][..i] == names[..i];
      var vals := Values(lib, h, names[i]);
      if vals != [] {
        msgs := msgs + [NotAbsent(w, names[i], Join(vals, ", "))];
      }
    }
    assert names[..|names|] == names;
  }

  // ---- greedy subsequence matching ----

  /** `at` embeds `want` in `got`, keeping order. */
  ghost predicate Embeds(want: seq<int>, got: seq<int>, at: seq<nat>) {
    && |at| == |want|
    && (forall i :: 0 <= i < |at| ==> at[i] < |got| && got[at[i]] == want[i])
    && (forall i, k :: 0 <= i < k < |at| ==> at[i] < at[k])
  }

  ghost predicate IsSubsequence(want: seq<int>, got: seq<int>) {
    exists at :: Embeds(want, got, at)
  }

  /** How many of the wanted codes a single greedy pass matches. */
  function Greedy(got: seq<int>, want: seq<int>): (n: nat)
    ensures n <= |want|
  {
    if got == [] then 0
    else
      var n := Greedy(got[..|got| - 1], want);
      if n < |want| && got[|got| - 1] == want[n] then n + 1 else n
  }

  lemma {:induction false} GreedyEmbeds(got: seq<int>, want: seq<int>) returns (at: seq<nat>)
    ensures Embeds(want[..Greedy(got, want)], got, at)
    decreases |got|
  {
    if got == [] {
      at := [];
    } else {
      var m := |got| - 1;
      at := GreedyEmbeds(got[..m], want);
      var n := Greedy(got[..m], want);
      if n < |want| && got[m] == want[n] {
        at := at + [m];
      }
    }
  }

  /** No embedding of a prefix of `want` gets further than the greedy pass. */
  lemma {:induction false} GreedyIsBest(got: seq<int>, want: seq<int>, n: nat, at: seq<nat>)
    requires n <= |want| && Embeds(want[..n], got, at)
    ensures n <= Greedy(got, want)
    decreases |got|
  {
    if n > 0 {
      var m := |got| - 1;
      assert at[n - 1] < |got|;
      if at[n - 1] < m {
        assert Embeds(want[..n], got[..m], at);
        GreedyIsBest(got[..m], want, n, at);
      } else {
        assert want[..n][..n - 1] == want[..n - 1];
        assert Embeds(want[..n - 1], got[..m], at[..n - 1]);
        GreedyIsBest(got[..m], want, n - 1, at[..n - 1]);
      }
    }
  }

  lemma GreedyIsExact(got: seq<int>, want: seq<int>)
    ensures Greedy(got, want) == |want| <==> IsSubsequence(want, got)
  {
    var at := GreedyEmbeds(got, want);
    assert want[..|want|] == want;
    if IsSubsequence(want, got) {
      var other :| Embeds(want, got, other);
      GreedyIsBest(got, want, |want|, other);
    }
  }

  method InOrder(got: seq<int>, want: seq<int>) returns (r: bool)
    ensures r <==> IsSubsequence(want, got)
  {
    var i := 0;
    for k := 0 to |got|
      invariant i == Greedy(got[..k], want)
    {
      assert got[..k + 1][..k] == got[..k];
      if i < |want| && got[k] == want[i] {
        i := i + 1;
      }
    }
    assert got[..|got|] == got;
    GreedyIsExact(got, want);
    return i == |want|;
  }

  // ---- one step ----

  function CheckStatus(want: seq<int>, got: int): seq<Message> {
    if want == [] || got in want then [] else [WrongStatus(got, want)]
  }

  function CheckBody(want: Option<string>, got: string): seq<Message> {
    if want.None? || got == want.value then [] else [WrongBody(got, want.value)]
  }

  function CheckInterim(want: seq<int>, got: seq<int>): seq<Message> {
    if Greedy(got, want) == |want| then [] else [WrongInterim(got, want)]
  }

  function CheckForwarded(want: Option<bool>, forwarded: seq<LogEntry>): seq<Message> {
    if want.None? then []
    else if want.value && forwarded == [] then [AnsweredWithoutOrigin]
    else if !want.value && forwarded != [] then [ReachedOrigin(|forwarded|)]
    else []
  }

  function CheckForwardedHeaders(lib: Library, e: Expect, forwarded: seq<LogEntry>): seq<Message> {
    if |e.forwardedHeaders| + |e.forwardedHeadersAbsent| == 0 then []
    else if forwarded == [] then [NeverReachedOrigin]
    else
      Unmatched(lib, InForwarded, e.forwardedHeaders, forwarded[0].header)
      + Present(lib, InForwarded, e.forwardedHeadersAbsent, forwarded[0].header)
  }

  function EvaluateStep(lib: Library, e: Option<Expect>, o: Observation, forwarded: seq<LogEntry>): seq<Message> {
    if o.err.Some? then [RequestFailed(o.err.value)]
    else if e.None? then []
    else
      CheckStatus(e.value.status, o.status)
      + Unmatched(lib, InResponse, e.value.headers, o.header)
      + Present(lib, InResponse, e.value.headersAbsent, o.header)
      + Unmatched(lib, InTrailer, e.value.trailers, o.trailer)
      + CheckBody(e.value.body, o.body)
      + CheckInterim(e.value.interim, o.interim)
      + CheckForwarded(e.value.forwarded, forwarded)
      + CheckForwardedHeaders(lib, e.value, forwarded)
  }

  // ---- what the expectations mean ----

  /** A field is found under its canonical name, however `name` is spelt, when it has a value there. */
  ghost predicate FieldIs(lib: Library, h: Header, name: string, value: string) {
    lib.canonical(name) in h && h[lib.canonical(name)] != [] && value == Join(h[lib.canonical(name)], ", ")
  }

  ghost predicate FieldMissing(lib: Library, h: Header, name: string) {
    lib.canonical(name) !in h || h[lib.canonical(name)] == []
  }

  /** "Name" asks for presence, "Name: value" for equality, "Name: ~regexp" for a match. */
  ghost predicate LineHolds(lib: Library, line: string, h: Header) {
    var l := SplitLine(line);
    exists got ::
      && FieldIs(lib, h, l.name, got)
      && (l.hasValue && "~" <= l.value ==> lib.compiles(l.value[1..]) && lib.matches(l.value[1..], got))
      && (l.hasValue && !("~" <= l.value) ==> got == l.value)
  }

  /** What is wrong with a line that does not hold. */
  ghost predicate Complaint(lib: Library, line: string, h: Header, p: Problem) {
    var l := SplitLine(line);
    && p.name == l.name
    && match p
       case Missing(_) => FieldMissing(lib, h, l.name)
       case BadPattern(_) =>
         && !FieldMissing(lib, h, l.name)
         && l.hasValue && "~" <= l.value && !lib.compiles(l.value[1..])
       case NoMatch(_, got, pattern) =>
         && FieldIs(lib, h, l.name, got)
         && l.hasValue && l.value == "~" + pattern && lib.compiles(pattern) && !lib.matches(pattern, got)
       case Differs(_, got, want) =>
         FieldIs(lib, h, l.name, got) && l.hasValue && l.value == want && !("~" <= want) && got != want
  }

  ghost predicate HeadersHold(lib: Library, lines: seq<string>, absent: seq<string>, h: Header) {
    && (forall l :: l in lines ==> LineHolds(lib, l, h))
    && (forall n :: n in absent ==> FieldMissing(lib, h, n))
  }

  /** The step's request succeeded and everything its definition expects was observed. */
  ghost predicate Meets(lib: Library, e: Option<Expect>, o: Observation, forwarded: seq<LogEntry>) {
    && o.err.None?
    && (e.Some? ==>
          && (e.value.status == [] || o.status in e.value.status)
          && HeadersHold(lib, e.value.headers, e.value.headersAbsent, o.header)
          && HeadersHold(lib, e.value.trailers, [], o.trailer)
          && (e.value.body.Some? ==> o.body == e.value.body.value)
          && IsSubsequence(e.value.interim, o.interim)
          && (e.value.forwarded.Some? ==> (e.value.forwarded.value <==> forwarded != []))
          && (e.value.forwardedHeaders != [] || e.value.forwardedHeadersAbsent != [] ==>
                forwarded != []
                && HeadersHold(lib, e.value.forwardedHeaders, e.value.forwardedHeadersAbsent, forwarded[0].header)))
  }

  lemma ValuesExact(lib: Library, h: Header, name: string)
    ensures Values(lib, h, name) == [] <==> FieldMissing(lib, h, name)
    ensures forall v :: FieldIs(lib, h, name, v) <==>
      !FieldMissing(lib, h, name) && v == Join(Values(lib, h, name), ", ")
  {
  }

  /** A line draws a complaint exactly when it does not hold, and then the one that applies. */
  lemma MatchLineExact(lib: Library, line: string, h: Header)
    ensures MatchLine(lib, line, h).None? <==> LineHolds(lib, line, h)
    ensures forall p :: MatchLine(lib, line, h) == Some(p) <==> Complaint(lib, line, h, p)
  {
    var l := SplitLine(line);
    ValuesExact(lib, h, l.name);
    hide SplitLine, Join, Values, FieldIs, FieldMissing;
    if !FieldMissing(lib, h, l.name) {
      assert FieldIs(lib, h, l.name, Join(Values(lib, h, l.name), ", "));
    }
    if "~" <= l.value {
      assert l.value == "~" + l.value[1..];
    }
    forall p ensures MatchLine(lib, line, h) == Some(p) <==> Complaint(lib, line, h, p) {
      if p.NoMatch? && l.value == "~" + p.pattern {
        assert l.value[1..] == p.pattern;
      }
    }
  }

  /** Two spellings of one field name cannot be told apart by any expectation. */
  lemma SpellingIsIrrelevant(lib: Library, a: string, b: string, h: Header)
    requires lib.canonical(SplitLine(a).name) == lib.canonical(SplitLine(b).name)
    requires SplitLine(a).value == SplitLine(b).value && SplitLine(a).hasValue == SplitLine(b).hasValue
    ensures MatchLine(lib, a, h).None? <==> MatchLine(lib, b, h).None?
    ensures FieldMissing(lib, h, SplitLine(a).name) <==> FieldMissing(lib, h, SplitLine(b).name)
  {
    MatchLineExact(lib, a, h);
    MatchLineExact(lib, b, h);
    hide SplitLine, MatchLine, Join;
    assert forall got :: FieldIs(lib, h, SplitLine(a).name, got) <==> FieldIs(lib, h, SplitLine(b).name, got);
  }

  /** Some line draws the complaint. */
  ghost predicate SomeComplaint(lib: Library, lines: seq<string>, h: Header, p: Problem) {
    exists l :: l in lines && Complaint(lib, l, h, p)
  }

  ghost predicate IsComplaint(lib: Library, w: Where, line: string, h: Header, m: Message) {
    m.Field? && m.part == w && Complaint(lib, line, h, m.problem)
  }

  /** Line `n - 1` adds a message exactly when it does not hold. */
  lemma UnmatchedSnoc(lib: Library, w: Where, lines: seq<string>, h: Header, n: nat)
    requires 0 < n <= |lines|
    ensures var msgs, rest := Unmatched(lib, w, lines[..n], h), Unmatched(lib, w, lines[..n - 1], h);
      if LineHolds(lib, lines[n - 1], h) then msgs == rest
      else |msgs| == |rest| + 1 && msgs[..|rest|] == rest && IsComplaint(lib, w, lines[n - 1], h, msgs[|rest|])
  {
    MatchLineExact(lib, lines[n - 1], h);
    assert lines[..n][..n - 1] == lines[..n - 1];
    hide MatchLine, LineHolds, Complaint;
  }

  /** The numbers below `n` with a property, in order. */
  ghost function Picks(n: nat, p: nat -> bool): (at: seq<nat>)
    ensures forall i: nat :: i in at <==> i < n && p(i)
    ensures forall i, k :: 0 <= i < k < |at| ==> at[i] < at[k]
  {
    if n == 0 then []
    else
      var rest := Picks(n - 1, p);
      assert forall i :: 0 <= i < |rest| ==> rest[i] in rest;
      if p(n - 1) then rest + [n - 1] else rest
  }

  /** Where the lines that do not hold are. */
  ghost function Broken(lib: Library, lines: seq<string>, h: Header): (p: nat -> bool) {
    (i: nat) => i < |lines| && !LineHolds(lib, lines[i], h)
  }

  lemma NothingToReport(lib: Library, w: Where, h: Header)
    ensures Unmatched(lib, w, [], h) == [] && Present(lib, w, [], h) == []
  {
  }

  lemma {:induction false} MessageOfPick(lib: Library, w: Where, lines: seq<string>, h: Header, n: nat, k: nat)
    requires n <= |lines|
    ensures var at, msgs := Picks(n, Broken(lib, lines, h)), Unmatched(lib, w, lines[..n], h);
      |at| == |msgs| && (k < |at| ==> at[k] < n && IsComplaint(lib, w, lines[at[k]], h, msgs[k]))
    decreases n
  {
    hide IsComplaint, LineHolds, Unmatched;
    NothingToReport(lib, w, h);
    if n > 0 {
      UnmatchedSnoc(lib, w, lines, h, n);
      assert Broken(lib, lines, h)(n - 1) <==> !LineHolds(lib, lines[n - 1], h);
      hide Broken;
      MessageOfPick(lib, w, lines, h, n - 1, k);
    }
  }

  /** The messages about lines, in order, are one per line that does not hold; `at` is where those lines are. */
  lemma OneMessagePerLine(lib: Library, w: Where, lines: seq<string>, h: Header) returns (at: seq<nat>)
    ensures |at| == |Unmatched(lib, w, lines, h)| && forall i, k :: 0 <= i < k < |at| ==> at[i] < at[k]
    ensures forall k :: 0 <= k < |at| ==>
      at[k] < |lines| && IsComplaint(lib, w, lines[at[k]], h, Unmatched(lib, w, lines, h)[k])
    ensures forall i :: 0 <= i < |lines| ==> (LineHolds(lib, lines[i], h) <==> i !in at)
  {
    hide IsComplaint, LineHolds, Unmatched;
    at := Picks(|lines|, Broken(lib, lines, h));
    assert lines[..|lines|] == lines;
    MessageOfPick(lib, w, lines, h, |lines|, 0);
    forall k | 0 <= k < |at|
      ensures at[k] < |lines| && IsComplaint(lib, w, lines[at[k]], h, Unmatched(lib, w, lines, h)[k])
    {
      MessageOfPick(lib, w, lines, h, |lines|, k);
    }
  }

  lemma UnmatchedExact(lib: Library, w: Where, lines: seq<string>, h: Header)
    ensures Unmatched(lib, w, lines, h) == [] <==> forall l :: l in lines ==> LineHolds(lib, l, h)
    ensures forall m :: m in Unmatched(lib, w, lines, h) <==>
      m.Field? && m.part == w && SomeComplaint(lib, lines, h, m.problem)
  {
    hide Unmatched, LineHolds, Complaint;
    var at := OneMessagePerLine(lib, w, lines, h);
    var msgs := Unmatched(lib, w, lines, h);
    forall l, p | l in lines && Complaint(lib, l, h, p) ensures Field(w, p) in msgs {
      var i :| 0 <= i < |lines| && lines[i] == l;
      MatchLineExact(lib, l, h);
      assert i in at;
      var k :| 0 <= k < |at| && at[k] == i;
      assert msgs[k] == Field(w, p);
    }
    if msgs != [] {
      assert at[0] in at && !LineHolds(lib, lines[at[0]], h);
    }
  }

  ghost predicate IsPresence(lib: Library, w: Where, name: string, h: Header, m: Message) {
    m.NotAbsent? && m.part == w && m.name == name && FieldIs(lib, h, name, m.values)
  }

  lemma PresentSnoc(lib: Library, w: Where, names: seq<string>, h: Header, n: nat)
    requires 0 < n <= |names|
    ensures var msgs, rest := Present(lib, w, names[..n], h), Present(lib, w, names[..n - 1], h);
      if FieldMissing(lib, h, names[n - 1]) then msgs == rest
      else |msgs| == |rest| + 1 && msgs[..|rest|] == rest && IsPresence(lib, w, names[n - 1], h, msgs[|rest|])
  {
    ValuesExact(lib, h, names[n - 1]);
    assert names[..n][..n - 1] == names[..n - 1];
    hide FieldIs, FieldMissing, Values, Join;
  }

  /** Where the names of fields that are there are. */
  ghost function Found(lib: Library, names: seq<string>, h: Header): (p: nat -> bool) {
    (i: nat) => i < |names| && !FieldMissing(lib, h, names[i])
  }

  lemma {:induction false} PresenceOfPick(lib: Library, w: Where, names: seq<string>, h: Header, n: nat, k: nat)
    requires n <= |names|
    ensures var at, msgs := Picks(n, Found(lib, names, h)), Present(lib, w, names[..n], h);
      |at| == |msgs| && (k < |at| ==> at[k] < n && IsPresence(lib, w, names[at[k]], h, msgs[k]))
    decreases n
  {
    hide IsPresence, FieldMissing, Present;
    NothingToReport(lib, w, h);
    if n > 0 {
      PresentSnoc(lib, w, names, h, n);
      assert Found(lib, names, h)(n - 1) <==> !FieldMissing(lib, h, names[n - 1]);
      hide Found;
      PresenceOfPick(lib, w, names, h, n - 1, k);
    }
  }

  /** The messages about absent fields, in order, are one per name whose field is there. */
  lemma OneMessagePerName(lib: Library, w: Where, names: seq<string>, h: Header) returns (at: seq<nat>)
    ensures |at| == |Present(lib, w, names, h)| && forall i, k :: 0 <= i < k < |at| ==> at[i] < at[k]
    ensures forall k :: 0 <= k < |at| ==>
      at[k] < |names| && IsPresence(lib, w, names[at[k]], h, Present(lib, w, names, h)[k])
    ensures forall i :: 0 <= i < |names| ==> (FieldMissing(lib, h, names[i]) <==> i !in at)
  {
    hide IsPresence, FieldMissing, Present;
    at := Picks(|names|, Found(lib, names, h));
    assert names[..|names|] == names;
    PresenceOfPick(lib, w, names, h, |names|, 0);
    forall k | 0 <= k < |at|
      ensures at[k] < |names| && IsPresence(lib, w, names[at[k]], h, Present(lib, w, names, h)[k])
    {
      PresenceOfPick(lib, w, names, h, |names|, k);
    }
  }

  lemma PresentExact(lib: Library, w: Where, names: seq<string>, h: Header)
    ensures Present(lib, w, names, h) == [] <==> forall n :: n in names ==> FieldMissing(lib, h, n)
    ensures forall m :: m in Present(lib, w, names, h) <==>
      m.NotAbsent? && m.part == w && m.name in names && FieldIs(lib, h, m.name, m.values)
  {
    var at := OneMessagePerName(lib, w, names, h);
    var msgs := Present(lib, w, names, h);
    hide Present;
    forall m | m in msgs ensures m.NotAbsent? && m.part == w && m.name in names && FieldIs(lib, h, m.name, m.values) {
      var k :| 0 <= k < |at| && msgs[k] == m;
    }
    forall n, value | n in names && FieldIs(lib, h, n, value) ensures NotAbsent(w, n, value) in msgs {
      var i :| 0 <= i < |names| && names[i] == n;
      assert i in at;
      var k :| 0 <= k < |at| && at[k] == i;
      assert msgs[k] == NotAbsent(w, n, value);
    }
    if msgs != [] {
      assert at[0] in at;
    }
  }

  lemma ForwardedHeadersExact(lib: Library, e: Expect, forwarded: seq<LogEntry>)
    ensures CheckForwardedHeaders(lib, e, forwarded) == [] <==>
      (e.forwardedHeaders != [] || e.forwardedHeadersAbsent != [] ==>
         forwarded != []
         && HeadersHold(lib, e.forwardedHeaders, e.forwardedHeadersAbsent, forwarded[0].header))
  {
    if forwarded != [] {
      UnmatchedExact(lib, InForwarded, e.forwardedHeaders, forwarded[0].header);
      PresentExact(lib, InForwarded, e.forwardedHeadersAbsent, forwarded[0].header);
    }
  }

  /** A step draws no message exactly when it meets its expectations. */
  lemma EvaluateStepExact(lib: Library, e: Option<Expect>, o: Observation, forwarded: seq<LogEntry>)
    ensures EvaluateStep(lib, e, o, forwarded) == [] <==> Meets(lib, e, o, forwarded)
  {
    if o.err.None? && e.Some? {
      UnmatchedExact(lib, InResponse, e.value.headers, o.header);
      PresentExact(lib, InResponse, e.value.headersAbsent, o.header);
      UnmatchedExact(lib, InTrailer, e.value.trailers, o.trailer);
      GreedyIsExact(o.interim, e.value.interim);
      ForwardedHeadersExact(lib, e.value, forwarded);
      hide Unmatched, Present, Greedy, IsSubsequence, LineHolds, FieldMissing, SomeComplaint, CheckForwardedHeaders;
    }
  }

  /** The messages a step deserves, one by one. */
  ghost predicate Deserved(lib: Library, e: Option<Expect>, o: Observation, forwarded: seq<LogEntry>, m: Message) {
    if o.err.Some? then m == RequestFailed(o.err.value)
    else if e.None? then false
    else
      var want := e.value;
      match m
      case RequestFailed(_) => false
      case WrongStatus(status, accepted) =>
        status == o.status && accepted == want.status && accepted != [] && status !in accepted
      case Field(InResponse, p) => SomeComplaint(lib, want.headers, o.header, p)
      case Field(InTrailer, p) => SomeComplaint(lib, want.trailers, o.trailer, p)
      case Field(InForwarded, p) =>
        forwarded != [] && SomeComplaint(lib, want.forwardedHeaders, forwarded[0].header, p)
      case NotAbsent(InResponse, name, values) => name in want.headersAbsent && FieldIs(lib, o.header, name, values)
      case NotAbsent(InTrailer, _, _) => false
      case NotAbsent(InForwarded, name, values) =>
        forwarded != [] && name in want.forwardedHeadersAbsent && FieldIs(lib, forwarded[0].header, name, values)
      case WrongBody(body, wanted) => body == o.body && want.body == Some(wanted) && body != wanted
      case WrongInterim(received, expected) =>
        received == o.interim && expected == want.interim && !IsSubsequence(expected, received)
      case AnsweredWithoutOrigin => want.forwarded == Some(true) && forwarded == []
      case ReachedOrigin(times) => want.forwarded == Some(false) && forwarded != [] && times == |forwarded|
      case NeverReachedOrigin => (want.forwardedHeaders != [] || want.forwardedHeadersAbsent != []) && forwarded == []
  }

  lemma ChecksDeserved(want: Expect, o: Observation, forwarded: seq<LogEntry>, m: Message)
    ensures m in CheckStatus(want.status, o.status) <==>
      m.WrongStatus? && m.status == o.status && m.accepted == want.status && m.accepted != [] && m.status !in m.accepted
    ensures m in CheckBody(want.body, o.body) <==>
      m.WrongBody? && m.body == o.body && want.body == Some(m.wanted) && m.body != m.wanted
    ensures m in CheckInterim(want.interim, o.interim) <==>
      m.WrongInterim? && m.received == o.interim && m.expected == want.interim && !IsSubsequence(m.expected, m.received)
    ensures m in CheckForwarded(want.forwarded, forwarded) <==>
      || (m == AnsweredWithoutOrigin && want.forwarded == Some(true) && forwarded == [])
      || (m == ReachedOrigin(|forwarded|) && want.forwarded == Some(false) && forwarded != [])
  {
    GreedyIsExact(o.interim, want.interim);
    hide Greedy, IsSubsequence;
  }

  lemma ForwardedDeserved(lib: Library, want: Expect, forwarded: seq<LogEntry>, m: Message)
    ensures m in CheckForwardedHeaders(lib, want, forwarded) <==>
      if forwarded == []
      then m.NeverReachedOrigin? && (want.forwardedHeaders != [] || want.forwardedHeadersAbsent != [])
      else
        || (m.Field? && m.part == InForwarded
            && SomeComplaint(lib, want.forwardedHeaders, forwarded[0].header, m.problem))
        || (m.NotAbsent? && m.part == InForwarded && m.name in want.forwardedHeadersAbsent
            && FieldIs(lib, forwarded[0].header, m.name, m.values))
  {
    if forwarded != [] {
      UnmatchedExact(lib, InForwarded, want.forwardedHeaders, forwarded[0].header);
      PresentExact(lib, InForwarded, want.forwardedHeadersAbsent, forwarded[0].header);
    }
    hide Unmatched, Present, SomeComplaint, FieldIs;
    assert want.forwardedHeaders == [] ==> m !in Unmatched(lib, InForwarded, [], map[]);
  }

  lemma EvaluateStepMembers(lib: Library, want: Expect, o: Observation, forwarded: seq<LogEntry>, m: Message)
    requires o.err.None?
    ensures m in EvaluateStep(lib, Some(want), o, forwarded) <==>
      || m in CheckStatus(want.status, o.status)
      || m in Unmatched(lib, InResponse, want.headers, o.header)
      || m in Present(lib, InResponse, want.headersAbsent, o.header)
      || m in Unmatched(lib, InTrailer, want.trailers, o.trailer)
      || m in CheckBody(want.body, o.body)
      || m in CheckInterim(want.interim, o.interim)
      || m in CheckForwarded(want.forwarded, forwarded)
      || m in CheckForwardedHeaders(lib, want, forwarded)
  {
    hide Unmatched, Present, CheckStatus, CheckBody, CheckInterim, CheckForwarded, CheckForwardedHeaders;
  }

  /** A step draws exactly the messages it deserves. */
  lemma MessagesAreDeserved(lib: Library, e: Option<Expect>, o: Observation, forwarded: seq<LogEntry>, m: Message)
    ensures m in EvaluateStep(lib, e, o, forwarded) <==> Deserved(lib, e, o, forwarded, m)
  {
    if o.err.None? && e.Some? {
      var want := e.value;
      EvaluateStepMembers(lib, want, o, forwarded, m);
      UnmatchedExact(lib, InResponse, want.headers, o.header);
      PresentExact(lib, InResponse, want.headersAbsent, o.header);
      UnmatchedExact(lib, InTrailer, want.trailers, o.trailer);
      ChecksDeserved(want, o, forwarded, m);
      ForwardedDeserved(lib, want, forwarded, m);
      hide EvaluateStep, Unmatched, Present, SomeComplaint, FieldIs, FieldMissing, LineHolds, IsSubsequence;
      hide CheckStatus, CheckBody, CheckInterim, CheckForwarded, CheckForwardedHeaders;
    }
  }

  /** The order in which a step's messages come: by what they are about. */
  function Section(m: Message): nat {
    match m
    case RequestFailed(_) => 0
    case WrongStatus(_, _) => 1
    case Field(InResponse, _) => 2
    case NotAbsent(InResponse, _, _) => 3
    case Field(InTrailer, _) => 4
    case NotAbsent(InTrailer, _, _) => 5
    case WrongBody(_, _) => 6
    case WrongInterim(_, _) => 7
    case AnsweredWithoutOrigin => 8
    case ReachedOrigin(_) => 8
    case NeverReachedOrigin => 9
    case Field(InForwarded, _) => 10
    case NotAbsent(InForwarded, _, _) => 11
  }

  ghost predicate InSections(msgs: seq<Message>, low: nat, high: nat) {
    && (forall i :: 0 <= i < |msgs| ==> low <= Section(msgs[i]) <= high)
    && (forall i, k :: 0 <= i < k < |msgs| ==>
          Section(msgs[i]) < Section(msgs[k]) || (Section(msgs[i]) == Section(msgs[k]) && !Once(msgs[i])))
  }

  /** Only fields can draw several messages. */
  predicate Once(m: Message) {
    !m.Field? && !m.NotAbsent?
  }

  lemma SectionsConcat(a: seq<Message>, b: seq<Message>, low: nat, mid: nat, high: nat)
    requires low <= mid < high && InSections(a, low, mid) && InSections(b, mid + 1, high)
    ensures InSections(a + b, low, high)
  {
    hide Section, Once;
  }

  lemma FewInSection(m: Message)
    ensures InSections([], Section(m), Section(m)) && InSections([m], Section(m), Section(m))
  {
  }

  lemma WiderSections(msgs: seq<Message>, low: nat, high: nat, low': nat, high': nat)
    requires InSections(msgs, low, high) && low' <= low && high <= high'
    ensures InSections(msgs, low', high')
  {
    hide Section, Once;
  }

  lemma FieldsInSection(msgs: seq<Message>, section: nat)
    requires forall m :: m in msgs ==> Section(m) == section && !Once(m)
    ensures InSections(msgs, section, section)
  {
    hide Section, Once;
    assert forall i :: 0 <= i < |msgs| ==> msgs[i] in msgs;
  }

  lemma FieldSections(lib: Library, w: Where, lines: seq<string>, names: seq<string>, h: Header)
    ensures InSections(Unmatched(lib, w, lines, h), Section(Field(w, Missing(""))), Section(Field(w, Missing(""))))
    ensures InSections(Present(lib, w, names, h), Section(NotAbsent(w, "", "")), Section(NotAbsent(w, "", "")))
  {
    UnmatchedExact(lib, w, lines, h);
    PresentExact(lib, w, names, h);
    hide Unmatched, Present, Complaint, FieldIs, InSections;
    FieldsInSection(Unmatched(lib, w, lines, h), Section(Field(w, Missing(""))));
    FieldsInSection(Present(lib, w, names, h), Section(NotAbsent(w, "", "")));
  }

  lemma ForwardedSections(lib: Library, want: Expect, forwarded: seq<LogEntry>)
    ensures InSections(CheckForwardedHeaders(lib, want, forwarded), 9, 11)
  {
    hide Unmatched, Present, InSections;
    FewInSection(NeverReachedOrigin);
    if forwarded != [] {
      var h := forwarded[0].header;
      FieldSections(lib, InForwarded, want.forwardedHeaders, want.forwardedHeadersAbsent, h);
      var a := Unmatched(lib, InForwarded, want.forwardedHeaders, h);
      var b := Present(lib, InForwarded, want.forwardedHeadersAbsent, h);
      SectionsConcat(a, b, 10, 10, 11);
      WiderSections(a + b, 10, 11, 9, 11);
    }
    WiderSections([], 9, 9, 9, 11);
    WiderSections([NeverReachedOrigin], 9, 9, 9, 11);
  }

  /** The checks that draw at most one message. */
  lemma SingleSections(want: Expect, o: Observation, forwarded: seq<LogEntry>)
    ensures InSections(CheckStatus(want.status, o.status), 1, 1)
    ensures InSections(CheckBody(want.body, o.body), 6, 6)
    ensures InSections(CheckInterim(want.interim, o.interim), 7, 7)
    ensures InSections(CheckForwarded(want.forwarded, forwarded), 8, 8)
  {
    hide InSections, Greedy;
    FewInSection(WrongStatus(o.status, want.status));
    if want.body.Some? {
      FewInSection(WrongBody(o.body, want.body.value));
    }
    FewInSection(WrongBody("", ""));
    FewInSection(WrongInterim(o.interim, want.interim));
    FewInSection(AnsweredWithoutOrigin);
    FewInSection(ReachedOrigin(|forwarded|));
  }

  /** The messages of a step come in a fixed order, and none but those about fields more than once. */
  lemma MessagesInOrder(lib: Library, e: Option<Expect>, o: Observation, forwarded: seq<LogEntry>)
    ensures InSections(EvaluateStep(lib, e, o, forwarded), 0, 11)
  {
    hide InSections, Unmatched, Present, CheckStatus, CheckBody, CheckInterim, CheckForwarded, CheckForwardedHeaders;
    FewInSection(RequestFailed(""));
    WiderSections([], 0, 0, 0, 11);
    if o.err.Some? {
      FewInSection(RequestFailed(o.err.value));
      WiderSections([RequestFailed(o.err.value)], 0, 0, 0, 11);
    } else if e.Some? {
      var want := e.value;
      SingleSections(want, o, forwarded);
      FieldSections(lib, InResponse, want.headers, want.headersAbsent, o.header);
      FieldSections(lib, InTrailer, want.trailers, [], o.trailer);
      ForwardedSections(lib, want, forwarded);
      var a, b := CheckStatus(want.status, o.status), Unmatched(lib, InResponse, want.headers, o.header);
      var c := Present(lib, InResponse, want.headersAbsent, o.header);
      var d := Unmatched(lib, InTrailer, want.trailers, o.trailer);
      var f, g := CheckBody(want.body, o.body), CheckInterim(want.interim, o.interim);
      var h, i := CheckForwarded(want.forwarded, forwarded), CheckForwardedHeaders(lib, want, forwarded);
      SectionsConcat(a, b, 1, 1, 2);
      SectionsConcat(a + b, c, 1, 2, 3);
      SectionsConcat(a + b + c, d, 1, 3, 4);
      WiderSections(f, 6, 6, 5, 6);
      SectionsConcat(a + b + c + d, f, 1, 4, 6);
      SectionsConcat(a + b + c + d + f, g, 1, 6, 7);
      SectionsConcat(a + b + c + d + f + g, h, 1, 7, 8);
      SectionsConcat(a + b + c + d + f + g + h, i, 1, 8, 11);
      WiderSections(EvaluateStep(lib, e, o, forwarded), 1, 11, 0, 11);
    }
  }

  // ---- a whole test ----

  function Tagged(step: nat, arrange: bool, msgs: seq<Message>): (fails: seq<Failure>)
    ensures |fails| == |msgs|
    ensures forall f :: f in fails ==> f.step == step && f.arrange == arrange
  {
    seq(|msgs|, i requires 0 <= i < |msgs| => Failure(step, arrange, msgs[i]))
  }

  /** The failures of the first `n` steps; steps are numbered from one. */
  function Failures(lib: Library, steps: seq<Step>, obs: seq<Observation>, log: Log, n: nat): seq<Failure>
    requires n <= |obs| && n <= |steps|
  {
    if n == 0 then []
    else
      var rest := Failures(lib, steps, obs, log, n - 1);
      var s := steps[n - 1];
      if s.IsRequest()
      then rest + Tagged(n, s.arrange, EvaluateStep(lib, s.expectation, obs[n - 1], OfStep(log, n)))
      else rest
  }

  function Judgeable(steps: seq<Step>, obs: seq<Observation>): (n: nat)
    ensures n <= |steps| && n <= |obs| && (n == |steps| || n == |obs|)
  {
    if |obs| < |steps| then |obs| else |steps|
  }

  method Evaluate(lib: Library, t: Test, obs: seq<Observation>, log: Log) returns (fails: seq<Failure>)
    requires NoNil(t.steps)
    ensures fails == Failures(lib, t.steps, obs, log, Judgeable(t.steps, obs))
  {
    hide EvaluateStep;
    fails := [];
    for i := 0 to Judgeable(t.steps, obs)
      invariant fails == Failures(lib, t.steps, obs, log, i)
    {
      var s := t.steps[i];
      if !s.IsWait() {
        var forwarded := StepEntries(log, i + 1);
        var tagged := Tag(i + 1, s.arrange, EvaluateStep(lib, s.expectation, obs[i], forwarded));
        fails := fails + tagged;
      }
    }
  }

  method Tag(step: nat, arrange: bool, msgs: seq<Message>) returns (fails: seq<Failure>)
    ensures fails == Tagged(step, arrange, msgs)
  {
    fails := [];
    for m := 0 to |msgs|
      invariant |fails| == m && forall k :: 0 <= k < m ==> fails[k] == Failure(step, arrange, msgs[k])
    {
      fails := fails + [Failure(step, arrange, msgs[m])];
    }
  }

  method Verdict(fails: seq<Failure>) returns (o: Outcome)
    ensures o == VerdictOf(fails)
  {
    o := Pass;
    for i := 0 to |fails|
      invariant forall k :: 0 <= k < i ==> !fails[k].arrange
      invariant o == if i == 0 then Pass else Fail
    {
      if fails[i].arrange {
        return Inconclusive;
      }
      o := Fail;
    }
  }

  function VerdictOf(fails: seq<Failure>): Outcome {
    if exists f :: f in fails && f.arrange then Inconclusive
    else if fails == [] then Pass
    else Fail
  }

  /** Step `i` was judged and did not meet its expectations. */
  ghost predicate Unmet(lib: Library, steps: seq<Step>, obs: seq<Observation>, log: Log, i: nat)
    requires i < |steps| && i < |obs|
  {
    steps[i].Step? && steps[i].wait.None? && !Meets(lib, steps[i].expectation, obs[i], OfStep(log, i + 1))
  }

  /** Step `i` raised a failure. */
  ghost predicate Raised(fails: seq<Failure>, i: nat, arrange: bool) {
    exists f :: f in fails && f.step == i + 1 && f.arrange == arrange
  }

  lemma RaisedStays(fails: seq<Failure>, more: seq<Failure>, i: nat, arrange: bool)
    requires Raised(fails, i, arrange)
    ensures Raised(fails + more, i, arrange)
  {
    var f :| f in fails && f.step == i + 1 && f.arrange == arrange;
    assert f in fails + more;
  }

  lemma {:induction false} FailuresExact(lib: Library, steps: seq<Step>, obs: seq<Observation>, log: Log, n: nat)
    requires n <= |obs| && n <= |steps|
    ensures forall f :: f in Failures(lib, steps, obs, log, n) ==>
      1 <= f.step <= n && Unmet(lib, steps, obs, log, f.step - 1) && f.arrange == steps[f.step - 1].arrange
    ensures forall i :: 0 <= i < n && Unmet(lib, steps, obs, log, i) ==>
      Raised(Failures(lib, steps, obs, log, n), i, steps[i].arrange)
  {
    hide EvaluateStep, Meets;
    if n > 0 {
      FailuresExact(lib, steps, obs, log, n - 1);
      var s := steps[n - 1];
      if s.IsRequest() {
        var before := Failures(lib, steps, obs, log, n - 1);
        var msgs := EvaluateStep(lib, s.expectation, obs[n - 1], OfStep(log, n));
        EvaluateStepExact(lib, s.expectation, obs[n - 1], OfStep(log, n));
        var added := Tagged(n, s.arrange, msgs);
        forall i | 0 <= i < n && Unmet(lib, steps, obs, log, i)
          ensures Raised(before + added, i, steps[i].arrange)
        {
          if i < n - 1 {
            RaisedStays(before, added, i, steps[i].arrange);
          } else {
            assert added[0] in before + added;
          }
        }
      }
    }
  }

  /** Failure `f` is one message that its own request step deserves, under the step's 1-based number. */
  ghost predicate IsFailure(lib: Library, steps: seq<Step>, obs: seq<Observation>, log: Log, n: nat, f: Failure)
    requires n <= |obs| && n <= |steps|
  {
    && 1 <= f.step <= n
    && (var s := steps[f.step - 1];
        && s.Step? && s.wait.None? && f.arrange == s.arrange
        && Deserved(lib, s.expectation, obs[f.step - 1], OfStep(log, f.step), f.message))
  }

  /** The failures are exactly the deserved messages of the judged request steps, in the order of the steps. */
  lemma {:induction false} FailuresAreDeserved(
    lib: Library, steps: seq<Step>, obs: seq<Observation>, log: Log, n: nat)
    requires n <= |obs| && n <= |steps|
    ensures forall f :: f in Failures(lib, steps, obs, log, n) <==> IsFailure(lib, steps, obs, log, n, f)
    ensures forall i, k :: 0 <= i < k < |Failures(lib, steps, obs, log, n)| ==>
      Failures(lib, steps, obs, log, n)[i].step <= Failures(lib, steps, obs, log, n)[k].step
  {
    hide EvaluateStep, Deserved;
    if n > 0 {
      FailuresAreDeserved(lib, steps, obs, log, n - 1);
      var s := steps[n - 1];
      if s.IsRequest() {
        var before := Failures(lib, steps, obs, log, n - 1);
        var msgs := EvaluateStep(lib, s.expectation, obs[n - 1], OfStep(log, n));
        forall m ensures m in msgs <==> Deserved(lib, s.expectation, obs[n - 1], OfStep(log, n), m) {
          MessagesAreDeserved(lib, s.expectation, obs[n - 1], OfStep(log, n), m);
        }
        TaggedMembers(n, s.arrange, msgs);
        assert forall i :: 0 <= i < |before| ==> before[i] in before;
      }
    }
  }

  lemma TaggedMembers(step: nat, arrange: bool, msgs: seq<Message>)
    ensures forall f :: f in Tagged(step, arrange, msgs) <==>
      f.step == step && f.arrange == arrange && f.message in msgs
  {
    var fails := Tagged(step, arrange, msgs);
    forall m | m in msgs ensures Failure(step, arrange, m) in fails {
      var i :| 0 <= i < |msgs| && msgs[i] == m;
      assert fails[i] == Failure(step, arrange, m);
    }
  }

  /**
   * Judging is exact: a pass means every judged request step met its expectations, inconclusive means
   * some arrange step did not, and a failure means only other steps did not.
   */
  lemma JudgingIsExact(lib: Library, steps: seq<Step>, obs: seq<Observation>, log: Log)
    ensures var n := Judgeable(steps, obs);
      var o := VerdictOf(Failures(lib, steps, obs, log, n));
      && (o == Pass <==> forall i :: 0 <= i < n ==> !Unmet(lib, steps, obs, log, i))
      && (o == Inconclusive <==> exists i :: 0 <= i < n && Unmet(lib, steps, obs, log, i) && steps[i].arrange)
      && o in {Pass, Fail, Inconclusive}
  {
    hide EvaluateStep, Meets, VerdictOf, Raised;
    var n := Judgeable(steps, obs);
    var fails := Failures(lib, steps, obs, log, n);
    FailuresExact(lib, steps, obs, log, n);
    var unmet := set i: nat | i < n && Unmet(lib, steps, obs, log, i);
    var arranging := set i: nat | i in unmet && steps[i].arrange;
    VerdictFromSteps(fails, unmet, arranging);
    if i :| i in unmet {
      assert Unmet(lib, steps, obs, log, i);
    }
    if i: int :| 0 <= i < n && Unmet(lib, steps, obs, log, i) {
      assert i in unmet;
    }
    if i: int :| 0 <= i < n && Unmet(lib, steps, obs, log, i) && steps[i].arrange {
      assert i in arranging;
    }
  }

  /** The verdict of failures raised by the steps in `unmet`, of which those in `arranging` are arrange steps. */
  lemma VerdictFromSteps(fails: seq<Failure>, unmet: set<nat>, arranging: set<nat>)
    requires arranging <= unmet
    requires forall f :: f in fails ==> f.step >= 1 && f.step - 1 in unmet && (f.arrange <==> f.step - 1 in arranging)
    requires forall i :: i in unmet ==> Raised(fails, i, i in arranging)
    ensures VerdictOf(fails) == Pass <==> unmet == {}
    ensures VerdictOf(fails) == Inconclusive <==> arranging != {}
    ensures VerdictOf(fails) in {Pass, Fail, Inconclusive}
  {
    if fails != [] {
      assert fails[0] in fails;
    }
    if i :| i in unmet {
      var f :| f in fails && f.step == i + 1 && (f.arrange <==> i in arranging);
      assert fails != [];
    }
    if i :| i in arranging {
      var f :| f in fails && f.step == i + 1 && (f.arrange <==> i in arranging);
      assert f.arrange;
    }
  }

  /** The verdict does not depend on the order of the failures. */
  lemma VerdictIgnoresOrder(a: seq<Failure>, b: seq<Failure>)
    requires multiset(a) == multiset(b)
    ensures VerdictOf(a) == VerdictOf(b)
  {
    assert forall f :: f in a <==> f in multiset(a);
    assert forall f :: f in b <==> f in multiset(b);
    assert |a| == |multiset(a)| && |b| == |multiset(b)|;
  }

  /** Timings and connection reuse are reported, never judged. */
  lemma {:induction false} TimingsAreNotJudged(
    lib: Library, steps: seq<Step>, obs: seq<Observation>, obs': seq<Observation>, log: Log, n: nat)
    requires |obs| == |obs'| && n <= |obs| && n <= |steps|
    requires forall i :: 0 <= i < |obs| ==>
      obs'[i] == obs[i].(ttfb := obs'[i].ttfb, total := obs'[i].total, reused := obs'[i].reused)
    ensures Failures(lib, steps, obs, log, n) == Failures(lib, steps, obs', log, n)
  {
    if n > 0 {
      TimingsAreNotJudged(lib, steps, obs, obs', log, n - 1);
    }
  }
}
