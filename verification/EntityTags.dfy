/**
 * Conditional requests at the origin (pkg/origin/respond.go): the entity-tag list scanner and the
 * decision to answer 304. Entity tags and weak comparison are those of sections 8.8.3 and 8.8.3.2 of
 * RFC 9110, If-None-Match that of section 13.1.2.
 */
module EntityTags {
  import opened Wrappers
  import opened Text
  import opened Protocol

  const SEPARATORS := " \t,"
  const WEAK := "W/"
  const QUOTE := "\""
  const ANY := "*"

  datatype Scanned = Scanned(tag: string, rest: string)

  /** Takes a quoted string from the start of `s`. */
  function TakeQuoted(s: string): (r: Option<Scanned>)
    ensures r.Some? ==> |r.value.rest| < |s|
  {
    if !(QUOTE <= s) then None
    else
      var c := Cut(s[1..], QUOTE);
      if c.found then Some(Scanned(s[..|s| - |c.after|], c.after)) else None
  }

  /** The next entity tag, without its weak prefix, and what follows it. */
  function NextETag(list: string): (r: Option<Scanned>)
    ensures r.Some? ==> |r.value.rest| < |list|
  {
    TakeQuoted(TrimPrefix(TrimLeft(list, SEPARATORS), WEAK))
  }

  /** All the tags the scan yields; it stops at the first thing that is not a complete tag. */
  function Scan(list: string): seq<string>
    decreases |list|
  {
    match NextETag(list)
    case None => []
    case Some(x) => [x.tag] + Scan(x.rest)
  }

  predicate ListMatches(list: string, etag: string) {
    TrimSpace(list) == ANY || TrimPrefix(etag, WEAK) in Scan(list)
  }

  method ETagListMatches(list: string, etag: string) returns (r: bool)
    ensures r <==> ListMatches(list, etag)
  {
    if TrimSpace(list) == ANY {
      return true;
    }
    var want := TrimPrefix(etag, WEAK);
    var next := NextETag(list);
    while next.Some?
      invariant want in Scan(list) <==> next.Some? && (want == next.value.tag || want in Scan(next.value.rest))
      decreases if next.Some? then |next.value.rest| + 1 else 0
    {
      if next.value.tag == want {
        return true;
      }
      next := NextETag(next.value.rest);
    }
    return false;
  }

  // ---- printed lists ----

  datatype ETag = ETag(weak: bool, opaqueTag: string)

  function Quoted(opaqueTag: string): string {
    "\"" + opaqueTag + "\""
  }

  function PrintTag(t: ETag): string {
    (if t.weak then "W/" else "") + Quoted(t.opaqueTag)
  }

  /** Weak comparison: the opaque parts are the same, whether or not either tag is weak. */
  predicate WeaklyEqual(a: ETag, b: ETag) {
    a.opaqueTag == b.opaqueTag
  }

  predicate IsSeparator(s: string) {
    forall i :: 0 <= i < |s| ==> s[i] in " \t,"
  }

  /** A field line: tags with any spaces, tabs and commas around and between them. */
  datatype FieldLine = FieldLine(tags: seq<ETag>, gaps: seq<string>)

  ghost predicate WellFormed(l: FieldLine) {
    && |l.gaps| == |l.tags| + 1
    && (forall g :: g in l.gaps ==> IsSeparator(g))
    && (forall t :: t in l.tags ==> '\"' !in t.opaqueTag)
  }

  function Print(tags: seq<ETag>, gaps: seq<string>): string
    requires |gaps| == |tags| + 1
  {
    if tags == [] then gaps[0] else gaps[0] + (PrintTag(tags[0]) + Print(tags[1..], gaps[1..]))
  }

  function QuotedTags(tags: seq<ETag>): (out: seq<string>)
    ensures |out| == |tags| && forall i :: 0 <= i < |tags| ==> out[i] == Quoted(tags[i].opaqueTag)
  {
    seq(|tags|, i requires 0 <= i < |tags| => Quoted(tags[i].opaqueTag))
  }

  lemma ScanSeparators(gap: string)
    requires IsSeparator(gap)
    ensures NextETag(gap) == None
  {
    assert gap + "" == gap;
    TrimLeftSkips(gap, "", SEPARATORS);
  }

  lemma StripPrinted(t: ETag, rest: string)
    ensures TrimPrefix(PrintTag(t) + rest, WEAK) == Quoted(t.opaqueTag) + rest
    ensures (PrintTag(t) + rest)[0] == if t.weak then 'W' else '\"'
  {
    var printed := PrintTag(t) + rest;
    if t.weak {
      assert printed == WEAK + (Quoted(t.opaqueTag) + rest);
      assert printed[..2] == WEAK && printed[2..] == Quoted(t.opaqueTag) + rest;
    } else {
      assert printed == Quoted(t.opaqueTag) + rest;
      assert printed[0] != WEAK[0];
    }
  }

  lemma TakePrinted(opaqueTag: string, rest: string)
    requires '\"' !in opaqueTag
    ensures TakeQuoted(Quoted(opaqueTag) + rest) == Some(Scanned(Quoted(opaqueTag), rest))
  {
    var s := Quoted(opaqueTag) + rest;
    CutAtChar(opaqueTag, '\"', rest);
    hide Cut;
    assert s[1..] == opaqueTag + QUOTE + rest;
    assert s[..|s| - |rest|] == Quoted(opaqueTag);
  }

  lemma ScanTag(gap: string, t: ETag, rest: string)
    requires IsSeparator(gap) && '\"' !in t.opaqueTag
    ensures NextETag(gap + (PrintTag(t) + rest)) == Some(Scanned(Quoted(t.opaqueTag), rest))
  {
    StripPrinted(t, rest);
    TrimLeftSkips(gap, PrintTag(t) + rest, SEPARATORS);
    TakePrinted(t.opaqueTag, rest);
    hide PrintTag, TrimLeft, TrimPrefix, IsSeparator, TakeQuoted, Quoted;
  }

  lemma {:induction false} ScanPrinted(tags: seq<ETag>, gaps: seq<string>)
    requires WellFormed(FieldLine(tags, gaps))
    ensures Scan(Print(tags, gaps)) == QuotedTags(tags)
    decreases |tags|
  {
    hide NextETag, PrintTag, Quoted, IsSeparator;
    if tags == [] {
      ScanSeparators(gaps[0]);
    } else {
      ScanTag(gaps[0], tags[0], Print(tags[1..], gaps[1..]));
      ScanPrinted(tags[1..], gaps[1..]);
      assert QuotedTags(tags) == [Quoted(tags[0].opaqueTag)] + QuotedTags(tags[1..]);
    }
  }

  // ---- lists split over several field lines ----

  ghost predicate AllWellFormed(lines: seq<FieldLine>) {
    forall i :: 0 <= i < |lines| ==> WellFormed(lines[i])
  }

  ghost function PrintAll(lines: seq<FieldLine>): (out: seq<string>)
    requires AllWellFormed(lines)
    ensures |out| == |lines|
  {
    seq(|lines|, i requires 0 <= i < |lines| => Print(lines[i].tags, lines[i].gaps))
  }

  function AllTags(lines: seq<FieldLine>): seq<ETag> {
    if lines == [] then [] else lines[0].tags + AllTags(lines[1..])
  }

  lemma SeparatorConcat(a: string, b: string)
    requires IsSeparator(a) && IsSeparator(b)
    ensures IsSeparator(a + b)
  {
  }

  lemma PrintCons(t: ETag, gap: string, tags: seq<ETag>, gaps: seq<string>)
    requires |gaps| == |tags| + 1
    ensures Print([t] + tags, [gap] + gaps) == gap + (PrintTag(t) + Print(tags, gaps))
  {
    assert ([t] + tags)[1..] == tags && ([gap] + gaps)[1..] == gaps;
  }

  lemma Regroup(a: string, b: string, c: string, d: string)
    ensures a + (b + (c + d)) == (a + (b + c)) + d
  {
  }

  /** A separator before a printed line only widens its first gap. */
  lemma WidenFirstGap(sep: string, tags: seq<ETag>, gaps: seq<string>)
    requires WellFormed(FieldLine(tags, gaps)) && IsSeparator(sep)
    ensures WellFormed(FieldLine(tags, [sep + gaps[0]] + gaps[1..]))
    ensures Print(tags, [sep + gaps[0]] + gaps[1..]) == sep + Print(tags, gaps)
  {
    hide PrintTag;
    var wider := [sep + gaps[0]] + gaps[1..];
    SeparatorConcat(sep, gaps[0]);
    assert wider[1..] == gaps[1..];
    if tags != [] {
      var more := PrintTag(tags[0]) + Print(tags[1..], gaps[1..]);
      assert (sep + gaps[0]) + more == sep + (gaps[0] + more);
    }
  }

  /** Joining two lines with a comma is printing one longer line. */
  lemma {:induction false} JoinTwo(tags: seq<ETag>, gaps: seq<string>, tags': seq<ETag>, gaps': seq<string>)
    returns (all: seq<string>)
    requires WellFormed(FieldLine(tags, gaps)) && WellFormed(FieldLine(tags', gaps'))
    ensures WellFormed(FieldLine(tags + tags', all))
    ensures Print(tags + tags', all) == Print(tags, gaps) + "," + Print(tags', gaps')
    decreases |tags|
  {
    if tags == [] {
      SeparatorConcat(gaps[0], ",");
      hide PrintTag, IsSeparator;
      WidenFirstGap(gaps[0] + ",", tags', gaps');
      all := [gaps[0] + "," + gaps'[0]] + gaps'[1..];
      assert tags + tags' == tags';
    } else {
      hide PrintTag, IsSeparator;
      var rest := JoinTwo(tags[1..], gaps[1..], tags', gaps');
      all := [gaps[0]] + rest;
      PrintCons(tags[0], gaps[0], tags[1..] + tags', rest);
      assert tags + tags' == [tags[0]] + (tags[1..] + tags');
      Regroup(gaps[0], PrintTag(tags[0]), Print(tags[1..], gaps[1..]), "," + Print(tags', gaps'));
    }
  }

  lemma {:induction false} JoinLines(lines: seq<FieldLine>) returns (gaps: seq<string>)
    requires lines != [] && AllWellFormed(lines)
    ensures WellFormed(FieldLine(AllTags(lines), gaps))
    ensures Join(PrintAll(lines), ",") == Print(AllTags(lines), gaps)
    decreases |lines|
  {
    var first := lines[0];
    assert lines[1..] == [] ==> AllTags(lines) == first.tags;
    if |lines| == 1 {
      gaps := first.gaps;
    } else {
      var rest := JoinLines(lines[1..]);
      gaps := JoinTwo(first.tags, first.gaps, AllTags(lines[1..]), rest);
      assert PrintAll(lines)[1..] == PrintAll(lines[1..]);
    }
  }

  /**
   * Round trip: tags printed with any separators and split over any number of field lines are scanned
   * back, in order.
   */
  lemma ScanRoundTrip(lines: seq<FieldLine>)
    requires AllWellFormed(lines)
    ensures Scan(Join(PrintAll(lines), ",")) == QuotedTags(AllTags(lines))
  {
    if lines == [] {
      ScanSeparators("");
    } else {
      var gaps := JoinLines(lines);
      ScanPrinted(AllTags(lines), gaps);
    }
  }

  lemma {:induction false} PrintedCharacters(tags: seq<ETag>, gaps: seq<string>)
    requires WellFormed(FieldLine(tags, gaps))
    ensures tags == [] ==> IsSeparator(Print(tags, gaps))
    ensures tags != [] ==> '\"' in Print(tags, gaps)
  {
    if tags != [] {
      var q := Quoted(tags[0].opaqueTag);
      assert q[0] == '\"' && '\"' in q;
      assert '\"' in PrintTag(tags[0]);
    }
  }

  lemma QuoteAndStarAreNotSpace()
    ensures '\"' !in Whitespace() && '*' !in Whitespace()
  {
  }

  lemma PrintedIsNotAny(tags: seq<ETag>, gaps: seq<string>)
    requires WellFormed(FieldLine(tags, gaps))
    ensures TrimSpace(Print(tags, gaps)) != ANY
  {
    hide Whitespace, Print, Trim;
    QuoteAndStarAreNotSpace();
    PrintedCharacters(tags, gaps);
    var printed := Print(tags, gaps);
    TrimKeeps(printed, Whitespace(), '\"');
    TrimKeeps(printed, Whitespace(), '*');
    assert '*' in ANY && '\"' !in ANY;
    assert IsSeparator(printed) ==> '*' !in printed;
  }

  lemma QuotedInjective(a: string, b: string)
    ensures Quoted(a) == Quoted(b) <==> a == b
  {
    assert Quoted(a)[1..|Quoted(a)| - 1] == a && Quoted(b)[1..|Quoted(b)| - 1] == b;
  }

  lemma StripWeak(t: ETag)
    ensures TrimPrefix(PrintTag(t), WEAK) == Quoted(t.opaqueTag)
  {
    if t.weak {
      assert PrintTag(t)[..2] == WEAK;
      assert PrintTag(t)[2..] == Quoted(t.opaqueTag);
    } else {
      assert PrintTag(t) == Quoted(t.opaqueTag);
      assert PrintTag(t)[0] == '\"';
    }
  }

  /** The field matches the response's tag exactly when one listed tag weakly equals it. */
  lemma ListMatchesExact(lines: seq<FieldLine>, etag: ETag)
    requires lines != [] && AllWellFormed(lines)
    ensures ListMatches(Join(PrintAll(lines), ","), PrintTag(etag)) <==>
      exists t :: t in AllTags(lines) && WeaklyEqual(t, etag)
  {
    var gaps := JoinLines(lines);
    var tags := AllTags(lines);
    PrintedIsNotAny(tags, gaps);
    ScanRoundTrip(lines);
    QuotedTagsWeaklyEqual(tags, etag);
  }

  /**
   * On arbitrary input the scan reads the longest printed prefix: the list is separators and complete
   * tags, which are what the scan yields, followed by something that starts no complete tag.
   */
  lemma {:induction false} ScanReadsLongestPrefix(list: string)
    returns (tags: seq<ETag>, gaps: seq<string>, rest: string)
    ensures WellFormed(FieldLine(tags, gaps)) && gaps[|tags|] == ""
    ensures list == Print(tags, gaps) + rest
    ensures Scan(list) == QuotedTags(tags) && NextETag(rest) == None
    decreases |list|
  {
    hide NextETag, PrintTag, Quoted, IsSeparator;
    match NextETag(list)
    case None =>
      tags, gaps, rest := [], [""], list;
      EmptySeparator();
      assert list == "" + list;
    case Some(x) =>
      var t, gap := ReadTag(list);
      var tags', gaps';
      tags', gaps', rest := ScanReadsLongestPrefix(x.rest);
      tags, gaps := [t] + tags', [gap] + gaps';
      PrintCons(t, gap, tags', gaps');
      Regroup(gap, PrintTag(t), Print(tags', gaps'), rest);
      assert QuotedTags(tags) == [Quoted(t.opaqueTag)] + QuotedTags(tags');
  }

  /** On any list a match is `*` or a weakly equal tag in the longest prefix that is well formed. */
  lemma ListMatchesAnyInput(list: string, etag: ETag) returns (tags: seq<ETag>, gaps: seq<string>, rest: string)
    ensures WellFormed(FieldLine(tags, gaps)) && list == Print(tags, gaps) + rest && NextETag(rest) == None
    ensures ListMatches(list, PrintTag(etag)) <==>
      TrimSpace(list) == "*" || exists t :: t in tags && WeaklyEqual(t, etag)
  {
    tags, gaps, rest := ScanReadsLongestPrefix(list);
    QuotedTagsWeaklyEqual(tags, etag);
  }

  /** A tag's quoted form is among the scanned ones exactly when a listed tag weakly equals it. */
  lemma QuotedTagsWeaklyEqual(tags: seq<ETag>, etag: ETag)
    ensures TrimPrefix(PrintTag(etag), WEAK) in QuotedTags(tags) <==> exists t :: t in tags && WeaklyEqual(t, etag)
  {
    StripWeak(etag);
    forall i | 0 <= i < |tags| ensures QuotedTags(tags)[i] == Quoted(etag.opaqueTag) <==> WeaklyEqual(tags[i], etag) {
      QuotedInjective(tags[i].opaqueTag, etag.opaqueTag);
    }
    if t :| t in tags && WeaklyEqual(t, etag) {
      var i :| 0 <= i < |tags| && tags[i] == t;
      assert QuotedTags(tags)[i] in QuotedTags(tags);
    }
  }

  lemma EmptySeparator()
    ensures IsSeparator("")
  {
  }

  /** What `TakeQuoted` takes is a quoted string without inner quotes. */
  lemma TakenIsQuoted(s: string) returns (opaqueTag: string)
    requires TakeQuoted(s).Some?
    ensures '\"' !in opaqueTag && s == Quoted(opaqueTag) + TakeQuoted(s).value.rest
    ensures TakeQuoted(s).value.tag == Quoted(opaqueTag)
  {
    var c := Cut(s[1..], QUOTE);
    opaqueTag := c.before;
    BeforeQuote(s[1..]);
    QuotedSplit(s, c.before, c.after);
  }

  /** What `NextETag` skips and takes is separators and a printed tag. */
  lemma ReadTag(list: string) returns (t: ETag, gap: string)
    requires NextETag(list).Some?
    ensures IsSeparator(gap) && '\"' !in t.opaqueTag
    ensures list == gap + (PrintTag(t) + NextETag(list).value.rest)
    ensures NextETag(list).value.tag == Quoted(t.opaqueTag)
  {
    gap := TrimmedOff(list);
    hide IsSeparator, TrimLeft, TakeQuoted;
    var trimmed := TrimLeft(list, SEPARATORS);
    var s := TrimPrefix(trimmed, WEAK);
    var opaqueTag := TakenIsQuoted(s);
    t := ETag(WEAK <= trimmed, opaqueTag);
    hide Quoted;
    assert trimmed == (if t.weak then WEAK else "") + s;
    assert trimmed == PrintTag(t) + TakeQuoted(s).value.rest;
  }

  lemma BeforeQuote(s: string)
    ensures '\"' !in Cut(s, QUOTE).before
  {
    var c := Cut(s, QUOTE);
    if i :| 0 <= i < |c.before| && c.before[i] == '\"' {
      assert s[i..i + 1] == QUOTE;
      assert OccursAt(s, QUOTE, i);
    }
  }

  lemma QuotedSplit(s: string, opaqueTag: string, after: string)
    requires QUOTE <= s && s[1..] == opaqueTag + QUOTE + after
    ensures s == Quoted(opaqueTag) + after
    ensures s[..|s| - |after|] == Quoted(opaqueTag)
  {
    assert s == s[..1] + s[1..];
  }

  lemma {:induction false} TrimmedOff(list: string) returns (gap: string)
    ensures IsSeparator(gap) && list == gap + TrimLeft(list, SEPARATORS)
    decreases |list|
  {
    if list != "" && list[0] in SEPARATORS {
      gap := TrimmedOff(list[1..]);
      assert list == [list[0]] + list[1..];
      gap := [list[0]] + gap;
    } else {
      gap := "";
    }
  }

  // ---- the 304 decision ----

  /** The request and response fields the decision reads; absent single fields are empty. */
  datatype Conditions = Conditions(
    httpMethod: string,
    ifNoneMatch: seq<string>,
    ifModifiedSince: string,
    etag: string,
    lastModified: string)

  /** If-None-Match takes precedence over If-Modified-Since; an absent date does not parse. */
  predicate NotModified(parseTime: string -> Option<int>, c: Conditions) {
    var list := Join(c.ifNoneMatch, ",");
    && (c.httpMethod == "GET" || c.httpMethod == "HEAD")
    && if list != "" then c.etag != "" && ListMatches(list, c.etag)
       else
         var since, modified := parseTime(c.ifModifiedSince), parseTime(c.lastModified);
         since.Some? && modified.Some? && modified.value <= since.value
  }

  /** The status of an answer, or the hand-over to the library's range handling. */
  datatype Answer = ByRanges | Status(code: int)

  function Build(parseTime: string -> Option<int>, resp: WireResponse, c: Conditions): Answer {
    var status := if resp.status == 0 then 200 else resp.status;
    if resp.ranges && status == 200 then ByRanges
    else if !resp.ignoreConditionals && status == 200 && NotModified(parseTime, c) then Status(304)
    else Status(status)
  }

  /** A successful response whose conditions are to be honoured, to a method that may be conditional. */
  ghost predicate Conditional(resp: WireResponse, c: Conditions) {
    && (c.httpMethod == "GET" || c.httpMethod == "HEAD")
    && (resp.status == 0 || resp.status == 200) && !resp.ranges && !resp.ignoreConditionals
  }

  /**
   * For a successful, conditional-aware response with an entity tag, a GET or HEAD listing tags in
   * If-None-Match is answered 304 exactly when one of them weakly equals the response's tag.
   */
  lemma ConditionalAnswer(
    parseTime: string -> Option<int>, resp: WireResponse, c: Conditions, lines: seq<FieldLine>, etag: ETag)
    requires lines != [] && AllWellFormed(lines) && AllTags(lines) != []
    requires c.ifNoneMatch == PrintAll(lines) && c.etag == PrintTag(etag)
    requires Conditional(resp, c)
    ensures Build(parseTime, resp, c) ==
      Status(if exists t :: t in AllTags(lines) && WeaklyEqual(t, etag) then 304 else 200)
  {
    ListMatchesExact(lines, etag);
    var gaps := JoinLines(lines);
    PrintedCharacters(AllTags(lines), gaps);
    assert c.etag[|c.etag| - 1] == '\"';
  }

  /** `*` with spaces and tabs around it is still `*`. */
  lemma PaddedStar(left: string, right: string)
    requires IsPad(left) && IsPad(right)
    ensures TrimSpace(left + "*" + right) == "*"
  {
    assert !IsUnicodeSpace('*');
    PadsAreTrimmed(left, "*", right);
  }

  /**
   * `*`, with any white space around it, is answered 304 exactly when the response has an entity tag;
   * a current representation without one is sent in full.
   */
  lemma StarNeedsTag(parseTime: string -> Option<int>, resp: WireResponse, c: Conditions)
    requires Conditional(resp, c) && TrimSpace(Join(c.ifNoneMatch, ",")) == "*"
    ensures Build(parseTime, resp, c) == Status(if c.etag != "" then 304 else 200)
  {
    hide Whitespace, Trim, Join;
    TrimSpaceLeavesNothing("");
  }

  /**
   * Without If-None-Match the dates decide: 304 exactly when both parse and the response was not
   * modified after the date the client names.
   */
  lemma DatesDecide(parseTime: string -> Option<int>, resp: WireResponse, c: Conditions)
    requires Conditional(resp, c) && Join(c.ifNoneMatch, ",") == ""
    ensures Build(parseTime, resp, c) == Status(304) <==>
      exists since, modified ::
        parseTime(c.ifModifiedSince) == Some(since) && parseTime(c.lastModified) == Some(modified) && modified <= since
    ensures Build(parseTime, resp, c) == Status(304) || Build(parseTime, resp, c) == Status(200)
  {
  }

  /** With If-None-Match the dates are irrelevant, and a response without a tag is sent in full. */
  lemma ListDecides(
    parseTime: string -> Option<int>, resp: WireResponse, c: Conditions, since: string, modified: string)
    requires Join(c.ifNoneMatch, ",") != ""
    ensures Build(parseTime, resp, c)
         == Build(parseTime, resp, c.(ifModifiedSince := since, lastModified := modified))
    ensures Conditional(resp, c) ==>
      Build(parseTime, resp, c)
      == Status(if c.etag != "" && ListMatches(Join(c.ifNoneMatch, ","), c.etag) then 304 else 200)
  {
  }

  /** No condition changes the answer to another method, another status or a response told to ignore them. */
  lemma UnconditionalAnswers(parseTime: string -> Option<int>, resp: WireResponse, c: Conditions)
    requires !Conditional(resp, c)
    ensures Build(parseTime, resp, c) ==
      if resp.ranges && (resp.status == 0 || resp.status == 200) then ByRanges
      else Status(if resp.status == 0 then 200 else resp.status)
  {
  }
}
