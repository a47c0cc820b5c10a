/** Date templates in header values (pkg/protocol/lines.go). */
module Templates {
  import opened Wrappers
  import opened Text

  const OPEN := "${"
  const CLOSE := "}"
  const NOW := "now"

  /** Duration parsing and HTTP-date formatting, left uninterpreted. */
  datatype Clock = Clock(parseDuration: string -> Option<int>, format: int -> string)

  datatype TemplateError =
    | Unterminated(value: string)
    | UnknownTemplate(name: string)
    | MissingSign(name: string)
    | BadDuration(name: string)

  /** An HTTP-date is never empty and holds neither character of a template's opening. */
  ghost predicate PlainDates(clock: Clock) {
    forall t :: clock.format(t) != "" && '$' !in clock.format(t) && '{' !in clock.format(t)
  }

  function ParseTemplate(clock: Clock, t: string): Result<int, TemplateError> {
    if t == NOW then Ok(0)
    else if !(NOW <= t) then Err(UnknownTemplate(t))
    else
      var rest := t[|NOW|..];
      if !("+" <= rest) && !("-" <= rest) then Err(MissingSign(t))
      else
        match clock.parseDuration(rest)
        case None => Err(BadDuration(t))
        case Some(d) => Ok(d)
  }

  function Prepend(head: string, r: Result<string, TemplateError>): Result<string, TemplateError> {
    match r
    case Ok(tail) => Ok(head + tail)
    case Err(e) => Err(e)
  }

  /** The expansion of what follows an opening. */
  function ExpandRest(clock: Clock, v: string, rest: string, now: int): Result<string, TemplateError>
    decreases |rest|
  {
    var name := Cut(rest, CLOSE);
    if !name.found then Err(Unterminated(v))
    else
      match ParseTemplate(clock, name.before)
      case Err(e) => Err(e)
      case Ok(d) =>
        var next := Cut(name.after, OPEN);
        Prepend(clock.format(now + d) + next.before,
                if next.found then ExpandRest(clock, v, next.after, now) else Ok(""))
  }

  function Expansion(clock: Clock, v: string, now: int): Result<string, TemplateError> {
    var first := Cut(v, OPEN);
    if first.found then Prepend(first.before, ExpandRest(clock, v, first.after, now)) else Ok(v)
  }

  method ExpandTemplates(clock: Clock, v: string, now: int) returns (r: Result<string, TemplateError>)
    ensures r == Expansion(clock, v, now)
  {
    hide Cut, ParseTemplate;
    var parts := Cut(v, OPEN);
    if !parts.found {
      return Ok(v);
    }
    var out, rest, found := parts.before, parts.after, true;
    while found
      invariant Expansion(clock, v, now) == Prepend(out, if found then ExpandRest(clock, v, rest, now) else Ok(""))
      decreases found, |rest|
    {
      var name := Cut(rest, CLOSE);
      if !name.found {
        return Err(Unterminated(v));
      }
      var d := ParseTemplate(clock, name.before);
      if d.Err? {
        return Err(d.error);
      }
      ghost var head, date := out, clock.format(now + d.value);
      out := out + clock.format(now + d.value);
      parts := Cut(name.after, OPEN);
      rest, found := parts.after, parts.found;
      out := out + parts.before;
      PrependTwice(head, date, parts.before, if found then ExpandRest(clock, v, rest, now) else Ok(""));
    }
    assert out + "" == out;
    return Ok(out);
  }

  lemma PrependTwice(head: string, date: string, before: string, r: Result<string, TemplateError>)
    ensures Prepend(head, Prepend(date + before, r)) == Prepend(head + date + before, r)
  {
    if r.Ok? {
      assert head + ((date + before) + r.value) == (head + date + before) + r.value;
    }
  }

  /** Malformed templates leave the value untouched. */
  function Expand(clock: Clock, v: string, now: int): string {
    match Expansion(clock, v, now)
    case Ok(out) => out
    case Err(_) => v
  }

  /** Checking uses an arbitrary instant, here zero. */
  predicate TemplatesOk(clock: Clock, v: string) {
    Expansion(clock, v, 0).Ok?
  }

  // ---- success does not depend on the clock ----

  lemma {:induction false} RestIgnoresNow(clock: Clock, v: string, rest: string, now: int, now': int)
    ensures ExpandRest(clock, v, rest, now).Ok? == ExpandRest(clock, v, rest, now').Ok?
    ensures ExpandRest(clock, v, rest, now).Err? ==> ExpandRest(clock, v, rest, now) == ExpandRest(clock, v, rest, now')
    decreases |rest|
  {
    var name := Cut(rest, CLOSE);
    if name.found && ParseTemplate(clock, name.before).Ok? {
      var next := Cut(name.after, OPEN);
      if next.found {
        RestIgnoresNow(clock, v, next.after, now, now');
      }
    }
  }

  /** Whether a value expands, and the error when it does not, is the same at every instant. */
  lemma SuccessIgnoresClock(clock: Clock, v: string, now: int, now': int)
    ensures Expansion(clock, v, now).Ok? == Expansion(clock, v, now').Ok?
    ensures Expansion(clock, v, now).Err? ==> Expansion(clock, v, now) == Expansion(clock, v, now')
  {
    var first := Cut(v, OPEN);
    if first.found {
      RestIgnoresNow(clock, v, first.after, now, now');
    }
  }

  // ---- the output holds no template ----

  /** An opening in a concatenation lies in one side or straddles the seam. */
  lemma NoOpeningInConcat(a: string, b: string)
    requires !Contains(a, OPEN) && !Contains(b, OPEN)
    requires a == "" || b == "" || a[|a| - 1] != '$' || b[0] != '{'
    ensures !Contains(a + b, OPEN)
  {
    var s := a + b;
    forall i | 0 <= i <= |s| ensures !OccursAt(s, OPEN, i) {
      if OccursAt(s, OPEN, i) {
        assert s[i..i + 2][0] == '$' && s[i..i + 2][1] == '{';
        if i + 2 <= |a| {
          assert a[i..i + 2] == OPEN;
          assert OccursAt(a, OPEN, i);
        } else if i >= |a| {
          assert b[i - |a|..i - |a| + 2] == OPEN;
          assert OccursAt(b, OPEN, i - |a|);
        }
      }
    }
  }

  lemma NoDollarNoOpening(s: string)
    requires '$' !in s
    ensures !Contains(s, OPEN)
  {
    forall i: nat | i <= |s| ensures !OccursAt(s, OPEN, i) {
      if i + 2 <= |s| {
        assert s[i..i + 2][0] == s[i] && OPEN[0] == '$';
      }
    }
  }

  /** What `Cut` leaves before the first opening holds no opening. */
  lemma BeforeHoldsNoOpening(s: string)
    ensures !Contains(Cut(s, OPEN).before, OPEN)
  {
    var c := Cut(s, OPEN);
    if c.found {
      forall i | 0 <= i <= |c.before| ensures !OccursAt(c.before, OPEN, i) {
        if OccursAt(c.before, OPEN, i) {
          assert s[i..i + 2] == c.before[i..i + 2];
          assert OccursAt(s, OPEN, i);
        }
      }
    }
  }

  lemma {:induction false} RestHoldsNoOpening(clock: Clock, v: string, rest: string, now: int)
    requires PlainDates(clock)
    ensures ExpandRest(clock, v, rest, now).Ok? ==>
      var out := ExpandRest(clock, v, rest, now).value;
      out != "" && out[0] != '{' && !Contains(out, OPEN)
    decreases |rest|
  {
    var name := Cut(rest, CLOSE);
    if name.found && ParseTemplate(clock, name.before).Ok? {
      var date := clock.format(now + ParseTemplate(clock, name.before).value);
      var next := Cut(name.after, OPEN);
      NoDollarNoOpening(date);
      BeforeHoldsNoOpening(name.after);
      NoOpeningInConcat(date, next.before);
      if next.found {
        var tail := ExpandRest(clock, v, next.after, now);
        RestHoldsNoOpening(clock, v, next.after, now);
        if tail.Ok? {
          SeamAfterDate(date, next.before);
          NoOpeningInConcat(date + next.before, tail.value);
        }
      } else {
        assert date + next.before + "" == date + next.before;
      }
    }
  }

  lemma SeamAfterDate(date: string, before: string)
    requires date != ""
    ensures (date + before)[0] == date[0]
  {
  }

  lemma ExpansionHoldsNoOpening(clock: Clock, v: string, now: int)
    requires PlainDates(clock) && Expansion(clock, v, now).Ok?
    ensures !Contains(Expansion(clock, v, now).value, OPEN)
  {
    var first := Cut(v, OPEN);
    if first.found {
      BeforeHoldsNoOpening(v);
      RestHoldsNoOpening(clock, v, first.after, now);
      NoOpeningInConcat(first.before, ExpandRest(clock, v, first.after, now).value);
    }
  }

  /** A value keeps an opening after expansion exactly when its templates are malformed. */
  lemma ExpandClearsTemplates(clock: Clock, v: string, now: int)
    requires PlainDates(clock)
    ensures Contains(Expand(clock, v, now), OPEN) <==> !TemplatesOk(clock, v)
  {
    SuccessIgnoresClock(clock, v, now, 0);
    if TemplatesOk(clock, v) {
      ExpansionHoldsNoOpening(clock, v, now);
    } else {
      var first := Cut(v, OPEN);
      assert OccursAt(v, OPEN, |first.before|);
    }
  }

  /** Expanding twice, at any two instants, is expanding once: true of every string. */
  lemma ExpandIsIdempotent(clock: Clock, v: string, now: int, later: int)
    requires PlainDates(clock)
    ensures Expand(clock, Expand(clock, v, now), later) == Expand(clock, v, now)
  {
    SuccessIgnoresClock(clock, v, now, later);
    if Expansion(clock, v, now).Ok? {
      var out := Expand(clock, v, now);
      ExpansionHoldsNoOpening(clock, v, now);
      var again := Cut(out, OPEN);
      if again.found {
        assert OccursAt(out, OPEN, |again.before|);
      }
    }
  }

  // ---- meaning ----

  /** `${now}`, or `${now` followed by a signed duration and `}`. */
  datatype Template = Now | Offset(text: string)
  {
    function Name(): string {
      match this
      case Now => "now"
      case Offset(text) => "now" + text
    }

    /** The date it stands for: so long after `now` as the duration says. */
    function DateAt(clock: Clock, now: int): string
      requires Valid(clock)
    {
      match this
      case Now => clock.format(now)
      case Offset(text) => clock.format(now + clock.parseDuration(text).value)
    }

    predicate Valid(clock: Clock) {
      match this
      case Now => true
      case Offset(text) =>
        text != "" && (text[0] == '+' || text[0] == '-') && '}' !in text && clock.parseDuration(text).Some?
    }
  }

  /** A valid template parses to the offset it stands for. */
  lemma ValidTemplateParses(clock: Clock, t: Template, now: int)
    requires t.Valid(clock)
    ensures '}' !in t.Name() && ParseTemplate(clock, t.Name()).Ok?
    ensures clock.format(now + ParseTemplate(clock, t.Name()).value) == t.DateAt(clock, now)
  {
    if t.Offset? {
      assert t.Name()[..3] == "now" && t.Name()[3..] == t.text;
      assert t.Name()[3] == t.text[0];
    }
  }

  /** Nothing else parses. */
  lemma ParsedIsValidTemplate(clock: Clock, name: string) returns (t: Template)
    requires ParseTemplate(clock, name).Ok? && '}' !in name
    ensures t.Valid(clock) && t.Name() == name
  {
    if name == "now" {
      t := Now;
    } else {
      t := Offset(name[3..]);
      assert name == name[..3] + name[3..];
    }
  }

  /** Why a name is not a template. */
  ghost predicate Refused(clock: Clock, name: string, e: TemplateError) {
    match e
    case UnknownTemplate(n) => n == name && !("now" <= name)
    case MissingSign(n) => n == name && name != "now" && "now" <= name && name[3] != '+' && name[3] != '-'
    case BadDuration(n) =>
      && n == name && name != "now" && "now" <= name && (name[3] == '+' || name[3] == '-')
      && clock.parseDuration(name[3..]).None?
    case Unterminated(_) => false
  }

  lemma RefusalIsExact(clock: Clock, name: string, e: TemplateError)
    ensures ParseTemplate(clock, name) == Err(e) <==> Refused(clock, name, e)
  {
    if "now" <= name && name != "now" {
      assert |name| > 3 && name[3..][0] == name[3];
      assert "+" <= name[3..] <==> name[3] == '+';
      assert "-" <= name[3..] <==> name[3] == '-';
    }
  }

  /** Literals interleaved with templates, as written. */
  function Source(lits: seq<string>, ts: seq<Template>): string
    requires |lits| == |ts| + 1
  {
    if ts == [] then lits[0]
    else lits[0] + "${" + (ts[0].Name() + "}" + Source(lits[1..], ts[1..]))
  }

  /** The same literals interleaved with dates. */
  function Rendered(clock: Clock, lits: seq<string>, ts: seq<Template>, now: int): string
    requires |lits| == |ts| + 1
    requires forall t :: t in ts ==> t.Valid(clock)
  {
    if ts == [] then lits[0]
    else lits[0] + (ts[0].DateAt(clock, now) + Rendered(clock, lits[1..], ts[1..], now))
  }

  ghost predicate WellWritten(clock: Clock, lits: seq<string>, ts: seq<Template>) {
    && |lits| == |ts| + 1
    && (forall l :: l in lits ==> !Contains(l, "${"))
    && (forall t :: t in ts ==> t.Valid(clock))
  }

  lemma CutAfterLiteral(lit: string, after: string)
    requires !Contains(lit, OPEN)
    ensures Cut(lit + OPEN + after, OPEN) == Parts(lit, after, true)
  {
    var s := lit + OPEN + after;
    forall j: nat | j < |lit| ensures !OccursAt(s, OPEN, j) {
      if OccursAt(s, OPEN, j) {
        assert s[j..j + 2][1] == '{' && s[j + 1] == '{';
        assert j + 2 <= |lit|;
        assert lit[j..j + 2] == s[j..j + 2];
        assert OccursAt(lit, OPEN, j);
      }
    }
    CutIsFirst(s, OPEN, lit, after);
  }

  lemma NotFoundInLiteral(lit: string)
    requires !Contains(lit, OPEN)
    ensures Cut(lit, OPEN) == Parts(lit, "", false)
  {
    var c := Cut(lit, OPEN);
    if c.found {
      assert OccursAt(lit, OPEN, |c.before|);
    }
  }

  /** One turn of the scan over a valid template. */
  lemma RestUnfolds(clock: Clock, v: string, t: Template, after: string, now: int)
    requires t.Valid(clock)
    ensures ExpandRest(clock, v, t.Name() + "}" + after, now) ==
      var next := Cut(after, OPEN);
      Prepend(t.DateAt(clock, now) + next.before,
              if next.found then ExpandRest(clock, v, next.after, now) else Ok(""))
  {
    ValidTemplateParses(clock, t, now);
    CutAtChar(t.Name(), '}', after);
  }

  /** The scan of template, literal, template, ... yields date, literal, date, ... */
  lemma {:induction false} RestMeaning(clock: Clock, v: string, lits: seq<string>, ts: seq<Template>, now: int)
    requires WellWritten(clock, lits, ts) && ts != []
    ensures ExpandRest(clock, v, ts[0].Name() + "}" + Source(lits[1..], ts[1..]), now)
         == Ok(ts[0].DateAt(clock, now) + Rendered(clock, lits[1..], ts[1..], now))
    decreases |ts|
  {
    hide Cut, Contains, ExpandRest, Template.Name, Template.DateAt, Template.Valid;
    var lits', ts' := lits[1..], ts[1..];
    var date := ts[0].DateAt(clock, now);
    RestUnfolds(clock, v, ts[0], Source(lits', ts'), now);
    if ts' == [] {
      NotFoundInLiteral(lits'[0]);
      assert date + lits'[0] + "" == date + lits'[0];
    } else {
      var after := ts'[0].Name() + "}" + Source(lits'[1..], ts'[1..]);
      CutAfterLiteral(lits'[0], after);
      RestMeaning(clock, v, lits', ts', now);
      Associate(date, lits'[0], ts'[0].DateAt(clock, now) + Rendered(clock, lits'[1..], ts'[1..], now));
      assert Source(lits', ts') == lits'[0] + OPEN + after;
    }
  }

  lemma Associate(a: string, b: string, c: string)
    ensures (a + b) + c == a + (b + c)
  {
  }

  /** Literals come out unchanged and every template comes out as its date. */
  lemma ExpansionMeaning(clock: Clock, lits: seq<string>, ts: seq<Template>, now: int)
    requires WellWritten(clock, lits, ts)
    ensures Expansion(clock, Source(lits, ts), now) == Ok(Rendered(clock, lits, ts, now))
    ensures Expand(clock, Source(lits, ts), now) == Rendered(clock, lits, ts, now)
  {
    hide Cut, Contains, ExpandRest, Template.Name, Template.DateAt, Template.Valid;
    var v := Source(lits, ts);
    if ts == [] {
      NotFoundInLiteral(lits[0]);
    } else {
      CutAfterLiteral(lits[0], ts[0].Name() + "}" + Source(lits[1..], ts[1..]));
      RestMeaning(clock, v, lits, ts, now);
    }
  }

  lemma NameHoldsNoClose(rest: string)
    requires Cut(rest, CLOSE).found
    ensures '}' !in Cut(rest, CLOSE).before
  {
    var c := Cut(rest, CLOSE);
    if i :| 0 <= i < |c.before| && c.before[i] == '}' {
      assert rest[i..i + 1] == CLOSE;
      assert OccursAt(rest, CLOSE, i);
    }
  }

  /** What is wrong with the text after an opening: it never closes, or names no template. */
  ghost predicate Broken(clock: Clock, v: string, rest: string, e: TemplateError) {
    if '}' !in rest then e == Unterminated(v)
    else exists name, after :: rest == name + "}" + after && '}' !in name && Refused(clock, name, e)
  }

  lemma BrokenIsReported(clock: Clock, v: string, rest: string, e: TemplateError, now: int)
    requires Broken(clock, v, rest, e)
    ensures ExpandRest(clock, v, rest, now) == Err(e)
  {
    if '}' !in rest {
      NoCut(rest, '}');
    } else {
      var name, after :| rest == name + "}" + after && '}' !in name && Refused(clock, name, e);
      CutAtChar(name, '}', after);
      RefusalIsExact(clock, name, e);
    }
  }

  /** A malformed template after well-written text is the error reported, whatever follows it. */
  lemma {:induction false} FirstBrokenIsReported(
    clock: Clock, lits: seq<string>, ts: seq<Template>, rest: string, e: TemplateError, now: int)
    requires WellWritten(clock, lits, ts)
    requires Broken(clock, Source(lits, ts) + "${" + rest, rest, e)
    ensures Expansion(clock, Source(lits, ts) + "${" + rest, now) == Err(e)
    ensures Expand(clock, Source(lits, ts) + "${" + rest, now) == Source(lits, ts) + "${" + rest
  {
    var v := Source(lits, ts) + "${" + rest;
    var after := if ts == [] then rest else ts[0].Name() + "}" + Source(lits[1..], ts[1..]) + "${" + rest;
    hide Cut, ExpandRest, Template.Name, Template.Valid, Broken;
    if ts != [] {
      AfterFirst(lits, ts, rest);
      RestIsBroken(clock, v, lits, ts, rest, e, now);
    } else {
      BrokenIsReported(clock, v, rest, e, now);
    }
    CutAfterLiteral(lits[0], after);
  }

  lemma AfterFirst(lits: seq<string>, ts: seq<Template>, rest: string)
    requires |lits| == |ts| + 1 && ts != []
    ensures Source(lits, ts) + "${" + rest
         == lits[0] + "${" + (ts[0].Name() + "}" + Source(lits[1..], ts[1..]) + "${" + rest)
    ensures ts[0].Name() + "}" + Source(lits[1..], ts[1..]) + "${" + rest
         == ts[0].Name() + "}" + (Source(lits[1..], ts[1..]) + "${" + rest)
  {
  }

  lemma {:induction false} RestIsBroken(
    clock: Clock, v: string, lits: seq<string>, ts: seq<Template>, rest: string, e: TemplateError, now: int)
    requires WellWritten(clock, lits, ts) && ts != [] && Broken(clock, v, rest, e)
    ensures ExpandRest(clock, v, ts[0].Name() + "}" + Source(lits[1..], ts[1..]) + "${" + rest, now) == Err(e)
    decreases |ts|
  {
    hide Cut, Contains, ExpandRest, Template.Name, Template.DateAt, Template.Valid, Broken;
    var lits', ts' := lits[1..], ts[1..];
    AfterFirst(lits, ts, rest);
    RestUnfolds(clock, v, ts[0], Source(lits', ts') + "${" + rest, now);
    if ts' == [] {
      CutAfterLiteral(lits'[0], rest);
      BrokenIsReported(clock, v, rest, e, now);
    } else {
      AfterFirst(lits', ts', rest);
      CutAfterLiteral(lits'[0], ts'[0].Name() + "}" + Source(lits'[1..], ts'[1..]) + "${" + rest);
      RestIsBroken(clock, v, lits', ts', rest, e, now);
    }
  }

  lemma {:induction false} RestIsWellWritten(clock: Clock, v: string, rest: string, now: int)
    returns (lits: seq<string>, ts: seq<Template>)
    requires ExpandRest(clock, v, rest, now).Ok?
    ensures WellWritten(clock, [""] + lits, ts) && ts != []
    ensures rest == ts[0].Name() + "}" + Source(lits, ts[1..])
    decreases |rest|
  {
    var name := Cut(rest, CLOSE);
    var next := Cut(name.after, OPEN);
    NameHoldsNoClose(rest);
    BeforeHoldsNoOpening(name.after);
    var t := ParsedIsValidTemplate(clock, name.before);
    if next.found {
      var lits', ts' := RestIsWellWritten(clock, v, next.after, now);
      lits, ts := [next.before] + lits', [t] + ts';
      assert forall l :: l in lits' ==> l in [""] + lits';
      assert lits[1..] == lits' && ts[1..] == ts' && lits[0] == next.before;
      assert name.after == next.before + OPEN + (ts'[0].Name() + "}" + Source(lits', ts'[1..]));
    } else {
      lits, ts := [next.before], [t];
    }
    NoDollarNoOpening("");
  }

  /** Conversely whatever expands was written that way, so the grammar of accepted values is exact. */
  lemma AcceptedIsWellWritten(clock: Clock, v: string) returns (lits: seq<string>, ts: seq<Template>)
    requires TemplatesOk(clock, v)
    ensures WellWritten(clock, lits, ts) && v == Source(lits, ts)
  {
    var first := Cut(v, OPEN);
    if first.found {
      BeforeHoldsNoOpening(v);
      var lits';
      lits', ts := RestIsWellWritten(clock, v, first.after, 0);
      assert forall l :: l in lits' ==> l in [""] + lits';
      lits := [first.before] + lits';
      assert lits[1..] == lits';
    } else {
      lits, ts := [v], [];
    }
  }
}
