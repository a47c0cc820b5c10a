/** The string operations of Go's `strings` package that the program relies on. */
module Text {

  /** The characters `unicode.IsSpace` accepts. */
  function Whitespace(): string {
    "\t\n\U{b}\U{c}\r \U{85}\U{a0}\U{1680}"
    + "\U{2000}\U{2001}\U{2002}\U{2003}\U{2004}\U{2005}\U{2006}\U{2007}\U{2008}\U{2009}\U{200a}"
    + "\U{2028}\U{2029}\U{202f}\U{205f}\U{3000}"
  }

  /** The space characters of Unicode, as ranges. */
  predicate IsUnicodeSpace(c: char) {
    || '\t' <= c <= '\r' || c == ' ' || c == '\U{85}' || c == '\U{a0}' || c == '\U{1680}'
    || '\U{2000}' <= c <= '\U{200a}' || c == '\U{2028}' || c == '\U{2029}' || c == '\U{202f}' || c == '\U{205f}'
    || c == '\U{3000}'
  }

  lemma WhitespaceIsUnicodeSpace(c: char)
    ensures c in Whitespace() <==> IsUnicodeSpace(c)
  {
  }

  predicate OccursAt(s: string, sep: string, i: nat) {
    i + |sep| <= |s| && s[i..i + |sep|] == sep
  }

  predicate Contains(s: string, sep: string) {
    exists i | 0 <= i <= |s| :: OccursAt(s, sep, i)
  }

  /** The first place at or after `from` where `sep` occurs; past the end when there is none. */
  function IndexFrom(s: string, sep: string, from: nat): (i: nat)
    requires from <= |s|
    ensures from <= i
    ensures forall j: nat :: from <= j < i ==> !OccursAt(s, sep, j)
    ensures i <= |s| ==> OccursAt(s, sep, i)
    decreases |s| - from
  {
    if OccursAt(s, sep, from) then from
    else if from == |s| then |s| + 1
    else IndexFrom(s, sep, from + 1)
  }

  datatype Parts = Parts(before: string, after: string, found: bool)

  /** Splits around the first separator. */
  function Cut(s: string, sep: string): (r: Parts)
    requires sep != ""
    ensures r.found ==> s == r.before + sep + r.after && forall j: nat :: j < |r.before| ==> !OccursAt(s, sep, j)
    ensures !r.found ==> r.before == s && r.after == "" && !Contains(s, sep)
  {
    var i := IndexFrom(s, sep, 0);
    if i <= |s| then Parts(s[..i], s[i + |sep|..], true) else Parts(s, "", false)
  }

  /** A split whose separator is the first one is the one `Cut` finds. */
  lemma CutIsFirst(s: string, sep: string, before: string, after: string)
    requires sep != "" && s == before + sep + after
    requires forall j: nat :: j < |before| ==> !OccursAt(s, sep, j)
    ensures Cut(s, sep) == Parts(before, after, true)
  {
    assert OccursAt(s, sep, |before|);
    var i := IndexFrom(s, sep, 0);
    assert i == |before|;
    assert s[..i] == before && s[i + |sep|..] == after;
  }

  /** Cutting at a single character that `before` does not hold. */
  lemma CutAtChar(before: string, c: char, after: string)
    requires c !in before
    ensures Cut(before + [c] + after, [c]) == Parts(before, after, true)
  {
    var s := before + [c] + after;
    forall j: nat | j < |before| ensures !OccursAt(s, [c], j) {
      assert s[j..j + 1] == [before[j]];
    }
    CutIsFirst(s, [c], before, after);
  }

  function TrimLeft(s: string, cutset: string): (r: string)
    ensures |r| <= |s|
    ensures r != "" ==> r[0] !in cutset
  {
    if s != "" && s[0] in cutset then TrimLeft(s[1..], cutset) else s
  }

  function TrimRight(s: string, cutset: string): (r: string)
    ensures |r| <= |s|
    ensures r != "" ==> r[|r| - 1] !in cutset
    decreases |s|
  {
    if s != "" && s[|s| - 1] in cutset then TrimRight(s[..|s| - 1], cutset) else s
  }

  function Trim(s: string, cutset: string): string {
    TrimRight(TrimLeft(s, cutset), cutset)
  }

  function TrimSpace(s: string): string {
    Trim(s, Whitespace())
  }

  /** Trimming takes away cutset characters only. */
  lemma {:induction false} TrimLeftKeeps(s: string, cutset: string, c: char)
    requires c !in cutset
    ensures c in TrimLeft(s, cutset) <==> c in s
  {
    if s != "" && s[0] in cutset {
      TrimLeftKeeps(s[1..], cutset, c);
    }
  }

  lemma {:induction false} TrimRightKeeps(s: string, cutset: string, c: char)
    requires c !in cutset
    ensures c in TrimRight(s, cutset) <==> c in s
    decreases |s|
  {
    if s != "" && s[|s| - 1] in cutset {
      TrimRightKeeps(s[..|s| - 1], cutset, c);
    }
  }

  lemma TrimKeeps(s: string, cutset: string, c: char)
    requires c !in cutset
    ensures c in Trim(s, cutset) <==> c in s
  {
    TrimLeftKeeps(s, cutset, c);
    TrimRightKeeps(TrimLeft(s, cutset), cutset, c);
  }

  lemma {:induction false} TrimLeftSkips(pad: string, s: string, cutset: string)
    requires forall i :: 0 <= i < |pad| ==> pad[i] in cutset
    requires s != "" ==> s[0] !in cutset
    ensures TrimLeft(pad + s, cutset) == s
    decreases |pad|
  {
    if pad == "" {
      assert pad + s == s;
    } else {
      assert (pad + s)[1..] == pad[1..] + s;
      TrimLeftSkips(pad[1..], s, cutset);
    }
  }

  function TrimPrefix(s: string, prefix: string): (r: string)
    ensures |r| <= |s|
    ensures r == s || s == prefix + r
    ensures |s| >= |prefix| && s[..|prefix|] == prefix ==> s == prefix + r
  {
    if prefix <= s then s[|prefix|..] else s
  }

  function Join(parts: seq<string>, sep: string): string {
    if parts == [] then ""
    else if |parts| == 1 then parts[0]
    else parts[0] + sep + Join(parts[1..], sep)
  }

  datatype Line = Line(name: string, value: string, hasValue: bool)

  /** Splits a "Name: value" header line. */
  function SplitLine(line: string): Line {
    var p := Cut(line, ":");
    Line(TrimSpace(p.before), Trim(p.after, " \t"), p.found)
  }

  /** A line's name is what stands before its first colon and its value what follows, without the space around them. */
  lemma SplitLineMeaning(pads: seq<string>, name: string, value: string)
    requires |pads| == 4 && forall i :: 0 <= i < 4 ==> IsPad(pads[i])
    requires ':' !in name && Flush(name) && Flush(value)
    ensures SplitLine(pads[0] + name + pads[1] + ":" + (pads[2] + value + pads[3])) == Line(name, value, true)
    ensures SplitLine(pads[0] + name + pads[1]) == Line(name, "", false)
  {
    hide Whitespace, Cut, Trim;
    PadsAreTrimmed(pads[0], name, pads[1]);
    PadsAreTrimmed(pads[2], value, pads[3]);
    var before := pads[0] + name + pads[1];
    assert ':' !in before;
    CutAtChar(before, ':', pads[2] + value + pads[3]);
    NoCut(before, ':');
    PadsAreTrimmed("", "", "");
    assert "" + "" + "" == "";
  }

  /** Spaces and tabs. */
  predicate IsPad(s: string) {
    forall i :: 0 <= i < |s| ==> s[i] == ' ' || s[i] == '\t'
  }

  /** No space at either end. */
  predicate Flush(s: string) {
    s != "" ==> !IsUnicodeSpace(s[0]) && !IsUnicodeSpace(s[|s| - 1])
  }

  lemma NoCut(s: string, c: char)
    requires c !in s
    ensures Cut(s, [c]) == Parts(s, "", false)
  {
  }

  lemma PadsAreTrimmed(left: string, s: string, right: string)
    requires IsPad(left) && IsPad(right) && Flush(s)
    ensures TrimSpace(left + s + right) == s && Trim(left + s + right, " \t") == s
  {
    hide Whitespace;
    WhitespaceIsUnicodeSpace(' ');
    WhitespaceIsUnicodeSpace('\t');
    if s != "" {
      WhitespaceIsUnicodeSpace(s[0]);
      WhitespaceIsUnicodeSpace(s[|s| - 1]);
    }
    TrimSkips(left, s, right, Whitespace());
    TrimSkips(left, s, right, " \t");
  }

  lemma TrimSkips(left: string, s: string, right: string, cutset: string)
    requires forall i :: 0 <= i < |left| ==> left[i] in cutset
    requires forall i :: 0 <= i < |right| ==> right[i] in cutset
    requires s != "" ==> s[0] !in cutset && s[|s| - 1] !in cutset
    ensures Trim(left + s + right, cutset) == s
  {
    if s == "" {
      var pad := left + right;
      assert left + s + right == pad && pad + "" == pad;
      TrimLeftSkips(pad, "", cutset);
    } else {
      assert left + s + right == left + (s + right);
      TrimLeftSkips(left, s + right, cutset);
      TrimRightSkips(s, right, cutset);
    }
  }

  lemma {:induction false} TrimRightSkips(s: string, pad: string, cutset: string)
    requires forall i :: 0 <= i < |pad| ==> pad[i] in cutset
    requires s != "" ==> s[|s| - 1] !in cutset
    ensures TrimRight(s + pad, cutset) == s
    decreases |pad|
  {
    if pad == "" {
      assert s + pad == s;
    } else {
      var n := |pad| - 1;
      assert (s + pad)[..|s + pad| - 1] == s + pad[..n];
      TrimRightSkips(s, pad[..n], cutset);
    }
  }

  /** Trimming leaves nothing exactly when there is nothing but space. */
  lemma TrimSpaceLeavesNothing(s: string)
    ensures TrimSpace(s) == "" <==> forall c :: c in s ==> IsUnicodeSpace(c)
  {
    hide Whitespace, Trim;
    forall c ensures c in Whitespace() <==> IsUnicodeSpace(c) {
      WhitespaceIsUnicodeSpace(c);
    }
    if c :| c in s && !IsUnicodeSpace(c) {
      TrimKeeps(s, Whitespace(), c);
    } else {
      TrimSkips(s, "", "", Whitespace());
      assert s + "" + "" == s;
    }
  }
}
