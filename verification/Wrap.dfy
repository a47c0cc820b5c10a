/** Greedy word wrap of a report's notice (pkg/report/text.go). */
module Wrap {
  import opened Text

  // ---- words ----

  predicate IsSpace(c: char) {
    c in Whitespace()
  }

  predicate IsWord(w: string) {
    w != "" && forall i :: 0 <= i < |w| ==> !IsSpace(w[i])
  }

  predicate AreWords(ws: seq<string>) {
    forall i :: 0 <= i < |ws| ==> IsWord(ws[i])
  }

  function WordEnd(s: string): (n: nat)
    ensures n <= |s|
    ensures forall i :: 0 <= i < n ==> !IsSpace(s[i])
    ensures n < |s| ==> IsSpace(s[n])
  {
    if s == "" || IsSpace(s[0]) then 0 else 1 + WordEnd(s[1..])
  }

  /** The maximal runs of characters other than white space. */
  function Fields(s: string): (ws: seq<string>)
    ensures AreWords(ws)
    decreases |s|
  {
    var t := TrimLeft(s, Whitespace());
    if t == "" then []
    else
      var n := WordEnd(t);
      [t[..n]] + Fields(t[n..])
  }

  function Spaced(ws: seq<string>): string {
    if ws == [] then ""
    else if |ws| == 1 then ws[0]
    else Spaced(ws[..|ws| - 1]) + " " + ws[|ws| - 1]
  }

  // ---- wrappings ----

  function Width(ws: seq<string>): nat {
    |Spaced(ws)|
  }

  /** A line fits, or is a single word longer than any line may be. */
  predicate Fits(group: seq<string>, width: int) {
    group != [] && (Width(group) <= width || |group| == 1)
  }

  function Flatten(groups: seq<seq<string>>): seq<string> {
    if groups == [] then [] else groups[0] + Flatten(groups[1..])
  }

  ghost predicate IsWrapping(words: seq<string>, groups: seq<seq<string>>, width: int) {
    && Flatten(groups) == words
    && forall i :: 0 <= i < |groups| ==> Fits(groups[i], width)
  }

  /** One turn of the loop: the word joins the line when it still fits, else it starts the next. */
  function Place(groups: seq<seq<string>>, word: string, width: int): seq<seq<string>> {
    if groups == [] then [[word]]
    else
      var last := groups[|groups| - 1];
      if Width(last) + 1 + |word| <= width
      then groups[..|groups| - 1] + [last + [word]]
      else groups + [[word]]
  }

  function Greedy(words: seq<string>, width: int): (groups: seq<seq<string>>)
    ensures forall i :: 0 <= i < |groups| ==> groups[i] != []
    ensures groups == [] <==> words == []
  {
    if words == [] then []
    else Place(Greedy(words[..|words| - 1], width), words[|words| - 1], width)
  }

  function Lines(groups: seq<seq<string>>): (lines: seq<string>)
    ensures |lines| == |groups| && forall i :: 0 <= i < |groups| ==> lines[i] == Spaced(groups[i])
  {
    seq(|groups|, i requires 0 <= i < |groups| => Spaced(groups[i]))
  }

  lemma SpacedSnoc(ws: seq<string>, w: string)
    requires ws != []
    ensures Spaced(ws + [w]) == Spaced(ws) + " " + w
    ensures Width(ws + [w]) == Width(ws) + 1 + |w|
  {
    assert (ws + [w])[..|ws|] == ws;
  }

  method WrapWords(s: string, width: int) returns (lines: seq<string>)
    ensures lines == Lines(Greedy(Fields(s), width))
  {
    hide Fields, Place, Lines, Spaced, IsSpace;
    var words := Fields(s);
    EmptyLines();
    lines := [];
    var line := "";
    for i := 0 to |words|
      invariant i == 0 ==> lines == [] && line == ""
      invariant i > 0 ==> line != ""
      invariant lines + (if line == "" then [] else [line]) == Lines(Greedy(words[..i], width))
    {
      assert words[..i + 1][..i] == words[..i];
      ghost var groups := Greedy(words[..i], width);
      PlaceLine(groups, words[i], width);
      if i > 0 {
        assert Lines(groups)[|groups| - 1] == line && Lines(groups)[..|groups| - 1] == lines;
      }
      if line == "" {
        line := words[i];
      } else if |line| + 1 + |words[i]| <= width {
        line := line + " " + words[i];
      } else {
        lines := lines + [line];
        line := words[i];
      }
    }
    assert words[..|words|] == words;
    if line != "" {
      lines := lines + [line];
    }
  }

  lemma EmptyLines()
    ensures Lines([]) == []
  {
  }

  /** How placing a word changes the lines. */
  lemma PlaceLine(groups: seq<seq<string>>, word: string, width: int)
    requires forall i :: 0 <= i < |groups| ==> groups[i] != []
    ensures groups == [] ==> Lines(Place(groups, word, width)) == [word]
    ensures groups != [] ==>
      var lines, last := Lines(groups), Spaced(groups[|groups| - 1]);
      Lines(Place(groups, word, width)) ==
        if |last| + 1 + |word| <= width then lines[..|lines| - 1] + [last + " " + word] else lines + [word]
  {
    if groups != [] {
      SpacedSnoc(groups[|groups| - 1], word);
    }
  }

  // ---- every word, in order, on lines that fit ----

  lemma {:induction false} FlattenSnoc(groups: seq<seq<string>>, g: seq<string>)
    ensures Flatten(groups + [g]) == Flatten(groups) + g
  {
    if groups == [] {
      assert groups + [g] == [g] && Flatten([g]) == g + Flatten([]);
    } else {
      FlattenSnoc(groups[1..], g);
      assert (groups + [g])[1..] == groups[1..] + [g];
    }
  }

  lemma PlaceKeepsWrapping(words: seq<string>, groups: seq<seq<string>>, word: string, width: int)
    requires IsWrapping(words, groups, width)
    ensures IsWrapping(words + [word], Place(groups, word, width), width)
  {
    if groups == [] {
      assert Flatten([[word]]) == [word] + Flatten([]);
    } else {
      var n := |groups| - 1;
      var last := groups[n];
      FlattenSnoc(groups, [word]);
      FlattenSnoc(groups[..n], last);
      FlattenSnoc(groups[..n], last + [word]);
      SpacedSnoc(last, word);
      assert groups[..n] + [last] == groups;
      assert Flatten(groups[..n]) + (last + [word]) == (Flatten(groups[..n]) + last) + [word];
    }
  }

  /** Greedy wrapping keeps every word in order, and every line fits or is one over-long word. */
  lemma {:induction false} GreedyIsWrapping(words: seq<string>, width: int)
    ensures IsWrapping(words, Greedy(words, width), width)
    decreases |words|
  {
    if words != [] {
      var n := |words| - 1;
      GreedyIsWrapping(words[..n], width);
      PlaceKeepsWrapping(words[..n], Greedy(words[..n], width), words[n], width);
      assert words[..n] + [words[n]] == words;
    }
  }

  // ---- no wrapping uses fewer lines ----

  /** A line without its last word is no wider. */
  lemma {:induction false} DropLastFits(group: seq<string>, width: int)
    requires Fits(group, width) && |group| > 1
    ensures Fits(group[..|group| - 1], width)
  {
    SpacedSnoc(group[..|group| - 1], group[|group| - 1]);
    assert group[..|group| - 1] + [group[|group| - 1]] == group;
  }

  lemma {:induction false} SpacedCons(w: string, ws: seq<string>)
    requires ws != []
    ensures Spaced([w] + ws) == w + " " + Spaced(ws)
    decreases |ws|
  {
    var n := |ws| - 1;
    assert ([w] + ws)[..|ws|] == [w] + ws[..n];
    if n > 0 {
      SpacedCons(w, ws[..n]);
    }
  }

  /** The end of a line that fits is no wider than the line. */
  lemma {:induction false} SuffixNarrower(ws: seq<string>, k: nat)
    requires k < |ws|
    ensures Width(ws[k..]) <= Width(ws)
    decreases k
  {
    if k > 0 {
      SpacedCons(ws[0], ws[1..]);
      assert [ws[0]] + ws[1..] == ws && ws[1..][k - 1..] == ws[k..];
      SuffixNarrower(ws[1..], k - 1);
    }
  }

  /** Placing a word starts a line or lengthens the last one. */
  lemma PlaceSize(groups: seq<seq<string>>, word: string, width: int)
    ensures var g := Place(groups, word, width);
      || (|g| == |groups| + 1 && g[|g| - 1] == [word])
      || (groups != [] && |g| == |groups| && g[|g| - 1] == groups[|groups| - 1] + [word])
  {
  }

  /** Greedy uses no more lines than `groups`, and with as many its last line is no longer. */
  ghost predicate Ahead(g: seq<seq<string>>, groups: seq<seq<string>>) {
    && groups != [] && g != []
    && |g| <= |groups|
    && (|g| == |groups| ==> |g[|g| - 1]| <= |groups[|groups| - 1]|)
  }

  /** Taking the last word away from a wrapping leaves a wrapping. */
  lemma WithoutLastWord(words: seq<string>, groups: seq<seq<string>>, width: int) returns (shorter: seq<seq<string>>)
    requires IsWrapping(words, groups, width) && |words| > 1
    ensures groups != [] && IsWrapping(words[..|words| - 1], shorter, width) && shorter != []
    ensures var last := groups[|groups| - 1];
      && last != []
      && if |last| == 1 then |shorter| == |groups| - 1
         else |shorter| == |groups| && shorter[|groups| - 1] == last[..|last| - 1]
  {
    var n, k := |words| - 1, |groups| - 1;
    var last := groups[k];
    FlattenSnoc(groups[..k], last);
    assert groups[..k] + [last] == groups;
    if |last| == 1 {
      shorter := groups[..k];
      assert Flatten(shorter) == words[..n];
    } else {
      shorter := groups[..k] + [last[..|last| - 1]];
      FlattenSnoc(groups[..k], last[..|last| - 1]);
      assert Flatten(shorter) == words[..n];
      DropLastFits(last, width);
    }
  }

  /** Greedy stays ahead of any wrapping of the same words. */
  lemma {:induction false} GreedyStaysAhead(words: seq<string>, groups: seq<seq<string>>, width: int)
    requires IsWrapping(words, groups, width) && words != []
    ensures Ahead(Greedy(words, width), groups)
    decreases |words|
  {
    hide Spaced, Flatten, Place;
    var n := |words| - 1;
    PlaceSize(Greedy(words[..n], width), words[n], width);
    EndsWithLastWord(words, groups, width);
    if n > 0 {
      var shorter := WithoutLastWord(words, groups, width);
      GreedyStaysAhead(words[..n], shorter, width);
      var g, last := Greedy(words[..n], width), groups[|groups| - 1];
      if |last| > 1 && |g| == |groups| {
        LastLineTakesWord(words, groups, width);
      }
    }
  }

  lemma EndsWithLastWord(words: seq<string>, groups: seq<seq<string>>, width: int)
    requires IsWrapping(words, groups, width) && words != []
    ensures groups != [] && groups[|groups| - 1] != []
  {
  }

  /** When greedy is level with another wrapping whose last line holds the next word, so does its own. */
  lemma LastLineTakesWord(words: seq<string>, groups: seq<seq<string>>, width: int)
    requires IsWrapping(words, groups, width) && |words| > 1 && groups != []
    requires |groups[|groups| - 1]| > 1
    requires var g := Greedy(words[..|words| - 1], width);
      |g| == |groups| && |g[|g| - 1]| <= |groups[|groups| - 1]| - 1
    ensures Ahead(Greedy(words, width), groups)
  {
    hide Spaced, Flatten;
    var n, k := |words| - 1, |groups| - 1;
    var g, last := Greedy(words[..n], width), groups[k];
    GreedyIsWrapping(words[..n], width);
    EndsWithLast(words[..n], g);
    EndsWithLast(words, groups);
    var mine := g[k];
    var a := |last| - 1 - |mine|;
    assert mine + [words[n]] == last[a..];
    SuffixNarrower(last, a);
    SpacedSnoc(mine, words[n]);
  }

  lemma EndsWithLast(words: seq<string>, groups: seq<seq<string>>)
    requires Flatten(groups) == words && groups != []
    ensures |groups[|groups| - 1]| <= |words|
    ensures words[|words| - |groups[|groups| - 1]|..] == groups[|groups| - 1]
  {
    var k := |groups| - 1;
    FlattenSnoc(groups[..k], groups[k]);
    assert groups[..k] + [groups[k]] == groups;
  }

  /** Optimality: no wrapping of the same words into lines that fit uses fewer lines. */
  lemma GreedyIsOptimal(words: seq<string>, groups: seq<seq<string>>, width: int)
    requires IsWrapping(words, groups, width)
    ensures |Greedy(words, width)| <= |groups|
  {
    if words != [] {
      GreedyStaysAhead(words, groups, width);
    }
  }

  // ---- reading the lines back ----

  lemma {:induction false} WordEndOf(w: string, rest: string)
    requires IsWord(w) && (rest != "" ==> IsSpace(rest[0]))
    ensures WordEnd(w + rest) == |w|
  {
    var s := w + rest;
    var n := WordEnd(s);
    assert forall i :: 0 <= i < |w| ==> s[i] == w[i];
    assert rest != "" ==> s[|w|] == rest[0];
  }

  lemma FieldsCons(w: string, rest: string)
    requires IsWord(w) && (rest != "" ==> IsSpace(rest[0]))
    ensures Fields(w + rest) == [w] + Fields(rest)
  {
    var s := w + rest;
    assert s[0] == w[0];
    WordEndOf(w, rest);
    assert s[..|w|] == w && s[|w|..] == rest;
  }

  lemma FieldsSkipSpace(c: char, s: string)
    requires IsSpace(c)
    ensures Fields([c] + s) == Fields(s)
  {
    assert ([c] + s)[1..] == s;
  }

  lemma SpacedFew(w: string)
    ensures Spaced([]) == "" && Spaced([w]) == w && Fields("") == [] && IsSpace(' ')
  {
  }

  /** The words of a printed line are its words. */
  lemma {:induction false} FieldsOfSpaced(ws: seq<string>)
    requires AreWords(ws)
    ensures Fields(Spaced(ws)) == ws
    decreases |ws|
  {
    hide Fields, Spaced, IsSpace, IsWord;
    if ws == [] {
      SpacedFew("");
    } else if |ws| == 1 {
      SpacedFew(ws[0]);
      assert ws == [ws[0]] && ws[0] + "" == ws[0];
      FieldsCons(ws[0], "");
    } else {
      SpacedFew("");
      SpacedCons(ws[0], ws[1..]);
      assert [ws[0]] + ws[1..] == ws;
      var rest := " " + Spaced(ws[1..]);
      assert ws[0] + " " + Spaced(ws[1..]) == ws[0] + rest;
      FieldsCons(ws[0], rest);
      FieldsSkipSpace(' ', Spaced(ws[1..]));
      FieldsOfSpaced(ws[1..]);
    }
  }

  function FieldsOfLines(lines: seq<string>): seq<string> {
    if lines == [] then [] else Fields(lines[0]) + FieldsOfLines(lines[1..])
  }

  lemma {:induction false} LinesReadBack(groups: seq<seq<string>>)
    requires forall i :: 0 <= i < |groups| ==> AreWords(groups[i])
    ensures FieldsOfLines(Lines(groups)) == Flatten(groups)
  {
    if groups != [] {
      FieldsOfSpaced(groups[0]);
      LinesReadBack(groups[1..]);
      assert Lines(groups)[1..] == Lines(groups[1..]);
    }
  }

  lemma {:induction false} GroupsOfWords(groups: seq<seq<string>>, i: nat)
    requires i < |groups| && AreWords(Flatten(groups))
    ensures AreWords(groups[i])
  {
    var all := Flatten(groups);
    assert all[..|groups[0]|] == groups[0] && all[|groups[0]|..] == Flatten(groups[1..]);
    assert forall k :: 0 <= k < |groups[0]| ==> groups[0][k] == all[k];
    if i > 0 {
      assert forall k :: 0 <= k < |Flatten(groups[1..])| ==> Flatten(groups[1..])[k] == all[|groups[0]| + k];
      GroupsOfWords(groups[1..], i - 1);
    }
  }

  /**
   * The lines of a wrapped text are the words of the text in order, each line within the width or a
   * single word, and as few as possible.
   */
  lemma WrapIsCorrect(s: string, width: int)
    ensures FieldsOfLines(Lines(Greedy(Fields(s), width))) == Fields(s)
    ensures forall line :: line in Lines(Greedy(Fields(s), width)) ==> |line| <= width || IsWord(line)
    ensures forall groups :: IsWrapping(Fields(s), groups, width) ==> |Lines(Greedy(Fields(s), width))| <= |groups|
  {
    var groups := Greedy(Fields(s), width);
    GreedyIsWrapping(Fields(s), width);
    forall i | 0 <= i < |groups| ensures AreWords(groups[i]) {
      GroupsOfWords(groups, i);
    }
    LinesReadBack(groups);
    forall line | line in Lines(groups) ensures |line| <= width || IsWord(line) {
      var i :| 0 <= i < |groups| && Lines(groups)[i] == line;
      assert Fits(groups[i], width);
    }
    forall other | IsWrapping(Fields(s), other, width) ensures |groups| <= |other| {
      GreedyIsOptimal(Fields(s), other, width);
    }
  }
}
