/**
 * Inline style markers for the overlay. When speaker colouring is on, the
 * first non-blank line of a body, if it is wrapped in corner brackets
 * `「…」`, is rewritten as `⟦name⟧…⟦/name⟧`. Spans enclosed by the guess
 * delimiter (a backtick by default) on one line become `⟦i⟧…⟦/i⟧`, or lose
 * their delimiters when italics are off.
 */
module Markers {
  import opened Wrappers
  import opened Text
  import opened Speaker

  const NameOpen: string := "⟦name⟧"
  const NameClose: string := "⟦/name⟧"
  const ItalicOpen: string := "⟦i⟧"
  const ItalicClose: string := "⟦/i⟧"

  // ---------------------------------------------------------------------------
  // _mark_translation_name_line / _mark_transcript_name_line

  /** The leading whitespace of a line. */
  function Indent(line: string): (r: string)
    ensures |r| <= |line| && r == line[..|r|]
    ensures AllSpace(r)
  {
    SpaceRunSpaces(line, 0);
    line[..SpaceRun(line, 0)]
  }

  /** A stripped line of at least two characters that opens with 「 and
      closes with 」. */
  predicate CornerWrapped(first: string) {
    |first| >= 2 && first[0] == '「' && first[|first| - 1] == '」'
  }

  /** The line written in place of a `「…」` header: its indentation, then
      the stripped text between the brackets inside the name sentinels. */
  function NameMarked(line: string): string
    requires CornerWrapped(Strip(line))
  {
    var first := Strip(line);
    Indent(line) + NameOpen + Strip(first[1..|first| - 1]) + NameClose
  }

  /** The marker once the block is split into lines. */
  function MarkLines(block: string, lines: seq<string>): string {
    match FirstFilled(lines, 0)
    case None => block
    case Some(idx) =>
      if CornerWrapped(Strip(lines[idx])) then Join("\n", lines[idx := NameMarked(lines[idx])])
      else block
  }

  /** Both name-line markers as a value: with colouring off, or without a
      `「…」` first non-blank line, the block is returned as it is. */
  function MarkedName(block: string, colorOn: bool): string {
    if colorOn then MarkLines(block, SplitLines(block)) else block
  }

  /** The name-line marker: the block is split with splitlines(), the first
      non-blank line is searched for and replaced in place, and the lines
      are joined with line feeds. */
  method MarkNameLine(block: string, colorOn: bool) returns (out: string)
    ensures out == MarkedName(block, colorOn)
  {
    if !colorOn {
      return block;
    }
    var lines := SplitLines(block);
    var idx := 0;
    while idx < |lines| && Blank(lines[idx])
      invariant idx <= |lines|
      invariant FirstFilled(lines, idx) == FirstFilled(lines, 0)
    {
      idx := idx + 1;
    }
    if idx == |lines| {
      return block;
    }
    var first := Strip(lines[idx]);
    if |first| >= 2 && first[0] == '「' && first[|first| - 1] == '」' {
      var inner := Strip(first[1..|first| - 1]);
      var left := lines[idx][..SpaceRun(lines[idx], 0)];
      lines := lines[idx := left + NameOpen + inner + NameClose];
      return Join("\n", lines);
    }
    return block;
  }

  // ---------------------------------------------------------------------------
  // Properties of the name-line marker

  /** The first non-blank line is found where the blank ones end. */
  lemma {:induction false} FilledAt(lines: seq<string>, i: nat, idx: nat)
    requires i <= idx < |lines| && !Blank(lines[idx])
    requires forall k {:trigger Blank(lines[k])} :: i <= k < idx ==> Blank(lines[k])
    ensures FirstFilled(lines, i) == Some(idx)
    decreases idx - i
  {
    if i < idx {
      assert Blank(lines[i]);
      FilledAt(lines, i + 1, idx);
    }
  }

  /** splitlines() takes no character that the text does not hold. */
  lemma {:induction false} SplitLinesKeepOut(s: string, c: char)
    requires c !in s
    ensures forall k :: 0 <= k < |SplitLines(s)| ==> c !in SplitLines(s)[k]
    decreases |s|
  {
    if s != [] {
      var i := BreakIndex(s);
      if i < |s| {
        var n := if s[i] == '\r' && i + 1 < |s| && s[i + 1] == '\n' then 2 else 1;
        assert s == s[..i + n] + s[i + n..];
        SplitLinesKeepOut(s[i + n..], c);
        assert c !in s[..i];
      }
    }
  }

  /** The sentinels hold no line break and no whitespace. */
  lemma SentinelChars()
    ensures SingleLine(NameOpen) && SingleLine(NameClose)
    ensures NameOpen[0] == '⟦' && !IsSpace('⟦')
  {
    forall c | c in "⟦/name⟧" ensures !IsLineBreak(c) {
      assert '/' <= c;
    }
  }

  /** The marked line is one line, is not blank, and its first non-space
      character is the opening sentinel, so it is no longer `「…」`. */
  lemma MarkedLine(line: string)
    requires SingleLine(line) && CornerWrapped(Strip(line))
    ensures SingleLine(NameMarked(line)) && NameMarked(line) != []
    ensures !Blank(NameMarked(line)) && !CornerWrapped(Strip(NameMarked(line)))
  {
    var first := Strip(line);
    var lead := Indent(line);
    var inner := Strip(first[1..|first| - 1]);
    StripKeepsOut(line, ' ');
    SingleLineSlice(first, 1, |first| - 1);
    StripKeepsOut(first[1..|first| - 1], ' ');
    SingleLineSlice(line, 0, |lead|);
    SentinelChars();
    SingleLineConcat(lead, NameOpen);
    SingleLineConcat(lead + NameOpen, inner);
    SingleLineConcat(lead + NameOpen + inner, NameClose);
    var rest := NameOpen[1..] + inner + NameClose;
    assert NameMarked(line) == lead + [NameOpen[0]] + rest;
    StripKeepsPrefix(lead, [NameOpen[0]], rest);
  }

  /** After marking, splitlines() gives back the block's lines with only the
      header line replaced; a final empty line is no longer reported. */
  lemma MarkedLines(block: string, idx: nat)
    requires FirstFilled(SplitLines(block), 0) == Some(idx)
    requires CornerWrapped(Strip(SplitLines(block)[idx]))
    ensures var lines := SplitLines(block); var out := SplitLines(MarkedName(block, true));
      |lines| - 1 <= |out| <= |lines| && idx < |out| &&
      out == lines[idx := NameMarked(lines[idx])][..|out|]
  {
    var lines := SplitLines(block);
    var l := lines[idx := NameMarked(lines[idx])];
    MarkedLine(lines[idx]);
    assert forall k :: 0 <= k < |l| ==> SingleLine(l[k]);
    SplitLinesJoinAll(l);
    assert l == l[..|l|];
  }

  /** Marking twice marks once: the marked header is no longer `「…」`. */
  lemma MarkIdempotent(block: string, colorOn: bool)
    ensures MarkedName(MarkedName(block, colorOn), colorOn) == MarkedName(block, colorOn)
  {
    var lines := SplitLines(block);
    if colorOn && FirstFilled(lines, 0).Some? {
      var idx := FirstFilled(lines, 0).value;
      if CornerWrapped(Strip(lines[idx])) {
        MarkedLines(block, idx);
        var out := SplitLines(MarkedName(block, true));
        MarkedLine(lines[idx]);
        assert out[idx] == NameMarked(lines[idx]);
        forall k | 0 <= k < idx ensures Blank(out[k]) {
          assert out[k] == lines[k];
        }
        FilledAt(out, 0, idx);
      }
    }
  }

  /** A block without an opening corner bracket is never changed. */
  lemma MarkWithoutCorner(block: string, colorOn: bool)
    requires '「' !in block
    ensures MarkedName(block, colorOn) == block
  {
    var lines := SplitLines(block);
    if colorOn && FirstFilled(lines, 0).Some? {
      var idx := FirstFilled(lines, 0).value;
      SplitLinesKeepOut(block, '「');
      StripKeepsOut(lines[idx], '「');
      assert !CornerWrapped(Strip(lines[idx]));
    }
  }

  /** Text whose only line breaks are line feeds and that does not end in
      one: splitlines() and joining with line feeds undo each other. */
  predicate FeedLines(t: string) {
    t != [] && t[|t| - 1] != '\n' &&
    forall k :: 0 <= k < |t| && IsLineBreak(t[k]) ==> t[k] == '\n'
  }

  /** The header written by the transcript normalizer, `「name」`, becomes
      `⟦name⟧name⟦/name⟧`; the lines after it are kept. */
  lemma MarkBracketed(name: string, tail: string)
    requires IsStripped(name) && SingleLine(name)
    requires tail == [] || (tail[0] == '\n' && FeedLines(tail[1..]))
    ensures MarkedName(Bracketed(name) + tail, true) == NameOpen + name + NameClose + tail
  {
    var h := Bracketed(name);
    BracketedLine(name);
    var rest := HeadLine(h, tail);
    MarkFirstLine(h + tail, h, rest);
    MarkedBracketed(name);
    JoinHead(NameOpen + name + NameClose, rest, tail);
  }

  /** A line put back in front of the lines of a tail. */
  lemma JoinHead(m: string, rest: seq<string>, tail: string)
    requires tail == [] ==> rest == []
    requires tail != [] ==> rest != [] && tail == "\n" + Join("\n", rest)
    ensures Join("\n", [m] + rest) == m + tail
  {
    if rest != [] {
      assert Join("\n", [m] + rest) == m + "\n" + Join("\n", rest);
    } else {
      assert [m] + rest == [m];
    }
  }

  /** splitlines() of a first line and a tail of line-feed separated lines. */
  lemma HeadLine(h: string, tail: string) returns (rest: seq<string>)
    requires h != [] && SingleLine(h)
    requires tail == [] || (tail[0] == '\n' && FeedLines(tail[1..]))
    ensures SplitLines(h + tail) == [h] + rest
    ensures tail == [] ==> rest == []
    ensures tail != [] ==> rest != [] && tail == "\n" + Join("\n", rest)
  {
    if tail == [] {
      SplitLinesJoin([h]);
      assert h + tail == Join("\n", [h]);
      rest := [];
    } else {
      var t := tail[1..];
      assert h + tail == h + "\n" + t;
      SplitLinesCons(h, t);
      SplitLinesIsSplitOn(t);
      JoinSplitOn(t, '\n');
      rest := SplitOn(t, '\n');
    }
  }

  /** A block whose first line is a `「…」` header: that line is marked. */
  lemma MarkFirstLine(block: string, h: string, rest: seq<string>)
    requires SplitLines(block) == [h] + rest
    requires !Blank(h) && CornerWrapped(Strip(h))
    ensures MarkedName(block, true) == Join("\n", [NameMarked(h)] + rest)
  {
    var lines := SplitLines(block);
    FilledAt(lines, 0, 0);
    assert lines[0 := NameMarked(h)] == [NameMarked(h)] + rest;
  }

  /** The marked form of `「name」`. */
  lemma MarkedBracketed(name: string)
    requires IsStripped(name) && SingleLine(name)
    ensures CornerWrapped(Strip(Bracketed(name)))
    ensures NameMarked(Bracketed(name)) == NameOpen + name + NameClose
  {
    var h := Bracketed(name);
    BracketedLine(name);
    assert Indent(h) == [];
    assert h[1..|h| - 1] == name;
    StripStripped(name);
  }

  /** `「name」` is one stripped, non-blank line wrapped in corner brackets. */
  lemma BracketedLine(name: string)
    requires IsStripped(name) && SingleLine(name)
    ensures var h := Bracketed(name);
      SingleLine(h) && h != [] && Strip(h) == h && !Blank(h) && CornerWrapped(h) &&
      SpaceRun(h, 0) == 0
  {
    var h := Bracketed(name);
    assert !IsLineBreak('「') && !IsLineBreak('」');
    assert !IsSpace('「') && !IsSpace('」');
    SingleLineConcat("「", name);
    SingleLineConcat("「" + name, "」");
    StripStripped(h);
  }

  // ---------------------------------------------------------------------------
  // _mark_guessed_pronouns (one-character delimiter)

  /** The characters a guessed span cannot hold. */
  predicate Stops(c: char, d: char) {
    c == d || c == '\r' || c == '\n'
  }

  /** The number of consecutive characters from `i` that a span may hold. */
  function PlainRun(s: string, i: nat, d: char): (n: nat)
    ensures i + n <= |s| || (i >= |s| && n == 0)
    ensures i + n < |s| ==> Stops(s[i + n], d)
    decreases |s| - i
  {
    if i < |s| && !Stops(s[i], d) then 1 + PlainRun(s, i + 1, d) else 0
  }

  /** The length of the guessed span that a delimiter at the head of `s`
      opens, or 0 when the pattern does not match there. */
  function SpanAtHead(s: string, d: char): (n: nat)
    ensures n > 0 ==> n + 1 < |s| && s[0] == d && s[n + 1] == d
  {
    if s == [] || s[0] != d then 0
    else
      var n := PlainRun(s, 1, d);
      if n + 1 < |s| && s[n + 1] == d then n else 0
  }

  /** What replaces a matched span. */
  function Italic(span: string, italicsOn: bool): string {
    if italicsOn then ItalicOpen + span + ItalicClose else span
  }

  /** pattern.sub with the pattern delimiter, one or more characters other
      than the delimiter, CR and LF, then the delimiter: matches are taken
      from left to right and do not overlap. */
  function GuessMarks(s: string, d: char, italicsOn: bool): (r: string)
    decreases |s|
  {
    if s == [] then []
    else
      var n := SpanAtHead(s, d);
      if n > 0 then Italic(s[1..n + 1], italicsOn) + GuessMarks(s[n + 2..], d, italicsOn)
      else [s[0]] + GuessMarks(s[1..], d, italicsOn)
  }

  /** Text without the delimiter passes through unchanged in front of the rest. */
  lemma {:induction false} GuessPlain(a: string, b: string, d: char, italicsOn: bool)
    requires d !in a
    ensures GuessMarks(a + b, d, italicsOn) == a + GuessMarks(b, d, italicsOn)
    decreases |a|
  {
    if a != [] {
      var s := a + b;
      assert s[0] == a[0];
      assert SpanAtHead(s, d) == 0;
      assert s[1..] == a[1..] + b;
      assert GuessMarks(s, d, italicsOn) == [s[0]] + GuessMarks(s[1..], d, italicsOn);
      assert d !in a[1..] by {
        assert forall j :: 0 <= j < |a[1..]| ==> a[1..][j] == a[1 + j];
      }
      GuessPlain(a[1..], b, d, italicsOn);
      assert a == [a[0]] + a[1..];
    } else {
      assert a + b == b;
    }
  }

  /** Without the delimiter, nothing is marked. */
  lemma GuessAbsent(s: string, d: char, italicsOn: bool)
    requires d !in s
    ensures GuessMarks(s, d, italicsOn) == s
  {
    GuessPlain(s, [], d, italicsOn);
    assert s + [] == s;
  }

  /** The run of span characters ends at the first character that stops it. */
  lemma {:induction false} PlainRunAt(s: string, i: nat, j: nat, d: char)
    requires i <= j < |s| && Stops(s[j], d)
    requires forall k :: i <= k < j ==> !Stops(s[k], d)
    ensures PlainRun(s, i, d) == j - i
    decreases j - i
  {
    if i < j {
      PlainRunAt(s, i + 1, j, d);
    }
  }

  /** A delimited span of allowed characters is marked, and the scan goes
      on after its closing delimiter. */
  lemma GuessPair(p: string, b: string, d: char, italicsOn: bool)
    requires p != [] && forall k :: 0 <= k < |p| ==> !Stops(p[k], d)
    ensures GuessMarks([d] + p + [d] + b, d, italicsOn) == Italic(p, italicsOn) + GuessMarks(b, d, italicsOn)
  {
    var s := [d] + p + [d] + b;
    assert forall k :: 1 <= k <= |p| ==> s[k] == p[k - 1];
    assert s[|p| + 1] == d;
    PlainRunAt(s, 1, |p| + 1, d);
    assert SpanAtHead(s, d) == |p|;
    assert s[1..|p| + 1] == p;
    assert s[|p| + 2..] == b;
  }

  /** The run of span characters is the same once a stopping character follows. */
  lemma {:induction false} PlainRunCut(x: string, y: string, i: nat, d: char)
    requires i <= |x| && y != [] && Stops(y[0], d)
    ensures PlainRun(x + y, i, d) == PlainRun(x, i, d)
    decreases |x| - i
  {
    if i < |x| {
      assert (x + y)[i] == x[i];
      PlainRunCut(x, y, i + 1, d);
    } else {
      assert (x + y)[i] == y[0];
    }
  }

  /** A line break that is not the delimiter ends every span before it. */
  lemma SpanAtHeadCut(a: string, y: string, d: char)
    requires a != [] && y != [] && (y[0] == '\r' || y[0] == '\n') && y[0] != d
    ensures SpanAtHead(a + y, d) == SpanAtHead(a, d)
    ensures SpanAtHead(a, d) > 0 ==> SpanAtHead(a, d) + 2 <= |a|
  {
    var s := a + y;
    assert s[0] == a[0];
    PlainRunCut(a, y, 1, d);
    var n := PlainRun(a, 1, d);
    if n + 1 < |a| {
      assert s[n + 1] == a[n + 1];
    } else if n + 1 == |a| {
      assert s[n + 1] == y[0];
    }
  }

  /** Spans never cross a line feed: the lines are marked independently. */
  lemma GuessLines(a: string, b: string, d: char, italicsOn: bool)
    requires d != '\n'
    ensures GuessMarks(a + "\n" + b, d, italicsOn) == GuessMarks(a, d, italicsOn) + "\n" + GuessMarks(b, d, italicsOn)
  {
    var y := "\n" + b;
    assert y[0] == '\n' && y[1..] == b;
    GuessCut(a, y, d, italicsOn);
    GuessCharHead(y, d, italicsOn);
    Assoc(a, "\n", b);
  }

  /** Marking text and then a tail that opens with a line feed is marking
      their concatenation. */
  lemma {:induction false} GuessCut(a: string, y: string, d: char, italicsOn: bool)
    requires d != '\n' && y != [] && y[0] == '\n'
    ensures GuessMarks(a + y, d, italicsOn) == GuessMarks(a, d, italicsOn) + GuessMarks(y, d, italicsOn)
    decreases |a|
  {
    if a == [] {
      assert a + y == y;
    } else {
      SpanAtHeadCut(a, y, d);
      var n := SpanAtHead(a, d);
      if n > 0 {
        GuessCut(a[n + 2..], y, d, italicsOn);
        GuessCutSpan(a, y, d, italicsOn, n);
      } else {
        GuessCut(a[1..], y, d, italicsOn);
        GuessCutChar(a, y, d, italicsOn);
      }
    }
  }

  /** The step of GuessCut where a span opens the text. */
  lemma GuessCutSpan(a: string, y: string, d: char, italicsOn: bool, n: nat)
    requires n > 0 && n == SpanAtHead(a, d) && n + 2 <= |a|
    requires SpanAtHead(a + y, d) == n
    requires GuessMarks(a[n + 2..] + y, d, italicsOn) ==
      GuessMarks(a[n + 2..], d, italicsOn) + GuessMarks(y, d, italicsOn)
    ensures GuessMarks(a + y, d, italicsOn) == GuessMarks(a, d, italicsOn) + GuessMarks(y, d, italicsOn)
  {
    SliceConcat(a, y, 1, n + 1);
    DropConcat(a, y, n + 2);
    GuessSpanHead(a + y, d, italicsOn, n);
    GuessSpanHead(a, d, italicsOn, n);
    Assoc(Italic(a[1..n + 1], italicsOn), GuessMarks(a[n + 2..], d, italicsOn), GuessMarks(y, d, italicsOn));
  }

  /** The step of GuessCut where the text starts with a plain character. */
  lemma GuessCutChar(a: string, y: string, d: char, italicsOn: bool)
    requires a != [] && SpanAtHead(a, d) == 0 && SpanAtHead(a + y, d) == 0
    requires GuessMarks(a[1..] + y, d, italicsOn) ==
      GuessMarks(a[1..], d, italicsOn) + GuessMarks(y, d, italicsOn)
    ensures GuessMarks(a + y, d, italicsOn) == GuessMarks(a, d, italicsOn) + GuessMarks(y, d, italicsOn)
  {
    DropConcat(a, y, 1);
    GuessCharHead(a + y, d, italicsOn);
    GuessCharHead(a, d, italicsOn);
    Assoc([a[0]], GuessMarks(a[1..], d, italicsOn), GuessMarks(y, d, italicsOn));
  }

  /** GuessMarks once a span opens the text. */
  lemma GuessSpanHead(s: string, d: char, italicsOn: bool, n: nat)
    requires n > 0 && n == SpanAtHead(s, d)
    ensures GuessMarks(s, d, italicsOn) == Italic(s[1..n + 1], italicsOn) + GuessMarks(s[n + 2..], d, italicsOn)
  {
  }

  /** GuessMarks when no span opens the text. */
  lemma GuessCharHead(s: string, d: char, italicsOn: bool)
    requires s != [] && SpanAtHead(s, d) == 0
    ensures GuessMarks(s, d, italicsOn) == [s[0]] + GuessMarks(s[1..], d, italicsOn)
  {
  }

  /** A backticked word is put in italics; the rest is kept. */
  lemma GuessExample(s: string)
    requires s == "`he` said"
    ensures GuessMarks(s, '`', true) == "⟦i⟧he⟦/i⟧ said"
  {
    var p, b := "he", " said";
    ExampleParts(s, p, b);
    GuessPair(p, b, '`', true);
    GuessAbsent(b, '`', true);
  }

  lemma ExampleParts(s: string, p: string, b: string)
    requires s == "`he` said" && p == "he" && b == " said"
    ensures s == ['`'] + p + ['`'] + b
    ensures p != [] && (forall k :: 0 <= k < |p| ==> !Stops(p[k], '`')) && '`' !in b
    ensures Italic(p, true) + b == "⟦i⟧he⟦/i⟧ said"
  {
  }

  /** A lone delimiter, or two with nothing between them, is kept. */
  lemma GuessUnpaired(p: string, d: char, italicsOn: bool)
    requires d !in p
    ensures GuessMarks([d] + p, d, italicsOn) == [d] + p
    ensures GuessMarks([d, d] + p, d, italicsOn) == [d, d] + p
  {
    var s := [d] + p;
    assert s[1..] == p;
    if s[1..] != [] {
      assert forall k :: 1 <= k < |s| ==> s[k] == p[k - 1];
      assert s[1] != d;
    }
    GuessAbsent(p, d, italicsOn);
    var t := [d, d] + p;
    assert t[1..] == s;
    assert PlainRun(t, 1, d) == 0;
  }
}
