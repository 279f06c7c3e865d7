/**
 * Glossary files and English-to-English substitution (load_glossary and
 * apply_en_glossary; the screenshot and the audio translator carry identical
 * copies of both, modelled once here).
 */
module Glossary {
  import opened Wrappers
  import opened Text

  /** One glossary line: replace `source` by `target`. */
  datatype Entry = Entry(source: string, target: string)

  /** The separators, in the priority order in which they are tried (not the
      order in which they occur in the line). */
  const Separators: seq<string> := ["->", "→", "\t", ":", "="]

  const Bom: char := '\U{FEFF}'

  /** What every entry of a loaded glossary satisfies. */
  predicate GoodEntry(e: Entry) {
    && e.source != [] && e.target != []
    && IsStripped(e.source) && IsStripped(e.target)
    && Bom !in e.source && Bom !in e.target
  }

  /** Substitution needs only non-empty sources. */
  predicate WellFormed(g: seq<Entry>) {
    forall i :: 0 <= i < |g| ==> g[i].source != []
  }

  // ---------------------------------------------------------------------------
  // Parsing

  /** The index of the first separator of `seps`, from `k` on, that occurs in
      `line`. */
  function SeparatorFrom(line: string, seps: seq<string>, k: nat): (r: Option<nat>)
    requires k <= |seps|
    ensures r.Some? ==> k <= r.value < |seps| && Contains(line, seps[r.value])
    ensures r.Some? ==> forall j :: k <= j < r.value ==> !Contains(line, seps[j])
    ensures r.None? ==> forall j :: k <= j < |seps| ==> !Contains(line, seps[j])
    decreases |seps| - k
  {
    if k == |seps| then None
    else if Contains(line, seps[k]) then Some(k)
    else SeparatorFrom(line, seps, k + 1)
  }

  /** Separators known to be absent can be skipped. */
  lemma {:induction false} SeparatorFromSkip(line: string, seps: seq<string>, k: nat)
    requires k <= |seps|
    requires forall j :: 0 <= j < k ==> !Contains(line, seps[j])
    ensures SeparatorFrom(line, seps, 0) == SeparatorFrom(line, seps, k)
    decreases k
  {
    if k > 0 {
      SeparatorFromSkip(line, seps, k - 1);
    }
  }

  /** The two stripped halves around an occurrence of length `n` at `i`;
      nothing when a half is empty. */
  function Halves(line: string, i: nat, n: nat): (r: Option<Entry>)
    requires i + n <= |line|
    ensures r.Some? ==> && r.value.source != [] && r.value.target != []
                        && IsStripped(r.value.source) && IsStripped(r.value.target)
  {
    var src := Strip(line[..i]);
    var dst := Strip(line[i + n..]);
    if src != [] && dst != [] then Some(Entry(src, dst)) else None
  }

  /** `line.split(sep, 1)` with both halves stripped. */
  function SplitAt(line: string, sep: string): Option<Entry>
    requires Contains(line, sep)
  {
    Halves(line, Find(line, sep, 0, false).value, |sep|)
  }

  /** The source is text of the line before the occurrence. */
  lemma SourceInfix(line: string, i: nat, n: nat) returns (o: nat)
    requires i + n <= |line| && Halves(line, i, n).Some?
    ensures var src := Halves(line, i, n).value.source;
      o + |src| <= i && src == line[o..o + |src|]
  {
    o := StripOfPrefix(line, i);
  }

  /** The target is text of the line after the occurrence. */
  lemma TargetInfix(line: string, i: nat, n: nat) returns (p: nat)
    requires i + n <= |line| && Halves(line, i, n).Some?
    ensures var dst := Halves(line, i, n).value.target;
      i + n <= p && p + |dst| <= |line| && dst == line[p..p + |dst|]
  {
    p := StripOfSuffix(line, i + n);
  }

  /** A cleaned line split at the first separator, by priority, that it holds. */
  function SplitEntry(line: string, seps: seq<string>): Option<Entry> {
    match SeparatorFrom(line, seps, 0)
    case None => None
    case Some(k) => SplitAt(line, seps[k])
  }

  /** The text of a line once BOM characters are removed and it is stripped. */
  function CleanLine(raw: string): string {
    Strip(RemoveChar(raw, Bom))
  }

  /** The halves hold no character that the line does not hold. */
  lemma HalvesKeepOut(line: string, i: nat, n: nat, c: char)
    requires i + n <= |line| && Halves(line, i, n).Some?
    ensures c !in line ==> c !in Halves(line, i, n).value.source && c !in Halves(line, i, n).value.target
    ensures SingleLine(line) ==> SingleLine(Halves(line, i, n).value.source) && SingleLine(Halves(line, i, n).value.target)
  {
    var o := SourceInfix(line, i, n);
    var p := TargetInfix(line, i, n);
  }

  /** One line of a glossary file: blank lines, comment lines, lines without
      a separator and lines with an empty side give nothing. */
  function ParseLine(raw: string): (r: Option<Entry>)
    ensures var line := CleanLine(raw); (line == [] || line[0] == '#') ==> r.None?
    ensures r.Some? ==> GoodEntry(r.value)
    ensures r.Some? && SingleLine(raw) ==> SingleLine(r.value.source) && SingleLine(r.value.target)
  {
    var line := CleanLine(raw);
    StripKeepsOut(RemoveChar(raw, Bom), Bom);
    if line == [] || line[0] == '#' then None
    else
      var r := SplitEntry(line, Separators);
      if r.Some? then
        var k := SeparatorFrom(line, Separators, 0).value;
        HalvesKeepOut(line, Find(line, Separators[k], 0, false).value, |Separators[k]|, Bom);
        r
      else r
  }

  /** The source half does not hold the separator it was split at. */
  lemma SplitAtSourceAvoidsSep(line: string, sep: string)
    requires Contains(line, sep) && SplitAt(line, sep).Some?
    ensures !Contains(SplitAt(line, sep).value.source, sep)
  {
    var i := Find(line, sep, 0, false).value;
    var src := SplitAt(line, sep).value.source;
    var o := SourceInfix(line, i, |sep|);
    if Contains(src, sep) {
      var j := Find(src, sep, 0, false).value;
      FindSound(src, sep, 0, false);
      MatchInInfix(line, src, o, j, sep, false);
      FindLeast(line, sep, 0, false, o + j);
    }
  }

  /** Neither half holds a text that the line does not hold. */
  lemma SplitAtAvoids(line: string, sep: string, w: string)
    requires Contains(line, sep) && SplitAt(line, sep).Some?
    requires !Contains(line, w)
    ensures !Contains(SplitAt(line, sep).value.source, w)
    ensures !Contains(SplitAt(line, sep).value.target, w)
  {
    var e := SplitAt(line, sep).value;
    var i := Find(line, sep, 0, false).value;
    if Contains(e.source, w) {
      var o := SourceInfix(line, i, |sep|);
      ContainsInInfix(line, e.source, o, w);
    }
    if Contains(e.target, w) {
      var p := TargetInfix(line, i, |sep|);
      ContainsInInfix(line, e.target, p, w);
    }
  }

  /** The split follows the separator priority: the source holds no
      occurrence of the separator used, and neither side holds a separator of
      higher priority (so `a:b->c` gives `a:b` and `c`). */
  lemma SplitEntryPriority(line: string, seps: seq<string>)
    requires SplitEntry(line, seps).Some?
    ensures var k := SeparatorFrom(line, seps, 0).value; var e := SplitEntry(line, seps).value;
      && !Contains(e.source, seps[k])
      && forall j :: 0 <= j < k ==> !Contains(e.source, seps[j]) && !Contains(e.target, seps[j])
  {
    var k := SeparatorFrom(line, seps, 0).value;
    SplitAtSourceAvoidsSep(line, seps[k]);
    forall j | 0 <= j < k
      ensures !Contains(SplitAt(line, seps[k]).value.source, seps[j])
      ensures !Contains(SplitAt(line, seps[k]).value.target, seps[j])
    {
      SplitAtAvoids(line, seps[k], seps[j]);
    }
  }

  /** The entries of a list of lines, in order. */
  function ParseLines(lines: seq<string>): (r: seq<Entry>)
    ensures forall i :: 0 <= i < |r| ==> GoodEntry(r[i])
  {
    if lines == [] then []
    else
      ParseLine(lines[0]).ToSeq() + ParseLines(lines[1..])
  }

  /** The glossary held by a (decoded) glossary file. */
  function ParseGlossary(text: string): seq<Entry> {
    ParseLines(SplitLines(text))
  }

  /** The separator search of load_glossary for one cleaned line. */
  method SplitLine(line: string, seps: seq<string>) returns (r: Option<Entry>)
    ensures r == SplitEntry(line, seps)
  {
    var k := 0;
    while k < |seps|
      invariant 0 <= k <= |seps|
      invariant forall j :: 0 <= j < k ==> !Contains(line, seps[j])
    {
      var sep := seps[k];
      if Contains(line, sep) {
        var at := Find(line, sep, 0, false).value;
        var src, dst := Strip(line[..at]), Strip(line[at + |sep|..]);
        SeparatorFromSkip(line, seps, k);
        if src != [] && dst != [] {
          return Some(Entry(src, dst));
        }
        return None;
      }
      k := k + 1;
    }
    SeparatorFromSkip(line, seps, k);
    return None;
  }

  /** What ParseLine does with a line once it is cleaned. */
  lemma ParseLineSteps(raw: string)
    ensures var line := CleanLine(raw);
      ParseLine(raw) == if line == [] || line[0] == '#' then None else SplitEntry(line, Separators)
  {
  }

  /** Lines are parsed independently of each other: the entries of a
      concatenation are the entries of its parts, in order. */
  lemma {:induction false} ParseLinesAppend(a: seq<string>, b: seq<string>)
    ensures ParseLines(a + b) == ParseLines(a) + ParseLines(b)
  {
    if a == [] {
      assert a + b == b;
    } else {
      var c := a + b;
      assert c[0] == a[0] && c[1..] == a[1..] + b;
      ParseLinesAppend(a[1..], b);
      Regroup(ParseLines(c), ParseLine(a[0]).ToSeq(), ParseLines(a[1..] + b), ParseLines(a[1..]), ParseLines(b));
    }
  }

  lemma Regroup<T>(whole: seq<T>, h: seq<T>, tail: seq<T>, x: seq<T>, y: seq<T>)
    requires whole == h + tail && tail == x + y
    ensures whole == h + x + y
  {
  }

  /** load_glossary, from the point where the file has been decoded. */
  method LoadGlossary(text: string) returns (entries: seq<Entry>)
    ensures entries == ParseGlossary(text)
  {
    var lines := SplitLines(text);
    entries := [];
    for i := 0 to |lines|
      invariant entries == ParseLines(lines[..i])
    {
      ParseLineSteps(lines[i]);
      var line := Strip(RemoveChar(lines[i], Bom));
      var e: Option<Entry> := None;
      if line != [] && line[0] != '#' {
        e := SplitLine(line, Separators);
      }
      TakeSnoc(lines, i);
      ParseLinesAppend(lines[..i], [lines[i]]);
      assert ParseLines([lines[i]]) == e.ToSeq();
      entries := entries + e.ToSeq();
    }
    assert lines[..|lines|] == lines;
  }

  /** Every loaded glossary is fit for substitution and name lookup, and no
      entry spans more than one line. */
  lemma {:induction false} ParseLinesEntries(lines: seq<string>)
    requires forall k :: 0 <= k < |lines| ==> SingleLine(lines[k])
    ensures WellFormed(ParseLines(lines))
    ensures forall i :: 0 <= i < |ParseLines(lines)| ==> SingleLine(ParseLines(lines)[i].source) && SingleLine(ParseLines(lines)[i].target)
  {
    if lines != [] {
      ParseLinesEntries(lines[1..]);
    }
  }

  lemma ParseGlossaryEntries(text: string)
    ensures WellFormed(ParseGlossary(text))
    ensures forall i :: 0 <= i < |ParseGlossary(text)| ==> SingleLine(ParseGlossary(text)[i].source) && SingleLine(ParseGlossary(text)[i].target)
  {
    ParseLinesEntries(SplitLines(text));
  }

  // ---------------------------------------------------------------------------
  // Writing a glossary back: the inverse of parsing for entries a file can hold.

  /** An entry that a `source -> target` line reproduces. */
  predicate Writable(e: Entry) {
    && GoodEntry(e)
    && e.source[0] != '#'
    && !Contains(e.source, "->")
    && SingleLine(e.source) && SingleLine(e.target)
  }

  function FormatEntry(e: Entry): string {
    e.source + " -> " + e.target
  }

  function FormatLines(g: seq<Entry>): (r: seq<string>)
    ensures |r| == |g|
    ensures forall i :: 0 <= i < |g| ==> r[i] == FormatEntry(g[i])
  {
    if g == [] then [] else [FormatEntry(g[0])] + FormatLines(g[1..])
  }

  /** A glossary file with one `source -> target` line per entry. */
  function FormatGlossary(g: seq<Entry>): string {
    Join("\n", FormatLines(g))
  }

  lemma RemoveCharAbsent(s: string, c: char)
    requires c !in s
    ensures RemoveChar(s, c) == s
  {
    if s != [] {
      assert s[1..] + [] == s[1..];
      RemoveCharAbsent(s[1..], c);
    }
  }

  /** A `source -> target` line splits back into its two sides. */
  lemma FormattedSeparator(src: string, dst: string)
    requires src != [] && !Contains(src, "->")
    ensures Find(src + " -> " + dst, "->", 0, false) == Some(|src| + 1)
  {
    var raw := src + " -> " + dst;
    assert raw[|src|] == ' ' && raw[|src| + 1] == '-' && raw[|src| + 2] == '>';
    assert !MatchesAt(raw, |src| - 1, "->", false) by {
      assert !SameChar(raw[|src| - 1 + 1], "->"[1], false);
    }
    assert !MatchesAt(raw, |src|, "->", false) by {
      assert !SameChar(raw[|src| + 0], "->"[0], false);
    }
    assert MatchesAt(raw, |src| + 1, "->", false);
    FindLeast(raw, "->", 0, false, |src| + 1);
    FindSound(raw, "->", 0, false);
    var i := Find(raw, "->", 0, false).value;
    if i + 2 <= |src| {
      MatchFromInfix(raw, src, 0, i, "->", false);
      FindLeast(src, "->", 0, false, i);
    }
  }

  /** The text around the separator of a formatted line. */
  lemma FormattedParts(src: string, dst: string)
    ensures var raw := src + " -> " + dst;
      raw[..|src| + 1] == [] + src + " " && raw[|src| + 3..] == " " + dst + []
  {
  }

  lemma SplitFormatted(src: string, dst: string)
    requires src != [] && dst != [] && IsStripped(src) && IsStripped(dst)
    requires !Contains(src, "->")
    requires Contains(src + " -> " + dst, "->")
    ensures SplitAt(src + " -> " + dst, "->") == Some(Entry(src, dst))
  {
    FormattedSeparator(src, dst);
    FormattedParts(src, dst);
    StripPadded([], src, " ");
    StripPadded(" ", dst, []);
  }

  /** Parsing a formatted line gives back the entry. */
  lemma ParseFormattedLine(e: Entry)
    requires Writable(e)
    ensures ParseLine(FormatEntry(e)) == Some(e)
  {
    var src, dst := e.source, e.target;
    var raw := FormatEntry(e);
    assert raw == src + " -> " + dst;
    assert Bom !in raw by {
      forall j | 0 <= j < |raw| ensures raw[j] != Bom {
        if j < |src| { assert raw[j] == src[j]; }
        else if j >= |src| + 4 { assert raw[j] == dst[j - |src| - 4]; }
      }
    }
    RemoveCharAbsent(raw, Bom);
    assert CleanLine(raw) == raw by { StripStripped(raw); }
    assert MatchesAt(raw, |src| + 1, "->", false);
    FindLeast(raw, "->", 0, false, |src| + 1);
    assert Separators[0] == "->";
    assert SeparatorFrom(raw, Separators, 0) == Some(0);
    SplitFormatted(src, dst);
  }

  lemma {:induction false} ParseFormattedLines(g: seq<Entry>)
    requires forall i :: 0 <= i < |g| ==> Writable(g[i])
    ensures ParseLines(FormatLines(g)) == g
  {
    if g != [] {
      ParseFormattedLine(g[0]);
      assert FormatLines(g)[1..] == FormatLines(g[1..]);
      ParseFormattedLines(g[1..]);
    }
  }

  /** Round trip: a glossary written one `source -> target` line per entry
      loads back as the same entries, in the same order. */
  lemma ParseFormatGlossary(g: seq<Entry>)
    requires forall i :: 0 <= i < |g| ==> Writable(g[i])
    ensures ParseGlossary(FormatGlossary(g)) == g
  {
    var lines := FormatLines(g);
    forall k | 0 <= k < |lines| ensures lines[k] != [] && SingleLine(lines[k]) {
      var e := g[k];
      assert lines[k] == e.source + " -> " + e.target;
      forall j | 0 <= j < |lines[k]| ensures !IsLineBreak(lines[k][j]) {
        if j < |e.source| { assert lines[k][j] == e.source[j]; }
        else if j >= |e.source| + 4 { assert lines[k][j] == e.target[j - |e.source| - 4]; }
      }
    }
    SplitLinesJoin(lines);
    ParseFormattedLines(g);
  }

  // ---------------------------------------------------------------------------
  // Substitution

  /** A source holding whitespace is a phrase, replaced as a literal. */
  predicate IsPhrase(src: string) {
    exists i :: 0 <= i < |src| && IsSpace(src[i])
  }

  predicate WordAt(s: string, i: int) {
    0 <= i < |s| && IsWordChar(s[i])
  }

  /** `\b`: a word character on exactly one side of position `i`. */
  predicate Boundary(s: string, i: int) {
    WordAt(s, i - 1) != WordAt(s, i)
  }

  /** `f` can end a whole-word match whose source ends at `e`: the text from
      `e` to `f` is empty or one of the suffixes `s`, `'s`, `’s` (ignoring
      case), and a word boundary follows it. */
  predicate SuffixEnd(s: string, e: nat, f: nat) {
    && Boundary(s, f)
    && (|| f == e
        || (f == e + 1 && MatchesAt(s, e, "s", true))
        || (f == e + 2 && (MatchesAt(s, e, "'s", true) || MatchesAt(s, e, "’s", true))))
  }

  /** Where a whole-word match of `src` starting at `i` ends, taking the
      first of the optional suffixes `s`, `'s`, `’s` that is followed by a
      word boundary, or no suffix. */
  function WordMatchEnd(s: string, i: nat, src: string): (r: Option<nat>)
    requires src != []
    ensures r.Some? ==> Boundary(s, i) && MatchesAt(s, i, src, true)
    ensures r.Some? ==> i + |src| <= r.value <= |s| && SuffixEnd(s, i + |src|, r.value)
  {
    if !(Boundary(s, i) && MatchesAt(s, i, src, true)) then None
    else
      var e := i + |src|;
      if MatchesAt(s, e, "s", true) && Boundary(s, e + 1) then Some(e + 1)
      else if MatchesAt(s, e, "'s", true) && Boundary(s, e + 2) then Some(e + 2)
      else if MatchesAt(s, e, "’s", true) && Boundary(s, e + 2) then Some(e + 2)
      else if Boundary(s, e) then Some(e)
      else None
  }

  /** Every whole-word occurrence is found: where a word boundary precedes
      the source and an allowed end after it (no suffix, `s`, `'s` or `’s`)
      is followed by a boundary, a match starts. With the converse in the
      contract of WordMatchEnd, a match starts exactly there. */
  lemma WordMatchComplete(s: string, i: nat, src: string, f: nat)
    requires src != [] && Boundary(s, i) && MatchesAt(s, i, src, true)
    requires SuffixEnd(s, i + |src|, f)
    ensures WordMatchEnd(s, i, src).Some?
  {
  }

  /** The word substitution from index `i` on: each match becomes `dst`
      followed by the suffix as written in `s`. */
  function ReplaceWordFrom(s: string, i: nat, src: string, dst: string): string
    requires src != [] && i <= |s|
    decreases |s| - i
  {
    if i == |s| then []
    else match WordMatchEnd(s, i, src)
      case Some(e) => dst + s[i + |src|..e] + ReplaceWordFrom(s, e, src, dst)
      case None => [s[i]] + ReplaceWordFrom(s, i + 1, src, dst)
  }

  /** One glossary entry applied to a text. */
  function ApplyEntry(text: string, e: Entry): string
    requires e.source != []
  {
    if IsPhrase(e.source) then Replace(text, e.source, e.target, true)
    else ReplaceWordFrom(text, 0, e.source, e.target)
  }

  /** The entries applied one after the other, in glossary order. */
  function ApplyAll(text: string, g: seq<Entry>): string
    requires WellFormed(g)
    decreases |g|
  {
    if g == [] then text else ApplyAll(ApplyEntry(text, g[0]), g[1..])
  }

  /** apply_en_glossary */
  method ApplyEnGlossary(text: string, g: seq<Entry>) returns (out: string)
    requires WellFormed(g)
    ensures out == ApplyAll(text, g)
  {
    out := text;
    for i := 0 to |g|
      invariant ApplyAll(out, g[i..]) == ApplyAll(text, g)
    {
      assert g[i..][1..] == g[i + 1..];
      out := ApplyEntry(out, g[i]);
    }
    assert g[|g|..] == [];
  }

  /** Applying two glossaries in turn is applying their concatenation. */
  lemma {:induction false} ApplyAllAppend(text: string, g1: seq<Entry>, g2: seq<Entry>)
    requires WellFormed(g1) && WellFormed(g2)
    ensures WellFormed(g1 + g2)
    ensures ApplyAll(text, g1 + g2) == ApplyAll(ApplyAll(text, g1), g2)
    decreases |g1|
  {
    if g1 != [] {
      assert (g1 + g2)[1..] == g1[1..] + g2;
      ApplyAllAppend(ApplyEntry(text, g1[0]), g1[1..], g2);
    } else {
      assert g1 + g2 == g2;
    }
  }

  /** Stretches without a match are copied unchanged. */
  lemma {:induction false} ReplaceWordSkip(s: string, i: nat, j: nat, src: string, dst: string)
    requires src != [] && i <= j <= |s|
    requires forall k :: i <= k < j ==> WordMatchEnd(s, k, src).None?
    ensures ReplaceWordFrom(s, i, src, dst) == s[i..j] + ReplaceWordFrom(s, j, src, dst)
    decreases j - i
  {
    if i < j {
      ReplaceWordSkip(s, i + 1, j, src, dst);
      ReplaceWordCopy(s, i, src, dst);
      SliceCons(s, i, j, ReplaceWordFrom(s, j, src, dst));
    }
  }

  /** Where no match starts, the character is copied. */
  lemma ReplaceWordCopy(s: string, i: nat, src: string, dst: string)
    requires src != [] && i < |s| && WordMatchEnd(s, i, src).None?
    ensures ReplaceWordFrom(s, i, src, dst) == [s[i]] + ReplaceWordFrom(s, i + 1, src, dst)
  {
  }

  /** The leftmost whole-word match is replaced by the target followed by the
      suffix as written, and the scan resumes after the suffix. */
  lemma ReplaceWordLeftmost(s: string, i: nat, src: string, dst: string)
    requires src != [] && i < |s|
    requires WordMatchEnd(s, i, src).Some?
    requires forall k :: 0 <= k < i ==> WordMatchEnd(s, k, src).None?
    ensures var e := WordMatchEnd(s, i, src).value;
      ReplaceWordFrom(s, 0, src, dst) == s[..i] + dst + s[i + |src|..e] + ReplaceWordFrom(s, e, src, dst)
  {
    ReplaceWordSkip(s, 0, i, src, dst);
  }

  /** A text in which the source never occurs (ignoring case) is left as it is. */
  lemma ApplyEntryAbsent(text: string, e: Entry)
    requires e.source != []
    requires forall k :: 0 <= k < |text| ==> !MatchesAt(text, k, e.source, true)
    ensures ApplyEntry(text, e) == text
  {
    if IsPhrase(e.source) {
      ReplaceNoMatch(text, e.source, e.target, true);
    } else {
      ReplaceWordSkip(text, 0, |text|, e.source, e.target);
    }
  }

  /** A plural suffix is kept: `cats` becomes `dogs`. */
  lemma PluralExample()
    ensures ReplaceWordFrom("cats", 0, "cat", "dog") == "dogs"
  {
    var s := "cats";
    assert MatchesAt(s, 0, "cat", true);
    assert !WordAt(s, -1) && WordAt(s, 3) && !WordAt(s, 4);
    assert MatchesAt(s, 3, "s", true);
    assert WordMatchEnd(s, 0, "cat") == Some(4);
    assert s[3..4] == "s";
    assert ReplaceWordFrom(s, 4, "cat", "dog") == [];
  }

  /** A possessive suffix is kept and case is ignored: `Cat's` becomes `dog's`. */
  lemma PossessiveExample()
    ensures ReplaceWordFrom("Cat's", 0, "cat", "dog") == "dog's"
  {
    var s := "Cat's";
    assert MatchesAt(s, 0, "cat", true);
    assert !WordAt(s, -1) && WordAt(s, 0);
    assert !MatchesAt(s, 3, "s", true) by { assert !SameChar(s[3 + 0], "s"[0], true); }
    assert MatchesAt(s, 3, "'s", true);
    assert WordAt(s, 4) && !WordAt(s, 5);
    assert WordMatchEnd(s, 0, "cat") == Some(5);
    assert s[3..5] == "'s";
    assert ReplaceWordFrom(s, 5, "cat", "dog") == [];
  }

  /** A longer word is left alone: `catsup` stays `catsup`. */
  lemma LongerWordExample()
    ensures ReplaceWordFrom("catsup", 0, "cat", "dog") == "catsup"
  {
    var s := "catsup";
    assert WordAt(s, 3) && WordAt(s, 4);
    assert !MatchesAt(s, 3, "'s", true) by { assert !SameChar(s[3 + 0], "'s"[0], true); }
    assert !MatchesAt(s, 3, "’s", true) by { assert !SameChar(s[3 + 0], "’s"[0], true); }
    assert WordMatchEnd(s, 0, "cat").None?;
    forall k | 1 <= k < 6 ensures WordMatchEnd(s, k, "cat").None? {
      assert WordAt(s, k - 1) && WordAt(s, k);
    }
    ReplaceWordSkip(s, 0, 6, "cat", "dog");
    assert s[0..6] == s;
  }

  /** The second occurrence in the phrase example. */
  lemma PhraseExampleTail()
    ensures Replace(", a b", "a b", "X", true) == ", X"
  {
    var t, p := ", a b", "a b";
    assert !MatchesAt(t, 0, p, true) by { assert !SameChar(t[0 + 0], p[0], true); }
    assert !MatchesAt(t, 1, p, true) by { assert !SameChar(t[1 + 0], p[0], true); }
    assert MatchesAt(t, 2, p, true);
    ReplaceLeftmost(t, 2, p, "X", true);
    assert t[5..] == [] && t[..2] == ", ";
  }

  /** Phrase entries replace every occurrence, ignoring case. */
  lemma PhraseExample()
    ensures ApplyEntry("A B, a b", Entry("a b", "X")) == "X, X"
  {
    var s, p := "A B, a b", "a b";
    assert IsSpace(p[1]);
    assert MatchesAt(s, 0, p, true);
    ReplaceLeftmost(s, 0, p, "X", true);
    assert s[3..] == ", a b" && s[..0] == [];
    PhraseExampleTail();
    assert Replace(s, p, "X", true) == "X, X";
    assert ApplyEntry(s, Entry(p, "X")) == Replace(s, p, "X", true);
  }
}
