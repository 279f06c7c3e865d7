/** Option, used for the "no match" and "file missing" cases. */
module Wrappers {
  datatype Option<+T> = None | Some(value: T) {
    function GetOr(default: T): T {
      match this
      case Some(v) => v
      case None => default
    }

    /** The value as a list of at most one element. */
    function ToSeq(): seq<T> {
      match this
      case Some(v) => [v]
      case None => []
    }
  }
}

/**
 * The string primitives the translator's Python code relies on: str.isspace
 * (which is also the `\s` regex class), strip/lstrip/rstrip, split("\n"),
 * splitlines, "sep".join, str.replace, and literal searching, exact or
 * case-insensitive (re.IGNORECASE).
 */
module Text {
  import opened Wrappers

  /** The characters above U+0020 for which Python's str.isspace() holds. */
  const WideSpaceChars: set<char> := {
    '\U{0085}', '\U{00A0}', '\U{1680}',
    '\U{2000}', '\U{2001}', '\U{2002}', '\U{2003}', '\U{2004}', '\U{2005}',
    '\U{2006}', '\U{2007}', '\U{2008}', '\U{2009}', '\U{200A}',
    '\U{2028}', '\U{2029}', '\U{202F}', '\U{205F}', '\U{3000}'
  }

  /** Python's str.isspace(); `\s` in a str pattern matches exactly these
      characters: U+0009 to U+000D, U+001C to U+0020, and the wide ones. */
  predicate IsSpace(c: char) {
    if c <= ' ' then '\t' <= c <= '\r' || '\U{001C}' <= c
    else if c < '\U{0085}' then false
    else c in WideSpaceChars
  }

  /** The characters at which Python's str.splitlines() ends a line. */
  const LineBreakChars: set<char> := {
    '\U{000A}', '\U{000B}', '\U{000C}', '\U{000D}',
    '\U{001C}', '\U{001D}', '\U{001E}',
    '\U{0085}', '\U{2028}', '\U{2029}'
  }

  predicate IsLineBreak(c: char) {
    c in LineBreakChars
  }

  /** Case folding used for re.IGNORECASE and str.lower(): ASCII letters only. */
  function Fold(c: char): (r: char)
    ensures 'A' <= c <= 'Z' ==> 'a' <= r <= 'z'
    ensures !('A' <= c <= 'Z') ==> r == c
  {
    if 'A' <= c <= 'Z' then (c as int + 32) as char else c
  }

  function Upper(c: char): (r: char)
    ensures 'a' <= c <= 'z' ==> 'A' <= r <= 'Z'
    ensures !('a' <= c <= 'z') ==> r == c
  {
    if 'a' <= c <= 'z' then (c as int - 32) as char else c
  }

  /** The `\w` class: letters, digits and underscore (ASCII instantiation). */
  predicate IsWordChar(c: char) {
    'a' <= c <= 'z' || 'A' <= c <= 'Z' || '0' <= c <= '9' || c == '_'
  }

  predicate SameChar(a: char, b: char, ignoreCase: bool) {
    if ignoreCase then Fold(a) == Fold(b) else a == b
  }

  /** `w` occurs in `s` at index `i` (case-insensitively when asked). */
  predicate MatchesAt(s: string, i: nat, w: string, ignoreCase: bool) {
    i + |w| <= |s| && forall k :: 0 <= k < |w| ==> SameChar(s[i + k], w[k], ignoreCase)
  }

  predicate AllSpace(s: string) {
    forall i :: 0 <= i < |s| ==> IsSpace(s[i])
  }

  predicate IsStripped(s: string) {
    s == [] || (!IsSpace(s[0]) && !IsSpace(s[|s| - 1]))
  }

  /** The number of consecutive whitespace characters in `s` from index `i`. */
  function SpaceRun(s: string, i: nat): (n: nat)
    ensures i + n <= |s| || (i >= |s| && n == 0)
    ensures i + n < |s| ==> !IsSpace(s[i + n])
    decreases |s| - i
  {
    if i < |s| && IsSpace(s[i]) then 1 + SpaceRun(s, i + 1) else 0
  }

  /** Every character of the run is whitespace. */
  lemma {:induction false} SpaceRunSpaces(s: string, i: nat)
    ensures forall k :: i <= k < i + SpaceRun(s, i) ==> IsSpace(s[k])
    decreases |s| - i
  {
    if i < |s| && IsSpace(s[i]) {
      SpaceRunSpaces(s, i + 1);
    }
  }

  /** The number of whitespace characters that end `s[..j]`. */
  function TrailRun(s: string, j: nat): (n: nat)
    requires j <= |s|
    ensures n <= j
    ensures n < j ==> !IsSpace(s[j - n - 1])
  {
    if j > 0 && IsSpace(s[j - 1]) then 1 + TrailRun(s, j - 1) else 0
  }

  /** Every character of the trailing run is whitespace. */
  lemma {:induction false} TrailRunSpaces(s: string, j: nat)
    requires j <= |s|
    ensures forall k :: j - TrailRun(s, j) <= k < j ==> IsSpace(s[k])
  {
    if j > 0 && IsSpace(s[j - 1]) {
      TrailRunSpaces(s, j - 1);
    }
  }

  /** str.lstrip() */
  function LStrip(s: string): (r: string)
    ensures r == [] || !IsSpace(r[0])
  {
    s[SpaceRun(s, 0)..]
  }

  /** str.rstrip() */
  function RStrip(s: string): (r: string)
    ensures r == [] || !IsSpace(r[|r| - 1])
  {
    s[..|s| - TrailRun(s, |s|)]
  }

  /** str.strip(): whitespace is removed from both ends. */
  function Strip(s: string): (r: string)
    ensures IsStripped(r)
    ensures |r| <= |s|
    decreases |s|
  {
    if s == [] then []
    else if IsSpace(s[0]) then Strip(s[1..])
    else if IsSpace(s[|s| - 1]) then Strip(s[..|s| - 1])
    else s
  }

  /** The stripped text is an infix of the text. */
  lemma {:induction false} StripInfix(s: string) returns (o: nat)
    ensures o + |Strip(s)| <= |s| && Strip(s) == s[o..o + |Strip(s)|]
    decreases |s|
  {
    if s == [] {
      o := 0;
    } else if IsSpace(s[0]) {
      var t := s[1..];
      var o' := StripInfix(t);
      o := o' + 1;
      assert s[o..o + |Strip(s)|] == t[o'..o' + |Strip(t)|];
    } else if IsSpace(s[|s| - 1]) {
      var t := s[..|s| - 1];
      o := StripInfix(t);
      assert s[o..o + |Strip(s)|] == t[o..o + |Strip(t)|];
    } else {
      o := 0;
    }
  }

  /** No line break inside. */
  predicate SingleLine(s: string) {
    forall j :: 0 <= j < |s| ==> !IsLineBreak(s[j])
  }

  /** Stripping adds no character: one absent from the text stays absent,
      and a text without line breaks stays without. */
  lemma StripKeepsOut(s: string, c: char)
    ensures c !in s ==> c !in Strip(s)
    ensures SingleLine(s) ==> SingleLine(Strip(s))
  {
    var o := StripInfix(s);
  }

  lemma StripStripped(s: string)
    requires IsStripped(s)
    ensures Strip(s) == s
  {
  }

  lemma {:induction false} StripAllSpace(s: string)
    requires AllSpace(s)
    ensures Strip(s) == []
    decreases |s|
  {
    if s != [] {
      StripAllSpace(s[1..]);
    }
  }

  /** Whitespace padding on either side is removed. */
  lemma {:induction false} StripPadded(lead: string, t: string, trail: string)
    requires AllSpace(lead) && IsStripped(t) && AllSpace(trail)
    ensures Strip(lead + t + trail) == t
    decreases |lead| + |trail|
  {
    var s := lead + t + trail;
    if lead != [] {
      ConcatTail(lead, t, trail);
      StripPadded(lead[1..], t, trail);
    } else if trail != [] {
      ConcatInit(lead, t, trail);
      var last := trail[..|trail| - 1];
      if t == [] {
        assert s == trail;
        StripAllSpace(s);
      } else {
        assert s[0] == t[0];
        StripPadded(lead, t, last);
      }
    } else {
      assert s == t;
    }
  }

  /** Stripping a string whose non-space part starts with `p` keeps `p` at its head. */
  lemma {:induction false} StripKeepsPrefix(lead: string, p: string, rest: string)
    requires AllSpace(lead)
    requires p != [] && !IsSpace(p[0]) && !IsSpace(p[|p| - 1])
    ensures |Strip(lead + p + rest)| >= |p|
    ensures Strip(lead + p + rest)[..|p|] == p
    decreases |lead| + |rest|
  {
    var s := lead + p + rest;
    if lead != [] {
      ConcatTail(lead, p, rest);
      StripKeepsPrefix(lead[1..], p, rest);
    } else {
      assert s[0] == p[0];
      if rest != [] && IsSpace(rest[|rest| - 1]) {
        ConcatInit(lead, p, rest);
        var last := rest[..|rest| - 1];
        StripKeepsPrefix(lead, p, last);
      } else if rest != [] {
        assert s[|s| - 1] == rest[|rest| - 1];
        assert s[..|p|] == p;
      } else {
        assert s == p;
      }
    }
  }

  /** The first index `p >= from` at which `w` occurs (FindSound and
      FindLeast state what it finds). */
  function Find(s: string, w: string, from: nat, ignoreCase: bool): (r: Option<nat>)
    ensures r.Some? ==> from <= r.value && r.value + |w| <= |s|
    decreases |s| - from
  {
    if from + |w| > |s| then None
    else if MatchesAt(s, from, w, ignoreCase) then Some(from)
    else Find(s, w, from + 1, ignoreCase)
  }

  /** What Find reports is an occurrence. */
  lemma {:induction false} FindSound(s: string, w: string, from: nat, ignoreCase: bool)
    ensures Find(s, w, from, ignoreCase).Some? ==> MatchesAt(s, Find(s, w, from, ignoreCase).value, w, ignoreCase)
    decreases |s| - from
  {
    if from + |w| <= |s| && !MatchesAt(s, from, w, ignoreCase) {
      FindSound(s, w, from + 1, ignoreCase);
    }
  }

  /** Every occurrence from `from` on is found, at it or before it. */
  lemma {:induction false} FindLeast(s: string, w: string, from: nat, ignoreCase: bool, k: nat)
    requires from <= k && MatchesAt(s, k, w, ignoreCase)
    ensures Find(s, w, from, ignoreCase).Some? && Find(s, w, from, ignoreCase).value <= k
    decreases k - from
  {
    if !MatchesAt(s, from, w, ignoreCase) {
      FindLeast(s, w, from + 1, ignoreCase, k);
    }
  }

  /** Find reports `k` when `w` occurs at `k` and nowhere between `from` and `k`. */
  lemma {:induction false} FindIs(s: string, w: string, from: nat, ignoreCase: bool, k: nat)
    requires from <= k && MatchesAt(s, k, w, ignoreCase)
    requires forall j :: from <= j < k ==> !MatchesAt(s, j, w, ignoreCase)
    ensures Find(s, w, from, ignoreCase) == Some(k)
    decreases k - from
  {
    if from < k {
      FindIs(s, w, from + 1, ignoreCase, k);
    }
  }

  /** Find reports nothing when `w` occurs nowhere from `from` on. */
  lemma {:induction false} FindNone(s: string, w: string, from: nat, ignoreCase: bool)
    requires forall j :: from <= j <= |s| ==> !MatchesAt(s, j, w, ignoreCase)
    ensures Find(s, w, from, ignoreCase) == None
    decreases |s| - from
  {
    if from + |w| <= |s| {
      FindNone(s, w, from + 1, ignoreCase);
    }
  }

  /** Python's `w in s`. */
  predicate Contains(s: string, w: string) {
    Find(s, w, 0, false).Some?
  }

  /** An occurrence inside an infix `t` of `s` starting at `k` is an
      occurrence in `s` that ends inside the infix. */
  lemma MatchInInfix(s: string, t: string, k: nat, j: nat, w: string, ignoreCase: bool)
    requires k + |t| <= |s| && t == s[k..k + |t|]
    requires MatchesAt(t, j, w, ignoreCase)
    ensures MatchesAt(s, k + j, w, ignoreCase) && j + |w| <= |t|
  {
    forall m | 0 <= m < |w| ensures SameChar(s[k + j + m], w[m], ignoreCase) {
      assert t[j + m] == s[k + j + m];
    }
  }

  /** Conversely, an occurrence in `s` that lies inside the infix is one in `t`. */
  lemma MatchFromInfix(s: string, t: string, k: nat, j: nat, w: string, ignoreCase: bool)
    requires k + |t| <= |s| && t == s[k..k + |t|]
    requires j + |w| <= |t| && MatchesAt(s, k + j, w, ignoreCase)
    ensures MatchesAt(t, j, w, ignoreCase)
  {
    forall m | 0 <= m < |w| ensures SameChar(t[j + m], w[m], ignoreCase) {
      assert t[j + m] == s[k + j + m];
    }
  }

  lemma ContainsInInfix(s: string, t: string, k: nat, w: string)
    requires k + |t| <= |s| && t == s[k..k + |t|]
    requires Contains(t, w)
    ensures Contains(s, w)
  {
    var j := Find(t, w, 0, false).value;
    FindSound(t, w, 0, false);
    MatchInInfix(s, t, k, j, w, false);
    FindLeast(s, w, 0, false, k + j);
  }

  /** The stripped text of a prefix `s[..i]` lies inside that prefix. */
  lemma StripOfPrefix(s: string, i: nat) returns (o: nat)
    requires i <= |s|
    ensures var t := Strip(s[..i]); o + |t| <= i && t == s[o..o + |t|]
  {
    var left := s[..i];
    var t := Strip(left);
    o := StripInfix(left);
    forall m | 0 <= m < |t| ensures t[m] == s[o + m] {
      assert t[m] == left[o + m];
    }
  }

  /** The stripped text of a suffix `s[k..]` is an infix of `s`. */
  lemma StripOfSuffix(s: string, k: nat) returns (o: nat)
    requires k <= |s|
    ensures var t := Strip(s[k..]); k <= o && o + |t| <= |s| && t == s[o..o + |t|]
  {
    var right := s[k..];
    var t := Strip(right);
    var a := StripInfix(right);
    o := k + a;
    forall m | 0 <= m < |t| ensures t[m] == s[o + m] {
      assert t[m] == right[a + m];
    }
  }

  /** str.replace(pat, rep), or re.sub of an escaped literal when `ignoreCase`:
      every non-overlapping occurrence, scanning left to right. */
  function Replace(s: string, pat: string, rep: string, ignoreCase: bool): string
    requires pat != []
    decreases |s|
  {
    if s == [] then []
    else if MatchesAt(s, 0, pat, ignoreCase) then rep + Replace(s[|pat|..], pat, rep, ignoreCase)
    else [s[0]] + Replace(s[1..], pat, rep, ignoreCase)
  }

  /** Dropping the first character shifts every occurrence by one. */
  lemma MatchesShift(s: string, k: nat, w: string, ignoreCase: bool)
    requires s != []
    ensures MatchesAt(s[1..], k, w, ignoreCase) <==> MatchesAt(s, k + 1, w, ignoreCase)
  {
    if MatchesAt(s, k + 1, w, ignoreCase) {
      forall j | 0 <= j < |w| ensures SameChar(s[1..][k + j], w[j], ignoreCase) {
        assert s[1..][k + j] == s[k + 1 + j];
      }
    }
  }

  /** Where nothing matches, replacing is the identity. */
  lemma {:induction false} ReplaceNoMatch(s: string, pat: string, rep: string, ignoreCase: bool)
    requires pat != []
    requires forall k :: 0 <= k < |s| ==> !MatchesAt(s, k, pat, ignoreCase)
    ensures Replace(s, pat, rep, ignoreCase) == s
    decreases |s|
  {
    if s != [] {
      assert !MatchesAt(s, 0, pat, ignoreCase);
      forall k | 0 <= k < |s[1..]| ensures !MatchesAt(s[1..], k, pat, ignoreCase) {
        MatchesShift(s, k, pat, ignoreCase);
      }
      ReplaceNoMatch(s[1..], pat, rep, ignoreCase);
      assert s == [s[0]] + s[1..];
    }
  }

  /** The leftmost occurrence stays leftmost once the first character is dropped. */
  lemma LeftmostShift(s: string, i: nat, w: string, ignoreCase: bool)
    requires 0 < i && MatchesAt(s, i, w, ignoreCase)
    requires forall k :: 0 <= k < i ==> !MatchesAt(s, k, w, ignoreCase)
    ensures MatchesAt(s[1..], i - 1, w, ignoreCase)
    ensures forall k :: 0 <= k < i - 1 ==> !MatchesAt(s[1..], k, w, ignoreCase)
  {
    MatchesShift(s, i - 1, w, ignoreCase);
    forall k | 0 <= k < i - 1 ensures !MatchesAt(s[1..], k, w, ignoreCase) {
      MatchesShift(s, k, w, ignoreCase);
    }
  }

  /** The leftmost occurrence, at `i`, is replaced and scanning resumes after it. */
  lemma {:induction false} ReplaceLeftmost(s: string, i: nat, pat: string, rep: string, ignoreCase: bool)
    requires pat != []
    requires MatchesAt(s, i, pat, ignoreCase)
    requires forall k :: 0 <= k < i ==> !MatchesAt(s, k, pat, ignoreCase)
    ensures Replace(s, pat, rep, ignoreCase) == s[..i] + rep + Replace(s[i + |pat|..], pat, rep, ignoreCase)
    decreases i
  {
    if i > 0 {
      assert !MatchesAt(s, 0, pat, ignoreCase);
      LeftmostShift(s, i, pat, ignoreCase);
      ReplaceLeftmost(s[1..], i - 1, pat, rep, ignoreCase);
      DropDrop(s, 1, i - 1 + |pat|);
      TakeCons(s, i);
      var r := Replace(s[i + |pat|..], pat, rep, ignoreCase);
      assert Replace(s[1..], pat, rep, ignoreCase) == s[1..][..i - 1] + rep + r;
      assert Replace(s, pat, rep, ignoreCase) == [s[0]] + Replace(s[1..], pat, rep, ignoreCase);
      ConsAssoc(s[0], s[1..][..i - 1], rep, r);
    } else {
      assert s[..0] == [];
    }
  }

  /** The index of the first occurrence of `c`, or |s|. */
  function IndexOfChar(s: string, c: char): (i: nat)
    ensures i <= |s|
    ensures i < |s| ==> s[i] == c
    ensures forall k :: 0 <= k < i ==> s[k] != c
  {
    if s == [] then 0 else if s[0] == c then 0 else 1 + IndexOfChar(s[1..], c)
  }

  /** The first occurrence is where the character is and was not before. */
  lemma {:induction false} IndexOfCharAt(s: string, c: char, i: nat)
    requires i <= |s| && (i < |s| ==> s[i] == c)
    requires forall k :: 0 <= k < i ==> s[k] != c
    ensures IndexOfChar(s, c) == i
  {
    if s != [] && s[0] != c {
      assert forall k :: 0 <= k < i - 1 ==> s[1..][k] == s[k + 1];
      IndexOfCharAt(s[1..], c, i - 1);
    }
  }

  /** str.split(sep) for a one-character separator: never empty. */
  function SplitOn(s: string, sep: char): (parts: seq<string>)
    ensures |parts| >= 1
    ensures forall k :: 0 <= k < |parts| ==> sep !in parts[k]
    decreases |s|
  {
    var i := IndexOfChar(s, sep);
    if i == |s| then [s] else [s[..i]] + SplitOn(s[i + 1..], sep)
  }

  /** "sep".join(parts) */
  function Join(sep: string, parts: seq<string>): string {
    if parts == [] then []
    else if |parts| == 1 then parts[0]
    else parts[0] + sep + Join(sep, parts[1..])
  }

  /** Splitting on a character and joining with it gives back the text. */
  lemma {:induction false} JoinSplitOn(s: string, sep: char)
    ensures Join([sep], SplitOn(s, sep)) == s
    decreases |s|
  {
    var i := IndexOfChar(s, sep);
    if i < |s| {
      var rest := SplitOn(s[i + 1..], sep);
      assert SplitOn(s, sep) == [s[..i]] + rest;
      assert ([s[..i]] + rest)[1..] == rest;
      JoinSplitOn(s[i + 1..], sep);
      assert Join([sep], SplitOn(s, sep)) == s[..i] + [sep] + Join([sep], rest);
      assert s == s[..i] + [sep] + s[i + 1..];
    }
  }

  /** Joining pieces that do not contain the separator and splitting again
      gives back the pieces. */
  lemma {:induction false} SplitOnJoin(parts: seq<string>, sep: char)
    requires |parts| >= 1
    requires forall k :: 0 <= k < |parts| ==> sep !in parts[k]
    ensures SplitOn(Join([sep], parts), sep) == parts
  {
    if |parts| == 1 {
      assert IndexOfChar(parts[0], sep) == |parts[0]|;
    } else {
      var s := Join([sep], parts);
      assert s == parts[0] + [sep] + Join([sep], parts[1..]);
      assert IndexOfChar(s, sep) == |parts[0]| by {
        var i := IndexOfChar(s, sep);
        assert s[|parts[0]|] == sep;
      }
      assert s[..|parts[0]|] == parts[0];
      assert s[|parts[0]| + 1..] == Join([sep], parts[1..]);
      SplitOnJoin(parts[1..], sep);
    }
  }

  /** Every character of every piece comes from the text. */
  lemma {:induction false} SplitOnChars(s: string, sep: char)
    ensures forall k, c :: 0 <= k < |SplitOn(s, sep)| && c in SplitOn(s, sep)[k] ==> c in s
    decreases |s|
  {
    var i := IndexOfChar(s, sep);
    if i < |s| {
      SplitOnChars(s[i + 1..], sep);
      var parts := SplitOn(s, sep);
      assert parts == [s[..i]] + SplitOn(s[i + 1..], sep);
      forall k, c | 0 <= k < |parts| && c in parts[k]
        ensures c in s
      {
        if k == 0 {
          assert c in s[..i];
        } else {
          assert parts[k] == SplitOn(s[i + 1..], sep)[k - 1];
          assert c in s[i + 1..];
        }
      }
    }
  }

  /** The index of the first line break, or |s|. */
  function BreakIndex(s: string): (i: nat)
    ensures i <= |s|
    ensures i < |s| ==> IsLineBreak(s[i])
    ensures forall k :: 0 <= k < i ==> !IsLineBreak(s[k])
  {
    if s == [] then 0 else if IsLineBreak(s[0]) then 0 else 1 + BreakIndex(s[1..])
  }

  /** str.splitlines(): "\r\n" ends one line; a final empty line is not reported. */
  function SplitLines(s: string): (lines: seq<string>)
    ensures forall k :: 0 <= k < |lines| ==> SingleLine(lines[k])
    decreases |s|
  {
    if s == [] then []
    else
      var i := BreakIndex(s);
      if i == |s| then [s]
      else
        var k := if s[i] == '\r' && i + 1 < |s| && s[i + 1] == '\n' then 2 else 1;
        [s[..i]] + SplitLines(s[i + k..])
  }

  /** Joining non-empty lines that hold no line break with "\n" and calling
      splitlines() gives back the lines. */
  lemma {:induction false} SplitLinesJoin(lines: seq<string>)
    requires forall k :: 0 <= k < |lines| ==> lines[k] != [] && SingleLine(lines[k])
    ensures SplitLines(Join("\n", lines)) == lines
  {
    if |lines| == 1 {
      assert BreakIndex(lines[0]) == |lines[0]|;
    } else if |lines| > 1 {
      var s := Join("\n", lines);
      assert s == lines[0] + "\n" + Join("\n", lines[1..]);
      assert BreakIndex(s) == |lines[0]| by {
        assert IsLineBreak(s[|lines[0]|]);
      }
      assert s[..|lines[0]|] == lines[0];
      assert s[|lines[0]| + 1..] == Join("\n", lines[1..]);
      SplitLinesJoin(lines[1..]);
    }
  }

  /** Where '\n' is the only line break and the text does not end with one,
      splitlines() and split("\n") agree. */
  lemma {:induction false} SplitLinesIsSplitOn(s: string)
    requires s != [] && s[|s| - 1] != '\n'
    requires forall k :: 0 <= k < |s| && IsLineBreak(s[k]) ==> s[k] == '\n'
    ensures SplitLines(s) == SplitOn(s, '\n')
    decreases |s|
  {
    var i := BreakIndex(s);
    assert forall k :: 0 <= k < i ==> s[k] != '\n' by {
      assert IsLineBreak('\n');
    }
    IndexOfCharAt(s, '\n', i);
    if i < |s| {
      assert s[i] == '\n' && i + 1 < |s|;
      var t := s[i + 1..];
      assert forall k :: 0 <= k < |t| ==> t[k] == s[i + 1 + k];
      assert t[|t| - 1] == s[|s| - 1];
      SplitLinesIsSplitOn(t);
    }
  }

  /** Removes every occurrence of one character (str.replace(c, "")). */
  function RemoveChar(s: string, c: char): (r: string)
    ensures c !in r
    ensures SingleLine(s) ==> SingleLine(r)
    ensures |r| <= |s|
  {
    if s == [] then [] else (if s[0] == c then [] else [s[0]]) + RemoveChar(s[1..], c)
  }

  /** The least index `k` with `p <= k <= n` at which `f` holds: the leftmost
      match of a search that tries every start position in turn. */
  function FirstWhere(f: nat -> bool, p: nat, n: nat): (r: Option<nat>)
    ensures r.Some? ==> p <= r.value <= n && f(r.value)
    decreases n + 1 - p
  {
    if p > n then None else if f(p) then Some(p) else FirstWhere(f, p + 1, n)
  }

  /** A position where `f` holds, with no earlier one, is the one found. */
  lemma {:induction false} FirstWhereIs(f: nat -> bool, p: nat, n: nat, k: nat)
    requires p <= k <= n && f(k)
    requires forall j :: p <= j < k ==> !f(j)
    ensures FirstWhere(f, p, n) == Some(k)
    decreases k - p
  {
    if p < k {
      FirstWhereIs(f, p + 1, n, k);
    }
  }

  /** Nothing is found where `f` never holds. */
  lemma {:induction false} FirstWhereNone(f: nat -> bool, p: nat, n: nat)
    requires forall j :: p <= j <= n ==> !f(j)
    ensures FirstWhere(f, p, n) == None
    decreases n + 1 - p
  {
    if p <= n {
      FirstWhereNone(f, p + 1, n);
    }
  }

  /** What is found comes no later than any position where `f` holds. */
  lemma {:induction false} FirstWhereLeast(f: nat -> bool, p: nat, n: nat, k: nat)
    requires p <= k <= n && f(k)
    ensures FirstWhere(f, p, n).Some? && FirstWhere(f, p, n).value <= k
    decreases k - p
  {
    if !f(p) {
      FirstWhereLeast(f, p + 1, n, k);
    }
  }

  /** Dropping twice is dropping once. */
  lemma DropDrop<T>(s: seq<T>, a: nat, b: nat)
    requires a + b <= |s|
    ensures s[a..][b..] == s[a + b..]
  {
  }

  /** A non-empty prefix is its first element followed by a prefix of the tail. */
  lemma TakeCons<T>(s: seq<T>, i: nat)
    requires 0 < i <= |s|
    ensures s[..i] == [s[0]] + s[1..][..i - 1]
  {
  }

  /** The tail of a three-part concatenation whose first part is not empty. */
  lemma ConcatTail<T>(a: seq<T>, b: seq<T>, c: seq<T>)
    requires a != []
    ensures (a + b + c)[0] == a[0] && (a + b + c)[1..] == a[1..] + b + c
  {
  }

  /** A three-part concatenation without its last element, the last part not being empty. */
  lemma ConcatInit<T>(a: seq<T>, b: seq<T>, c: seq<T>)
    requires c != []
    ensures var s := a + b + c; s[|s| - 1] == c[|c| - 1] && s[..|s| - 1] == a + b + c[..|c| - 1]
  {
  }

  lemma ConsAssoc<T>(x: T, a: seq<T>, b: seq<T>, c: seq<T>)
    ensures [x] + (a + b + c) == [x] + a + b + c
  {
  }

  /** Dropping a prefix of the first part of a concatenation. */
  lemma DropConcat<T>(a: seq<T>, y: seq<T>, k: nat)
    requires k <= |a|
    ensures (a + y)[k..] == a[k..] + y
  {
  }

  /** A slice inside the first part of a concatenation. */
  lemma SliceConcat<T>(a: seq<T>, y: seq<T>, i: nat, j: nat)
    requires i <= j <= |a|
    ensures (a + y)[i..j] == a[i..j]
  {
  }

  lemma Assoc<T>(a: seq<T>, b: seq<T>, c: seq<T>)
    ensures a + (b + c) == a + b + c
  {
  }

  /** Extending a prefix by one element. */
  lemma TakeSnoc<T>(s: seq<T>, i: nat)
    requires i < |s|
    ensures s[..i + 1] == s[..i] + [s[i]]
  {
  }

  /** A word matches where the text holds it verbatim. */
  lemma MatchesSlice(s: string, i: nat, w: string, ignoreCase: bool)
    requires i + |w| <= |s| && s[i..i + |w|] == w
    ensures MatchesAt(s, i, w, ignoreCase)
  {
    forall k | 0 <= k < |w| ensures s[i + k] == w[k] {
      assert s[i + k] == s[i..i + |w|][k];
    }
  }

  /** Empty parts at either end drop out. */
  lemma EmptyEnds<T>(s: seq<T>, i: nat, a: seq<T>, b: seq<T>)
    requires i <= |s|
    ensures s[i..i] + (a + (b + [])) == a + b
  {
  }

  /** Putting a head before a three-part concatenation. */
  lemma PrependThree<T>(h: seq<T>, x: seq<T>, a: seq<T>, b: seq<T>, c: seq<T>)
    requires x == a + b + c
    ensures h + x == h + a + b + c
  {
  }

  /** A slice of a slice is a slice. */
  lemma SliceSlice<T>(s: seq<T>, a: nat, b: nat, c: nat, d: nat)
    requires a <= b <= |s| && c <= d <= b - a
    ensures s[a..b][c..d] == s[a + c..a + d]
  {
    forall i | 0 <= i < d - c ensures s[a..b][c..d][i] == s[a + c..a + d][i] {
      assert s[a..b][c..d][i] == s[a..b][c + i];
    }
  }

  /** A slice followed by more, taken apart at its first element. */
  lemma SliceCons<T>(s: seq<T>, i: nat, j: nat, x: seq<T>)
    requires i < j <= |s|
    ensures [s[i]] + (s[i + 1..j] + x) == s[i..j] + x
  {
    assert s[i..j] == [s[i]] + s[i + 1..j];
  }

  /** str.lower() restricted to ASCII letters. */
  function Lower(s: string): (r: string)
    ensures |r| == |s|
    ensures forall i :: 0 <= i < |s| ==> r[i] == Fold(s[i])
  {
    seq(|s|, i requires 0 <= i < |s| => Fold(s[i]))
  }

  // ---------------------------------------------------------------------------
  // Lines

  /** The stripped form is empty exactly for whitespace-only text. */
  lemma {:induction false} StripEmpty(s: string)
    ensures Strip(s) == [] <==> AllSpace(s)
    decreases |s|
  {
    if s != [] {
      if IsSpace(s[0]) {
        StripEmpty(s[1..]);
        assert forall k :: 1 <= k < |s| ==> s[k] == s[1..][k - 1];
      } else if IsSpace(s[|s| - 1]) {
        StripEmpty(s[..|s| - 1]);
        assert s[..|s| - 1][0] == s[0];
      }
    }
  }

  /** A text that does not end in whitespace is its own rstrip. */
  lemma RStripStripped(s: string)
    requires s == [] || !IsSpace(s[|s| - 1])
    ensures RStrip(s) == s
  {
  }

  /** Right-stripping adds no character. */
  lemma RStripKeepsOut(s: string, c: char)
    requires c !in s
    ensures c !in RStrip(s)
  {
    var r := RStrip(s);
    assert forall k :: 0 <= k < |r| ==> r[k] == s[k];
  }

  /** Joining two non-empty lists of pieces. */
  lemma {:induction false} JoinAppend(sep: string, a: seq<string>, b: seq<string>)
    requires a != [] && b != []
    ensures Join(sep, a + b) == Join(sep, a) + sep + Join(sep, b)
    decreases |a|
  {
    if |a| == 1 {
      assert (a + b)[1..] == b;
    } else {
      assert (a + b)[1..] == a[1..] + b;
      JoinAppend(sep, a[1..], b);
    }
  }

  /** Empty lines joined by line feeds are whitespace only. */
  lemma {:induction false} JoinEmpties(parts: seq<string>)
    requires forall k :: 0 <= k < |parts| ==> parts[k] == []
    ensures AllSpace(Join("\n", parts))
  {
    if |parts| > 1 {
      JoinEmpties(parts[1..]);
      assert Join("\n", parts) == "\n" + Join("\n", parts[1..]);
    }
  }

  /** No carriage return is directly followed by a line feed. */
  predicate NoCrLf(s: string) {
    forall k :: 0 <= k < |s| - 1 ==> !(s[k] == '\r' && s[k + 1] == '\n')
  }

  /** Normalising line endings leaves such a text alone. */
  lemma CrLfAbsent(s: string)
    requires NoCrLf(s)
    ensures Replace(s, "\r\n", "\n", false) == s
  {
    forall k | 0 <= k < |s| ensures !MatchesAt(s, k, "\r\n", false) {
      if k + 1 < |s| {
        assert !(SameChar(s[k + 0], "\r\n"[0], false) && SameChar(s[k + 1], "\r\n"[1], false));
      }
    }
    ReplaceNoMatch(s, "\r\n", "\n", false);
  }

  /** No line holds a line feed. */
  predicate NoBreakLines(lines: seq<string>) {
    forall k :: 0 <= k < |lines| ==> '\n' !in lines[k]
  }

  /** No line ends in whitespace. */
  predicate RTrimmedLines(lines: seq<string>) {
    forall k :: 0 <= k < |lines| ==> lines[k] == [] || !IsSpace(lines[k][|lines[k]| - 1])
  }

  /** Lines without line feeds that do not end in whitespace, joined by line
      feeds, hold no carriage return before a line feed. */
  lemma {:induction false} JoinNoCrLf(lines: seq<string>)
    requires NoBreakLines(lines) && RTrimmedLines(lines)
    ensures NoCrLf(Join("\n", lines))
  {
    if |lines| > 1 {
      JoinNoCrLf(lines[1..]);
      var h := lines[0];
      var t := Join("\n", lines[1..]);
      var s := Join("\n", lines);
      assert s == h + "\n" + t;
      forall k | 0 <= k < |s| - 1 ensures !(s[k] == '\r' && s[k + 1] == '\n') {
        if k + 1 < |h| {
          assert s[k + 1] == h[k + 1] && h[k + 1] in h;
        } else if k + 1 == |h| {
          assert s[k] == h[|h| - 1];
        } else if k > |h| {
          assert s[k] == t[k - |h| - 1] && s[k + 1] == t[k - |h|];
        }
      }
    }
  }

  /** splitlines() of a line, a line feed and more. */
  lemma SplitLinesCons(h: string, t: string)
    requires SingleLine(h)
    ensures SplitLines(h + "\n" + t) == [h] + SplitLines(t)
  {
    var s := h + "\n" + t;
    assert BreakIndex(s) == |h| by {
      assert IsLineBreak(s[|h|]);
      assert forall k :: 0 <= k < |h| ==> s[k] == h[k];
    }
    assert s[..|h|] == h;
    assert s[|h| + 1..] == t;
  }

  /** splitlines() of lines joined by line feeds gives the lines back, except
      that a final empty line is not reported. */
  lemma {:induction false} SplitLinesJoinAll(lines: seq<string>)
    requires lines != []
    requires forall k :: 0 <= k < |lines| ==> SingleLine(lines[k])
    ensures SplitLines(Join("\n", lines)) ==
      if lines[|lines| - 1] == [] then lines[..|lines| - 1] else lines
  {
    if |lines| == 1 {
      assert BreakIndex(lines[0]) == |lines[0]|;
    } else {
      var t := lines[1..];
      assert lines[|lines| - 1] == t[|t| - 1];
      assert lines == [lines[0]] + t;
      assert lines[..|lines| - 1] == [lines[0]] + t[..|t| - 1];
      assert Join("\n", lines) == lines[0] + "\n" + Join("\n", t);
      SplitLinesCons(lines[0], Join("\n", t));
      SplitLinesJoinAll(t);
    }
  }

  /** The first character of pieces joined together. */
  lemma JoinFirst(sep: string, parts: seq<string>)
    requires parts != [] && parts[0] != []
    ensures Join(sep, parts) != [] && Join(sep, parts)[0] == parts[0][0]
  {
    if |parts| > 1 {
      assert Join(sep, parts) == parts[0] + sep + Join(sep, parts[1..]);
    }
  }

  /** The last character of pieces joined together. */
  lemma {:induction false} JoinLast(sep: string, parts: seq<string>)
    requires parts != [] && parts[|parts| - 1] != []
    ensures var j := Join(sep, parts); j != [] && j[|j| - 1] == parts[|parts| - 1][|parts[|parts| - 1]| - 1]
  {
    if |parts| > 1 {
      JoinLast(sep, parts[1..]);
      assert Join(sep, parts) == parts[0] + sep + Join(sep, parts[1..]);
    }
  }

  /** A line that does not end in whitespace is blank only when empty. */
  lemma BlankIsEmpty(s: string)
    requires s == [] || !IsSpace(s[|s| - 1])
    ensures Strip(s) == [] <==> s == []
  {
    StripEmpty(s);
  }

  /** Empty lines before others join into a whitespace prefix. */
  lemma EmptiesBefore(before: seq<string>, mid: seq<string>) returns (lead: string)
    requires mid != [] && forall k :: 0 <= k < |before| ==> before[k] == []
    ensures AllSpace(lead) && Join("\n", before + mid) == lead + Join("\n", mid)
  {
    if before == [] {
      lead := [];
      assert before + mid == mid;
    } else {
      JoinEmpties(before);
      JoinAppend("\n", before, mid);
      lead := Join("\n", before) + "\n";
      assert forall k :: 0 <= k < |lead| - 1 ==> lead[k] == Join("\n", before)[k];
    }
  }

  /** Empty lines after others join into a whitespace suffix. */
  lemma EmptiesAfter(x: seq<string>, after: seq<string>) returns (trail: string)
    requires x != [] && forall k :: 0 <= k < |after| ==> after[k] == []
    ensures AllSpace(trail) && Join("\n", x + after) == Join("\n", x) + trail
  {
    if after == [] {
      trail := [];
      assert x + after == x;
    } else {
      JoinEmpties(after);
      JoinAppend("\n", x, after);
      trail := "\n" + Join("\n", after);
      assert forall k :: 1 <= k < |trail| ==> trail[k] == Join("\n", after)[k - 1];
    }
  }

  /** A non-blank stretch of lines with only empty lines around it: stripping
      the joined text drops the empty lines. */
  lemma StripJoinedLines(lines: seq<string>, first: nat, last: nat)
    requires first <= last < |lines|
    requires forall k :: 0 <= k < first ==> lines[k] == []
    requires forall k :: last < k < |lines| ==> lines[k] == []
    requires lines[first] != [] && !IsSpace(lines[first][0])
    requires lines[last] != [] && !IsSpace(lines[last][|lines[last]| - 1])
    ensures Strip(Join("\n", lines)) == Join("\n", lines[first..last + 1])
  {
    var before := lines[..first];
    var mid := lines[first..last + 1];
    var after := lines[last + 1..];
    assert lines == before + mid + after;
    assert mid[0] == lines[first] && mid[|mid| - 1] == lines[last];
    StripJoinedParts(before, mid, after);
  }

  /** The same, with the lines already cut into the three stretches. */
  lemma StripJoinedParts(before: seq<string>, mid: seq<string>, after: seq<string>)
    requires forall k :: 0 <= k < |before| ==> before[k] == []
    requires forall k :: 0 <= k < |after| ==> after[k] == []
    requires mid != [] && mid[0] != [] && !IsSpace(mid[0][0])
    requires mid[|mid| - 1] != [] && !IsSpace(mid[|mid| - 1][|mid[|mid| - 1]| - 1])
    ensures Strip(Join("\n", before + mid + after)) == Join("\n", mid)
  {
    var t := Join("\n", mid);
    JoinFirst("\n", mid);
    JoinLast("\n", mid);
    var lead := EmptiesBefore(before, mid);
    var trail := EmptiesAfter(before + mid, after);
    StripPadded(lead, t, trail);
  }

  lemma AllSpaceConcat(a: string, b: string)
    requires AllSpace(a) && AllSpace(b)
    ensures AllSpace(a + b)
  {
    assert forall k :: |a| <= k < |a + b| ==> (a + b)[k] == b[k - |a|];
  }

  /** Replacing inside whitespace by whitespace leaves whitespace. */
  lemma {:induction false} ReplaceKeepsSpace(s: string, pat: string, rep: string, ignoreCase: bool)
    requires pat != [] && AllSpace(s) && AllSpace(rep)
    ensures AllSpace(Replace(s, pat, rep, ignoreCase))
    decreases |s|
  {
    if s != [] {
      if MatchesAt(s, 0, pat, ignoreCase) {
        assert forall k :: 0 <= k < |s[|pat|..]| ==> s[|pat|..][k] == s[|pat| + k];
        ReplaceKeepsSpace(s[|pat|..], pat, rep, ignoreCase);
        AllSpaceConcat(rep, Replace(s[|pat|..], pat, rep, ignoreCase));
      } else {
        assert forall k :: 0 <= k < |s[1..]| ==> s[1..][k] == s[1 + k];
        ReplaceKeepsSpace(s[1..], pat, rep, ignoreCase);
        AllSpaceConcat([s[0]], Replace(s[1..], pat, rep, ignoreCase));
      }
    }
  }

  /** Every character of whitespace-only text is trailing whitespace. */
  lemma {:induction false} TrailRunAll(s: string, j: nat)
    requires j <= |s| && AllSpace(s)
    ensures TrailRun(s, j) == j
  {
    if j > 0 {
      TrailRunAll(s, j - 1);
    }
  }

  /** Right-stripping whitespace-only text leaves nothing. */
  lemma RStripAllSpace(s: string)
    requires AllSpace(s)
    ensures RStrip(s) == []
  {
    TrailRunAll(s, |s|);
  }

  /** Joining two lines without line breaks gives one. */
  lemma SingleLineConcat(a: string, b: string)
    requires SingleLine(a) && SingleLine(b)
    ensures SingleLine(a + b)
  {
    assert forall j :: |a| <= j < |a + b| ==> (a + b)[j] == b[j - |a|];
  }

  /** A piece of a line is a line. */
  lemma SingleLineSlice(s: string, i: nat, j: nat)
    requires i <= j <= |s| && SingleLine(s)
    ensures SingleLine(s[i..j])
  {
    assert forall k :: 0 <= k < j - i ==> s[i..j][k] == s[i + k];
  }
}
