/**
 * Speaker headers. The first non-blank line of a transcript body may name
 * who speaks: either wrapped in one of several bracket pairs, or a short run
 * of kana and kanji. The transcript normalizer rewrites that line as
 * `「name」` and reports the name; the translation normalizer rewrites a
 * bracketed header with the name resolved to English, or inserts one from
 * the transcript's name when the translation has none.
 */
module Speaker {
  import opened Wrappers
  import opened Text
  import opened Glossary
  import opened Romaji

  const OpenBrackets: string := "「『〈《［（[<"
  const CloseBrackets: string := "」』〉》］）]>"

  /** The header line written for a name. */
  function Bracketed(name: string): string {
    "「" + name + "」"
  }

  /** NAME_LINE_RE applied to one line (both normalizers apply it to a
      stripped line of a block split at line feeds): after the surrounding
      whitespace, an opening bracket, at least one character, and a closing
      bracket; the name is what lies between, stripped. */
  function NameLine(line: string): (r: Option<string>)
    ensures r.Some? ==> IsStripped(r.value)
  {
    var t := Strip(line);
    if |t| >= 3 && t[0] in OpenBrackets && t[|t| - 1] in CloseBrackets then
      Some(Strip(t[1..|t| - 1]))
    else
      None
  }

  /** The character class of looks_like_jp_name: hiragana, katakana, the
      common CJK ideographs, 々, 〆, the long-vowel mark, the middle dot and
      whitespace. */
  predicate NameChar(c: char) {
    || 'ぁ' <= c <= 'ゖ' || 'ァ' <= c <= 'ヶ' || '一' <= c <= '龯'
    || c == '々' || c == '〆' || c == 'ー' || c == '・' || IsSpace(c)
  }

  /** looks_like_jp_name: one to twelve name characters once stripped. */
  predicate LooksLikeJpName(line: string) {
    var ln := Strip(line);
    0 < |ln| <= 12 && forall k :: 0 <= k < |ln| ==> NameChar(ln[k])
  }

  /** The name a header line gives: a bracketed name first, otherwise the
      line itself when it looks like a name. */
  function HeaderName(first: string): Option<string> {
    if NameLine(first).Some? then NameLine(first)
    else if LooksLikeJpName(first) then Some(first)
    else None
  }

  // ---------------------------------------------------------------------------
  // Lines of a block

  function RStripLines(parts: seq<string>): (lines: seq<string>)
    ensures |lines| == |parts|
    ensures forall k :: 0 <= k < |parts| ==> lines[k] == RStrip(parts[k])
  {
    seq(|parts|, k requires 0 <= k < |parts| => RStrip(parts[k]))
  }

  lemma RStripLinesKeepOut(parts: seq<string>, c: char)
    requires forall k :: 0 <= k < |parts| ==> c !in parts[k]
    ensures forall k :: 0 <= k < |parts| ==> c !in RStripLines(parts)[k]
  {
    forall k | 0 <= k < |parts| ensures c !in RStripLines(parts)[k] {
      RStripKeepsOut(parts[k], c);
    }
  }

  /** The lines of a block as both normalizers see them: "\r\n" turned into
      "\n", split at line feeds, every line right-stripped. */
  function BlockLines(block: string): (lines: seq<string>)
    ensures |lines| >= 1
    ensures NoBreakLines(lines)
    ensures RTrimmedLines(lines)
  {
    var parts := SplitOn(Replace(block, "\r\n", "\n", false), '\n');
    RStripLinesKeepOut(parts, '\n');
    RStripLines(parts)
  }

  /** A line that holds nothing but whitespace. */
  predicate Blank(line: string) {
    Strip(line) == []
  }

  /** The index of the first non-blank line from `i` on. */
  function FirstFilled(lines: seq<string>, i: nat): (r: Option<nat>)
    ensures r.Some? ==> i <= r.value < |lines| && !Blank(lines[r.value])
    ensures r.Some? ==> forall k {:trigger Blank(lines[k])} :: i <= k < r.value ==> Blank(lines[k])
    ensures r.None? ==> forall k {:trigger Blank(lines[k])} :: i <= k < |lines| ==> Blank(lines[k])
    decreases |lines| - i
  {
    if i >= |lines| then None
    else if !Blank(lines[i]) then Some(i)
    else FirstFilled(lines, i + 1)
  }

  /** The index of the last non-empty line, or `idx` when none follows it. */
  function LastFilled(lines: seq<string>, idx: nat): (last: nat)
    requires idx < |lines|
    ensures idx <= last < |lines|
    ensures idx < last ==> lines[last] != []
    ensures forall k :: last < k < |lines| ==> lines[k] == []
  {
    LastFilledFrom(lines, idx, |lines| - 1)
  }

  /** The last non-empty line among those from `idx` to `n`, or `idx`. */
  function LastFilledFrom(lines: seq<string>, idx: nat, n: nat): (last: nat)
    requires idx <= n < |lines|
    ensures idx <= last <= n
    ensures idx < last ==> lines[last] != []
    ensures forall k :: last < k <= n ==> lines[k] == []
    decreases n
  {
    if n == idx || lines[n] != [] then n else LastFilledFrom(lines, idx, n - 1)
  }

  // ---------------------------------------------------------------------------
  // normalize_jp_speaker_line

  /** The block rebuilt with the line at `idx` replaced by `h`. */
  function Rewritten(lines: seq<string>, idx: nat, h: string): string
    requires idx < |lines|
  {
    Strip(Join("\n", lines[idx := h]))
  }

  /** The block rebuilt with `h` inserted before the line at `idx`. */
  function Inserted(lines: seq<string>, idx: nat, h: string): string
    requires idx <= |lines|
  {
    Strip(Join("\n", lines[..idx] + [h] + lines[idx..]))
  }

  /** normalize_jp_speaker_line once the block is split into lines. */
  function JpLines(block: string, lines: seq<string>): (string, string) {
    match FirstFilled(lines, 0)
    case None => (block, [])
    case Some(idx) =>
      match HeaderName(Strip(lines[idx]))
      case Some(name) => (Rewritten(lines, idx, Bracketed(name)), name)
      case None => (Strip(block), [])
  }

  /** normalize_jp_speaker_line as a value: the normalized block and the
      speaker's name, empty when the block has no header. */
  function JpSpeaker(block: string): (string, string) {
    if block == [] then (block, []) else JpLines(block, BlockLines(block))
  }

  /** normalize_jp_speaker_line: the lines are collected, the first
      non-blank one is searched for and replaced in place. */
  method NormalizeJpSpeakerLine(block: string) returns (out: string, name: string)
    ensures (out, name) == JpSpeaker(block)
  {
    if block == [] {
      return block, [];
    }
    var parts := SplitOn(Replace(block, "\r\n", "\n", false), '\n');
    var lines: seq<string> := [];
    for i := 0 to |parts|
      invariant |lines| == i
      invariant forall k :: 0 <= k < i ==> lines[k] == RStrip(parts[k])
    {
      lines := lines + [RStrip(parts[i])];
    }
    assert lines == BlockLines(block);
    var idx := 0;
    while idx < |lines| && Blank(lines[idx])
      invariant idx <= |lines|
      invariant FirstFilled(lines, idx) == FirstFilled(lines, 0)
    {
      idx := idx + 1;
    }
    if idx == |lines| {
      return block, [];
    }
    var first := Strip(lines[idx]);
    var m := NameLine(first);
    if m.Some? {
      name := m.value;
      out := Rewritten(lines, idx, Bracketed(name));
      lines := lines[idx := Bracketed(name)];
      return;
    }
    if LooksLikeJpName(first) {
      out := Rewritten(lines, idx, Bracketed(first));
      lines := lines[idx := Bracketed(first)];
      return out, first;
    }
    return Strip(block), [];
  }

  // ---------------------------------------------------------------------------
  // Properties of the transcript header

  /** The bracketed header of a name gives the name back. */
  lemma NameLineBracketed(name: string)
    requires name != [] && IsStripped(name)
    ensures NameLine(Bracketed(name)) == Some(name)
  {
    var h := Bracketed(name);
    assert h[0] == '「' && h[|h| - 1] == '」';
    StripStripped(h);
    assert h[1..|h| - 1] == name;
    StripStripped(name);
  }

  /** The two header forms exclude each other: a line that looks like a
      name holds no bracket. */
  lemma NameLikeUnbracketed(line: string)
    requires LooksLikeJpName(line)
    ensures NameLine(line) == None
  {
    var t := Strip(line);
    assert NameChar(t[0]);
  }

  /** A bracketed header never looks like a bare name. */
  lemma BracketedNotNameLike(name: string)
    ensures !LooksLikeJpName(Bracketed(name))
  {
    var h := Bracketed(name);
    assert h[0] == '「' && h[|h| - 1] == '」';
    StripStripped(h);
    assert !NameChar(h[0]);
  }

  /** The header line of a block is the first line of the output when
      rewritten: leading blank lines are dropped, the header follows as
      `「name」`, then the block's later lines, right-stripped, up to the
      last non-blank one. */
  lemma HeaderFirst(lines: seq<string>, idx: nat, h: string)
    requires idx < |lines|
    requires RTrimmedLines(lines)
    requires forall k {:trigger Blank(lines[k])} :: 0 <= k < idx ==> Blank(lines[k])
    requires lines[idx] != []
    requires h != [] && !IsSpace(h[0]) && !IsSpace(h[|h| - 1])
    ensures Rewritten(lines, idx, h) == Join("\n", [h] + lines[idx + 1..LastFilled(lines, idx) + 1])
  {
    HeaderFirstAt(lines, idx, h, LastFilled(lines, idx));
  }

  /** Blank lines that do not end in whitespace are empty. */
  lemma BlanksEmpty(lines: seq<string>, idx: nat)
    requires idx <= |lines| && RTrimmedLines(lines)
    requires forall k {:trigger Blank(lines[k])} :: 0 <= k < idx ==> Blank(lines[k])
    ensures forall k :: 0 <= k < idx ==> lines[k] == []
  {
    forall k | 0 <= k < idx ensures lines[k] == [] {
      assert Blank(lines[k]);
      BlankIsEmpty(lines[k]);
    }
  }

  /** HeaderFirst, with the last non-empty line given. */
  lemma HeaderFirstAt(lines: seq<string>, idx: nat, h: string, last: nat)
    requires idx <= last < |lines|
    requires RTrimmedLines(lines)
    requires forall k {:trigger Blank(lines[k])} :: 0 <= k < idx ==> Blank(lines[k])
    requires forall k :: last < k < |lines| ==> lines[k] == []
    requires idx < last ==> lines[last] != []
    requires h != [] && !IsSpace(h[0]) && !IsSpace(h[|h| - 1])
    ensures Rewritten(lines, idx, h) == Join("\n", [h] + lines[idx + 1..last + 1])
  {
    BlanksEmpty(lines, idx);
    var l := lines[idx := h];
    assert l[last] != [] && !IsSpace(l[last][|l[last]| - 1]) by {
      if last > idx {
        assert l[last] == lines[last];
      }
    }
    StripJoinedLines(l, idx, last);
    UpdateAt(lines, idx, h, last);
  }

  /** A slice that starts at an updated position. */
  lemma UpdateAt<T>(s: seq<T>, i: nat, x: T, j: nat)
    requires i <= j < |s|
    ensures s[i := x][i..j + 1] == [x] + s[i + 1..j + 1]
  {
    var m := s[i := x][i..j + 1];
    assert |m| == j + 1 - i;
    assert forall k :: 0 < k < |m| ==> m[k] == s[i + k];
  }

  lemma BracketedEnds(name: string)
    ensures var h := Bracketed(name); h != [] && !IsSpace(h[0]) && !IsSpace(h[|h| - 1])
  {
    var h := Bracketed(name);
    assert h[0] == '「' && h[|h| - 1] == '」';
  }

  /** A non-empty block is normalized through its lines. */
  lemma JpSpeakerLines(block: string)
    requires block != []
    ensures JpSpeaker(block) == JpLines(block, BlockLines(block))
  {
  }

  /** When the first non-blank line of a transcript block is a header, the
      normalized block opens with `「name」` followed by the block's other
      lines up to the last non-blank one, and the name is reported. */
  lemma JpHeaderLines(block: string, lines: seq<string>, idx: nat, name: string)
    requires RTrimmedLines(lines)
    requires FirstFilled(lines, 0) == Some(idx)
    requires HeaderName(Strip(lines[idx])) == Some(name)
    ensures JpLines(block, lines) == (Join("\n", [Bracketed(name)] + lines[idx + 1..LastFilled(lines, idx) + 1]), name)
  {
    BlankIsEmpty(lines[idx]);
    BracketedEnds(name);
    HeaderFirst(lines, idx, Bracketed(name));
  }

  /** A transcript block without a header comes back stripped, with no name. */
  lemma JpNoHeader(block: string, idx: nat)
    requires FirstFilled(BlockLines(block), 0) == Some(idx)
    requires HeaderName(Strip(BlockLines(block)[idx])) == None
    ensures JpSpeaker(block) == (Strip(block), [])
  {
  }

  /** A whitespace-only line list: every line of whitespace-only text is empty. */
  lemma BlankLines(block: string)
    requires AllSpace(block)
    ensures forall k :: 0 <= k < |BlockLines(block)| ==> BlockLines(block)[k] == []
  {
    var t := Replace(block, "\r\n", "\n", false);
    ReplaceKeepsSpace(block, "\r\n", "\n", false);
    var parts := SplitOn(t, '\n');
    SplitOnChars(t, '\n');
    forall k | 0 <= k < |parts| ensures RStrip(parts[k]) == [] {
      forall j | 0 <= j < |parts[k]| ensures IsSpace(parts[k][j]) {
        assert parts[k][j] in parts[k];
        var c := parts[k][j];
        assert c in t;
      }
      RStripAllSpace(parts[k]);
    }
  }

  /** A block that is empty or holds only whitespace is returned as it is,
      with no name. */
  lemma JpBlank(block: string)
    requires AllSpace(block)
    ensures JpSpeaker(block) == (block, [])
  {
    if block != [] {
      BlankLines(block);
      var lines := BlockLines(block);
      assert forall k :: 0 <= k < |lines| ==> Blank(lines[k]);
    }
  }

  /** A header name is stripped and stays on one line. */
  lemma HeaderNameShape(first: string, name: string)
    requires '\n' !in first && IsStripped(first) && HeaderName(first) == Some(name)
    ensures IsStripped(name) && '\n' !in name
  {
    StripKeepsOut(first, '\n');
    var t := Strip(first);
    if NameLine(first).Some? {
      assert forall c :: c in t[1..|t| - 1] ==> c in t;
      StripKeepsOut(t[1..|t| - 1], '\n');
    } else {
      StripStripped(t);
    }
  }

  /** Lines in the shape the normalizer produces are read back unchanged. */
  lemma NormalLines(m: seq<string>)
    requires m != [] && m[0] != [] && !IsSpace(m[0][0]) && m[|m| - 1] != []
    requires NoBreakLines(m)
    requires RTrimmedLines(m)
    ensures BlockLines(Join("\n", m)) == m
    ensures IsStripped(Join("\n", m))
  {
    NormalSplit(m);
    forall k | 0 <= k < |m| ensures RStrip(m[k]) == m[k] {
      RStripStripped(m[k]);
    }
    JoinFirst("\n", m);
    JoinLast("\n", m);
  }

  /** Lines joined by line feeds are split back into the same lines. */
  lemma NormalSplit(m: seq<string>)
    requires m != [] && NoBreakLines(m) && RTrimmedLines(m)
    ensures SplitOn(Replace(Join("\n", m), "\r\n", "\n", false), '\n') == m
  {
    JoinNoCrLf(m);
    CrLfAbsent(Join("\n", m));
    SplitOnJoin(m, '\n');
  }

  /** The header line of a name is stripped, not blank, and names it again
      unless the name is empty. */
  lemma BracketedHeader(name: string)
    requires IsStripped(name) && '\n' !in name
    ensures var h := Bracketed(name);
      Strip(h) == h && !Blank(h) && '\n' !in h &&
      HeaderName(h) == (if name != [] then Some(name) else None)
  {
    var h := Bracketed(name);
    BracketedEnds(name);
    StripStripped(h);
    assert forall k :: 1 <= k < |h| - 1 ==> h[k] == name[k - 1];
    if name != [] {
      NameLineBracketed(name);
    } else {
      assert |h| == 2;
      BracketedNotNameLike(name);
    }
  }

  /** Normalizing text already in normal form, opening with the header
      line of `name`, gives it back. */
  lemma JpOfNormal(m: seq<string>, name: string)
    requires m != [] && m[0] == Bracketed(name) && m[|m| - 1] != []
    requires IsStripped(name) && '\n' !in name
    requires NoBreakLines(m)
    requires RTrimmedLines(m)
    ensures JpSpeaker(Join("\n", m)) == (Join("\n", m), if name != [] then name else [])
  {
    BracketedEnds(name);
    NormalLines(m);
    JoinFirst("\n", m);
    JpOfLines(Join("\n", m), m, name);
  }

  lemma JpOfLines(out: string, m: seq<string>, name: string)
    requires out == Join("\n", m) && out != [] && IsStripped(out) && BlockLines(out) == m
    requires m != [] && m[0] == Bracketed(name) && IsStripped(name) && '\n' !in name
    ensures JpSpeaker(out) == (out, if name != [] then name else [])
  {
    var h := m[0];
    BracketedHeader(name);
    assert FirstFilled(m, 0) == Some(0);
    StripStripped(out);
    assert m[0 := h] == m;
  }

  /** Normalizing a transcript block whose first non-blank line is a header
      a second time changes nothing and reports the same name (the name is
      empty only for brackets around whitespace, whose `「」` is then no
      longer a header). */
  lemma JpIdempotent(block: string, idx: nat, name: string)
    requires block != []
    requires FirstFilled(BlockLines(block), 0) == Some(idx)
    requires HeaderName(Strip(BlockLines(block)[idx])) == Some(name)
    ensures JpSpeaker(JpSpeaker(block).0) == JpSpeaker(block)
  {
    var lines := BlockLines(block);
    JpIdempotentLines(block, lines, idx, name);
  }

  lemma JpIdempotentLines(block: string, lines: seq<string>, idx: nat, name: string)
    requires lines == BlockLines(block) && block != []
    requires FirstFilled(lines, 0) == Some(idx)
    requires HeaderName(Strip(lines[idx])) == Some(name)
    ensures JpSpeaker(JpSpeaker(block).0) == JpSpeaker(block)
  {
    var h := Bracketed(name);
    StripKeepsOut(lines[idx], '\n');
    HeaderNameShape(Strip(lines[idx]), name);
    JpHeaderLines(block, lines, idx, name);
    BracketedEnds(name);
    var m := HeaderTail(lines, idx, h);
    JpOfNormal(m, name);
  }

  /** The lines of a rewritten block: the header, then the lines after it up
      to the last non-empty one. */
  lemma HeaderTail(lines: seq<string>, idx: nat, h: string) returns (m: seq<string>)
    requires idx < |lines| && NoBreakLines(lines) && RTrimmedLines(lines)
    requires h != [] && '\n' !in h && !IsSpace(h[|h| - 1])
    ensures m == [h] + lines[idx + 1..LastFilled(lines, idx) + 1]
    ensures m[0] == h && m[|m| - 1] != [] && NoBreakLines(m) && RTrimmedLines(m)
  {
    var last := LastFilled(lines, idx);
    m := [h] + lines[idx + 1..last + 1];
    assert forall k :: 0 < k < |m| ==> m[k] == lines[idx + k];
    if last > idx {
      assert m[|m| - 1] == lines[last];
    }
  }

  /** A block of two lines, in the shape the normalizer produces, is read
      back as those two lines and is already stripped. */
  lemma TwoLines(a: string, b: string)
    requires a != [] && b != [] && '\n' !in a && '\n' !in b
    requires !IsSpace(a[0]) && !IsSpace(a[|a| - 1]) && !IsSpace(b[|b| - 1])
    ensures Join("\n", [a, b]) == a + "\n" + b
    ensures BlockLines(a + "\n" + b) == [a, b]
    ensures Strip(a + "\n" + b) == a + "\n" + b
  {
    var m := [a, b];
    assert Join("\n", m) == a + "\n" + Join("\n", [b]);
    NormalLines(m);
    StripStripped(a + "\n" + b);
  }

  /** A bracketed speaker line followed by one line of speech is kept as
      it is, and the name is reported. */
  lemma JpBracketedTwo(name: string, b: string)
    requires name != [] && IsStripped(name) && '\n' !in name
    requires b != [] && IsStripped(b) && '\n' !in b
    ensures var block := Bracketed(name) + "\n" + b; JpSpeaker(block) == (block, name)
  {
    var h := Bracketed(name);
    BracketedEnds(name);
    BracketedHeader(name);
    TwoLines(h, b);
    JpOfLines(h + "\n" + b, [h, b], name);
  }

  /** A bare name line followed by one line of speech gets its name
      wrapped in corner brackets. */
  lemma JpNameLikeTwo(a: string, b: string)
    requires a != [] && Strip(a) == a && HeaderName(a) == Some(a) && '\n' !in a
    requires b != [] && IsStripped(b) && '\n' !in b
    ensures JpSpeaker(a + "\n" + b) == (Bracketed(a) + "\n" + b, a)
  {
    var h := Bracketed(a);
    TwoLines(a, b);
    BracketedEnds(a);
    BracketedHeader(a);
    TwoLines(h, b);
    JpNameLikeLines(a + "\n" + b, [a, b], h);
  }

  lemma JpNameLikeLines(block: string, m: seq<string>, h: string)
    requires block != [] && BlockLines(block) == m && |m| == 2
    requires Strip(m[0]) == m[0] && m[0] != [] && HeaderName(m[0]) == Some(m[0]) && h == Bracketed(m[0])
    requires Strip(Join("\n", [h, m[1]])) == h + "\n" + m[1]
    ensures JpSpeaker(block) == (h + "\n" + m[1], m[0])
  {
    assert FirstFilled(m, 0) == Some(0);
    assert m[0 := h] == [h, m[1]];
  }

  /** A bracketed speaker line followed by a line of speech is kept as it is. */
  lemma JpBracketedExample(block: string)
    requires block == "「ゆうた」\nこんにちは"
    ensures JpSpeaker(block) == (block, "ゆうた")
  {
    var a, b := "ゆうた", "こんにちは";
    YuutaLines(a, b);
    JpBracketedTwo(a, b);
  }

  /** A bare kana speaker line is wrapped in corner brackets. */
  lemma JpNameLikeExample(block: string)
    requires block == "ゆうた\nこんにちは"
    ensures JpSpeaker(block) == ("「ゆうた」\nこんにちは", "ゆうた")
  {
    var a, b := "ゆうた", "こんにちは";
    YuutaLines(a, b);
    NameLikeLine(a);
    JpNameLikeTwo(a, b);
  }

  lemma YuutaLines(a: string, b: string)
    requires a == "ゆうた" && b == "こんにちは"
    ensures a + "\n" + b == "ゆうた\nこんにちは"
    ensures Bracketed(a) + "\n" + b == "「ゆうた」\nこんにちは"
    ensures a != [] && IsStripped(a) && '\n' !in a
    ensures b != [] && IsStripped(b) && '\n' !in b
  {
  }

  lemma NameLikeLine(s: string)
    requires s == "ゆうた"
    ensures Strip(s) == s && HeaderName(s) == Some(s)
  {
    StripStripped(s);
    assert LooksLikeJpName(s);
    NameLikeUnbracketed(s);
  }

  // ---------------------------------------------------------------------------
  // translate_jp_name_to_en

  /** The target of the first glossary entry whose source is `nm`. */
  function Lookup(g: seq<Entry>, nm: string): Option<string> {
    if g == [] then None
    else if g[0].source == nm then Some(g[0].target)
    else Lookup(g[1..], nm)
  }

  /** The first matching entry decides. */
  lemma {:induction false} LookupFirst(g: seq<Entry>, nm: string, i: nat)
    requires i < |g| && g[i].source == nm
    requires forall k :: 0 <= k < i ==> g[k].source != nm
    ensures Lookup(g, nm) == Some(g[i].target)
    decreases i
  {
    if i > 0 {
      LookupFirst(g[1..], nm, i - 1);
    }
  }

  /** Without a matching entry there is nothing to look up. */
  lemma {:induction false} LookupAbsent(g: seq<Entry>, nm: string)
    requires forall k :: 0 <= k < |g| ==> g[k].source != nm
    ensures Lookup(g, nm) == None
    decreases |g|
  {
    if g != [] {
      LookupAbsent(g[1..], nm);
    }
  }

  /** translate_jp_name_to_en as a value. */
  function TranslateName(name: string, g: seq<Entry>): string {
    var nm := Strip(name);
    match Lookup(g, nm)
    case Some(en) => en
    case None => if IsAllKana(nm) then Romanize(Katakana(nm)) else nm
  }

  /** translate_jp_name_to_en: the glossary is scanned in order. */
  method TranslateJpNameToEn(name: string, g: seq<Entry>) returns (r: string)
    ensures r == TranslateName(name, g)
  {
    var nm := Strip(name);
    for i := 0 to |g|
      invariant Lookup(g, nm) == Lookup(g[i..], nm)
    {
      assert g[i..][1..] == g[i + 1..];
      if nm == g[i].source {
        return g[i].target;
      }
    }
    assert g[|g|..] == [];
    if IsAllKana(nm) {
      r := KanaToRomaji(nm);
    } else {
      r := nm;
    }
  }

  /** Resolution order, first step: an exact glossary match wins, the first
      one in glossary order. */
  lemma TranslateByGlossary(name: string, g: seq<Entry>, i: nat)
    requires i < |g| && g[i].source == Strip(name)
    requires forall k :: 0 <= k < i ==> g[k].source != Strip(name)
    ensures TranslateName(name, g) == g[i].target
  {
    LookupFirst(g, Strip(name), i);
  }

  /** Resolution order, second step: a kana name without a glossary entry
      is romanized. */
  lemma TranslateByRomaji(name: string, g: seq<Entry>)
    requires forall k :: 0 <= k < |g| ==> g[k].source != Strip(name)
    requires IsAllKana(Strip(name))
    ensures TranslateName(name, g) == Romanize(Katakana(Strip(name)))
  {
    LookupAbsent(g, Strip(name));
  }

  /** Resolution order, last step: any other name is kept, stripped. */
  lemma TranslateKept(name: string, g: seq<Entry>)
    requires forall k :: 0 <= k < |g| ==> g[k].source != Strip(name)
    requires !IsAllKana(Strip(name))
    ensures TranslateName(name, g) == Strip(name)
  {
    LookupAbsent(g, Strip(name));
  }

  /** With an empty glossary, ゆうた is rendered as Yuuta. */
  lemma TranslateYuuta(name: string)
    requires name == "ゆうた"
    ensures TranslateName(name, []) == "Yuuta"
  {
    StripStripped(name);
    assert IsAllKana(name);
    YuutaExample(name);
  }

  // ---------------------------------------------------------------------------
  // normalize_translation_name_line

  /** normalize_translation_name_line once the body is split into lines,
      with `resolve` turning a transcript name into the English one. */
  function EnLines(en: string, lines: seq<string>, resolve: string -> string, hint: string): string {
    match FirstFilled(lines, 0)
    case None => en
    case Some(idx) =>
      match NameLine(Strip(lines[idx]))
      case Some(name) => Rewritten(lines, idx, Bracketed(resolve(name)))
      case None =>
        if hint != [] then Inserted(lines, idx, Bracketed(resolve(hint)))
        else Strip(en)
  }

  /** normalize_translation_name_line for a given name translation. */
  function EnSpeakerWith(en: string, resolve: string -> string, hint: string): string {
    if en == [] then en else EnLines(en, BlockLines(en), resolve, hint)
  }

  /** The name translation of normalize_translation_name_line. */
  function Resolver(g: seq<Entry>): string -> string {
    name => TranslateName(name, g)
  }

  /** normalize_translation_name_line as a value. */
  function EnSpeaker(en: string, g: seq<Entry>, hint: string): string {
    EnSpeakerWith(en, Resolver(g), hint)
  }

  /** normalize_translation_name_line: the header is replaced in place, or
      one is inserted before the first non-blank line. */
  method NormalizeTranslationNameLine(en: string, g: seq<Entry>, hint: string) returns (out: string)
    ensures out == EnSpeaker(en, g, hint)
  {
    if en == [] {
      return en;
    }
    var parts := SplitOn(Replace(en, "\r\n", "\n", false), '\n');
    var lines: seq<string> := [];
    for i := 0 to |parts|
      invariant |lines| == i
      invariant forall k :: 0 <= k < i ==> lines[k] == RStrip(parts[k])
    {
      lines := lines + [RStrip(parts[i])];
    }
    assert lines == BlockLines(en);
    var idx := 0;
    while idx < |lines| && Blank(lines[idx])
      invariant idx <= |lines|
      invariant FirstFilled(lines, idx) == FirstFilled(lines, 0)
    {
      idx := idx + 1;
    }
    if idx == |lines| {
      return en;
    }
    var first := Strip(lines[idx]);
    var m := NameLine(first);
    if m.Some? {
      var nameEn := TranslateJpNameToEn(m.value, g);
      out := Rewritten(lines, idx, Bracketed(nameEn));
      lines := lines[idx := Bracketed(nameEn)];
      return;
    }
    if hint != [] {
      var nameEn := TranslateJpNameToEn(hint, g);
      out := Inserted(lines, idx, Bracketed(nameEn));
      lines := lines[..idx] + [Bracketed(nameEn)] + lines[idx..];
      return;
    }
    return Strip(en);
  }

  /** An empty or whitespace-only translation body is returned as it is,
      even when a name hint is given. */
  lemma EnBlank(en: string, resolve: string -> string, hint: string)
    requires AllSpace(en)
    ensures EnSpeakerWith(en, resolve, hint) == en
  {
    if en != [] {
      BlankLines(en);
      var lines := BlockLines(en);
      assert forall k :: 0 <= k < |lines| ==> Blank(lines[k]);
    }
  }

  /** A bracketed translation header is replaced by the translated name;
      the lines after it are kept. The lines are those of the body
      (`BlockLines`), on which `EnSpeakerWith` runs `EnLines`. */
  lemma EnHeaderNamed(en: string, lines: seq<string>, resolve: string -> string, hint: string, idx: nat, name: string)
    requires RTrimmedLines(lines)
    requires FirstFilled(lines, 0) == Some(idx)
    requires NameLine(Strip(lines[idx])) == Some(name)
    ensures EnLines(en, lines, resolve, hint) ==
      Join("\n", [Bracketed(resolve(name))] + lines[idx + 1..LastFilled(lines, idx) + 1])
  {
    var h := Bracketed(resolve(name));
    BracketedEnds(resolve(name));
    BlankIsEmpty(lines[idx]);
    HeaderFirst(lines, idx, h);
    assert EnLines(en, lines, resolve, hint) == Rewritten(lines, idx, h);
  }

  /** A header inserted before the first non-blank line opens the rebuilt
      block, followed by the block's lines up to the last non-blank one. */
  lemma InsertedFirst(lines: seq<string>, idx: nat, h: string)
    requires idx < |lines|
    requires RTrimmedLines(lines)
    requires forall k {:trigger Blank(lines[k])} :: 0 <= k < idx ==> Blank(lines[k])
    requires lines[idx] != []
    requires h != [] && !IsSpace(h[0]) && !IsSpace(h[|h| - 1])
    ensures Inserted(lines, idx, h) == Join("\n", [h] + lines[idx..LastFilled(lines, idx) + 1])
  {
    InsertedFirstAt(lines, idx, h, LastFilled(lines, idx));
  }

  /** InsertedFirst, with the last non-empty line given. */
  lemma InsertedFirstAt(lines: seq<string>, idx: nat, h: string, last: nat)
    requires idx <= last < |lines|
    requires RTrimmedLines(lines)
    requires forall k {:trigger Blank(lines[k])} :: 0 <= k < idx ==> Blank(lines[k])
    requires forall k :: last < k < |lines| ==> lines[k] == []
    requires lines[last] != []
    requires h != [] && !IsSpace(h[0]) && !IsSpace(h[|h| - 1])
    ensures Inserted(lines, idx, h) == Join("\n", [h] + lines[idx..last + 1])
  {
    BlanksEmpty(lines, idx);
    var l := lines[..idx] + [h] + lines[idx..];
    InsertAt(lines, idx, h, last + 1);
    assert l[last + 1] == lines[last];
    StripJoinedLines(l, idx, last + 1);
  }

  /** The positions of a sequence with one element inserted at `i`. */
  lemma InsertAt<T>(s: seq<T>, i: nat, x: T, j: nat)
    requires i <= j <= |s|
    ensures var l := s[..i] + [x] + s[i..];
      && |l| == |s| + 1 && l[i] == x
      && (forall k :: 0 <= k < i ==> l[k] == s[k])
      && (forall k :: i < k < |l| ==> l[k] == s[k - 1])
      && l[i..j + 1] == [x] + s[i..j]
  {
    var l := s[..i] + [x] + s[i..];
    var m := l[i..j + 1];
    assert |m| == j + 1 - i;
    assert forall k :: 0 < k < |m| ==> m[k] == s[i + k - 1];
  }

  /** Without a bracketed header, the transcript's name, translated, is put
      in front of the first non-blank line; nothing else changes. */
  lemma EnHeaderInserted(en: string, lines: seq<string>, resolve: string -> string, hint: string, idx: nat)
    requires hint != [] && RTrimmedLines(lines)
    requires FirstFilled(lines, 0) == Some(idx)
    requires NameLine(Strip(lines[idx])) == None
    ensures EnLines(en, lines, resolve, hint) ==
      Join("\n", [Bracketed(resolve(hint))] + lines[idx..LastFilled(lines, idx) + 1])
  {
    var h := Bracketed(resolve(hint));
    BracketedEnds(resolve(hint));
    BlankIsEmpty(lines[idx]);
    InsertedFirst(lines, idx, h);
    assert EnLines(en, lines, resolve, hint) == Inserted(lines, idx, h);
  }

  /** Without a header and without a hint, the body is only stripped. */
  lemma EnUnchanged(en: string, resolve: string -> string, idx: nat)
    requires FirstFilled(BlockLines(en), 0) == Some(idx)
    requires NameLine(Strip(BlockLines(en)[idx])) == None
    ensures EnSpeakerWith(en, resolve, []) == Strip(en)
  {
  }

  /** A one-line translation without a header gets the hint's translation
      as its header. */
  lemma EnHintLine(en: string, resolve: string -> string, hint: string)
    requires hint != [] && en != [] && '\n' !in en && Strip(en) == en && NameLine(en) == None
    ensures EnSpeakerWith(en, resolve, hint) == Bracketed(resolve(hint)) + "\n" + en
  {
    var h := Bracketed(resolve(hint));
    BracketedEnds(resolve(hint));
    OneLine(en);
    assert EnSpeakerWith(en, resolve, hint) == EnLines(en, [en], resolve, hint);
    assert FirstFilled([en], 0) == Some(0);
    EnHeaderInserted(en, [en], resolve, hint, 0);
    assert [h] + [en][0..LastFilled([en], 0) + 1] == [h, en];
    assert Join("\n", [h, en]) == h + "\n" + Join("\n", [en]);
  }

  /** A stripped line is a block of its own. */
  lemma OneLine(s: string)
    requires s != [] && '\n' !in s && Strip(s) == s
    ensures BlockLines(s) == [s] && RTrimmedLines([s]) && !Blank(s)
  {
    assert Join("\n", [s]) == s;
    NormalLines([s]);
  }

  /** A translation without a header gets the romanized name of the
      transcript's speaker. */
  lemma EnHintExample(en: string, hint: string)
    requires en == "Hello" && hint == "ゆうた"
    ensures EnSpeaker(en, [], hint) == "「Yuuta」\nHello"
  {
    HelloLine(en);
    EnHintLine(en, Resolver([]), hint);
    TranslateYuuta(hint);
  }

  lemma HelloLine(s: string)
    requires s == "Hello"
    ensures s != [] && '\n' !in s && Strip(s) == s && NameLine(s) == None
    ensures Bracketed("Yuuta") + "\n" + s == "「Yuuta」\nHello"
  {
    StripStripped(s);
  }
}
