/** The reply post-processing that turns a model's answer into the two
    canonical sections "Transcript:" and "Translation:": code-fence
    stripping, section enforcement and splitting. Every regular expression
    of the program is written out here as a scanner over indices. */
module Sections {
  import opened Wrappers
  import opened Text

  // ---------------------------------------------------------------------
  // Code fences
  // ---------------------------------------------------------------------

  /** A fence opener or closer at `i`: three backticks or three single quotes. */
  predicate FenceAt(s: string, i: nat) {
    MatchesAt(s, i, "```", false) || MatchesAt(s, i, "'''", false)
  }

  predicate IsCrLf(c: char) {
    c == '\r' || c == '\n'
  }

  /** The number of consecutive carriage returns and line feeds from `i`. */
  function NewlineRun(s: string, i: nat): (n: nat)
    ensures i + n <= |s| || n == 0
    ensures forall k :: i <= k < i + n ==> IsCrLf(s[k])
    ensures i + n < |s| ==> !IsCrLf(s[i + n])
    decreases |s| - i
  {
    if i < |s| && IsCrLf(s[i]) then 1 + NewlineRun(s, i + 1) else 0
  }

  /** The first carriage return or line feed at or after `i`, or |s|. */
  function LineEnd(s: string, i: nat): (j: nat)
    requires i <= |s|
    ensures i <= j <= |s|
    ensures forall k :: i <= k < j ==> !IsCrLf(s[k])
    ensures j < |s| ==> IsCrLf(s[j])
    decreases |s| - i
  {
    if i == |s| || IsCrLf(s[i]) then i else LineEnd(s, i + 1)
  }

  /** The leading fence line: optional whitespace, a fence, the rest of that
      line, and the run of line breaks after it. A fence line that is not
      followed by a line break is kept. */
  function StripOpeningFence(s: string): (r: string)
    ensures |r| <= |s|
  {
    var w := SpaceRun(s, 0);
    if FenceAt(s, w) then
      var j := LineEnd(s, w + 3);
      if j < |s| then s[j + NewlineRun(s, j)..] else s
    else s
  }

  /** A closing fence can start at `p`: line breaks, a fence, then only
      whitespace up to the end. */
  predicate ClosingAt(s: string, p: nat) {
    var q := p + NewlineRun(s, p);
    FenceAt(s, q) && q + 3 + SpaceRun(s, q + 3) == |s|
  }

  /** The trailing fence and the line breaks in front of it are removed. */
  function StripClosingFence(s: string): (r: string)
    ensures |r| <= |s|
  {
    match FirstWhere((p: nat) => ClosingAt(s, p), 0, |s|)
    case Some(p) => s[..p]
    case None => s
  }

  /** strip_code_fences: an empty reply stays empty; otherwise the opening
      fence line goes first, then the closing fence. */
  function StripCodeFences(s: string): (r: string)
    ensures |r| <= |s|
  {
    if s == [] then [] else StripClosingFence(StripOpeningFence(s))
  }

  /** No fence anywhere in the text. */
  predicate FenceFree(s: string) {
    forall i :: 0 <= i < |s| ==> !FenceAt(s, i)
  }

  lemma NoClosing(s: string)
    requires FenceFree(s)
    ensures forall p :: 0 <= p <= |s| ==> !ClosingAt(s, p)
  {
    forall p | 0 <= p <= |s| ensures !ClosingAt(s, p) {
      var q := p + NewlineRun(s, p);
      assert !FenceAt(s, q) by {
        if q >= |s| {
          assert !MatchesAt(s, q, "```", false);
        }
      }
    }
  }

  /** A reply without any fence is left exactly as it is. */
  lemma FenceFreeUnchanged(s: string)
    requires FenceFree(s)
    ensures StripCodeFences(s) == s
  {
    if s != [] {
      var w := SpaceRun(s, 0);
      assert !FenceAt(s, w) by {
        if w >= |s| {
          assert !MatchesAt(s, w, "```", false);
        }
      }
      NoClosing(s);
      FirstWhereNone((p: nat) => ClosingAt(s, p), 0, |s|);
    }
  }

  /** Inside a fence-free body that neither starts nor ends with a line
      break, followed by a line break, no closing fence starts. */
  lemma NotClosingInBody(s: string, body: string, p: nat)
    requires |body| < |s| && s[..|body|] == body && s[|body|] == '\n'
    requires FenceFree(body) && body != [] && !IsCrLf(body[|body| - 1])
    requires p < |body|
    ensures !ClosingAt(s, p)
  {
    var q := p + NewlineRun(s, p);
    assert q < |body|;
    if q + 3 <= |body| {
      assert !FenceAt(body, q);
    } else {
      var m := |body| - q;
      assert s[q + m] == '\n';
      assert !SameChar(s[q + m], "```"[m], false);
      assert !SameChar(s[q + m], "'''"[m], false);
    }
  }

  /** A line break, a fence and trailing whitespace form a closing fence. */
  lemma ClosingFenceAt(s: string, n: nat, trail: string)
    requires n + 4 <= |s| && s[n] == '\n' && s[n + 1] == '`' && s[n + 2] == '`' && s[n + 3] == '`'
    requires s[n + 4..] == trail && AllSpace(trail)
    ensures ClosingAt(s, n)
  {
    assert NewlineRun(s, n + 1) == 0;
    assert NewlineRun(s, n) == 1;
    assert MatchesAt(s, n + 1, "```", false);
    assert SpaceRun(s, n + 4) == |trail|;
  }

  /** Opening fence: leading whitespace, the fence with an info string, one
      line break. */
  lemma OpeningFenceLine(lead: string, tag: string, rest: string)
    requires AllSpace(lead) && forall k :: 0 <= k < |tag| ==> !IsCrLf(tag[k])
    requires rest != [] && !IsCrLf(rest[0])
    ensures StripOpeningFence(lead + "```" + tag + "\n" + rest) == rest
  {
    var s := lead + "```" + tag + "\n" + rest;
    OpeningFenceParts(lead, tag, rest);
    OpeningFenceAt(s, |lead|, |lead| + 3 + |tag|, rest);
  }

  /** The positions in an opening fence line followed by `rest`. */
  lemma OpeningFenceParts(lead: string, tag: string, rest: string)
    requires AllSpace(lead) && forall k :: 0 <= k < |tag| ==> !IsCrLf(tag[k])
    ensures var s := lead + "```" + tag + "\n" + rest; var e := |lead| + 3 + |tag|;
      && e < |s| && SpaceRun(s, 0) == |lead|
      && MatchesAt(s, |lead|, "```", false)
      && (forall k :: |lead| + 3 <= k < e ==> !IsCrLf(s[k]))
      && s[e] == '\n' && s[e + 1..] == rest
  {
    var s := lead + "```" + tag + "\n" + rest;
    var e := |lead| + 3 + |tag|;
    assert s[|lead|] == '`';
    SpaceRunSpaces(s, 0);
    assert forall k :: |lead| + 3 <= k < e ==> s[k] == tag[k - |lead| - 3];
    assert s[e + 1..] == rest;
  }

  /** StripOpeningFence once the fence at `w` and the line break at `e`
      that ends its line are located. */
  lemma OpeningFenceAt(s: string, w: nat, e: nat, rest: string)
    requires SpaceRun(s, 0) == w && MatchesAt(s, w, "```", false)
    requires w + 3 <= e < |s| && forall k :: w + 3 <= k < e ==> !IsCrLf(s[k])
    requires s[e] == '\n' && s[e + 1..] == rest && rest != [] && !IsCrLf(rest[0])
    ensures StripOpeningFence(s) == rest
  {
    assert LineEnd(s, w + 3) == e;
    assert s[e + 1] == rest[0];
    assert NewlineRun(s, e) == 1;
  }

  /** A fenced block comes out as its body: whitespace before the opening
      fence, an info string such as "json", and whitespace after the closing
      fence are all removed, provided the body holds no fence of its own and
      neither starts nor ends with a line break. */
  lemma FencedBody(lead: string, tag: string, body: string, trail: string)
    requires AllSpace(lead) && AllSpace(trail)
    requires forall k :: 0 <= k < |tag| ==> !IsCrLf(tag[k])
    requires body != [] && !IsCrLf(body[0]) && !IsCrLf(body[|body| - 1]) && FenceFree(body)
    ensures StripCodeFences(lead + "```" + tag + "\n" + body + "\n```" + trail) == body
  {
    var rest := body + "\n```" + trail;
    assert rest[0] == body[0];
    assert lead + "```" + tag + "\n" + body + "\n```" + trail == lead + "```" + tag + "\n" + rest;
    OpeningFenceLine(lead, tag, rest);
    var n := |body|;
    assert rest[..n] == body && rest[n] == '\n';
    forall p | 0 <= p < n ensures !ClosingAt(rest, p) {
      NotClosingInBody(rest, body, p);
    }
    assert rest[n + 1] == '`' && rest[n + 2] == '`' && rest[n + 3] == '`';
    assert rest[n + 4..] == trail;
    ClosingFenceAt(rest, n, trail);
    FirstWhereIs((p: nat) => ClosingAt(rest, p), 0, |rest|, n);
  }

  // ---------------------------------------------------------------------
  // Section enforcement
  // ---------------------------------------------------------------------

  const TranscriptHead := "Transcript:"
  const TranslationHead := "Translation:"

  /** What an empty reply becomes. */
  const EmptyReply := "Transcript:\n\nTranslation:\n"

  /** The canonical layout of the two sections. */
  function Format(jp: string, en: string): string {
    "Transcript:\n" + jp + "\n\nTranslation:\n" + en
  }

  /** `^` in multi-line mode: the start of the text or just after a line feed. */
  predicate LineStart(s: string, i: nat) {
    i == 0 || (i <= |s| && s[i - 1] == '\n')
  }

  /** Where the tag pattern `^\s*<\s*NAME(?:SUFFIX)?\s*>\s*` (case-insensitive,
      multi-line) matches at `i`, the end of the match. The optional suffix
      is taken whenever it is there: without it the next character, '-',
      could be neither whitespace nor '>', so backtracking gains nothing. */
  function TagEnd(s: string, i: nat, name: string, suffix: string): (r: Option<nat>)
    ensures r.Some? ==> i < r.value <= |s|
  {
    if !LineStart(s, i) then None
    else
      var a := i + SpaceRun(s, i);
      if a >= |s| || s[a] != '<' then None
      else
        var b := a + 1 + SpaceRun(s, a + 1);
        if !MatchesAt(s, b, name, true) then None
        else
          var c := if MatchesAt(s, b + |name|, suffix, true) then b + |name| + |suffix| else b + |name|;
          var d := c + SpaceRun(s, c);
          if d >= |s| || s[d] != '>' then None
          else Some(d + 1 + SpaceRun(s, d + 1))
  }

  /** re.sub of the tag pattern by `rep`, scanning from `i`. */
  function SubTags(s: string, i: nat, name: string, suffix: string, rep: string): string
    decreases |s| - i
  {
    if i >= |s| then []
    else match TagEnd(s, i, name, suffix)
      case Some(e) => rep + SubTags(s, e, name, suffix, rep)
      case None => [s[i]] + SubTags(s, i + 1, name, suffix, rep)
  }

  /** `<block1>`/`<block1-jp>` become the transcript heading, then
      `<block2>`/`<block2-en>` the translation heading. */
  function Tags(s: string): string {
    var t := SubTags(s, 0, "block1", "-jp", "Transcript:\n");
    SubTags(t, 0, "block2", "-en", "\n\nTranslation:\n")
  }

  /** A heading (case-insensitive) at the start of a line. */
  predicate HeadingAt(s: string, i: nat, head: string) {
    LineStart(s, i) && MatchesAt(s, i, head, true)
  }

  function FirstHeading(s: string, head: string, from: nat): (r: Option<nat>)
    ensures r.Some? ==> from <= r.value && r.value + |head| <= |s|
  {
    FirstWhere((i: nat) => HeadingAt(s, i, head), from, |s|)
  }

  /** The substitution `(^Transcript:\s*.*?)(?:\n{1,3})?^Translation:\s*` with
      count=1: from the first transcript heading to the first translation
      heading after it, the transcript part is right-stripped and joined to
      the canonical translation heading; the whitespace after the old
      heading is consumed. */
  function JoinHeadings(s: string): string {
    match FirstHeading(s, TranscriptHead, 0)
    case None => s
    case Some(p) =>
      match FirstHeading(s, TranslationHead, p + 1)
      case None => s
      case Some(t) => JoinAt(s, p, t)
  }

  /** The replacement once the transcript heading is found at `p` and the
      translation heading at `t`. */
  function JoinAt(s: string, p: nat, t: nat): string
    requires p <= t && t + |TranslationHead| <= |s|
  {
    var e := t + |TranslationHead| + SpaceRun(s, t + |TranslationHead|);
    s[..p] + RStrip(s[p..t]) + "\n\nTranslation:\n" + s[e..]
  }

  /** The position just after the last line feed of `s[a..b]`. */
  function LastNewline(s: string, a: nat, b: nat): (r: Option<nat>)
    requires a <= b <= |s|
    ensures r.Some? ==> a < r.value <= b && s[r.value - 1] == '\n'
    decreases b - a
  {
    if b == a then None
    else if s[b - 1] == '\n' then Some(b)
    else LastNewline(s, a, b - 1)
  }

  /** `\n\s*\n` matches at `p`: a line feed whose following whitespace holds
      another line feed; the greedy match ends after the last of them. */
  function BlankEnd(s: string, p: nat): Option<nat> {
    if p >= |s| || s[p] != '\n' then None
    else LastNewline(s, p + 1, p + 1 + SpaceRun(s, p + 1))
  }

  /** re.split(r'\n\s*\n', s, maxsplit=1), the second part empty when there
      is no blank-line run. */
  function SplitBlank(s: string): (string, string) {
    match FirstWhere((p: nat) => BlankEnd(s, p).Some?, 0, |s|)
    case Some(p) => (s[..p], s[BlankEnd(s, p).value..])
    case None => (s, [])
  }

  /** enforce_transcript_translation */
  function EnforceSections(s: string): string {
    if s == [] then EmptyReply
    else
      var t := Tags(Strip(s));
      if FirstHeading(t, TranscriptHead, 0).Some? && FirstHeading(t, TranslationHead, 0).Some? then
        Strip(JoinHeadings(t))
      else
        var (jp, en) := SplitBlank(t);
        Format(Strip(jp), Strip(en))
  }

  // ---------------------------------------------------------------------
  // Properties of section enforcement
  // ---------------------------------------------------------------------

  /** No line of `x` starts with `head` (in any letter case). */
  predicate NoHeadingLine(x: string, head: string) {
    forall i :: 0 <= i <= |x| && LineStart(x, i) ==> !MatchesAt(x, i, head, true)
  }

  lemma {:induction false} SubTagsCopy(s: string, i: nat, name: string, suffix: string, rep: string)
    requires i <= |s| && '<' !in s
    ensures SubTags(s, i, name, suffix, rep) == s[i..]
    decreases |s| - i
  {
    if i < |s| {
      var a := i + SpaceRun(s, i);
      assert a < |s| ==> s[a] in s;
      SubTagsCopy(s, i + 1, name, suffix, rep);
    }
  }

  /** Without a '<', the tag substitutions change nothing. */
  lemma TagsCopy(s: string)
    requires '<' !in s
    ensures Tags(s) == s
  {
    SubTagsCopy(s, 0, "block1", "-jp", "Transcript:\n");
    SubTagsCopy(s, 0, "block2", "-en", "\n\nTranslation:\n");
  }

  /** A folded character is a line feed only if it was one. */
  lemma FoldNewline(c: char)
    ensures Fold(c) == '\n' <==> c == '\n'
  {
  }

  /** A heading without line feeds found inside an infix `x` of `s` that is
      followed by a line feed (or the end) is a heading line of `x`. */
  lemma NoHeadingInside(s: string, off: nat, x: string, head: string)
    requires off + |x| <= |s| && s[off..off + |x|] == x
    requires off + |x| == |s| || s[off + |x|] == '\n'
    requires '\n' !in head && NoHeadingLine(x, head)
    ensures forall i :: off <= i < off + |x| ==> !HeadingAt(s, i, head)
  {
    forall i | off <= i < off + |x| && HeadingAt(s, i, head) ensures false {
      var j := i - off;
      assert LineStart(x, j) by {
        if j > 0 {
          assert x[j - 1] == s[i - 1];
        }
      }
      if i + |head| <= off + |x| {
        MatchFromInfix(s, x, off, j, head, true);
      } else {
        var m := off + |x| - i;
        assert SameChar(s[i + m], head[m], true);
        FoldNewline(head[m]);
      }
    }
  }

  /** The first heading from `from` is at `k`. */
  lemma FirstHeadingIs(s: string, head: string, from: nat, k: nat)
    requires from <= k <= |s| && HeadingAt(s, k, head)
    requires forall j :: from <= j < k ==> !HeadingAt(s, j, head)
    ensures FirstHeading(s, head, from) == Some(k)
  {
    FirstWhereIs((i: nat) => HeadingAt(s, i, head), from, |s|, k);
  }

  // ---------------------------------------------------------------------
  // Canonical text is a fixed point (EnforceFormat, EnforceCanonical):
  // where the headings are found, then the join, piece by piece
  // ---------------------------------------------------------------------

  /** The transcript part once right-stripped: the heading alone when the
      transcript is empty. */
  function TranscriptPart(jp: string): string {
    if jp == [] then TranscriptHead else "Transcript:\n" + jp
  }

  /** What enforcement makes of canonical text: one blank line between the
      sections, and no line break at the end when the translation is empty. */
  function Canon(jp: string, en: string): string {
    TranscriptPart(jp) + "\n\nTranslation:" + (if en == [] then [] else "\n" + en)
  }

  /** Text with both headings, `gap` line breaks before the second. */
  function Headed(jp: string, gap: string, tail: string): string {
    "Transcript:\n" + jp + gap + "Translation:" + tail
  }

  predicate AllNewlines(g: string) {
    forall k :: 0 <= k < |g| ==> g[k] == '\n'
  }

  /** The gaps that canonical and tagged replies leave. */
  lemma NewlineGaps()
    ensures AllNewlines("\n\n") && AllNewlines("\n\n\n")
  {
  }

  lemma RStripTranscript(jp: string, gap: string)
    requires IsStripped(jp) && gap != [] && AllNewlines(gap)
    ensures RStrip("Transcript:\n" + jp + gap) == TranscriptPart(jp)
  {
    var x := "Transcript:\n" + jp + gap;
    var n := TrailRun(x, |x|);
    var keep := |x| - |gap| - (if jp == [] then 1 else 0);
    assert x[keep - 1] == (if jp == [] then ':' else jp[|jp| - 1]);
    assert forall k :: keep <= k < |x| ==> IsSpace(x[k]);
    TrailRunSpaces(x, |x|);
    assert n == |x| - keep;
    assert x[..keep] == TranscriptPart(jp);
  }

  /** What FirstHeading reports is a heading. */
  lemma FirstHeadingSound(s: string, head: string, from: nat)
    ensures FirstHeading(s, head, from).Some? ==> HeadingAt(s, FirstHeading(s, head, from).value, head)
  {
  }

  /** Some heading is found no later than any heading. */
  lemma FirstHeadingLeast(s: string, head: string, from: nat, k: nat)
    requires from <= k <= |s| && HeadingAt(s, k, head)
    ensures FirstHeading(s, head, from).Some? && FirstHeading(s, head, from).value <= k
  {
    FirstWhereLeast((i: nat) => HeadingAt(s, i, head), from, |s|, k);
  }

  /** Text opening with the transcript heading has its first one at 0. */
  lemma TranscriptFirst(u: string)
    requires |u| >= 11 && u[..11] == TranscriptHead
    ensures HeadingAt(u, 0, TranscriptHead) && FirstHeading(u, TranscriptHead, 0) == Some(0)
  {
    assert forall k :: 0 <= k < 11 ==> u[k] == u[..11][k];
    FirstHeadingIs(u, TranscriptHead, 0, 0);
  }

  /** In `Transcript:\n{jp}{gap}Translation:...`, the first translation
      heading after the start is the one after the gap. */
  lemma TranslationAfterGap(jp: string, gap: string, tail: string)
    requires IsStripped(jp) && NoHeadingLine(jp, TranslationHead)
    requires gap != [] && AllNewlines(gap)
    ensures var u := Headed(jp, gap, tail);
      FirstHeading(u, TranslationHead, 1) == Some(12 + |jp| + |gap|)
  {
    var u := Headed(jp, gap, tail);
    var t := 12 + |jp| + |gap|;
    assert u[12..12 + |jp|] == jp;
    assert u[12 + |jp|] == gap[0];
    NoHeadingInside(u, 12, jp, TranslationHead);
    forall k | 1 <= k < t ensures !HeadingAt(u, k, TranslationHead) {
      if k < 12 {
        assert u[k - 1] == "Transcript:\n"[k - 1];
      } else if k >= 12 + |jp| {
        assert u[k] == gap[k - 12 - |jp|];
        assert !SameChar(u[k], TranslationHead[0], true);
      }
    }
    assert u[t - 1] == gap[|gap| - 1];
    assert forall k :: 0 <= k < 12 ==> u[t + k] == TranslationHead[k];
    FirstHeadingIs(u, TranslationHead, 1, t);
  }

  /** `Transcript:\n{jp}{gap}Translation:...` opens with the transcript heading. */
  lemma HeadedOpens(jp: string, gap: string, tail: string)
    ensures var u := Headed(jp, gap, tail);
      |u| >= 11 && u[..11] == TranscriptHead
  {
    var u := Headed(jp, gap, tail);
    assert u == "Transcript:" + ("\n" + jp + gap + "Translation:" + tail);
  }

  /** JoinHeadings once both headings are located. */
  lemma JoinHeadingsAt(s: string, p: nat, t: nat)
    requires FirstHeading(s, TranscriptHead, 0) == Some(p)
    requires FirstHeading(s, TranslationHead, p + 1) == Some(t)
    ensures JoinHeadings(s) == JoinAt(s, p, t)
  {
  }

  /** The same, when the text opens with its transcript heading. */
  lemma JoinHeadingsAtStart(s: string, t: nat, r: string)
    requires FirstHeading(s, TranscriptHead, 0) == Some(0)
    requires FirstHeading(s, TranslationHead, 1) == Some(t)
    requires JoinAt(s, 0, t) == r
    ensures JoinHeadings(s) == r
  {
    JoinHeadingsAt(s, 0, t);
  }

  /** Where the headings of `Transcript:\n{jp}{gap}Translation:...` are. */
  lemma HeadedHeadings(jp: string, gap: string, tail: string, u: string)
    requires IsStripped(jp) && NoHeadingLine(jp, TranslationHead)
    requires gap != [] && AllNewlines(gap)
    requires u == Headed(jp, gap, tail)
    ensures FirstHeading(u, TranscriptHead, 0) == Some(0)
    ensures FirstHeading(u, TranslationHead, 1) == Some(12 + |jp| + |gap|)
    ensures FirstHeading(u, TranslationHead, 0).Some?
  {
    TranslationAfterGap(jp, gap, tail);
    HeadedOpens(jp, gap, tail);
    LocatedHeadings(u, 12 + |jp| + |gap|);
  }

  /** Text opening with the transcript heading, whose first translation
      heading after the start is at `t`, has both headings where expected. */
  lemma LocatedHeadings(u: string, t: nat)
    requires |u| >= 11 && u[..11] == TranscriptHead
    requires FirstHeading(u, TranslationHead, 1) == Some(t)
    ensures FirstHeading(u, TranscriptHead, 0) == Some(0)
    ensures FirstHeading(u, TranslationHead, 0).Some?
  {
    TranscriptFirst(u);
    FirstHeadingSound(u, TranslationHead, 1);
    FirstHeadingLeast(u, TranslationHead, 0, t);
  }

  /** JoinAt assembled from its kept prefix and its kept suffix. */
  lemma JoinAtParts(s: string, p: nat, t: nat, front: string, rest: string)
    requires p <= t && t + |TranslationHead| <= |s|
    requires s[..p] + RStrip(s[p..t]) == front
    requires s[t + |TranslationHead| + SpaceRun(s, t + |TranslationHead|)..] == rest
    ensures JoinAt(s, p, t) == front + "\n\nTranslation:\n" + rest
  {
  }

  /** The replacement made in `Transcript:\n{jp}{gap}Translation:\n{en}`. */
  lemma HeadedJoin(jp: string, gap: string, en: string, tail: string, u: string, t: nat)
    requires IsStripped(jp) && gap != [] && AllNewlines(gap)
    requires IsStripped(en) && (tail == "\n" + en || (tail == [] && en == []))
    requires u == Headed(jp, gap, tail) && t == 12 + |jp| + |gap|
    ensures t + 12 <= |u| && JoinAt(u, 0, t) == TranscriptPart(jp) + "\n\nTranslation:\n" + en
  {
    HeadedFront(jp, gap, tail, u, t);
    HeadedRest(jp, gap, en, tail, u, t);
    JoinAtParts(u, 0, t, TranscriptPart(jp), en);
  }

  /** What JoinAt keeps before the translation heading of headed text `u`. */
  lemma HeadedFront(jp: string, gap: string, tail: string, u: string, t: nat)
    requires IsStripped(jp) && gap != [] && AllNewlines(gap)
    requires u == Headed(jp, gap, tail) && t == 12 + |jp| + |gap|
    ensures t <= |u| && u[..0] + RStrip(u[0..t]) == TranscriptPart(jp)
  {
    assert u[0..t] == "Transcript:\n" + jp + gap;
    RStripTranscript(jp, gap);
  }

  /** What JoinAt keeps after the translation heading of headed text `u`. */
  lemma HeadedRest(jp: string, gap: string, en: string, tail: string, u: string, t: nat)
    requires IsStripped(en) && (tail == "\n" + en || (tail == [] && en == []))
    requires u == Headed(jp, gap, tail) && t == 12 + |jp| + |gap|
    ensures t + 12 <= |u| && u[t + 12 + SpaceRun(u, t + 12)..] == en
  {
    var e := t + 12 + SpaceRun(u, t + 12);
    assert e == |u| - |en| by {
      if tail != [] {
        assert u[t + 12] == '\n';
        if en != [] {
          assert u[t + 13] == en[0];
        }
      }
    }
    assert u[e..] == en;
  }

  /** Canonical text is headed text with one blank line between. */
  lemma FormatHeaded(jp: string, en: string)
    ensures Format(jp, en) == Headed(jp, "\n\n", "\n" + en)
    ensures Format(jp, en) == Headed(jp, "\n\n", []) + "\n" + en
  {
  }

  /** Stripping canonical text only drops the line feed that ends an empty
      translation. */
  lemma StripFormat(jp: string, en: string)
    requires IsStripped(jp) && IsStripped(en)
    ensures Strip(Format(jp, en)) == Headed(jp, "\n\n", if en == [] then [] else "\n" + en)
  {
    var s := Format(jp, en);
    FormatHeaded(jp, en);
    var h := Headed(jp, "\n\n", []);
    assert h[0] == 'T' && h[|h| - 1] == ':';
    if en == [] {
      assert s == h + "\n";
      StripNewlineEnd(h);
    } else {
      assert s[0] == 'T' && s[|s| - 1] == en[|en| - 1];
      StripStripped(s);
    }
  }

  /** The canonical translation heading line, split before its line feed. */
  lemma HeadingLineSplit(p: string, en: string)
    ensures p + "\n\nTranslation:\n" + en == p + "\n\nTranslation:" + "\n" + en
  {
  }

  /** Stripping text that has no edge whitespace but a final line feed. */
  lemma StripNewlineEnd(x: string)
    requires IsStripped(x)
    ensures Strip(x + "\n") == x
  {
    assert [] + x + "\n" == x + "\n";
    StripPadded([], x, "\n");
  }

  /** Stripping a heading line followed by a line feed and a stripped body:
      only the line feed goes, and only when the body is empty. */
  lemma StripHeadBody(h: string, en: string)
    requires h != [] && !IsSpace(h[0]) && h[|h| - 1] == ':' && IsStripped(en)
    ensures Strip(h + "\n" + en) == h + (if en == [] then [] else "\n" + en)
  {
    if en == [] {
      assert h + "\n" + en == h + "\n";
      StripNewlineEnd(h);
    } else {
      var s := h + "\n" + en;
      assert s[0] == h[0] && s[|s| - 1] == en[|en| - 1];
      StripStripped(s);
    }
  }

  /** Stripping the joined sections gives the canonical form. */
  lemma StripJoined(jp: string, en: string)
    requires IsStripped(en)
    ensures Strip(TranscriptPart(jp) + "\n\nTranslation:\n" + en) == Canon(jp, en)
  {
    var h := TranscriptPart(jp) + "\n\nTranslation:";
    HeadingLineSplit(TranscriptPart(jp), en);
    assert h[0] == 'T' && h[|h| - 1] == ':';
    StripHeadBody(h, en);
  }

  /** Text that, once stripped and with its tags replaced, has both
      headings is enforced to the canonical form. */
  lemma EnforceHeaded(s: string, jp: string, gap: string, en: string, tail: string)
    requires s != [] && Tags(Strip(s)) == Headed(jp, gap, tail)
    requires IsStripped(jp) && NoHeadingLine(jp, TranslationHead)
    requires gap != [] && AllNewlines(gap)
    requires IsStripped(en) && (tail == "\n" + en || (tail == [] && en == []))
    ensures EnforceSections(s) == Canon(jp, en)
  {
    var u := Tags(Strip(s));
    var t := 12 + |jp| + |gap|;
    HeadedHeadings(jp, gap, tail, u);
    HeadedJoined(jp, gap, en, tail, u, t);
    EnforceJoined(s, u, Canon(jp, en));
  }

  /** Joining the headings of `Transcript:\n{jp}{gap}Translation:{tail}`,
      once they are located, and stripping gives the canonical form. */
  lemma HeadedJoined(jp: string, gap: string, en: string, tail: string, u: string, t: nat)
    requires u == Headed(jp, gap, tail) && t == 12 + |jp| + |gap|
    requires IsStripped(jp) && gap != [] && AllNewlines(gap)
    requires IsStripped(en) && (tail == "\n" + en || (tail == [] && en == []))
    requires FirstHeading(u, TranscriptHead, 0) == Some(0)
    requires FirstHeading(u, TranslationHead, 1) == Some(t)
    ensures Strip(JoinHeadings(u)) == Canon(jp, en)
  {
    HeadedJoin(jp, gap, en, tail, u, t);
    JoinedCanon(u, t, jp, en);
  }

  /** Joining located headings whose replacement is the canonical joint. */
  lemma JoinedCanon(u: string, t: nat, jp: string, en: string)
    requires IsStripped(en)
    requires FirstHeading(u, TranscriptHead, 0) == Some(0)
    requires FirstHeading(u, TranslationHead, 1) == Some(t)
    requires t + 12 <= |u| && JoinAt(u, 0, t) == TranscriptPart(jp) + "\n\nTranslation:\n" + en
    ensures Strip(JoinHeadings(u)) == Canon(jp, en)
  {
    JoinHeadingsAtStart(u, t, TranscriptPart(jp) + "\n\nTranslation:\n" + en);
    StripJoined(jp, en);
  }

  /** Enforcement of text whose retagged form has both headings. */
  lemma EnforceJoined(s: string, u: string, r: string)
    requires s != [] && Tags(Strip(s)) == u
    requires FirstHeading(u, TranscriptHead, 0).Some? && FirstHeading(u, TranslationHead, 0).Some?
    requires Strip(JoinHeadings(u)) == r
    ensures EnforceSections(s) == r
  {
  }

  /** Enforcing canonical text: both headings are found and joined, which
      gives Canon. */
  lemma EnforceFormat(jp: string, en: string)
    requires IsStripped(jp) && IsStripped(en)
    requires '<' !in jp && '<' !in en
    requires NoHeadingLine(jp, TranslationHead)
    ensures EnforceSections(Format(jp, en)) == Canon(jp, en)
  {
    var tail := if en == [] then [] else "\n" + en;
    var u := Headed(jp, "\n\n", tail);
    StripFormat(jp, en);
    assert '<' !in u;
    TagsCopy(u);
    NewlineGaps();
    EnforceHeaded(Format(jp, en), jp, "\n\n", en, tail);
  }

  /** Canonical text is a fixed point of enforcement exactly when both
      sections are non-empty. */
  lemma EnforceCanonical(jp: string, en: string)
    requires IsStripped(jp) && IsStripped(en)
    requires '<' !in jp && '<' !in en
    requires NoHeadingLine(jp, TranslationHead)
    ensures EnforceSections(Format(jp, en)) == Format(jp, en) <==> jp != [] && en != []
  {
    EnforceFormat(jp, en);
    CanonFormat(jp, en);
  }

  /** Canon and Format agree exactly when both sections are non-empty. */
  lemma CanonFormat(jp: string, en: string)
    ensures Canon(jp, en) == Format(jp, en) <==> jp != [] && en != []
  {
    if jp != [] && en != [] {
      assert Canon(jp, en) == Format(jp, en);
    } else {
      assert |Canon(jp, en)| < |Format(jp, en)|;
    }
  }

  // ---------------------------------------------------------------------
  // The tagged layout (EnforceTagged): the first tag pass
  // (TagsFirstPass), the second (TagsSecondPass), then the join
  // ---------------------------------------------------------------------

  /** No tag starts in `s[lo..hi]` (recursive, so that it unfolds only as
      far as a proof asks). */
  predicate TagFree(s: string, lo: nat, hi: nat, name: string, suffix: string)
    decreases hi - lo
  {
    lo >= hi || (TagEnd(s, lo, name, suffix) == None && TagFree(s, lo + 1, hi, name, suffix))
  }

  /** TagFree from the quantified statement. */
  lemma {:induction false} TagFreeAll(s: string, lo: nat, hi: nat, name: string, suffix: string)
    requires forall k :: lo <= k < hi ==> TagEnd(s, k, name, suffix) == None
    ensures TagFree(s, lo, hi, name, suffix)
    decreases hi - lo
  {
    if lo < hi {
      TagFreeAll(s, lo + 1, hi, name, suffix);
    }
  }

  /** Adjacent tag-free ranges make one. */
  lemma {:induction false} TagFreeJoin(s: string, a: nat, b: nat, c: nat, name: string, suffix: string)
    requires a <= b <= c
    requires TagFree(s, a, b, name, suffix) && TagFree(s, b, c, name, suffix)
    ensures TagFree(s, a, c, name, suffix)
    decreases b - a
  {
    if a < b {
      TagFreeJoin(s, a + 1, b, c, name, suffix);
    }
  }

  /** Where no tag starts, the substitution copies the text. */
  lemma {:induction false} SubTagsPlain(s: string, i: nat, j: nat, name: string, suffix: string, rep: string)
    requires i <= j <= |s|
    requires TagFree(s, i, j, name, suffix)
    ensures SubTags(s, i, name, suffix, rep) == s[i..j] + SubTags(s, j, name, suffix, rep)
    decreases j - i
  {
    if i < j {
      SubTagsPlain(s, i + 1, j, name, suffix, rep);
      SliceCons(s, i, j, SubTags(s, j, name, suffix, rep));
    }
  }

  /** No tag starts in `s[lo..hi]` when it holds no '<' and ends with a
      non-space character. */
  lemma NoTagsIn(s: string, lo: nat, hi: nat, name: string, suffix: string)
    requires lo < hi <= |s| && !IsSpace(s[hi - 1])
    requires forall q :: lo <= q < hi ==> s[q] != '<'
    ensures TagFree(s, lo, hi, name, suffix)
  {
    forall k | lo <= k < hi ensures TagEnd(s, k, name, suffix) == None {
      SpaceRunSpaces(s, k);
    }
    TagFreeAll(s, lo, hi, name, suffix);
  }

  /** No tag starts inside a line, away from its start. */
  lemma NoTagsMidLine(s: string, lo: nat, hi: nat, name: string, suffix: string)
    requires 0 < lo <= hi <= |s|
    requires forall q :: lo - 1 <= q < hi - 1 ==> s[q] != '\n'
    ensures TagFree(s, lo, hi, name, suffix)
  {
    forall k | lo <= k < hi ensures !LineStart(s, k) {
      assert s[k - 1] != '\n';
    }
    TagFreeAll(s, lo, hi, name, suffix);
  }

  /** No tag starts just after a character other than a line feed. */
  lemma NoTagAfter(s: string, k: nat, name: string, suffix: string)
    requires 0 < k <= |s| && s[k - 1] != '\n'
    ensures TagFree(s, k, k + 1, name, suffix)
  {
  }

  /** A reply in the legacy tagged layout. */
  function Tagged(jp: string, en: string): string {
    "<block1-jp>\n" + jp + "\n<block2-en>\n" + en
  }

  /** The parts of a tagged reply, by position. */
  lemma TaggedParts(jp: string, en: string)
    ensures var s := Tagged(jp, en); var n := |jp|;
      && |s| == 25 + n + |en|
      && s[..12] == "<block1-jp>\n"
      && s[12..|s|] == jp + "\n<block2-en>\n" + en
      && s[12..12 + n] == jp
      && s[12 + n] == '\n' && s[13 + n..24 + n] == "<block2-en>"
      && s[25 + n..25 + n + |en|] == en
  {
  }

  /** A tag without inner whitespace: `<`, the name, the suffix, `>`. */
  lemma TagEndPlain(s: string, i: nat, name: string, suffix: string)
    requires LineStart(s, i) && name != [] && suffix != []
    requires !IsSpace(name[0]) && !IsSpace(suffix[0])
    requires i + |name| + |suffix| + 2 <= |s|
    requires s[i] == '<' && s[i + 1..i + 1 + |name|] == name
    requires s[i + 1 + |name|..i + 1 + |name| + |suffix|] == suffix
    requires s[i + 1 + |name| + |suffix|] == '>'
    ensures var e := i + |name| + |suffix| + 2; TagEnd(s, i, name, suffix) == Some(e + SpaceRun(s, e))
  {
    var b := i + 1;
    var c := b + |name|;
    var d := c + |suffix|;
    NoSpaceAt(s, i);
    assert s[b] == s[b..b + |name|][0];
    NoSpaceAt(s, b);
    MatchesSlice(s, b, name, true);
    MatchesSlice(s, c, suffix, true);
    NoSpaceAt(s, d);
    TagEndSteps(s, i, name, suffix);
  }

  lemma NoSpaceAt(s: string, i: nat)
    requires i < |s| && !IsSpace(s[i])
    ensures SpaceRun(s, i) == 0
  {
  }

  /** The tag match written out step by step, once each step is known. */
  lemma TagEndSteps(s: string, i: nat, name: string, suffix: string)
    requires LineStart(s, i) && i + |name| + |suffix| + 2 <= |s|
    requires SpaceRun(s, i) == 0 && s[i] == '<' && SpaceRun(s, i + 1) == 0
    requires MatchesAt(s, i + 1, name, true) && MatchesAt(s, i + 1 + |name|, suffix, true)
    requires SpaceRun(s, i + 1 + |name| + |suffix|) == 0 && s[i + 1 + |name| + |suffix|] == '>'
    ensures var e := i + |name| + |suffix| + 2; TagEnd(s, i, name, suffix) == Some(e + SpaceRun(s, e))
  {
  }

  /** No tag starts in text `x` found at `lo` when it holds no '<' and ends
      with a non-space character. */
  lemma NoTagsInText(s: string, lo: nat, x: string, name: string, suffix: string)
    requires lo + |x| <= |s| && s[lo..lo + |x|] == x
    requires x != [] && !IsSpace(x[|x| - 1]) && '<' !in x
    ensures TagFree(s, lo, lo + |x|, name, suffix)
  {
    forall q | lo <= q < lo + |x| ensures s[q] != '<' {
      assert s[q] == x[q - lo];
    }
    NoTagsIn(s, lo, lo + |x|, name, suffix);
  }

  /** The opening tag line of a tagged reply. */
  lemma OpeningTag(s: string)
    requires |s| > 12 && s[..12] == "<block1-jp>\n" && !IsSpace(s[12])
    ensures TagEnd(s, 0, "block1", "-jp") == Some(12)
  {
    assert s[1..7] == s[..12][1..7] == "block1";
    assert s[7..10] == s[..12][7..10] == "-jp";
    assert s[10] == s[..12][10];
    TagEndPlain(s, 0, "block1", "-jp");
    assert s[11] == s[..12][11];
  }

  /** The closing tag line holds no `block1` tag. */
  lemma NoBlock1InLine(s: string, m: nat)
    requires 0 < m && m + 13 <= |s| && s[m - 1] != '\n' && s[m] == '\n'
    requires s[m + 1..m + 12] == "<block2-en>"
    ensures TagFree(s, m, m + 13, "block1", "-jp")
  {
    var x := s[m + 1..m + 12];
    forall q | m + 1 <= q < m + 12 ensures s[q] != '\n' {
      assert s[q] == x[q - m - 1];
    }
    NoTagsMidLine(s, m, m + 1, "block1", "-jp");
    Block2NotBlock1(s, m + 1);
    assert TagFree(s, m + 1, m + 2, "block1", "-jp");
    NoTagsMidLine(s, m + 2, m + 13, "block1", "-jp");
    TagFreeJoin(s, m, m + 1, m + 2, "block1", "-jp");
    TagFreeJoin(s, m, m + 2, m + 13, "block1", "-jp");
  }

  /** The closing tag is not an opening tag. */
  lemma Block2NotBlock1(s: string, i: nat)
    requires i + 11 <= |s| && s[i..i + 11] == "<block2-en>"
    ensures TagEnd(s, i, "block1", "-jp") == None
  {
    var x := s[i..i + 11];
    assert s[i] == x[0] && s[i + 1] == x[1] && s[i + 6] == x[6];
    assert SpaceRun(s, i) == 0 && SpaceRun(s, i + 1) == 0;
    assert !SameChar(s[i + 1 + 5], "block1"[5], true);
  }

  /** Where the first tag substitution finds its one tag. */
  lemma FirstPassAt(s: string, jp: string, en: string)
    requires jp != [] && en != [] && IsStripped(jp) && IsStripped(en)
    requires '<' !in jp && '<' !in en
    requires var n := |jp|;
      && |s| == 25 + n + |en|
      && s[..12] == "<block1-jp>\n"
      && s[12..12 + n] == jp
      && s[12 + n] == '\n' && s[13 + n..24 + n] == "<block2-en>"
      && s[25 + n..25 + n + |en|] == en
    ensures SubTags(s, 0, "block1", "-jp", "Transcript:\n") == "Transcript:\n" + s[12..|s|]
  {
    var n := |jp|;
    assert s[12] == jp[0];
    OpeningTag(s);
    NoTagsInText(s, 12, jp, "block1", "-jp");
    assert s[11 + n] == jp[n - 1];
    NoBlock1InLine(s, 12 + n);
    NoTagsInText(s, 25 + n, en, "block1", "-jp");
    TagFreeJoin(s, 12, 12 + n, 25 + n, "block1", "-jp");
    TagFreeJoin(s, 12, 25 + n, |s|, "block1", "-jp");
    SubTagsOnce(s, 0, 12, "block1", "-jp", "Transcript:\n");
    EmptyEnds(s, 0, "Transcript:\n", s[12..|s|]);
  }

  /** The first tag substitution turns the opening tag line into the
      transcript heading line. */
  lemma TagsFirstPass(jp: string, en: string)
    requires jp != [] && en != [] && IsStripped(jp) && IsStripped(en)
    requires '<' !in jp && '<' !in en
    ensures SubTags(Tagged(jp, en), 0, "block1", "-jp", "Transcript:\n")
         == "Transcript:\n" + jp + "\n<block2-en>\n" + en
  {
    var s := Tagged(jp, en);
    TaggedParts(jp, en);
    FirstPassAt(s, jp, en);
    PrependThree("Transcript:\n", s[12..|s|], jp, "\n<block2-en>\n", en);
  }

  /** A substitution that finds exactly one tag. */
  lemma SubTagsOnce(s: string, m: nat, e: nat, name: string, suffix: string, rep: string)
    requires m < e <= |s| && TagEnd(s, m, name, suffix) == Some(e)
    requires TagFree(s, 0, m, name, suffix)
    requires TagFree(s, e, |s|, name, suffix)
    ensures SubTags(s, 0, name, suffix, rep) == s[0..m] + (rep + (s[e..|s|] + []))
  {
    SubTagsPlain(s, 0, m, name, suffix, rep);
    assert SubTags(s, m, name, suffix, rep) == rep + SubTags(s, e, name, suffix, rep);
    SubTagsPlain(s, e, |s|, name, suffix, rep);
  }

  /** The parts of a reply after the first tag substitution, by position. */
  lemma RetaggedParts(jp: string, en: string)
    ensures var s := "Transcript:\n" + jp + "\n<block2-en>\n" + en; var n := |jp|;
      && |s| == 25 + n + |en|
      && s[..12] == "Transcript:\n"
      && s[12..12 + n] == jp
      && s[0..13 + n] == "Transcript:\n" + jp + "\n"
      && s[12 + n] == '\n' && s[13 + n..24 + n] == "<block2-en>" && s[24 + n] == '\n'
      && s[25 + n..25 + n + |en|] == en
      && s[25 + n..|s|] == en
  {
  }

  /** No tag starts on the transcript heading line. */
  lemma NoTagsInHeading(s: string, name: string, suffix: string)
    requires |s| >= 12 && s[..12] == "Transcript:\n"
    ensures TagFree(s, 0, 12, name, suffix)
  {
    var x := s[..12];
    assert s[0] == x[0];
    NoTagsIn(s, 0, 1, name, suffix);
    forall q | 0 <= q < 11 ensures s[q] != '\n' {
      assert s[q] == x[q];
    }
    NoTagsMidLine(s, 1, 12, name, suffix);
  }

  /** The closing tag line of a tagged reply. */
  lemma ClosingTag(s: string, m: nat)
    requires 0 < m && m + 12 < |s| && s[m - 1] == '\n'
    requires s[m..m + 11] == "<block2-en>" && s[m + 11] == '\n' && !IsSpace(s[m + 12])
    ensures TagEnd(s, m, "block2", "-en") == Some(m + 12)
  {
    var x := s[m..m + 11];
    SliceSlice(s, m, m + 11, 1, 7);
    assert x[1..7] == "block2";
    SliceSlice(s, m, m + 11, 7, 10);
    assert x[7..10] == "-en";
    assert s[m] == x[0] && s[m + 10] == x[10];
    TagEndPlain(s, m, "block2", "-en");
  }

  /** Putting the substituted reply back together. */
  lemma RetaggedResult(jp: string, en: string)
    ensures ("Transcript:\n" + jp + "\n") + ("\n\nTranslation:\n" + (en + []))
         == Headed(jp, "\n\n\n", "\n" + en)
  {
  }

  /** Where the second tag substitution finds its one tag, and that it
      finds no other. */
  lemma SecondPassAt(s: string, jp: string, en: string)
    requires jp != [] && en != [] && IsStripped(jp) && IsStripped(en)
    requires '<' !in jp && '<' !in en
    requires var n := |jp|;
      && |s| == 25 + n + |en|
      && s[..12] == "Transcript:\n"
      && s[12..12 + n] == jp
      && s[12 + n] == '\n' && s[13 + n..24 + n] == "<block2-en>" && s[24 + n] == '\n'
      && s[25 + n..25 + n + |en|] == en
    ensures var n := |jp|;
      && TagEnd(s, 13 + n, "block2", "-en") == Some(25 + n)
      && TagFree(s, 0, 13 + n, "block2", "-en")
      && TagFree(s, 25 + n, |s|, "block2", "-en")
  {
    SecondPassBefore(s, jp);
    SecondPassTag(s, |jp|, en);
  }

  /** No closing tag starts on the heading line or in the transcript. */
  lemma SecondPassBefore(s: string, jp: string)
    requires jp != [] && IsStripped(jp) && '<' !in jp
    requires 13 + |jp| <= |s| && s[..12] == "Transcript:\n"
    requires s[12..12 + |jp|] == jp && s[12 + |jp|] == '\n'
    ensures TagFree(s, 0, 13 + |jp|, "block2", "-en")
  {
    var n := |jp|;
    NoTagsInHeading(s, "block2", "-en");
    NoTagsInText(s, 12, jp, "block2", "-en");
    assert s[11 + n] == jp[n - 1];
    NoTagAfter(s, 12 + n, "block2", "-en");
    TagFreeJoin(s, 0, 12, 12 + n, "block2", "-en");
    TagFreeJoin(s, 0, 12 + n, 13 + n, "block2", "-en");
  }

  /** The closing tag line, and no tag in the translation after it. */
  lemma SecondPassTag(s: string, n: nat, en: string)
    requires en != [] && IsStripped(en) && '<' !in en
    requires |s| == 25 + n + |en| && s[12 + n] == '\n'
    requires s[13 + n..24 + n] == "<block2-en>" && s[24 + n] == '\n'
    requires s[25 + n..25 + n + |en|] == en
    ensures TagEnd(s, 13 + n, "block2", "-en") == Some(25 + n)
    ensures TagFree(s, 25 + n, |s|, "block2", "-en")
  {
    assert s[25 + n] == en[0];
    ClosingTag(s, 13 + n);
    NoTagsInText(s, 25 + n, en, "block2", "-en");
  }

  /** The second tag substitution turns the closing tag line into the
      translation heading, after a blank line. */
  lemma TagsSecondPass(jp: string, en: string)
    requires jp != [] && en != [] && IsStripped(jp) && IsStripped(en)
    requires '<' !in jp && '<' !in en
    ensures SubTags("Transcript:\n" + jp + "\n<block2-en>\n" + en, 0, "block2", "-en", "\n\nTranslation:\n")
         == Headed(jp, "\n\n\n", "\n" + en)
  {
    var s := "Transcript:\n" + jp + "\n<block2-en>\n" + en;
    RetaggedParts(jp, en);
    SecondPassAt(s, jp, en);
    SubTagsOnce(s, 13 + |jp|, 25 + |jp|, "block2", "-en", "\n\nTranslation:\n");
    RetaggedResult(jp, en);
  }

  /** A reply in the legacy tagged layout is enforced to the canonical
      layout. */
  lemma EnforceTagged(jp: string, en: string)
    requires jp != [] && en != [] && IsStripped(jp) && IsStripped(en)
    requires '<' !in jp && '<' !in en
    requires NoHeadingLine(jp, TranslationHead)
    ensures EnforceSections(Tagged(jp, en)) == Format(jp, en)
  {
    var s := Tagged(jp, en);
    assert s[0] == '<' && s[|s| - 1] == en[|en| - 1];
    StripStripped(s);
    TagsFirstPass(jp, en);
    TagsSecondPass(jp, en);
    NewlineGaps();
    EnforceHeaded(s, jp, "\n\n\n", en, "\n" + en);
    CanonFormat(jp, en);
  }

  // ---------------------------------------------------------------------
  // Unheaded paragraphs (EnforceParagraphs): the first blank line
  // ---------------------------------------------------------------------

  /** No blank-line run starts inside `x`. */
  predicate NoBlankLine(x: string) {
    forall p :: 0 <= p < |x| ==> BlankEnd(x, p) == None
  }

  /** A whitespace run inside a prefix that ends with a non-space character
      is measured the same in the whole text. */
  lemma {:induction false} SpaceRunPrefix(s: string, x: string, i: nat)
    requires |x| <= |s| && s[..|x|] == x && i < |x| && !IsSpace(x[|x| - 1])
    ensures SpaceRun(s, i) == SpaceRun(x, i)
    decreases |x| - i
  {
    assert s[i] == x[i];
    if IsSpace(x[i]) {
      SpaceRunPrefix(s, x, i + 1);
    }
  }

  lemma {:induction false} LastNewlinePrefix(s: string, x: string, a: nat, b: nat)
    requires |x| <= |s| && s[..|x|] == x && a <= b <= |x|
    ensures LastNewline(s, a, b) == LastNewline(x, a, b)
    decreases b - a
  {
    if a < b {
      assert s[b - 1] == x[b - 1];
      LastNewlinePrefix(s, x, a, b - 1);
    }
  }

  /** Blank-line runs starting inside a stripped prefix are those of the
      prefix. */
  lemma BlankEndPrefix(s: string, x: string, p: nat)
    requires |x| <= |s| && s[..|x|] == x && p < |x| && IsStripped(x)
    ensures BlankEnd(s, p) == BlankEnd(x, p)
  {
    assert s[p] == x[p];
    if x[p] == '\n' {
      SpaceRunPrefix(s, x, p + 1);
      LastNewlinePrefix(s, x, p + 1, p + 1 + SpaceRun(x, p + 1));
    }
  }

  /** The first blank-line run starts at `k`. */
  lemma FirstBlankIs(s: string, k: nat)
    requires k <= |s| && BlankEnd(s, k).Some?
    requires forall j :: 0 <= j < k ==> BlankEnd(s, j) == None
    ensures SplitBlank(s) == (s[..k], s[BlankEnd(s, k).value..])
  {
    FirstWhereIs((p: nat) => BlankEnd(s, p).Some?, 0, |s|, k);
  }

  /** Two paragraphs split at the blank line between them. */
  lemma SplitParagraphs(s: string, jp: string, en: string)
    requires jp != [] && en != [] && IsStripped(jp) && IsStripped(en) && NoBlankLine(jp)
    requires |s| == |jp| + 2 + |en| && s[..|jp|] == jp && s[|jp|] == '\n' && s[|jp| + 1] == '\n'
    requires s[|jp| + 2..] == en
    ensures SplitBlank(s) == (jp, en)
  {
    var n := |jp|;
    forall j | 0 <= j < n ensures BlankEnd(s, j) == None {
      BlankEndPrefix(s, jp, j);
    }
    assert s[n + 2] == en[0];
    assert SpaceRun(s, n + 1) == 1;
    assert BlankEnd(s, n) == Some(n + 2);
    FirstBlankIs(s, n);
  }

  /** No transcript heading in two paragraphs without one. */
  lemma NoTranscriptHeading(s: string, jp: string, en: string)
    requires jp != [] && IsStripped(jp)
    requires NoHeadingLine(jp, TranscriptHead) && NoHeadingLine(en, TranscriptHead)
    requires |s| == |jp| + 2 + |en| && s[..|jp|] == jp && s[|jp|] == '\n' && s[|jp| + 1] == '\n'
    requires s[|jp| + 2..] == en
    ensures FirstHeading(s, TranscriptHead, 0) == None
  {
    var n := |jp|;
    assert s[0..n] == jp;
    NoHeadingInside(s, 0, jp, TranscriptHead);
    assert s[n + 2..n + 2 + |en|] == en;
    NoHeadingInside(s, n + 2, en, TranscriptHead);
    assert s[n - 1] == jp[n - 1];
    assert !HeadingAt(s, n, TranscriptHead);
    assert !SameChar(s[n + 1], TranscriptHead[0], true);
    assert !HeadingAt(s, n + 1, TranscriptHead);
    FirstWhereNone((i: nat) => HeadingAt(s, i, TranscriptHead), 0, |s|);
  }

  /** A reply of two paragraphs without headings or tags: the first becomes
      the transcript, the second the translation. */
  lemma EnforceParagraphs(jp: string, en: string)
    requires jp != [] && en != [] && IsStripped(jp) && IsStripped(en)
    requires '<' !in jp && '<' !in en && NoBlankLine(jp)
    requires NoHeadingLine(jp, TranscriptHead) && NoHeadingLine(en, TranscriptHead)
    ensures EnforceSections(jp + "\n\n" + en) == Format(jp, en)
  {
    var s := jp + "\n\n" + en;
    var n := |jp|;
    assert s[..n] == jp && s[n] == '\n' && s[n + 1] == '\n' && s[n + 2..] == en;
    assert s[0] == jp[0] && s[|s| - 1] == en[|en| - 1];
    StripStripped(s);
    TagsCopy(s);
    NoTranscriptHeading(s, jp, en);
    SplitParagraphs(s, jp, en);
    StripStripped(jp);
    StripStripped(en);
  }

  /** An empty reply gets the empty skeleton; a blank one, empty sections
      in the canonical layout. */
  lemma EnforceBlank(s: string)
    requires AllSpace(s)
    ensures EnforceSections(s) == if s == [] then EmptyReply else Format([], [])
  {
    if s != [] {
      StripAllSpace(s);
      TagsCopy([]);
      FirstWhereNone((i: nat) => HeadingAt([], i, TranscriptHead), 0, 0);
      FirstWhereNone((p: nat) => BlankEnd([], p).Some?, 0, 0);
    }
  }

  // ---------------------------------------------------------------------
  // Splitting a reply into its two sections
  // ---------------------------------------------------------------------

  /** What ends the transcript body. */
  const Marker := "\n\nTranslation:"

  /** The lazy body `(.*?)` followed by the marker, after the greedy `\s*`
      that follows the transcript heading: the `w` whitespace characters
      from `g` are tried first, then fewer. The result is where the body
      starts and where the marker is. */
  function BodyFrom(s: string, g: nat, w: nat): (r: Option<(nat, nat)>)
    ensures r.Some? ==> g <= r.value.0 <= r.value.1 && r.value.1 + |Marker| <= |s|
    decreases w
  {
    match Find(s, Marker, g + w, true)
    case Some(y) => Some((g + w, y))
    case None => if w == 0 then None else BodyFrom(s, g, w - 1)
  }

  /** `^Transcript:\s*(.*?)\n\nTranslation:\s*(.*)\s*$` (case-insensitive,
      dot matching line feeds) tried at `i`: the two groups. */
  function SectionsAt(s: string, i: nat): Option<(string, string)> {
    if !HeadingAt(s, i, TranscriptHead) then None
    else
      match BodyFrom(s, i + |TranscriptHead|, SpaceRun(s, i + |TranscriptHead|))
      case None => None
      case Some((a, y)) =>
        var z := y + |Marker|;
        Some((s[a..y], s[z + SpaceRun(s, z)..]))
  }

  /** re.search of that pattern: the first position where it matches. */
  function MatchSections(s: string): Option<(string, string)> {
    match FirstWhere((i: nat) => SectionsAt(s, i).Some?, 0, |s|)
    case None => None
    case Some(i) => SectionsAt(s, i)
  }

  /** split_tt: line endings normalised, the sections matched (after one
      enforcement when they are not found at first), both stripped; empty
      when even the enforced text does not match. */
  function SplitSections(s: string): (r: (string, string))
    ensures IsStripped(r.0) && IsStripped(r.1)
  {
    var t := Replace(s, "\r\n", "\n", false);
    var m: Option<(string, string)> :=
      if MatchSections(t).Some? then MatchSections(t) else MatchSections(EnforceSections(t));
    if m.Some? then (Strip(m.value.0), Strip(m.value.1)) else ([], [])
  }

  /** `x` holds no marker, in any letter case. */
  predicate NoMarker(x: string) {
    forall k :: 0 <= k <= |x| ==> !MatchesAt(x, k, Marker, true)
  }

  // ---------------------------------------------------------------------
  // Canonical text splits back (MatchFormat, SplitFormat): the body
  // and the gap after the marker, position by position
  // ---------------------------------------------------------------------

  /** Without a carriage return, normalising line endings changes nothing. */
  lemma CrLfFree(s: string)
    requires '\r' !in s
    ensures Replace(s, "\r\n", "\n", false) == s
  {
    forall k | 0 <= k < |s| ensures s[k] != '\r' {
      assert s[k] in s;
    }
    forall k | 0 <= k < |s| ensures !MatchesAt(s, k, "\r\n", false) {
      assert !SameChar(s[k + 0], "\r\n"[0], false);
    }
    ReplaceNoMatch(s, "\r\n", "\n", false);
  }

  /** The parts of canonical text, by position. */
  lemma FormatParts(jp: string, en: string)
    ensures var s := Format(jp, en); var n := |jp|;
      && |s| == 27 + n + |en|
      && s[..11] == TranscriptHead && s[11] == '\n'
      && s[12..12 + n] == jp
      && s[12 + n..26 + n] == Marker && s[26 + n] == '\n'
      && s[27 + n..] == en
  {
  }

  /** Canonical text holds a carriage return only where its sections do. */
  lemma FormatNoCr(jp: string, en: string)
    requires '\r' !in jp && '\r' !in en
    ensures '\r' !in Format(jp, en)
  {
  }

  /** The marker is not found before the end of a transcript body that
      holds none. */
  lemma MarkerAfterBody(s: string, jp: string, off: nat)
    requires jp != [] && IsStripped(jp) && NoMarker(jp)
    requires off + |jp| < |s| && s[off..off + |jp|] == jp && s[off + |jp|] == '\n'
    ensures forall j :: off <= j < off + |jp| ==> !MatchesAt(s, j, Marker, true)
  {
    var n := |jp|;
    forall j | off <= j < off + n && MatchesAt(s, j, Marker, true) ensures false {
      if j + |Marker| <= off + n {
        MatchFromInfix(s, jp, off, j - off, Marker, true);
      } else if j == off + n - 1 {
        assert s[j] == jp[n - 1];
        assert SameChar(s[j + 0], Marker[0], true);
        FoldNewline(s[j]);
      } else {
        var m := off + n - j;
        assert 2 <= m < |Marker|;
        assert SameChar(s[j + m], Marker[m], true);
        FoldNewline(Marker[m]);
      }
    }
  }

  /** After the transcript heading of canonical text, the lazy body ends
      right before the first marker. */
  lemma FormatBody(s: string, jp: string)
    requires jp != [] && IsStripped(jp) && NoMarker(jp)
    requires var n := |jp|;
      && 26 + n < |s| && s[11] == '\n' && s[12..12 + n] == jp
      && s[12 + n..26 + n] == Marker && s[26 + n] == '\n'
    ensures BodyFrom(s, 11, SpaceRun(s, 11)) == Some((12, 12 + |jp|))
  {
    var n := |jp|;
    assert s[12] == jp[0];
    assert SpaceRun(s, 11) == 1;
    MarkerAfterBody(s, jp, 12);
    assert s[12 + n..12 + n + |Marker|] == Marker;
    MatchesSlice(s, 12 + n, Marker, true);
    FindIs(s, Marker, 12, true, 12 + n);
  }

  /** The whitespace after the marker of canonical text is its one newline. */
  lemma FormatGap(s: string, z: nat, en: string)
    requires IsStripped(en) && z < |s| && s[z] == '\n' && s[z + 1..] == en
    ensures SpaceRun(s, z) == 1
  {
    assert |s| == z + 1 || s[z + 1] == en[0];
  }

  /** After the transcript heading of canonical text with an empty
      transcript, the greedy whitespace gives back two of its three line
      feeds and the lazy body ends empty, right before the marker. */
  lemma EmptyBody(s: string, en: string)
    requires IsStripped(en) && NoMarker(en)
    requires && |s| == 27 + |en| && s[11] == '\n'
      && s[12..26] == Marker && s[26] == '\n' && s[27..] == en
    ensures BodyFrom(s, 11, SpaceRun(s, 11)) == Some((12, 12))
  {
    assert s[12] == '\n' && s[13] == '\n' && s[14] == 'T';
    assert SpaceRun(s, 14) == 0;
    assert SpaceRun(s, 12) == 2;
    assert SpaceRun(s, 11) == 3;
    NoMarkerAfterEmpty(s, en);
    FindNone(s, Marker, 14, true);
    FindNone(s, Marker, 13, true);
    MatchesSlice(s, 12, Marker, true);
    FindIs(s, Marker, 12, true, 12);
  }

  /** In that text no marker starts after the one that closes the empty
      transcript. */
  lemma NoMarkerAfterEmpty(s: string, en: string)
    requires IsStripped(en) && NoMarker(en)
    requires && |s| == 27 + |en|
      && s[12..26] == Marker && s[26] == '\n' && s[27..] == en
    ensures forall j :: 13 <= j <= |s| ==> !MatchesAt(s, j, Marker, true)
  {
    FoldNewline('\n');
    forall j | 13 <= j <= |s| ensures !MatchesAt(s, j, Marker, true) {
      if j == 13 {
        assert s[14] == Marker[2];
        FoldNewline(s[14]);
        assert !SameChar(s[j + 1], Marker[1], true);
      } else if j < 26 {
        assert s[j] == Marker[j - 12];
        FoldNewline(s[j]);
        assert !SameChar(s[j + 0], Marker[0], true);
      } else if j == 26 && en != [] {
        assert s[27] == en[0];
        FoldNewline(s[27]);
        assert !SameChar(s[j + 1], Marker[1], true);
      } else if j > 26 && MatchesAt(s, j, Marker, true) {
        MatchFromInfix(s, en, 27, j - 27, Marker, true);
      }
    }
  }

  /** Text that opens with the transcript heading matches it at 0. */
  lemma OpensWithHeading(s: string)
    requires |s| >= 11 && s[..11] == TranscriptHead
    ensures MatchesAt(s, 0, TranscriptHead, true)
  {
    assert s[0..11] == s[..11];
    MatchesSlice(s, 0, TranscriptHead, true);
  }

  /** In canonical text with an empty transcript and a translation without
      a marker, the pattern matches at the start and finds both sections. */
  lemma EmptySectionsAt(s: string, en: string)
    requires IsStripped(en) && NoMarker(en)
    requires && |s| == 27 + |en|
      && s[..11] == TranscriptHead && s[11] == '\n'
      && s[12..26] == Marker && s[26] == '\n' && s[27..] == en
    ensures SectionsAt(s, 0) == Some(([], en))
  {
    OpensWithHeading(s);
    EmptyBody(s, en);
    FormatGap(s, 26, en);
    SectionsAtStart(s, 12, 12, [], en);
  }

  /** In canonical text with a non-empty transcript the pattern matches at
      the start and finds both sections. */
  lemma FormatSectionsAt(s: string, jp: string, en: string)
    requires jp != [] && IsStripped(jp) && IsStripped(en) && NoMarker(jp)
    requires var n := |jp|;
      && |s| == 27 + n + |en|
      && s[..11] == TranscriptHead && s[11] == '\n'
      && s[12..12 + n] == jp
      && s[12 + n..26 + n] == Marker && s[26 + n] == '\n'
      && s[27 + n..] == en
    ensures SectionsAt(s, 0) == Some((jp, en))
  {
    var n := |jp|;
    OpensWithHeading(s);
    FormatBody(s, jp);
    FormatGap(s, 26 + n, en);
    SectionsAtStart(s, 12, 12 + n, jp, en);
  }

  /** SectionsAt at the start, once the body and the gap after it are known. */
  lemma SectionsAtStart(s: string, a: nat, y: nat, jp: string, en: string)
    requires MatchesAt(s, 0, TranscriptHead, true)
    requires BodyFrom(s, 11, SpaceRun(s, 11)) == Some((a, y))
    requires s[a..y] == jp
    requires SpaceRun(s, y + |Marker|) == 1 && s[y + |Marker| + 1..] == en
    ensures SectionsAt(s, 0) == Some((jp, en))
  {
  }

  /** The pattern finds the sections of canonical text. */
  lemma MatchFormat(jp: string, en: string)
    requires jp != [] || NoMarker(en)
    requires IsStripped(jp) && IsStripped(en) && NoMarker(jp)
    ensures MatchSections(Format(jp, en)) == Some((jp, en))
  {
    var s := Format(jp, en);
    FormatParts(jp, en);
    if jp == [] {
      EmptySectionsAt(s, en);
    } else {
      FormatSectionsAt(s, jp, en);
    }
    FirstWhereIs((i: nat) => SectionsAt(s, i).Some?, 0, |s|, 0);
  }

  /** Splitting canonical text gives back its two sections. */
  lemma SplitFormat(jp: string, en: string)
    requires jp != [] || NoMarker(en)
    requires IsStripped(jp) && IsStripped(en) && NoMarker(jp)
    requires '\r' !in jp && '\r' !in en
    ensures SplitSections(Format(jp, en)) == (jp, en)
  {
    FormatNoCr(jp, en);
    CrLfFree(Format(jp, en));
    MatchFormat(jp, en);
    StripStripped(jp);
    StripStripped(en);
  }

  /** Without a transcript heading the pattern finds nothing. */
  lemma NoSections(s: string)
    requires FirstHeading(s, TranscriptHead, 0) == None
    ensures MatchSections(s) == None
  {
    forall i | 0 <= i <= |s| ensures !HeadingAt(s, i, TranscriptHead) {
      if HeadingAt(s, i, TranscriptHead) {
        FirstHeadingLeast(s, TranscriptHead, 0, i);
      }
    }
    FirstWhereNone((i: nat) => SectionsAt(s, i).Some?, 0, |s|);
  }

  /** Two paragraphs without headings are split after being enforced into
      canonical text. */
  lemma SplitUnheaded(jp: string, en: string)
    requires jp != [] && en != [] && IsStripped(jp) && IsStripped(en)
    requires '<' !in jp && '<' !in en && '\r' !in jp && '\r' !in en
    requires NoBlankLine(jp) && NoMarker(jp)
    requires NoHeadingLine(jp, TranscriptHead) && NoHeadingLine(en, TranscriptHead)
    ensures SplitSections(jp + "\n\n" + en) == (jp, en)
  {
    var s := jp + "\n\n" + en;
    var n := |jp|;
    assert s[..n] == jp && s[n] == '\n' && s[n + 1] == '\n' && s[n + 2..] == en;
    assert '\r' !in s;
    CrLfFree(s);
    NoTranscriptHeading(s, jp, en);
    NoSections(s);
    EnforceParagraphs(jp, en);
    MatchFormat(jp, en);
    StripStripped(jp);
    StripStripped(en);
  }

  // ---------------------------------------------------------------------
  // Reversed headings (EnforceReversed, SplitFallback); FallbackText,
  // FallbackChars and FallbackStripped spell out the one example
  // ---------------------------------------------------------------------

  /** No transcript heading starts before the one after a translation
      heading line. */
  lemma ReversedHeadings(s: string)
    requires |s| == 24 && s[..12] == TranslationHead && s[12] == '\n'
    requires s[13..] == TranscriptHead
    ensures FirstHeading(s, TranscriptHead, 0) == Some(13)
    ensures FirstHeading(s, TranslationHead, 0) == Some(0)
    ensures FirstHeading(s, TranslationHead, 14) == None
    ensures forall j :: 0 <= j <= |s| && j != 13 ==> !HeadingAt(s, j, TranscriptHead)
  {
    assert s[0..12] == s[..12];
    MatchesSlice(s, 0, TranslationHead, true);
    FirstHeadingIs(s, TranslationHead, 0, 0);
    assert s[13..13 + 11] == TranscriptHead;
    MatchesSlice(s, 13, TranscriptHead, true);
    forall j | 0 <= j < 13 ensures !HeadingAt(s, j, TranscriptHead) {
      if j == 0 {
        assert !SameChar(s[0 + 5], TranscriptHead[5], true);
      } else {
        assert s[j - 1] == TranslationHead[j - 1] || j == 13;
      }
    }
    FirstHeadingIs(s, TranscriptHead, 0, 13);
    FirstWhereNone((i: nat) => HeadingAt(s, i, TranslationHead), 14, |s|);
  }

  /** Enforcement leaves text whose translation heading comes first as it
      is. */
  lemma EnforceReversed(s: string)
    requires |s| == 24 && s[..12] == TranslationHead && s[12] == '\n'
    requires s[13..] == TranscriptHead && '<' !in s && IsStripped(s)
    ensures EnforceSections(s) == s
  {
    StripStripped(s);
    TagsCopy(s);
    ReversedHeadings(s);
  }

  /** Nothing matches text whose translation heading comes first. */
  lemma MatchReversed(s: string)
    requires |s| == 24 && s[..12] == TranslationHead && s[12] == '\n'
    requires s[13..] == TranscriptHead
    ensures MatchSections(s) == None
  {
    ReversedHeadings(s);
    FindNone(s, Marker, 24, true);
    assert SectionsAt(s, 13) == None;
    FirstWhereNone((i: nat) => SectionsAt(s, i).Some?, 0, |s|);
  }

  /** Text whose translation heading comes first is left as it is by
      enforcement and then matched by nothing, so splitting falls back to
      two empty sections. */
  lemma SplitFallback(s: string)
    requires s == "Translation:\nTranscript:"
    ensures SplitSections(s) == ([], [])
  {
    FallbackText(s);
    FallbackChars(s);
    FallbackStripped(s);
    CrLfFree(s);
    EnforceReversed(s);
    MatchReversed(s);
  }

  lemma FallbackText(s: string)
    requires s == "Translation:\nTranscript:"
    ensures |s| == 24 && s[..12] == TranslationHead && s[12] == '\n' && s[13..] == TranscriptHead
  {
  }

  lemma FallbackChars(s: string)
    requires s == "Translation:\nTranscript:"
    ensures '\r' !in s && '<' !in s
  {
  }

  lemma FallbackStripped(s: string)
    requires s == "Translation:\nTranscript:"
    ensures IsStripped(s)
  {
    assert s[0] == 'T' && s[23] == ':';
  }
}
