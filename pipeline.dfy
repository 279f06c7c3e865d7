/**
 * The post-processing of screenshot_translator.py's translate_images: what
 * happens to the provider's reply before it is shown. Three modes: the raw
 * reply with normalized line endings; the translation section alone; and the
 * full two-section text with speaker headers normalized. The styling
 * switches (speaker colouring, italics, the guess delimiter) are parameters.
 */
module Pipeline {
  import opened Wrappers
  import opened Text
  import opened Glossary
  import opened Sections
  import opened Speaker
  import opened Markers

  /** The post-processing mode: "none", one of "translation", "en-only" and
      "en", or anything else for the full two-section text. */
  datatype Mode = Raw | TranslationOnly | Full

  /** Speaker colouring, italics for guessed spans, and the guess delimiter. */
  datatype Style = Style(colorSpeaker: bool, italicsOn: bool, guessDelim: char)

  /** Colouring and italics on, a backtick as the delimiter. */
  const DefaultStyle := Style(true, true, '`')

  /** Line endings normalized to "\n", surrounding whitespace removed. */
  function Normalized(s: string): string {
    Strip(Replace(s, "\r\n", "\n", false))
  }

  /** The translation body's styling: EN→EN glossary, name-line marker,
      guessed spans. */
  function Styled(en: string, en2en: seq<Entry>, style: Style): string
    requires WellFormed(en2en)
  {
    GuessMarks(MarkedName(ApplyAll(en, en2en), style.colorSpeaker), style.guessDelim, style.italicsOn)
  }

  /** Everything after the provider returned `raw`. */
  function PostProcess(raw: string, mode: Mode, jp2en: seq<Entry>, en2en: seq<Entry>, style: Style): (r: string)
    requires WellFormed(en2en)
    ensures IsStripped(r)
  {
    var out := StripCodeFences(raw);
    match mode
    case Raw => Normalized(out)
    case TranslationOnly =>
      var parts := SplitSections(EnforceSections(out));
      Normalized(Styled(parts.1, en2en, style))
    case Full =>
      var parts := SplitSections(EnforceSections(out));
      var jp := JpSpeaker(parts.0);
      var jpBlock := MarkedName(jp.0, style.colorSpeaker);
      var enBlock := Styled(EnSpeaker(parts.1, jp2en, jp.1), en2en, style);
      Normalized(Format(Strip(jpBlock), Strip(enBlock)))
  }

  /** What the provider call produced: its text, or the failure it raised. */
  datatype Reply = Reply(raw: string) | CallFailed(provider: string, message: string)

  /** translate_images after the provider call: a failure is reported as text. */
  function TranslateImages(r: Reply, mode: Mode, jp2en: seq<Entry>, en2en: seq<Entry>, style: Style): (out: string)
    requires WellFormed(en2en)
    ensures r.Reply? ==> IsStripped(out)
    ensures r.CallFailed? ==> |out| >= 15 && out[..15] == "(Python error) "
  {
    match r
    case CallFailed(p, m) => "(Python error) " + p + " call failed: " + m
    case Reply(raw) => PostProcess(raw, mode, jp2en, en2en, style)
  }

  // ---------------------------------------------------------------------
  // Properties
  // ---------------------------------------------------------------------

  /** Text without backticks or apostrophes holds no code fence. */
  lemma NoFence(s: string)
    requires '`' !in s && '\'' !in s
    ensures FenceFree(s)
  {
    forall i | 0 <= i < |s| ensures !FenceAt(s, i) {
      assert !SameChar(s[i + 0], "```"[0], false);
      assert !SameChar(s[i + 0], "'''"[0], false);
    }
  }

  /** A word cannot occur, in any case, where one of its letters is missing. */
  lemma NoMatchWithout(x: string, w: string, j: nat)
    requires j < |w|
    requires forall i :: 0 <= i < |x| ==> Fold(x[i]) != Fold(w[j])
    ensures forall k :: 0 <= k <= |x| ==> !MatchesAt(x, k, w, true)
  {
    forall k | 0 <= k <= |x| ensures !MatchesAt(x, k, w, true) {
      if k + |w| <= |x| {
        assert !SameChar(x[k + j], w[j], true);
      }
    }
  }

  /** Text without a `t` in either case has no "Translation:" heading inside. */
  lemma NoTranslationIn(x: string)
    requires forall i :: 0 <= i < |x| ==> Fold(x[i]) != 't'
    ensures NoHeadingLine(x, TranslationHead) && NoMarker(x)
  {
    assert Fold(TranslationHead[0]) == 't';
    NoMatchWithout(x, TranslationHead, 0);
    assert Fold(Marker[2]) == 't';
    NoMatchWithout(x, Marker, 2);
  }

  /** In raw mode a reply without fences or carriage returns is only stripped. */
  lemma RawStrips(raw: string, jp2en: seq<Entry>, en2en: seq<Entry>, style: Style)
    requires WellFormed(en2en)
    requires '`' !in raw && '\'' !in raw && '\r' !in raw
    ensures PostProcess(raw, Raw, jp2en, en2en, style) == Strip(raw)
  {
    NoFence(raw);
    FenceFreeUnchanged(raw);
    CrLfFree(raw);
  }

  /** A canonical two-section reply comes back apart as its two bodies. */
  lemma CanonicalSections(jp: string, en: string)
    requires jp != [] && en != [] && IsStripped(jp) && IsStripped(en)
    requires forall i :: 0 <= i < |jp| ==> Fold(jp[i]) != 't'
    requires '<' !in jp && '<' !in en && '\r' !in jp && '\r' !in en
    requires '`' !in jp && '`' !in en && '\'' !in jp && '\'' !in en
    ensures SplitSections(EnforceSections(StripCodeFences(Format(jp, en)))) == (jp, en)
  {
    var s := Format(jp, en);
    assert '`' !in s && '\'' !in s;
    NoFence(s);
    FenceFreeUnchanged(s);
    NoTranslationIn(jp);
    EnforceFormat(jp, en);
    CanonFormat(jp, en);
    SplitFormat(jp, en);
  }

  /** A body with nothing to style and no EN→EN glossary is left as it is. */
  lemma PlainStyled(en: string, style: Style)
    requires IsStripped(en) && '\r' !in en
    requires '「' !in en && style.guessDelim !in en
    ensures Normalized(Styled(en, [], style)) == en
  {
    assert ApplyAll(en, []) == en;
    MarkWithoutCorner(en, style.colorSpeaker);
    GuessAbsent(en, style.guessDelim, style.italicsOn);
    CrLfFree(en);
    StripStripped(en);
  }

  /** Translation-only mode returns exactly the translation body of a
      canonical two-section reply, when that body has no name line or
      guessed span to style and there is no EN→EN glossary. */
  lemma TranslationOnlyBody(jp: string, en: string, jp2en: seq<Entry>, style: Style)
    requires jp != [] && en != [] && IsStripped(jp) && IsStripped(en)
    requires forall i :: 0 <= i < |jp| ==> Fold(jp[i]) != 't'
    requires '<' !in jp && '<' !in en && '\r' !in jp && '\r' !in en
    requires '`' !in jp && '`' !in en && '\'' !in jp && '\'' !in en
    requires '「' !in en && style.guessDelim !in en
    ensures PostProcess(Format(jp, en), TranslationOnly, jp2en, [], style) == en
  {
    CanonicalSections(jp, en);
    PlainStyled(en, style);
  }

  // ---------------------------------------------------------------------
  // End to end
  // ---------------------------------------------------------------------

  lemma TranscriptFacts(jp: string)
    requires jp == "「ゆうた」\nこんにちは"
    ensures jp != [] && IsStripped(jp)
    ensures forall i :: 0 <= i < |jp| ==> Fold(jp[i]) != 't'
    ensures '<' !in jp && '\r' !in jp && '`' !in jp && '\'' !in jp
  {
  }

  lemma TranslationFacts(en: string, styled: string)
    requires en == "Hello" && styled == "「Yuuta」\nHello"
    ensures en != [] && styled != [] && IsStripped(en) && IsStripped(styled)
    ensures '<' !in en && '\r' !in en && '`' !in en && '\'' !in en
    ensures '\r' !in styled && '`' !in styled
  {
  }

  /** A reply in the tagged block form comes apart as its two bodies. */
  lemma TaggedSections(jp: string, en: string)
    requires jp != [] && en != [] && IsStripped(jp) && IsStripped(en)
    requires forall i :: 0 <= i < |jp| ==> Fold(jp[i]) != 't'
    requires '<' !in jp && '<' !in en && '\r' !in jp && '\r' !in en
    requires '`' !in jp && '`' !in en && '\'' !in jp && '\'' !in en
    ensures SplitSections(EnforceSections(StripCodeFences(Tagged(jp, en)))) == (jp, en)
  {
    var raw := Tagged(jp, en);
    assert '`' !in raw && '\'' !in raw;
    NoFence(raw);
    FenceFreeUnchanged(raw);
    NoTranslationIn(jp);
    EnforceTagged(jp, en);
    SplitFormat(jp, en);
  }

  /** In the full mode, with speaker colouring off and no glossaries, the
      result is the canonical text of the normalized transcript body,
      stripped, and the translation body with its header resolved, when the
      latter needs no stripping and neither holds a carriage return and the
      translation holds no guessed span. */
  lemma FullPlain(raw: string, jp: string, en: string, jn: string, name: string, styled: string, italicsOn: bool)
    requires SplitSections(EnforceSections(StripCodeFences(raw))) == (jp, en)
    requires JpSpeaker(jp) == (jn, name) && EnSpeaker(en, [], name) == styled
    requires styled != [] && IsStripped(styled)
    requires '\r' !in jn && '\r' !in styled && '`' !in styled
    ensures PostProcess(raw, Full, [], [], Style(false, italicsOn, '`')) == Format(Strip(jn), styled)
  {
    var style := Style(false, italicsOn, '`');
    FullParts(raw, jp, en, jn, name, styled, style);
    PlainParts(jn, styled, italicsOn);
  }

  /** The full mode once the reply is split and both headers are normalized. */
  lemma FullParts(raw: string, jp: string, en: string, jn: string, name: string, styled: string, style: Style)
    requires SplitSections(EnforceSections(StripCodeFences(raw))) == (jp, en)
    requires JpSpeaker(jp) == (jn, name) && EnSpeaker(en, [], name) == styled
    ensures PostProcess(raw, Full, [], [], style) ==
      Normalized(Format(Strip(MarkedName(jn, style.colorSpeaker)), Strip(Styled(styled, [], style))))
  {
  }

  /** With colouring off and nothing to style, the two bodies are put in the
      canonical layout as they are. */
  lemma PlainParts(jn: string, styled: string, italicsOn: bool)
    requires styled != [] && IsStripped(styled)
    requires '\r' !in jn && '\r' !in styled && '`' !in styled
    ensures var style := Style(false, italicsOn, '`');
      Normalized(Format(Strip(MarkedName(jn, false)), Strip(Styled(styled, [], style)))) == Format(Strip(jn), styled)
  {
    var style := Style(false, italicsOn, '`');
    var j := Strip(jn);
    assert MarkedName(jn, false) == jn;
    assert ApplyAll(styled, []) == styled;
    assert MarkedName(styled, false) == styled;
    GuessAbsent(styled, '`', italicsOn);
    assert Styled(styled, [], style) == styled;
    StripKeepsOut(jn, '\r');
    StripStripped(styled);
    FormatNoCr(j, styled);
    CrLfFree(Format(j, styled));
    StripFormat(j, styled);
    FormatHeaded(j, styled);
  }

  /** With speaker colouring off and empty glossaries, a reply in the tagged
      block form comes out as the two canonical sections, the transcript
      header bracketed and the translation given the romanized name. */
  lemma FullExample(raw: string, italicsOn: bool)
    requires raw == "<block1-jp>\n" + "「ゆうた」\nこんにちは" + "\n<block2-en>\n" + "Hello"
    ensures PostProcess(raw, Full, [], [], Style(false, italicsOn, '`'))
      == "Transcript:\n" + "「ゆうた」\nこんにちは" + "\n\nTranslation:\n" + "「Yuuta」\nHello"
  {
    var jp := "「ゆうた」\nこんにちは";
    var en := "Hello";
    var styled := "「Yuuta」\nHello";
    TranscriptFacts(jp);
    TranslationFacts(en, styled);
    assert raw == Tagged(jp, en);
    TaggedSections(jp, en);
    JpBracketedExample(jp);
    EnHintExample(en, "ゆうた");
    FullPlain(raw, jp, en, jp, "ゆうた", styled, italicsOn);
    StripStripped(jp);
  }
}
