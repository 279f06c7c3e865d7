/**
 * Prompts sent to the translator: the JP→EN glossary as a list of
 * mappings, and the audio translator's prompt filled in from a template.
 */
module Prompt {
  import opened Wrappers
  import opened Text
  import opened Glossary

  /** The first line of the glossary prompt (written in pieces so that facts
      about its characters can be checked piece by piece). */
  const MappingHeader: string :=
    "When translating, " + "apply these exact " + "JP→EN mappings " + "wherever they " + "appear:"

  /** One `- jp → en` line. */
  function MappingLine(e: Entry): string {
    "- " + e.source + " → " + e.target
  }

  function MappingLines(g: seq<Entry>): (r: seq<string>)
    ensures |r| == |g|
    ensures forall i :: 0 <= i < |g| ==> r[i] == MappingLine(g[i])
  {
    seq(|g|, i requires 0 <= i < |g| => MappingLine(g[i]))
  }

  /** build_jp2en_prompt as a value: nothing for an empty glossary, else the
      header and one line per entry, joined by line feeds. */
  function Jp2EnPrompt(g: seq<Entry>): string {
    if g == [] then [] else Join("\n", [MappingHeader] + MappingLines(g))
  }

  /** build_jp2en_prompt: the lines are collected one entry at a time. */
  method BuildJp2EnPrompt(g: seq<Entry>) returns (r: string)
    ensures r == Jp2EnPrompt(g)
  {
    if g == [] {
      return "";
    }
    var lines := [MappingHeader];
    for i := 0 to |g|
      invariant |lines| == i + 1 && lines[0] == MappingHeader
      invariant forall k :: 0 <= k < i ==> lines[k + 1] == MappingLine(g[k])
    {
      lines := lines + [MappingLine(g[i])];
    }
    assert lines == [MappingHeader] + MappingLines(g);
    return Join("\n", lines);
  }

  // ---------------------------------------------------------------------------
  // Properties of the glossary prompt

  /** The prompt is empty exactly when the glossary is. */
  lemma PromptEmpty(g: seq<Entry>)
    ensures Jp2EnPrompt(g) == [] <==> g == []
  {
    if g != [] {
      JoinFirst("\n", [MappingHeader] + MappingLines(g));
    }
  }

  /** Characters of the fixed texts: printable ASCII up to `z`, and the arrow. */
  predicate Plain(s: string) {
    forall j :: 0 <= j < |s| ==> (' ' <= s[j] <= 'z') || s[j] == '→'
  }

  lemma PlainConcat(a: string, b: string)
    requires Plain(a) && Plain(b)
    ensures Plain(a + b)
  {
    assert forall j :: |a| <= j < |a + b| ==> (a + b)[j] == b[j - |a|];
  }

  /** Plain text is one line without braces. */
  lemma PlainLine(s: string)
    requires Plain(s)
    ensures SingleLine(s) && '{' !in s
  {
    assert !IsLineBreak('→');
    forall j | 0 <= j < |s| ensures !IsLineBreak(s[j]) {
      if s[j] != '→' {
        assert s[j] < '\U{0085}';
      }
    }
  }

  /** The header is one line without braces. */
  lemma HeaderLine()
    ensures MappingHeader != [] && SingleLine(MappingHeader) && '{' !in MappingHeader
  {
    var a, b, c, d, e := "When translating, ", "apply these exact ", "JP→EN mappings ", "wherever they ", "appear:";
    HeaderStart();
    HeaderEnd();
    PlainConcat(a, b);
    PlainConcat(a + b, c);
    PlainConcat(a + b + c, d);
    PlainConcat(a + b + c + d, e);
    PlainLine(MappingHeader);
  }

  lemma HeaderStart()
    ensures Plain("When translating, ") && Plain("apply these exact ")
  {
  }

  lemma HeaderEnd()
    ensures Plain("JP→EN mappings ") && Plain("wherever they ") && Plain("appear:")
  {
  }

  /** A mapping line of single-line sides is one line. */
  lemma MappingSingle(e: Entry)
    requires SingleLine(e.source) && SingleLine(e.target)
    ensures MappingLine(e) != [] && SingleLine(MappingLine(e))
  {
    assert !IsLineBreak('→');
    SingleLineConcat("- ", e.source);
    SingleLineConcat("- " + e.source, " → ");
    SingleLineConcat("- " + e.source + " → ", e.target);
  }

  /** Entries whose sides are single lines, as loaded glossaries hold. */
  predicate SingleLineEntries(g: seq<Entry>) {
    forall i :: 0 <= i < |g| ==> SingleLine(g[i].source) && SingleLine(g[i].target)
  }

  /** Split back into lines, the prompt is the header followed by one
      mapping line per entry, in glossary order. */
  lemma PromptLines(g: seq<Entry>)
    requires g != [] && SingleLineEntries(g)
    ensures SplitLines(Jp2EnPrompt(g)) == [MappingHeader] + MappingLines(g)
  {
    var lines := [MappingHeader] + MappingLines(g);
    HeaderLine();
    forall k | 0 <= k < |lines| ensures lines[k] != [] && SingleLine(lines[k]) {
      if k > 0 {
        MappingSingle(g[k - 1]);
      }
    }
    SplitLinesJoin(lines);
  }

  /** A loaded glossary renders as its lines, one per entry. */
  lemma LoadedPromptLines(text: string)
    requires ParseGlossary(text) != []
    ensures SplitLines(Jp2EnPrompt(ParseGlossary(text))) == [MappingHeader] + MappingLines(ParseGlossary(text))
  {
    ParseGlossaryEntries(text);
    PromptLines(ParseGlossary(text));
  }

  // ---------------------------------------------------------------------------
  // _render_audio_prompt

  const Placeholder: string := "{JP_TEXT}"

  /** The built-in template: an instruction, then the placeholder. */
  const DefaultIntro: string :=
    "Translate the following Japanese into " + "clear, natural English. Keep it " +
    "concise. Do not add or omit meaning." + "\n\nJapanese:\n"
  const DefaultAudioPrompt: string := DefaultIntro + Placeholder

  /** What follows the template: the glossary block after a blank line,
      when there is one. */
  function GlossarySuffix(g: seq<Entry>): string {
    var block := Jp2EnPrompt(g);
    if block != [] then "\n\n" + block else []
  }

  /** _render_audio_prompt for a loaded template: every placeholder is
      replaced by the Japanese text; without one, the text is appended
      under a `Japanese:` heading. */
  function RenderAudioPrompt(tpl: string, jpText: string, g: seq<Entry>): string {
    var t := tpl + GlossarySuffix(g);
    if Contains(t, Placeholder) then Replace(t, Placeholder, jpText, false)
    else t + "\n\nJapanese:\n" + jpText
  }

  /** No entry side holds an opening brace. */
  predicate BraceFree(g: seq<Entry>) {
    forall i :: 0 <= i < |g| ==> '{' !in g[i].source && '{' !in g[i].target
  }

  /** Text without an opening brace holds no placeholder. */
  lemma NoBraceNoPlaceholder(s: string)
    requires '{' !in s
    ensures !Contains(s, Placeholder)
  {
    forall j | 0 <= j <= |s| ensures !MatchesAt(s, j, Placeholder, false) {
      if j < |s| {
        assert s[j] != Placeholder[0];
      }
    }
    FindNone(s, Placeholder, 0, false);
  }

  /** Pieces joined together hold no character that none of them holds. */
  lemma {:induction false} JoinKeepOut(sep: string, parts: seq<string>, c: char)
    requires c !in sep && forall k :: 0 <= k < |parts| ==> c !in parts[k]
    ensures c !in Join(sep, parts)
  {
    if |parts| > 1 {
      JoinKeepOut(sep, parts[1..], c);
    }
  }

  /** A glossary without braces gives a prompt without braces. */
  lemma PromptBraceFree(g: seq<Entry>)
    requires BraceFree(g)
    ensures '{' !in Jp2EnPrompt(g)
  {
    if g != [] {
      var lines := [MappingHeader] + MappingLines(g);
      HeaderLine();
      forall k | 0 <= k < |lines| ensures '{' !in lines[k] {
        if k > 0 {
          assert lines[k] == "- " + g[k - 1].source + " → " + g[k - 1].target;
        }
      }
      JoinKeepOut("\n", lines, '{');
    }
  }

  /** The one placeholder of a template is replaced by the text. */
  lemma FillOnce(pre: string, post: string, rep: string)
    requires '{' !in pre && '{' !in post
    ensures Replace(pre + Placeholder + post, Placeholder, rep, false) == pre + rep + post
  {
    var s := pre + Placeholder + post;
    assert MatchesAt(s, |pre|, Placeholder, false) by {
      assert s[|pre|..|pre| + |Placeholder|] == Placeholder;
    }
    forall k | 0 <= k < |pre| ensures !MatchesAt(s, k, Placeholder, false) {
      assert s[k + 0] == pre[k] && Placeholder[0] == '{';
      assert !SameChar(s[k + 0], Placeholder[0], false);
    }
    ReplaceLeftmost(s, |pre|, Placeholder, rep, false);
    assert s[..|pre|] == pre;
    assert s[|pre| + |Placeholder|..] == post;
    forall k | 0 <= k < |post| ensures !MatchesAt(post, k, Placeholder, false) {
      assert post[k + 0] != '{' && Placeholder[0] == '{';
      assert !SameChar(post[k + 0], Placeholder[0], false);
    }
    ReplaceNoMatch(post, Placeholder, rep, false);
  }

  /** The glossary block is appended exactly when the glossary is not
      empty, and it holds no brace when the entries hold none. */
  lemma SuffixShape(g: seq<Entry>)
    ensures GlossarySuffix(g) == [] <==> g == []
    ensures BraceFree(g) ==> '{' !in GlossarySuffix(g)
  {
    PromptEmpty(g);
    if BraceFree(g) {
      PromptBraceFree(g);
    }
  }

  /** A template holding the placeholder once, after text without braces:
      it is found and replaced. */
  lemma FilledTemplate(t: string, pre: string, rest: string, jpText: string)
    requires t == pre + Placeholder + rest && '{' !in pre && '{' !in rest
    ensures Contains(t, Placeholder) && Replace(t, Placeholder, jpText, false) == pre + jpText + rest
  {
    assert MatchesAt(t, |pre|, Placeholder, false) by {
      assert t[|pre|..|pre| + |Placeholder|] == Placeholder;
    }
    FindLeast(t, Placeholder, 0, false, |pre|);
    FillOnce(pre, rest, jpText);
  }

  /** With the placeholder in the template, the text takes its place and the
      glossary block, if any, follows the template. */
  lemma RenderFilled(tpl: string, jpText: string, g: seq<Entry>, pre: string, post: string)
    requires tpl == pre + Placeholder + post
    requires '{' !in pre && '{' !in post && BraceFree(g)
    ensures RenderAudioPrompt(tpl, jpText, g) == pre + jpText + post + GlossarySuffix(g)
  {
    var tail := GlossarySuffix(g);
    SuffixShape(g);
    assert '{' !in post + tail;
    Assoc(pre + Placeholder, post, tail);
    FilledTemplate(tpl + tail, pre, post + tail, jpText);
    Assoc(pre + jpText, post, tail);
  }

  /** Without a placeholder, the text is appended after the template and
      the glossary block. */
  lemma RenderAppended(tpl: string, jpText: string, g: seq<Entry>)
    requires '{' !in tpl && BraceFree(g)
    ensures RenderAudioPrompt(tpl, jpText, g) == tpl + GlossarySuffix(g) + "\n\nJapanese:\n" + jpText
  {
    SuffixShape(g);
    NoBraceNoPlaceholder(tpl + GlossarySuffix(g));
  }

  lemma IntroBraceFree()
    ensures '{' !in DefaultIntro
  {
    IntroStart();
    IntroMiddle();
    IntroEnd();
  }

  lemma IntroStart()
    ensures '{' !in "Translate the following Japanese into "
  {
  }

  lemma IntroMiddle()
    ensures '{' !in "clear, natural English. Keep it "
  {
  }

  lemma IntroEnd()
    ensures '{' !in "concise. Do not add or omit meaning." + "\n\nJapanese:\n"
  {
  }

  /** The built-in template with an empty glossary: the instruction followed
      by the Japanese text. */
  lemma RenderDefault(jpText: string)
    ensures RenderAudioPrompt(DefaultAudioPrompt, jpText, []) == DefaultIntro + jpText
  {
    IntroBraceFree();
    RenderFilled(DefaultAudioPrompt, jpText, [], DefaultIntro, []);
    assert DefaultIntro + Placeholder + [] == DefaultAudioPrompt;
  }
}
