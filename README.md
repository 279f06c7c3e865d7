# JRPG translator toolkit: a verified model of the text pipeline and the audio segmenter

This project models two programs of the JRPG translator toolkit in Dafny and
proves properties of the model.

- **Screenshot translator.** A vision model returns a reply for a game
  screenshot, and the screenshot translator (`screenshot_translator.py`)
  turns that reply into overlay text. The model covers what happens between
  the provider reply and the returned string:
  - code fences are stripped;
  - the reply is forced into the canonical `Transcript:` / `Translation:`
    layout and split into its two bodies;
  - the speaker header of each body is normalised;
  - the English name is resolved through the JP→EN glossary, then by
    romanizing kana, otherwise the name is kept;
  - EN→EN glossary substitutions are applied;
  - the overlay markers (`⟦name⟧…⟦/name⟧`, `⟦i⟧…⟦/i⟧`) are inserted;
  - glossary files are loaded and the JP→EN prompt block is built.
- **Live audio translator.** The live audio translator
  (`scripts/audio_translator.py`) reads loopback audio in 250 ms blocks. The
  model covers:
  - the voice-activity segmenter that cuts these blocks into speech segments
    (pre-roll deque, minimum speech, hang-over silence, 6 s cap);
  - the hot reload of the two glossary tables;
  - the audio translation prompt;
  - the de-duplicated overlay write after each segment;
  - the whole capture loop over a sequence of blocks.

The modules are:

- `Text` (text.dfy):
  - Python's string primitives as the code uses them: `str.strip`/`rstrip`
    with Python's whitespace set, `find`, `replace`, `split`, `splitlines`
    and `join`;
  - ASCII case folding for `re.IGNORECASE`;
  - the `Option` datatype.
- `Glossary` (glossary.dfy): `load_glossary` after decoding, and
  `apply_en_glossary`.
- `Romaji` (romaji.dfy): `hira_to_kata`, `is_all_kana`, `katakana_to_romaji`
  and `kana_to_romaji`. The two lookup tables are a `Tables` value.
- `Sections` (sections.dfy): `strip_code_fences`,
  `enforce_transcript_translation` and `split_tt`. Each regular expression is
  written out as a scanner.
- `Speaker` (speaker.dfy): `NAME_LINE_RE`, `looks_like_jp_name`,
  `normalize_jp_speaker_line`, `translate_jp_name_to_en` and
  `normalize_translation_name_line`.
- `Markers` (markers.dfy): `_mark_transcript_name_line`,
  `_mark_translation_name_line` and `_mark_guessed_pronouns`.
- `Prompt` (prompt.dfy): `build_jp2en_prompt` and `_render_audio_prompt`.
- `Pipeline` (pipeline.dfy): the post-processing of `translate_images` in its
  three modes.
- `Audio` (audio.dfy): the segmenter, the hot reload, the overlay write and
  the capture loop of `main`.

Each operation has two forms:

- **Methods.** Operations that work by loops and in-place updates in the
  source are Dafny methods: the glossary parsing loop, the segment loop of
  the romanizer, the line rewriting of the normalizers, the capture loop and
  `Glossaries.Reload`. Each method is proved equal to a specification
  function.
- **Lemmas.** The properties are proved as lemmas about those functions.

Properties of the segmenter:

- the pre-roll history is the bounded deque of the last blocks;
- a segment is cut exactly when the source's `should_cut` holds;
- no block, voiced or silent, cuts a segment whose voiced length (counting
  that block) is below the minimum speech length;
- every cut segment holds at least the minimum number of voiced blocks plus
  one (the onset block, which the pre-roll history repeats), and at most
  the cap plus the pre-roll;
- with the default settings, 6 s of uninterrupted speech is cut after
  exactly 24 blocks into one 25-block segment;
- the capture loop never writes the same overlay line twice in a row and
  never writes an empty one;
- reloaded glossary tables always stay fit for substitution.

Properties of the text pipeline:

- round trips:
  - a glossary written one `source -> target` line per entry loads back
    unchanged;
  - canonical text splits back into its two bodies;
  - the legacy `<block1-jp>`/`<block2-en>` layout is enforced to the
    canonical layout;
- the name resolution order (glossary, then romaji, then the name as it is);
- idempotence of header normalization and of the name marker;
- end-to-end examples of the whole post-processing.

## Model

| member | source | states |
|---|---|---|
| Text.Strip | screenshot_translator.py:282 | `str.strip()`: the result starts and ends with a non-whitespace character (Python's `isspace` set) and is no longer than the input |
| Text.StripStripped | screenshot_translator.py:661 | stripping already-stripped text changes nothing |
| Text.StripPadded | screenshot_translator.py:624 | whitespace padding on either side of a stripped text is removed exactly |
| Text.StripInfix | screenshot_translator.py:288 | the stripped text is an infix of the original |
| Text.FindSound | screenshot_translator.py:287 | what `Find` reports is an occurrence of the pattern (`sep in line`) |
| Text.FindLeast | screenshot_translator.py:287 | every occurrence from the start position on is at or after the reported one, so the first occurrence is found |
| Text.ReplaceNoMatch | screenshot_translator.py:302 | `replace`/`re.sub` of a literal with no occurrence is the identity |
| Text.ReplaceLeftmost | screenshot_translator.py:302 | the leftmost occurrence is replaced and the scan resumes after it (non-overlapping, left to right) |
| Text.JoinSplitOn | screenshot_translator.py:645 | joining `split(sep)` with `sep` gives back the text |
| Text.SplitOnJoin | screenshot_translator.py:434 | splitting pieces joined by a separator that none of them holds gives back the pieces |
| Text.SplitLinesJoin | screenshot_translator.py:280 | non-empty single lines joined by line feeds are split back into the same lines by `splitlines()` |
| Text.IndexOfChar | screenshot_translator.py:434 | the first occurrence of a character: every earlier character differs, and the index holds it unless it is the length |
| Glossary.SeparatorFrom | screenshot_translator.py:279-290 | the first separator, in priority order, that occurs in the line; none of the separators before it occurs |
| Glossary.ParseLine | screenshot_translator.py:280-291 | blank lines and `#` comments give no entry; an entry has both sides non-empty, stripped and free of BOM characters |
| Glossary.SplitEntryPriority | screenshot_translator.py:285-290 | the split uses the highest-priority separator present: the source holds neither it nor any higher one, and the target holds no higher one (`a:b->c` gives `a:b` → `c`) |
| Glossary.SplitLine | screenshot_translator.py:285-290 | the separator loop computes the split of the cleaned line |
| Glossary.ParseLinesAppend | screenshot_translator.py:280-291 | lines are parsed independently: the entries of a concatenation are the entries of its parts, in order |
| Glossary.ParseGlossary | screenshot_translator.py:257-292 | specification function with no contract of its own: the entries of the decoded text, one per line that `ParseLine` accepts, in file order; `LoadGlossary`, `ParseLinesAppend`, `ParseGlossaryEntries` and `ParseFormatGlossary` state what it promises |
| Glossary.LoadGlossary | screenshot_translator.py:257-292 | the loading loop returns the entries of the decoded text, in file order |
| Glossary.ParseGlossaryEntries | screenshot_translator.py:290-291 | every loaded entry has a non-empty source and single-line sides |
| Glossary.ParseFormattedLine | screenshot_translator.py:280-291 | a `source -> target` line of a writable entry parses back to that entry |
| Glossary.ParseFormatGlossary | screenshot_translator.py:257-292 | a glossary written one `source -> target` line per entry loads back as the same entries in the same order |
| Glossary.WordMatchEnd | screenshot_translator.py:304-309 | a whole-word match starts at a word boundary and matches the source ignoring case; what follows the source up to the end is empty or one of `s`, `'s`, `’s` ignoring case (`SuffixEnd`), and a word boundary follows it |
| Glossary.WordMatchComplete | screenshot_translator.py:304-309 | every whole-word occurrence is found: a boundary before the source and an allowed suffix (or none) followed by a boundary give a match; with the contract of `WordMatchEnd` a match starts exactly there |
| Glossary.ApplyAll | screenshot_translator.py:294-310 | specification function with no contract of its own: each entry applied in glossary order, a phrase source as a case-insensitive literal and any other as a whole word with its suffix kept; `ApplyEnGlossary`, `ApplyAllAppend`, `ApplyEntryAbsent`, `ReplaceWordLeftmost` and the example lemmas state what it promises |
| Glossary.ApplyEnGlossary | screenshot_translator.py:294-310 | the substitution loop applies the entries one after the other in glossary order |
| Glossary.ApplyAllAppend | screenshot_translator.py:299 | applying two glossaries in turn is applying their concatenation |
| Glossary.ReplaceWordSkip | screenshot_translator.py:309 | stretches without a whole-word match are copied unchanged |
| Glossary.ReplaceWordLeftmost | screenshot_translator.py:304-309 | the leftmost whole-word match becomes the target followed by the suffix as written, and the scan resumes after the suffix |
| Glossary.ApplyEntryAbsent | screenshot_translator.py:299-309 | a text in which the source never occurs (ignoring case) is left unchanged |
| Glossary.PluralExample | screenshot_translator.py:304-309 | `cat → dog` turns `cats` into `dogs` |
| Glossary.PossessiveExample | screenshot_translator.py:304-309 | `cat → dog` turns `Cat's` into `dog's` |
| Glossary.LongerWordExample | screenshot_translator.py:304-309 | `cat → dog` leaves `catsup` alone |
| Glossary.PhraseExample | screenshot_translator.py:300-302 | a phrase entry replaces every occurrence, ignoring case |
| Romaji.KanaRomaji | screenshot_translator.py:382-402 | the single-kana table: values are at most three romaji characters, and `-` appears only in the value of `ー` |
| Romaji.Digraph | screenshot_translator.py:403-415 | the digraph table: values are romaji of length at least two, keyed by a consonant kana and a small ya/yu/yo |
| Romaji.KataCharShift | screenshot_translator.py:417-427 | the `ゔ` branch is dead: U+3094 lies in the shifted range, so each character is either shifted by 0x60 or kept |
| Romaji.Katakana | screenshot_translator.py:417-427 | conversion is character by character and keeps the length |
| Romaji.KatakanaIdempotent | screenshot_translator.py:417-427 | the result holds no hiragana-range character, so converting twice is converting once |
| Romaji.HiraToKata | screenshot_translator.py:417-427 | the conversion loop computes `Katakana` |
| Romaji.KatakanaKeepsKana | screenshot_translator.py:429-430 | a name that is all kana stays all kana after conversion |
| Romaji.StandardWellFormed | screenshot_translator.py:382-415 | the two tables have the shape the general lemmas assume |
| Romaji.RomanizeFrom | screenshot_translator.py:440-455 | the segment loop only appends to the romaji so far, and with well-formed tables only romaji characters |
| Romaji.SegmentToRomaji | screenshot_translator.py:436-456 | the inner while loop computes the romanization of a segment |
| Romaji.DigraphFirst | screenshot_translator.py:441-442 | a digraph is taken before its first kana is looked up alone |
| Romaji.GeminateDoubles | screenshot_translator.py:444-448 | a non-final `ッ` emits the first letter of the next sound, which is then romanized as usual |
| Romaji.UnmappedSkipped | screenshot_translator.py:454-455 | an unmapped character adds nothing |
| Romaji.NoDash | screenshot_translator.py:449-453 | `ー` itself never emits `-`; without `ッー`, no `-` appears in a segment's romaji |
| Romaji.DashThroughSokuon | screenshot_translator.py:444-448 | the exception: `ッー` reaches the table value of `ー` and emits `-` |
| Romaji.UnmappedFrom | screenshot_translator.py:454-455 | a segment of unmapped characters romanizes to the empty string |
| Romaji.Romanize | screenshot_translator.py:432-458 | specification function with no contract of its own: `katakana_to_romaji` with the standard tables; `RomanizeShape`, `UnmappedName`, `KatakanaToRomaji` and the example lemmas state what it promises |
| Romaji.RomanizeShape | screenshot_translator.py:457-458 | with no romaji the name comes back unchanged; otherwise the result is the capitalized non-empty segment romanizations joined by single spaces, and splitting at spaces gives them back |
| Romaji.UnmappedName | screenshot_translator.py:458 | a name without any mapped character is returned unchanged |
| Romaji.KatakanaToRomaji | screenshot_translator.py:432-458 | the method computes `Romanize` |
| Romaji.KanaToRomaji | screenshot_translator.py:460-461 | hiragana is shifted to katakana, then romanized |
| Romaji.CapitalizeRomaji | screenshot_translator.py:457 | `capitalize()` upper-cases the first character and leaves the rest of romaji alone |
| Romaji.RamenExample | screenshot_translator.py:449-453 | `ラーメン` romanizes to `Raamen` (the long vowel repeats `a`) |
| Romaji.CatExample | screenshot_translator.py:441-448 | `キャット` romanizes to `Kyatto` (digraph, then doubled `t`) |
| Romaji.YuutaExample | screenshot_translator.py:460-461 | `ゆうた` romanizes to `Yuuta` |
| Romaji.DotExample | screenshot_translator.py:434-457 | `アン・ナ` romanizes to `An Na`: middle-dot segments become separate words |
| Sections.StripCodeFences | screenshot_translator.py:599-604 | fence stripping never lengthens the reply |
| Sections.FenceFreeUnchanged | screenshot_translator.py:599-604 | a reply without a fence is left exactly as it is |
| Sections.OpeningFenceLine | screenshot_translator.py:602 | leading whitespace, the fence, its info string and the line break are removed |
| Sections.FencedBody | screenshot_translator.py:599-604 | a fenced block comes out as its body |
| Sections.TagsCopy | screenshot_translator.py:611-612 | without a `<`, the tag substitutions change nothing |
| Sections.EnforceSections | screenshot_translator.py:606-624 | specification function with no contract of its own: the tag substitutions, then the canonical layout of the first heading pair or of the first two paragraphs; `EnforceFormat`, `EnforceCanonical`, `EnforceTagged`, `EnforceParagraphs`, `EnforceBlank` and `EnforceReversed` state what it promises |
| Sections.EnforceFormat | screenshot_translator.py:606-617 | enforcing canonical text finds both headings and joins them with exactly one blank line |
| Sections.EnforceCanonical | screenshot_translator.py:606-617 | canonical text is a fixed point of enforcement exactly when both sections are non-empty |
| Sections.CanonFormat | screenshot_translator.py:616-624 | the joined form and the canonical layout agree exactly when both sections are non-empty |
| Sections.StripFormat | screenshot_translator.py:617 | stripping canonical text only drops the line feed after an empty translation |
| Sections.EnforceTagged | screenshot_translator.py:610-617 | a reply in the legacy `<block1-jp>`/`<block2-en>` layout is enforced to the canonical layout |
| Sections.TagsFirstPass | screenshot_translator.py:611 | the first substitution turns the opening tag line into the transcript heading line |
| Sections.TagsSecondPass | screenshot_translator.py:612 | the second substitution turns the closing tag line into the translation heading after a blank line |
| Sections.EnforceParagraphs | screenshot_translator.py:619-624 | two paragraphs without headings become transcript and translation |
| Sections.EnforceBlank | screenshot_translator.py:607-624 | an empty reply gets the empty skeleton; a whitespace-only one gets empty sections in the canonical layout |
| Sections.EnforceReversed | screenshot_translator.py:614-617 | a text whose translation heading comes first is left as it is |
| Sections.SectionsAt | screenshot_translator.py:627-628 | specification function with no contract of its own: the section pattern tried at one position, its lazy first group ending at the first `\n\nTranslation:` after the heading; `MatchFormat` and `NoSections` state what it promises |
| Sections.MatchSections | screenshot_translator.py:627-628 | specification function with no contract of its own: `re.search` of the section pattern, the first position where it matches; `MatchFormat`, `NoSections` and `SplitFallback` state what it promises |
| Sections.SplitSections | screenshot_translator.py:626-634 | both returned bodies are stripped |
| Sections.MatchFormat | screenshot_translator.py:628 | the section pattern finds both bodies of canonical text whose transcript holds no marker, when the transcript is non-empty or the translation holds no marker either; with an empty transcript the greedy `\s*` gives back two line feeds and the lazy group ends empty |
| Sections.SplitFormat | screenshot_translator.py:626-634 | splitting canonical text gives back its two bodies, for a marker-free transcript that is non-empty or followed by a marker-free translation |
| Sections.SplitUnheaded | screenshot_translator.py:629-631 | two paragraphs without headings are split after being enforced |
| Sections.NoSections | screenshot_translator.py:628 | without a transcript heading the pattern finds nothing |
| Sections.SplitFallback | screenshot_translator.py:629-633 | when even the enforced text does not match, both bodies are empty |
| Sections.CrLfFree | screenshot_translator.py:627 | without a carriage return, normalising line endings changes nothing |
| Speaker.NameLine | screenshot_translator.py:596 | the name that `NAME_LINE_RE` extracts is stripped |
| Speaker.NameLineBracketed | screenshot_translator.py:650-654 | the bracketed header of a non-empty stripped name gives the name back |
| Speaker.NameLikeUnbracketed | screenshot_translator.py:636-640 | a line that looks like a bare name holds no bracketed header |
| Speaker.BracketedNotNameLike | screenshot_translator.py:636-640 | a bracketed header never looks like a bare name |
| Speaker.BlockLines | screenshot_translator.py:645 | the block's lines hold no line feed and are right-stripped, and there is at least one |
| Speaker.FirstFilled | screenshot_translator.py:646 | the index of the first non-blank line: every line before it is blank, and none when all are |
| Speaker.JpSpeaker | screenshot_translator.py:642-661 | specification function with no contract of its own: the normalized transcript block and the speaker's name; `NormalizeJpSpeakerLine`, `JpHeaderLines`, `JpNoHeader`, `JpBlank` and `JpIdempotent` state what it promises |
| Speaker.NormalizeJpSpeakerLine | screenshot_translator.py:642-661 | the method computes `JpSpeaker` |
| Speaker.JpHeaderLines | screenshot_translator.py:649-659 | with a header on the first non-blank of the block's right-stripped lines, the result opens with `「name」`, followed by the later lines up to the last non-blank one, and the name is reported; `JpSpeakerLines` ties a non-empty block to its lines |
| Speaker.JpNoHeader | screenshot_translator.py:661 | without a header, the block comes back stripped with no name |
| Speaker.JpBlank | screenshot_translator.py:643-648 | an empty or whitespace-only block is returned as it is, with no name |
| Speaker.JpIdempotent | screenshot_translator.py:642-661 | normalizing a block with a header a second time changes nothing and reports the same name |
| Speaker.JpBracketedExample | screenshot_translator.py:652-655 | `「ゆうた」\nこんにちは` is kept and the name `ゆうた` reported |
| Speaker.JpNameLikeExample | screenshot_translator.py:657-659 | `ゆうた\nこんにちは` gets its name line wrapped in corner brackets |
| Speaker.LookupFirst | screenshot_translator.py:665-667 | the first glossary entry with the name as its source decides |
| Speaker.TranslateName | screenshot_translator.py:663-670 | specification function with no contract of its own: glossary first, then romaji for an all-kana name, otherwise the stripped name; `TranslateByGlossary`, `TranslateByRomaji` and `TranslateKept` state the three cases |
| Speaker.TranslateJpNameToEn | screenshot_translator.py:663-670 | the method computes `TranslateName` |
| Speaker.TranslateByGlossary | screenshot_translator.py:664-667 | an exact glossary match wins, the first in glossary order |
| Speaker.TranslateByRomaji | screenshot_translator.py:668-669 | a kana name without an entry is romanized |
| Speaker.TranslateKept | screenshot_translator.py:670 | any other name is kept, stripped |
| Speaker.TranslateYuuta | screenshot_translator.py:663-670 | with an empty glossary `ゆうた` becomes `Yuuta` |
| Speaker.EnSpeaker | screenshot_translator.py:672-697 | specification function with no contract of its own: the translation block with its header name translated, or the hint inserted as a header; `EnBlank`, `EnHeaderNamed`, `EnHeaderInserted` and `EnUnchanged` state what it promises |
| Speaker.NormalizeTranslationNameLine | screenshot_translator.py:672-693 | the method computes `EnSpeaker` |
| Speaker.EnBlank | screenshot_translator.py:673-678 | an empty or whitespace-only body is returned as it is, even with a hint |
| Speaker.EnHeaderNamed | screenshot_translator.py:680-686 | a bracketed header is replaced by the translated name and the other lines are kept |
| Speaker.EnHeaderInserted | screenshot_translator.py:688-691 | without a header, the translated hint is inserted before the first non-blank line |
| Speaker.EnUnchanged | screenshot_translator.py:693 | without a header or hint, the body is only stripped |
| Speaker.EnHintExample | screenshot_translator.py:688-691 | `Hello` with the hint `ゆうた` becomes `「Yuuta」\nHello` |
| Markers.Indent | screenshot_translator.py:350 | the leading whitespace of a line is a whitespace-only prefix of it |
| Markers.MarkNameLine | screenshot_translator.py:337-373 | the method computes `MarkedName` |
| Markers.MarkedLines | screenshot_translator.py:346-352 | after marking, the lines are the block's lines with only the header line replaced |
| Markers.MarkedLine | screenshot_translator.py:346-351 | the marked line is a single non-blank line that is no longer a `「…」` header |
| Markers.MarkIdempotent | screenshot_translator.py:337-373 | marking twice is marking once |
| Markers.MarkWithoutCorner | screenshot_translator.py:348-355 | a block without `「` is never changed |
| Markers.MarkBracketed | screenshot_translator.py:366-372 | the header `「name」` written by the normalizer becomes `⟦name⟧name⟦/name⟧`; the lines after it are kept |
| Markers.SpanAtHead | screenshot_translator.py:322-323 | a matched span is enclosed by delimiters at both ends |
| Markers.GuessMarks | screenshot_translator.py:313-335 | specification function with no contract of its own: `pattern.sub` with the single-character delimiter pattern, left to right and without overlap; `GuessAbsent`, `GuessPair`, `GuessUnpaired`, `GuessLines` and `GuessCut` state what it promises |
| Markers.GuessAbsent | screenshot_translator.py:313-335 | without the delimiter, nothing is marked |
| Markers.GuessPair | screenshot_translator.py:322-335 | a delimited span of allowed characters is replaced (italic markers when on, bare span when off) and the scan resumes after its closing delimiter |
| Markers.GuessLines | screenshot_translator.py:323 | spans never cross a line feed: lines are marked independently |
| Markers.GuessCut | screenshot_translator.py:323 | marking text followed by a tail that opens with a line feed is marking each part on its own |
| Markers.GuessExample | screenshot_translator.py:313-335 | `` `he` said `` becomes `⟦i⟧he⟦/i⟧ said` |
| Markers.GuessUnpaired | screenshot_translator.py:323 | a lone delimiter, or an empty pair, is kept |
| Prompt.MappingLines | screenshot_translator.py:537-538 | one `- jp → en` line per entry, in order |
| Prompt.BuildJp2EnPrompt | screenshot_translator.py:533-539 | the method computes `Jp2EnPrompt` |
| Prompt.PromptEmpty | screenshot_translator.py:534-535 | the prompt block is empty exactly when the glossary is |
| Prompt.PromptLines | screenshot_translator.py:536-539 | split back into lines, the block is the header followed by one mapping line per entry |
| Prompt.LoadedPromptLines | screenshot_translator.py:533-539 | a loaded glossary renders as its header and one line per entry |
| Prompt.PromptBraceFree | scripts/audio_translator.py:336-342 | a glossary without braces gives a block without braces |
| Prompt.SuffixShape | scripts/audio_translator.py:454-456 | the glossary block is appended exactly when the glossary is non-empty |
| Prompt.FillOnce | scripts/audio_translator.py:459-461 | the one placeholder of a template is replaced by the text |
| Prompt.RenderAudioPrompt | scripts/audio_translator.py:452-465 | specification function with no contract of its own: the template with the glossary block appended, the placeholder replaced, or the text appended under `Japanese:`; `RenderFilled`, `RenderAppended` and `RenderDefault` state the cases |
| Prompt.RenderFilled | scripts/audio_translator.py:452-461 | with the placeholder in the template, the text takes its place and the glossary block follows the template |
| Prompt.RenderAppended | scripts/audio_translator.py:452-465 | without a placeholder, the text is appended under `Japanese:` after the template and glossary block |
| Prompt.RenderDefault | scripts/audio_translator.py:429-461 | the built-in template with no glossary gives the instruction followed by the Japanese text |
| Pipeline.PostProcess | screenshot_translator.py:794-846 | the returned text is always stripped, in every mode; `RawStrips`, `TranslationOnlyBody`, `FullPlain` and `FullExample` state what each mode returns |
| Pipeline.TranslateImages | screenshot_translator.py:781-846 | a provider failure is reported as text opening with `(Python error) `; a reply is post-processed into stripped text |
| Pipeline.RawStrips | screenshot_translator.py:816-817 | in raw mode a reply without fences or carriage returns is only stripped |
| Pipeline.CanonicalSections | screenshot_translator.py:797-822 | a canonical reply survives fence stripping and enforcement and splits into its two bodies |
| Pipeline.PlainStyled | screenshot_translator.py:823-829 | a body with nothing to style and no EN→EN glossary passes the styling unchanged |
| Pipeline.TranslationOnlyBody | screenshot_translator.py:820-829 | translation-only mode returns exactly the translation body of a canonical reply that needs no styling |
| Pipeline.TaggedSections | screenshot_translator.py:797-832 | a reply in the tagged layout splits into its two bodies |
| Pipeline.FullPlain | screenshot_translator.py:831-846 | in full mode with colouring off and no glossaries, the result is the canonical text of the normalized transcript (stripped) and of the translation with its header resolved, for any header form the normalizer accepts |
| Pipeline.FullExample | screenshot_translator.py:781-846 | the tagged reply `「ゆうた」\nこんにちは` / `Hello` comes out as `Transcript:\n「ゆうた」\nこんにちは\n\nTranslation:\n「Yuuta」\nHello` |
| Audio.BlocksAtLeastIff | scripts/audio_translator.py:174-180 | a duration of n blocks reaches a threshold exactly when n is at least its block count |
| Audio.ConfigFor | scripts/audio_translator.py:174-180 | the block thresholds agree with the second thresholds for every whole number of blocks; the pre-roll is at least one block |
| Audio.DefaultConfig | scripts/audio_translator.py:174-180 | the defaults are 2 blocks of speech, 1 of silence, 24 at most and 1 of pre-roll |
| Audio.Push | scripts/audio_translator.py:944-957 | the deque keeps the latest `maxlen` blocks, oldest dropped first, and ends with the new block |
| Audio.Classify | scripts/audio_translator.py:957-972 | specification function with no contract of its own: the block pushed on the history, then added to the segment (with the history at the onset) when voiced, or counted as silence inside a segment; `Onset`, `VoicedInside`, `SilentInside` and `SilentOutside` state what it promises |
| Audio.ShouldCut | scripts/audio_translator.py:975-979 | specification predicate with no contract of its own: `should_cut` on the state after classification; `CutIff` and `NoCutBelowMin` state what it promises |
| Audio.StepVad | scripts/audio_translator.py:957-1018 | specification function with no contract of its own: one block classified, then cut and reset when `ShouldCut` holds; `StepBlock`, `HistoryKept`, `CutIff`, `ResetAfterCut`, `StepInv` and `SegmentBounds` state what it promises |
| Audio.HistoryKept | scripts/audio_translator.py:957-1018 | the history is the pre-roll deque whether or not the block cut a segment |
| Audio.CutIff | scripts/audio_translator.py:975-981 | a segment is cut exactly when `should_cut` holds after the block |
| Audio.NoCutBelowMin | scripts/audio_translator.py:975-979 | no block, voiced or silent, cuts a segment whose voiced length after that block is below the minimum; the segment's open state is kept |
| Audio.Onset | scripts/audio_translator.py:963-966 | at the onset of speech the segment opens with the whole history, then the block itself (so with one block of pre-roll the first block appears twice) |
| Audio.VoicedInside | scripts/audio_translator.py:963-969 | inside a segment a voiced block is appended once and resets the silence |
| Audio.SilentInside | scripts/audio_translator.py:970-972 | inside a segment a silent block only lengthens the silence |
| Audio.SilentOutside | scripts/audio_translator.py:970-972 | outside a segment a silent block only enters the history |
| Audio.ResetAfterCut | scripts/audio_translator.py:1017-1018 | after a cut the segment state is reset and the history kept |
| Audio.StepInv | scripts/audio_translator.py:955-1018 | every block keeps the reachable-state invariant |
| Audio.SegmentBounds | scripts/audio_translator.py:963-981 | a cut segment holds at least the minimum voiced blocks plus one, and at most the cap plus the pre-roll |
| Audio.VoicedPrefix | scripts/audio_translator.py:950-981 | uninterrupted voice shorter than the cap cuts nothing and accumulates the history and every block |
| Audio.CapCut | scripts/audio_translator.py:950-981 | uninterrupted voice is cut after exactly the cap, as one segment of the history and every block |
| Audio.DefaultCapCut | scripts/audio_translator.py:950-981 | with the defaults, 24 voiced blocks give one segment of 25 blocks |
| Audio.StepBlock | scripts/audio_translator.py:957-1018 | one loop iteration on its local variables computes `StepVad` |
| Audio.Offer | scripts/audio_translator.py:1009-1013 | a line is written exactly when not paused, non-empty and different from the last; it becomes the last line |
| Audio.OfferNoRepeat | scripts/audio_translator.py:1011-1013 | a line just written is not written again by the next offer |
| Audio.LoadTable | scripts/audio_translator.py:279-314 | a loaded table is fit for substitution; a missing or unreadable file gives an empty one |
| Audio.ReloadTable | scripts/audio_translator.py:363-371 | a table is re-read only when its time is known and differs from the stored one; the stored time then follows |
| Audio.ReloadStable | scripts/audio_translator.py:358-379 | a second reload with the same times changes nothing |
| Audio.ReloadTables | scripts/audio_translator.py:358-379 | the two tables reload independently |
| Audio.Glossaries.Reload | scripts/audio_translator.py:358-379 | the global tables are updated in place to `ReloadTables` of their old value |
| Audio.ReadTable | scripts/audio_translator.py:279-314 | reading a file gives `LoadTable` |
| Audio.HandleCut | scripts/audio_translator.py:983-1015 | without transcribed text nothing changes; otherwise the tables are reloaded and a written line is non-empty, new and not paused |
| Audio.HandleSegment | scripts/audio_translator.py:983-1015 | handling a segment on the global tables computes `HandleCut` |
| Audio.Session | scripts/audio_translator.py:943-1018 | specification function with no contract of its own: the capture loop over a run of blocks; `Listen`, `SessionVad`, `SessionNoRepeat` and `SessionTables` state what it promises |
| Audio.SessionVad | scripts/audio_translator.py:950-1018 | inside the loop the segmenter runs exactly as on its own |
| Audio.SessionNoRepeat | scripts/audio_translator.py:947-1013 | the loop writes only non-empty lines, never the same one twice in a row, and remembers the last |
| Audio.SessionTables | scripts/audio_translator.py:358-379 | the tables stay fit for substitution through the whole loop |
| Audio.Listen | scripts/audio_translator.py:943-1018 | the capture loop returns the lines of `Session` and leaves the tables as `Session` does |

## Left out

- I/O:
  - files, the network, provider calls, audio capture, logging and printing
    are not modelled;
  - a provider's reply is a parameter (`Reply`);
  - the transcription and translation calls are abstract total functions;
    a raised exception is `Failed`, which the source turns into empty text;
  - a glossary file's presence, text and modification time are `Env`
    values (`None` for a missing or undecodable file).
- The encoding loop of `load_glossary`. The model starts from the decoded
  text, so a file none of the encodings can read is `None`.
- Mode selection:
  - `PROVIDER`, `POSTPROC_MODE` and the `SHOT_*` environment switches are
    parameters (`Mode`, `Style`);
  - the `SHOT_GUESS_DELIM` delimiter is a single character. The
    multi-character (and empty) delimiter branch of `_mark_guessed_pronouns`
    is not modelled.
- The sidecar writes of `translate_images` (`LAST_JP`, `LAST_SRC`). They are
  file I/O inside a `try` whose failure is ignored, and they do not affect
  the returned text.
- `load_system_prompt`, `make_messages_for_openai`, `gemini_image_parts`,
  `file_to_data_url` and `_load_audio_prompt_template`. They only read files
  and the environment; the loaded template is a parameter of
  `RenderAudioPrompt`.
- Signal processing and reporting in the capture loop:
  - mixing to mono, RMS, clipping and resampling are left out; whether a
    block is voiced is an input;
  - the log rotation and the debug messages of the hot reload are left out;
  - the `try`/`except` around the reload is left out, because the model's
    reload cannot fail;
  - clearing the overlay at start-up is left out.
- Thresholds:
  - they are whole non-negative milliseconds (`ConfigFor`), while the source
    reads floating-point seconds from the environment. Non-multiples of
    1 ms and negative values are not modelled;
  - a duration of n blocks is compared as `n * 250 ms`, which is exact for
    the source's 0.25 s steps.
- Glossary.ApplyEnGlossary: requires every entry source to be non-empty,
  which every loaded glossary satisfies (`ParseGlossaryEntries`). The
  empty-pattern regular expression is not modelled.
- `\w`, `\b` and `re.IGNORECASE`:
  - letters are ASCII only (`IsWordChar`, `Fold`);
  - Unicode word characters and non-ASCII case folding are not modelled.
- Pipeline.FullPlain: stated for colouring off and empty glossaries only,
  for a resolved translation that is non-empty, already stripped and free
  of the guess delimiter, and for bodies without carriage returns. The
  styled paths are covered piecewise by the Markers and Glossary lemmas.
- Glossary.ApplyEntry and Glossary.ApplyEnGlossary: the target of a phrase
  entry is inserted literally. `pattern.sub` expands backslash escapes and
  group references in a string replacement (`\n` becomes a line feed, `\1`
  raises an error), which is not modelled; for a target without a
  backslash the two agree. Whole-word entries go through a function
  replacement in the source, which inserts the target literally as the
  model does.
- Speaker.JpIdempotent: holds only when the block has a header. A block
  without one comes back stripped, and stripping is idempotent (Text.StripStripped).
- Speaker.EnHeaderNamed, Speaker.EnHeaderInserted and Speaker.EnUnchanged:
  stated for any name resolver. `EnSpeaker` instantiates the resolver with
  `TranslateName`.
- Sections.SplitFormat: requires a transcript that holds no
  `\n\nTranslation:` of its own, and, when the transcript is empty, a
  translation that holds none either. In those cases the lazy group of the
  section pattern ends at that earlier marker, and the round trip does not
  hold.

Where the code and its documentation differ, the model follows the code:

- Enforcing an already canonical reply is not idempotent when either body
  is empty: an empty translation loses the trailing line feed, and a
  canonical text with an empty transcript is rewritten as well.
  Canonical text is a fixed point exactly when both bodies are non-empty
  (`Sections.EnforceCanonical`).
- `normalize_jp_speaker_line` does not keep the indentation of the header
  line. The header line is rewritten stripped.
- `_mark_transcript_name_line` and `_mark_translation_name_line` join the
  lines with line feeds. The marked text therefore has `\n` line breaks,
  and no final line break if there was one.
- `ッ` followed by `ー` emits `-`. The table value of `ー` is reached through
  the `ッ` lookahead (`Romaji.DashThroughSokuon`).
- `_render_audio_prompt` has a fallback for a failing `replace`. `str.replace`
  cannot fail, so that fallback is never taken.
- At the onset of speech the current block is both in the pre-roll history
  and appended after it, so it appears twice in the segment
  (`Audio.Onset`).
- The segmenter's state is a `Vad` value held in local variables and
  updated by `Audio.StepBlock`, not an object: in the source `speech`,
  `speech_len`, `silence_run`, `in_voiced` and `history` are locals of `main`.
- The segment state is reset inside `Audio.StepBlock`, before the segment is
  handled. The source resets it after the transcription and translation.
  Nothing between the two reads that state, so the observable behaviour is
  the same.
