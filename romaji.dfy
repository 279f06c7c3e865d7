/**
 * The fallback name romanizer: hiragana is shifted to katakana, and katakana
 * is romanized segment by segment (segments are separated by the middle dot
 * `・`) with a fixed single-character table, a digraph table tried first, the
 * small `ッ` doubling the next consonant and `ー` lengthening the vowel before
 * it.
 */
module Romaji {
  import opened Wrappers
  import opened Text

  /** A character that can appear in a table value: a lowercase ASCII letter,
      or `-` (the table's value for `ー`). */
  predicate RomajiChar(c: char) {
    'a' <= c <= 'z' || c == '-'
  }

  predicate AllRomaji(s: string) {
    forall k :: 0 <= k < |s| ==> RomajiChar(s[k])
  }

  /** The single-character table; a character outside it romanizes to "". */
  function KanaRomaji(c: char): (r: string)
    ensures |r| <= 3
    ensures AllRomaji(r)
    ensures '-' in r <==> c == 'ー'
  {
    match c
    case 'ア' => "a"   case 'イ' => "i"   case 'ウ' => "u"   case 'エ' => "e"   case 'オ' => "o"
    case 'カ' => "ka"  case 'キ' => "ki"  case 'ク' => "ku"  case 'ケ' => "ke"  case 'コ' => "ko"
    case 'サ' => "sa"  case 'シ' => "shi" case 'ス' => "su"  case 'セ' => "se"  case 'ソ' => "so"
    case 'タ' => "ta"  case 'チ' => "chi" case 'ツ' => "tsu" case 'テ' => "te"  case 'ト' => "to"
    case 'ナ' => "na"  case 'ニ' => "ni"  case 'ヌ' => "nu"  case 'ネ' => "ne"  case 'ノ' => "no"
    case 'ハ' => "ha"  case 'ヒ' => "hi"  case 'フ' => "fu"  case 'ヘ' => "he"  case 'ホ' => "ho"
    case 'マ' => "ma"  case 'ミ' => "mi"  case 'ム' => "mu"  case 'メ' => "me"  case 'モ' => "mo"
    case 'ヤ' => "ya"  case 'ユ' => "yu"  case 'ヨ' => "yo"
    case 'ラ' => "ra"  case 'リ' => "ri"  case 'ル' => "ru"  case 'レ' => "re"  case 'ロ' => "ro"
    case 'ワ' => "wa"  case 'ヲ' => "o"   case 'ン' => "n"
    case 'ガ' => "ga"  case 'ギ' => "gi"  case 'グ' => "gu"  case 'ゲ' => "ge"  case 'ゴ' => "go"
    case 'ザ' => "za"  case 'ジ' => "ji"  case 'ズ' => "zu"  case 'ゼ' => "ze"  case 'ゾ' => "zo"
    case 'ダ' => "da"  case 'ヂ' => "ji"  case 'ヅ' => "zu"  case 'デ' => "de"  case 'ド' => "do"
    case 'バ' => "ba"  case 'ビ' => "bi"  case 'ブ' => "bu"  case 'ベ' => "be"  case 'ボ' => "bo"
    case 'パ' => "pa"  case 'ピ' => "pi"  case 'プ' => "pu"  case 'ペ' => "pe"  case 'ポ' => "po"
    case 'ヴ' => "vu"
    case 'ァ' => "a"   case 'ィ' => "i"   case 'ゥ' => "u"   case 'ェ' => "e"   case 'ォ' => "o"
    case 'ャ' => "ya"  case 'ュ' => "yu"  case 'ョ' => "yo"
    case 'ー' => "-"
    case _ => ""
  }

  /** The 33-entry digraph table: a consonant kana followed by a small ya/yu/yo. */
  function Digraph(a: char, b: char): (r: Option<string>)
    ensures r.Some? ==> |r.value| >= 2 && AllRomaji(r.value) && '-' !in r.value
    ensures r.Some? ==> a in "キシジチニヒミリギビピ" && b in "ャュョ"
  {
    match (a, b)
    case ('キ', 'ャ') => Some("kya") case ('キ', 'ュ') => Some("kyu") case ('キ', 'ョ') => Some("kyo")
    case ('シ', 'ャ') => Some("sha") case ('シ', 'ュ') => Some("shu") case ('シ', 'ョ') => Some("sho")
    case ('ジ', 'ャ') => Some("ja")  case ('ジ', 'ュ') => Some("ju")  case ('ジ', 'ョ') => Some("jo")
    case ('チ', 'ャ') => Some("cha") case ('チ', 'ュ') => Some("chu") case ('チ', 'ョ') => Some("cho")
    case ('ニ', 'ャ') => Some("nya") case ('ニ', 'ュ') => Some("nyu") case ('ニ', 'ョ') => Some("nyo")
    case ('ヒ', 'ャ') => Some("hya") case ('ヒ', 'ュ') => Some("hyu") case ('ヒ', 'ョ') => Some("hyo")
    case ('ミ', 'ャ') => Some("mya") case ('ミ', 'ュ') => Some("myu") case ('ミ', 'ョ') => Some("myo")
    case ('リ', 'ャ') => Some("rya") case ('リ', 'ュ') => Some("ryu") case ('リ', 'ョ') => Some("ryo")
    case ('ギ', 'ャ') => Some("gya") case ('ギ', 'ュ') => Some("gyu") case ('ギ', 'ョ') => Some("gyo")
    case ('ビ', 'ャ') => Some("bya") case ('ビ', 'ュ') => Some("byu") case ('ビ', 'ョ') => Some("byo")
    case ('ピ', 'ャ') => Some("pya") case ('ピ', 'ュ') => Some("pyu") case ('ピ', 'ョ') => Some("pyo")
    case _ => None
  }

  // ---------------------------------------------------------------------------
  // Hiragana to katakana
  // ---------------------------------------------------------------------------

  /** One character of hira_to_kata, with all three of the source's branches. */
  function KataChar(c: char): char {
    if 0x3041 <= c as int <= 0x3096 then (c as int + 0x60) as char
    else if c == 'ゔ' then 'ヴ'
    else c
  }

  /** The `ゔ` branch is never taken: U+3094 lies inside the shifted range, so
      each character is either shifted by 0x60 or left alone. */
  lemma KataCharShift(c: char)
    ensures 0x3041 <= 'ゔ' as int <= 0x3096
    ensures 0x3041 <= c as int <= 0x3096 ==> KataChar(c) as int == c as int + 0x60
    ensures !(0x3041 <= c as int <= 0x3096) ==> KataChar(c) == c
  {
  }

  /** hira_to_kata as a value. */
  function Katakana(s: string): (r: string)
    ensures |r| == |s|
    ensures forall k :: 0 <= k < |s| ==> r[k] == KataChar(s[k])
  {
    seq(|s|, k requires 0 <= k < |s| => KataChar(s[k]))
  }

  /** No character of the result lies in the hiragana range, hence a second
      conversion changes nothing. */
  lemma KatakanaIdempotent(s: string)
    ensures forall k :: 0 <= k < |s| ==> !(0x3041 <= Katakana(s)[k] as int <= 0x3096)
    ensures Katakana(Katakana(s)) == Katakana(s)
  {
  }

  /** hira_to_kata: converts character by character into a growing output. */
  method HiraToKata(s: string) returns (out: string)
    ensures out == Katakana(s)
  {
    out := [];
    for i := 0 to |s|
      invariant |out| == i
      invariant forall k :: 0 <= k < i ==> out[k] == KataChar(s[k])
    {
      var code := s[i] as int;
      if 0x3041 <= code <= 0x3096 {
        out := out + [(code + 0x60) as char];
      } else if s[i] == 'ゔ' {
        out := out + ['ヴ'];
      } else {
        out := out + [s[i]];
      }
    }
  }

  /** The character class of is_all_kana: hiragana ぁ-ゖ, katakana ァ-ヶ,
      the long-vowel mark and the middle dot. */
  predicate IsKanaChar(c: char) {
    'ぁ' <= c <= 'ゖ' || 'ァ' <= c <= 'ヶ' || c == 'ー' || c == '・'
  }

  /** is_all_kana: a full match of one or more kana-class characters. */
  predicate IsAllKana(s: string) {
    |s| > 0 && forall k :: 0 <= k < |s| ==> IsKanaChar(s[k])
  }

  /** Converting to katakana keeps a kana name a kana name, and leaves no
      hiragana in it. */
  lemma KatakanaKeepsKana(s: string)
    requires IsAllKana(s)
    ensures IsAllKana(Katakana(s))
    ensures forall k :: 0 <= k < |s| ==> 'ァ' <= Katakana(s)[k] <= 'ヶ' || Katakana(s)[k] in "ー・"
  {
    forall k | 0 <= k < |s|
      ensures IsKanaChar(Katakana(s)[k])
      ensures 'ァ' <= Katakana(s)[k] <= 'ヶ' || Katakana(s)[k] in "ー・"
    {
      KataCharShift(s[k]);
    }
  }

  // ---------------------------------------------------------------------------
  // Katakana to romaji
  // ---------------------------------------------------------------------------

  /** The two lookup tables the romanizer consults. The general lemmas below
      hold for any tables with the shape of the standard ones; `Standard`
      holds the two tables above. */
  datatype Tables = Tables(kana: char -> string, digraph: (char, char) -> Option<string>) {
    /** The shape of the standard tables: values are romaji, `-` appears only
        in the value of `ー`, `ッ` is unmapped, and a digraph's first
        character is mapped on its own. */
    predicate WellFormed() {
      (forall c :: AllRomaji(kana(c)) && ('-' in kana(c) <==> c == 'ー')) &&
      kana('ッ') == [] &&
      (forall a, b :: digraph(a, b).Some? ==>
        digraph(a, b).value != [] && AllRomaji(digraph(a, b).value) &&
        '-' !in digraph(a, b).value && kana(a) != [])
    }
  }

  const Standard: Tables := Tables(KanaRomaji, Digraph)

  lemma StandardWellFormed()
    ensures Standard.WellFormed()
  {
    assert KanaRomaji('ッ') == [];
    forall a | a in "キシジチニヒミリギビピ"
      ensures KanaRomaji(a) != []
    {
    }
  }

  /** The romaji of the sound starting at `j`: a digraph if one starts there,
      else the single-character value. */
  function NextSound(t: Tables, seg: string, j: nat): string
    requires j < |seg|
  {
    if j + 2 <= |seg| && t.digraph(seg[j], seg[j + 1]).Some? then t.digraph(seg[j], seg[j + 1]).value
    else t.kana(seg[j])
  }

  /** What a non-final `ッ` before position `j` emits: the first letter of the
      next sound, or nothing when that sound is unmapped. */
  function Geminate(t: Tables, seg: string, j: nat): (r: string)
    requires j < |seg|
    ensures |r| <= 1
    ensures r != [] ==> NextSound(t, seg, j) != [] && r[0] == NextSound(t, seg, j)[0]
    ensures r == [] ==> NextSound(t, seg, j) == []
  {
    var base := NextSound(t, seg, j);
    if base == [] then [] else [base[0]]
  }

  const Vowels: string := "aeiou"

  /** The effect of `ー` on the romaji so far: repeat its last character if
      that is a vowel. */
  function LongVowel(rom: string): (r: string)
    ensures rom <= r && |r| <= |rom| + 1
    ensures |r| == |rom| + 1 <==> rom != [] && rom[|rom| - 1] in Vowels
    ensures |r| == |rom| + 1 ==> r[|rom|] == rom[|rom| - 1] && r[|rom|] != '-'
  {
    if rom != [] && rom[|rom| - 1] in Vowels then rom + [rom[|rom| - 1]] else rom
  }

  /** The romanization of `seg` from position `i` on, `rom` being the romaji
      produced so far. It only ever appends to `rom`, and with well-formed
      tables appends only romaji characters. */
  function RomanizeFrom(t: Tables, seg: string, i: nat, rom: string): (r: string)
    requires i <= |seg|
    ensures rom <= r
    ensures t.WellFormed() && AllRomaji(rom) ==> AllRomaji(r)
    decreases |seg| - i
  {
    if i == |seg| then rom
    else if i + 2 <= |seg| && t.digraph(seg[i], seg[i + 1]).Some? then
      RomanizeFrom(t, seg, i + 2, rom + t.digraph(seg[i], seg[i + 1]).value)
    else if seg[i] == 'ッ' && i + 1 < |seg| then
      RomanizeFrom(t, seg, i + 1, rom + Geminate(t, seg, i + 1))
    else if seg[i] == 'ー' then
      RomanizeFrom(t, seg, i + 1, LongVowel(rom))
    else
      RomanizeFrom(t, seg, i + 1, rom + t.kana(seg[i]))
  }

  /** The romaji of one `・`-free segment. */
  function RomanizeSegment(t: Tables, seg: string): (r: string)
    ensures t.WellFormed() ==> AllRomaji(r)
  {
    RomanizeFrom(t, seg, 0, [])
  }

  /** The inner while loop of katakana_to_romaji: one segment. */
  method SegmentToRomaji(t: Tables, seg: string) returns (rom: string)
    ensures rom == RomanizeSegment(t, seg)
  {
    var i := 0;
    rom := [];
    while i < |seg|
      invariant i <= |seg|
      invariant RomanizeFrom(t, seg, i, rom) == RomanizeSegment(t, seg)
      decreases |seg| - i
    {
      if i + 2 <= |seg| && t.digraph(seg[i], seg[i + 1]).Some? {
        rom := rom + t.digraph(seg[i], seg[i + 1]).value;
        i := i + 2;
      } else if seg[i] == 'ッ' && i + 1 < |seg| {
        var base: string;
        if i + 3 <= |seg| && t.digraph(seg[i + 1], seg[i + 2]).Some? {
          base := t.digraph(seg[i + 1], seg[i + 2]).value;
        } else {
          base := t.kana(seg[i + 1]);
        }
        assert base == NextSound(t, seg, i + 1);
        if base != [] {
          rom := rom + [base[0]];
        } else {
          assert rom + Geminate(t, seg, i + 1) == rom;
        }
        i := i + 1;
      } else if seg[i] == 'ー' {
        if rom != [] && rom[|rom| - 1] in Vowels {
          rom := rom + [rom[|rom| - 1]];
        }
        i := i + 1;
      } else {
        rom := rom + t.kana(seg[i]);
        i := i + 1;
      }
    }
  }

  /** A digraph is taken before its first character is looked up alone. */
  lemma DigraphFirst(t: Tables, seg: string, i: nat, rom: string, out: string)
    requires i + 2 <= |seg| && t.digraph(seg[i], seg[i + 1]).Some?
    requires out == rom + t.digraph(seg[i], seg[i + 1]).value
    ensures RomanizeFrom(t, seg, i, rom) == RomanizeFrom(t, seg, i + 2, out)
  {
  }

  /** A `ッ` whose next sound is not itself `ッ` or `ー` doubles that sound's
      first letter: it emits the letter, then the next sound is romanized as
      usual. */
  lemma {:induction false} GeminateDoubles(t: Tables, seg: string, i: nat, rom: string)
    requires t.WellFormed()
    requires i + 1 < |seg| && seg[i] == 'ッ'
    requires seg[i + 1] != 'ッ' && seg[i + 1] != 'ー'
    ensures var n := if i + 3 <= |seg| && t.digraph(seg[i + 1], seg[i + 2]).Some? then 2 else 1;
      RomanizeFrom(t, seg, i, rom)
        == RomanizeFrom(t, seg, i + 1 + n, rom + Geminate(t, seg, i + 1) + NextSound(t, seg, i + 1))
  {
    assert t.kana(seg[i]) == [];
    assert RomanizeFrom(t, seg, i, rom) == RomanizeFrom(t, seg, i + 1, rom + Geminate(t, seg, i + 1));
  }

  /** An unmapped character that is not a non-final `ッ` adds nothing. */
  lemma UnmappedSkipped(t: Tables, seg: string, i: nat, rom: string)
    requires t.WellFormed()
    requires i < |seg| && t.kana(seg[i]) == []
    requires seg[i] != 'ッ' || i + 1 == |seg|
    ensures RomanizeFrom(t, seg, i, rom) == RomanizeFrom(t, seg, i + 1, rom)
  {
    assert i + 2 <= |seg| ==> t.digraph(seg[i], seg[i + 1]).None?;
    assert seg[i] != 'ー';
    assert rom + t.kana(seg[i]) == rom;
  }

  /** No `ッ` directly before a `ー`. */
  predicate NoSokuonBeforeLong(seg: string) {
    forall k :: 0 <= k < |seg| - 1 ==> !(seg[k] == 'ッ' && seg[k + 1] == 'ー')
  }

  /** One step of the romanizer adds no `-` unless it is a `ッ` before `ー`. */
  lemma NoDashStep(t: Tables, seg: string, i: nat, rom: string) returns (j: nat, next: string)
    requires t.WellFormed()
    requires i < |seg| && '-' !in rom
    requires NoSokuonBeforeLong(seg)
    ensures i < j <= |seg| && '-' !in next
    ensures RomanizeFrom(t, seg, i, rom) == RomanizeFrom(t, seg, j, next)
  {
    if i + 2 <= |seg| && t.digraph(seg[i], seg[i + 1]).Some? {
      j, next := i + 2, rom + t.digraph(seg[i], seg[i + 1]).value;
    } else if seg[i] == 'ッ' && i + 1 < |seg| {
      j, next := i + 1, rom + Geminate(t, seg, i + 1);
      assert seg[i + 1] != 'ー';
      assert '-' !in NextSound(t, seg, i + 1);
    } else if seg[i] == 'ー' {
      j, next := i + 1, LongVowel(rom);
    } else {
      j, next := i + 1, rom + t.kana(seg[i]);
    }
  }

  /** `ー` never emits `-` itself: a `-` can only come from the table value of
      `ー` reached through a preceding `ッ`. */
  lemma {:induction false} NoDashFrom(t: Tables, seg: string, i: nat, rom: string)
    requires t.WellFormed()
    requires i <= |seg| && '-' !in rom
    requires NoSokuonBeforeLong(seg)
    ensures '-' !in RomanizeFrom(t, seg, i, rom)
    decreases |seg| - i
  {
    if i < |seg| {
      var j, next := NoDashStep(t, seg, i, rom);
      NoDashFrom(t, seg, j, next);
    }
  }

  lemma NoDash(t: Tables, seg: string)
    requires t.WellFormed()
    requires NoSokuonBeforeLong(seg)
    ensures '-' !in RomanizeSegment(t, seg)
  {
    NoDashFrom(t, seg, 0, []);
  }

  /** The exception: `ッー` reaches the table value of `ー`. */
  lemma DashThroughSokuon()
    ensures RomanizeSegment(Standard, "ッー") == "-"
  {
    assert Geminate(Standard, "ッー", 1) == "-";
    assert RomanizeFrom(Standard, "ッー", 1, "-") == "-";
  }

  /** A segment made only of unmapped characters romanizes to "". */
  lemma {:induction false} UnmappedFrom(t: Tables, seg: string, i: nat)
    requires t.WellFormed()
    requires i <= |seg|
    requires forall k :: i <= k < |seg| ==> t.kana(seg[k]) == []
    ensures RomanizeFrom(t, seg, i, []) == []
    decreases |seg| - i
  {
    if i < |seg| {
      if seg[i] == 'ッ' && i + 1 < |seg| {
        assert t.digraph(seg[i], seg[i + 1]).None?;
        assert NextSound(t, seg, i + 1) == [] by {
          assert i + 3 <= |seg| ==> t.digraph(seg[i + 1], seg[i + 2]).None?;
        }
      } else {
        UnmappedSkipped(t, seg, i, []);
      }
      UnmappedFrom(t, seg, i + 1);
    }
  }

  /** str.capitalize() on romaji: the first character upper-cased, the rest
      lower-cased. */
  function Capitalize(p: string): (r: string)
    ensures |r| == |p|
    ensures p != [] ==> r[0] == Upper(p[0])
    ensures forall k :: 1 <= k < |p| ==> r[k] == Fold(p[k])
  {
    if p == [] then [] else [Upper(p[0])] + Lower(p[1..])
  }

  /** A word of the output: a capital letter (or `-`) followed by romaji. */
  predicate IsWord(w: string) {
    w != [] && ('A' <= w[0] <= 'Z' || w[0] == '-') && forall k :: 1 <= k < |w| ==> RomajiChar(w[k])
  }

  /** The capitalized non-empty segment romanizations, in order. */
  function Words(parts: seq<string>): (ws: seq<string>)
    ensures |ws| <= |parts|
    ensures (forall k :: 0 <= k < |parts| ==> AllRomaji(parts[k])) ==>
      forall k :: 0 <= k < |ws| ==> IsWord(ws[k])
    ensures ws == [] <==> forall k :: 0 <= k < |parts| ==> parts[k] == []
  {
    if parts == [] then []
    else if parts[0] == [] then Words(parts[1..])
    else
      var w := Capitalize(parts[0]);
      assert AllRomaji(parts[0]) ==> IsWord(w) by {
        if AllRomaji(parts[0]) {
          CapitalizeWord(parts[0]);
        }
      }
      [w] + Words(parts[1..])
  }

  lemma CapitalizeWord(p: string)
    requires p != [] && AllRomaji(p)
    ensures IsWord(Capitalize(p))
  {
    assert RomajiChar(p[0]);
    forall k | 1 <= k < |p|
      ensures RomajiChar(Capitalize(p)[k])
    {
      assert RomajiChar(p[k]);
    }
  }

  /** The romanization of every segment. */
  function RomanizeAll(t: Tables, segs: seq<string>): (r: seq<string>)
    ensures |r| == |segs|
    ensures forall k :: 0 <= k < |segs| ==> r[k] == RomanizeSegment(t, segs[k])
  {
    seq(|segs|, k requires 0 <= k < |segs| => RomanizeSegment(t, segs[k]))
  }

  /** katakana_to_romaji as a value, for given tables. */
  function RomanizeWith(t: Tables, name: string): string {
    var romaji := Join(" ", Words(RomanizeAll(t, SplitOn(name, '・'))));
    if romaji != [] then romaji else name
  }

  /** katakana_to_romaji with the standard tables. */
  function Romanize(name: string): string {
    RomanizeWith(Standard, name)
  }

  /** Joining non-empty words gives a non-empty text. */
  lemma JoinWordsNonEmpty(ws: seq<string>)
    requires ws != [] && ws[0] != []
    ensures Join(" ", ws) != []
  {
    if |ws| > 1 {
      assert Join(" ", ws) == ws[0] + " " + Join(" ", ws[1..]);
    }
  }

  lemma WordHasNoSpace(w: string)
    requires IsWord(w)
    ensures ' ' !in w
  {
    forall j | 0 <= j < |w|
      ensures w[j] != ' '
    {
      if j > 0 {
        assert RomajiChar(w[j]);
      }
    }
  }

  /** Words joined by spaces split back into the same words. */
  lemma JoinSplitWords(ws: seq<string>)
    requires ws != [] && forall k :: 0 <= k < |ws| ==> IsWord(ws[k])
    ensures Join(" ", ws) != [] && SplitOn(Join(" ", ws), ' ') == ws
  {
    JoinWordsNonEmpty(ws);
    forall k | 0 <= k < |ws|
      ensures ' ' !in ws[k]
    {
      WordHasNoSpace(ws[k]);
    }
    SplitOnJoin(ws, ' ');
  }

  /** The output shape: with no romaji at all the name comes back unchanged;
      otherwise the result consists of the capitalized non-empty segment
      romanizations joined by single spaces, and splitting it at spaces gives
      them back. */
  lemma RomanizeShape(t: Tables, name: string)
    requires t.WellFormed()
    ensures var ws := Words(RomanizeAll(t, SplitOn(name, '・')));
      (ws == [] ==> RomanizeWith(t, name) == name) &&
      (ws != [] ==> RomanizeWith(t, name) == Join(" ", ws) && SplitOn(RomanizeWith(t, name), ' ') == ws)
  {
    var parts := RomanizeAll(t, SplitOn(name, '・'));
    if Words(parts) != [] {
      assert forall k :: 0 <= k < |parts| ==> AllRomaji(parts[k]);
      JoinSplitWords(Words(parts));
    }
  }

  /** A name with no mapped character (Latin text, say) is returned unchanged. */
  lemma UnmappedName(t: Tables, name: string)
    requires t.WellFormed()
    requires forall c :: c in name ==> t.kana(c) == []
    ensures RomanizeWith(t, name) == name
  {
    var segs := SplitOn(name, '・');
    SplitOnChars(name, '・');
    forall j | 0 <= j < |segs|
      ensures RomanizeSegment(t, segs[j]) == []
    {
      forall k | 0 <= k < |segs[j]|
        ensures t.kana(segs[j][k]) == []
      {
        assert segs[j][k] in segs[j];
      }
      UnmappedFrom(t, segs[j], 0);
    }
    RomanizeShape(t, name);
  }

  /** katakana_to_romaji: the segment loop, then the join. */
  method KatakanaToRomaji(name: string) returns (out: string)
    ensures out == Romanize(name)
  {
    var parts := SplitOn(name, '・');
    var romParts: seq<string> := [];
    for j := 0 to |parts|
      invariant |romParts| == j
      invariant forall k :: 0 <= k < j ==> romParts[k] == RomanizeSegment(Standard, parts[k])
    {
      var rom := SegmentToRomaji(Standard, parts[j]);
      romParts := romParts + [rom];
    }
    assert romParts == RomanizeAll(Standard, parts);
    var romaji := Join(" ", Words(romParts));
    out := if romaji != [] then romaji else name;
  }

  /** kana_to_romaji: hiragana first shifted to katakana. */
  method KanaToRomaji(s: string) returns (out: string)
    ensures out == Romanize(Katakana(s))
  {
    var kata := HiraToKata(s);
    out := KatakanaToRomaji(kata);
  }

  /** str.capitalize() leaves romaji after the first character alone. */
  lemma CapitalizeRomaji(p: string)
    requires p != [] && AllRomaji(p)
    ensures Capitalize(p) == [Upper(p[0])] + p[1..]
  {
    forall k | 1 <= k < |p|
      ensures Capitalize(p)[k] == p[k]
    {
      assert RomajiChar(p[k]);
    }
  }

  // ---------------------------------------------------------------------
  // Worked examples: each …Segment lemma steps through one segment,
  // each …With lemma capitalizes it, and the example states the result
  // ---------------------------------------------------------------------

  /** A name without a middle dot is one word: its capitalized romaji. */
  lemma OneSegment(t: Tables, name: string, rom: string)
    requires '・' !in name && rom != [] && AllRomaji(rom)
    requires RomanizeSegment(t, name) == rom
    ensures RomanizeWith(t, name) == [Upper(rom[0])] + rom[1..]
  {
    assert SplitOn(name, '・') == [name];
    assert RomanizeAll(t, [name]) == [rom];
    assert Words([rom]) == [Capitalize(rom)];
    CapitalizeRomaji(rom);
  }

  // The examples take the name as a parameter fixed by a precondition, so
  // that the verifier steps through the romanizer as the proof directs
  // rather than evaluating the literal by itself.

  /** One step over a character looked up on its own. */
  lemma StepKana(t: Tables, seg: string, i: nat, rom: string, out: string)
    requires i < |seg| && seg[i] != 'ッ' && seg[i] != 'ー'
    requires i + 2 <= |seg| ==> t.digraph(seg[i], seg[i + 1]).None?
    requires out == rom + t.kana(seg[i])
    ensures RomanizeFrom(t, seg, i, rom) == RomanizeFrom(t, seg, i + 1, out)
  {
  }

  /** One step over `ー`. */
  lemma StepLong(t: Tables, seg: string, i: nat, rom: string, out: string)
    requires i < |seg| && seg[i] == 'ー'
    requires i + 2 <= |seg| ==> t.digraph(seg[i], seg[i + 1]).None?
    requires out == LongVowel(rom)
    ensures RomanizeFrom(t, seg, i, rom) == RomanizeFrom(t, seg, i + 1, out)
  {
  }

  /** One step over a non-final `ッ`. */
  lemma StepSokuon(t: Tables, seg: string, i: nat, rom: string, out: string)
    requires i + 1 < |seg| && seg[i] == 'ッ'
    requires t.digraph(seg[i], seg[i + 1]).None?
    requires out == rom + Geminate(t, seg, i + 1)
    ensures RomanizeFrom(t, seg, i, rom) == RomanizeFrom(t, seg, i + 1, out)
  {
  }

  // Each example first romanizes its segments with any tables that agree
  // with the standard ones on the entries it consults, then instantiates
  // them with the standard tables.

  lemma RamenSegment(t: Tables, s: string)
    requires s == "ラーメン"
    requires t.kana('ラ') == "ra" && t.kana('メ') == "me" && t.kana('ン') == "n"
    requires t.digraph('ラ', 'ー').None? && t.digraph('ー', 'メ').None? && t.digraph('メ', 'ン').None?
    ensures RomanizeSegment(t, s) == "raamen"
  {
    assert s[0] == 'ラ' && s[1] == 'ー' && s[2] == 'メ' && s[3] == 'ン';
    StepKana(t, s, 0, "", "ra");
    StepLong(t, s, 1, "ra", "raa");
    StepKana(t, s, 2, "raa", "raame");
    StepKana(t, s, 3, "raame", "raamen");
  }

  lemma RamenWith(t: Tables, s: string)
    requires s == "ラーメン"
    requires t.kana('ラ') == "ra" && t.kana('メ') == "me" && t.kana('ン') == "n"
    requires t.digraph('ラ', 'ー').None? && t.digraph('ー', 'メ').None? && t.digraph('メ', 'ン').None?
    ensures RomanizeWith(t, s) == "Raamen"
  {
    RamenSegment(t, s);
    OneSegment(t, s, "raamen");
  }

  lemma RamenExample(s: string)
    requires s == "ラーメン"
    ensures Romanize(s) == "Raamen"
  {
    RamenWith(Standard, s);
  }

  lemma CatSegment(t: Tables, s: string)
    requires s == "キャット"
    requires t.digraph('キ', 'ャ') == Some("kya") && t.digraph('ッ', 'ト').None? && t.kana('ト') == "to"
    ensures RomanizeSegment(t, s) == "kyatto"
  {
    assert s[0] == 'キ' && s[1] == 'ャ' && s[2] == 'ッ' && s[3] == 'ト';
    DigraphFirst(t, s, 0, "", "kya");
    assert Geminate(t, s, 3) == "t";
    StepSokuon(t, s, 2, "kya", "kyat");
    StepKana(t, s, 3, "kyat", "kyatto");
  }

  lemma CatWith(t: Tables, s: string)
    requires s == "キャット"
    requires t.digraph('キ', 'ャ') == Some("kya") && t.digraph('ッ', 'ト').None? && t.kana('ト') == "to"
    ensures RomanizeWith(t, s) == "Kyatto"
  {
    CatSegment(t, s);
    OneSegment(t, s, "kyatto");
  }

  lemma CatExample(s: string)
    requires s == "キャット"
    ensures Romanize(s) == "Kyatto"
  {
    CatWith(Standard, s);
  }

  lemma YuutaSegment(t: Tables, s: string)
    requires s == "ユウタ"
    requires t.kana('ユ') == "yu" && t.kana('ウ') == "u" && t.kana('タ') == "ta"
    requires t.digraph('ユ', 'ウ').None? && t.digraph('ウ', 'タ').None?
    ensures RomanizeSegment(t, s) == "yuuta"
  {
    assert s[0] == 'ユ' && s[1] == 'ウ' && s[2] == 'タ';
    StepKana(t, s, 0, "", "yu");
    StepKana(t, s, 1, "yu", "yuu");
    StepKana(t, s, 2, "yuu", "yuuta");
  }

  lemma YuutaWith(t: Tables, s: string)
    requires s == "ユウタ"
    requires t.kana('ユ') == "yu" && t.kana('ウ') == "u" && t.kana('タ') == "ta"
    requires t.digraph('ユ', 'ウ').None? && t.digraph('ウ', 'タ').None?
    ensures RomanizeWith(t, s) == "Yuuta"
  {
    YuutaSegment(t, s);
    OneSegment(t, s, "yuuta");
  }

  /** Hiragana goes through katakana: ゆうた romanizes to Yuuta. */
  lemma YuutaExample(s: string)
    requires s == "ゆうた"
    ensures Romanize(Katakana(s)) == "Yuuta"
  {
    var k := Katakana(s);
    assert k == "ユウタ";
    YuutaWith(Standard, k);
  }

  lemma DotSegments(t: Tables, a: string, b: string)
    requires a == "アン" && b == "ナ"
    requires t.kana('ア') == "a" && t.kana('ン') == "n" && t.kana('ナ') == "na" && t.digraph('ア', 'ン').None?
    ensures RomanizeSegment(t, a) == "an" && RomanizeSegment(t, b) == "na"
  {
    assert a[0] == 'ア' && a[1] == 'ン' && b[0] == 'ナ';
    StepKana(t, a, 0, "", "a");
    StepKana(t, a, 1, "a", "an");
    StepKana(t, b, 0, "", "na");
  }

  lemma DotSplit(s: string)
    requires s == "アン・ナ"
    ensures SplitOn(s, '・') == [s[..2], s[3..]]
    ensures s[..2] == "アン" && s[3..] == "ナ"
  {
    assert s[0] == 'ア' && s[1] == 'ン' && s[2] == '・';
    assert IndexOfChar(s, '・') == 2;
    assert s[3..] == "ナ";
    assert IndexOfChar(s[3..], '・') == 1;
  }

  /** Two non-empty romanizations become two capitalized words. */
  lemma WordsTwo(x: string, y: string)
    requires x != [] && y != []
    ensures Words([x, y]) == [Capitalize(x), Capitalize(y)]
  {
    assert [x, y][1..] == [y];
    assert [y][1..] == [];
  }

  /** Two segments joined: with tables giving "an" and "na" for them. */
  lemma DotJoin(t: Tables, s: string)
    requires s == "アン・ナ"
    requires RomanizeSegment(t, s[..2]) == "an" && RomanizeSegment(t, s[3..]) == "na"
    ensures RomanizeWith(t, s) == "An Na"
  {
    DotSplit(s);
    var x, y := RomanizeSegment(t, s[..2]), RomanizeSegment(t, s[3..]);
    assert RomanizeAll(t, [s[..2], s[3..]]) == [x, y];
    WordsTwo(x, y);
    CapitalizeRomaji(x);
    CapitalizeRomaji(y);
    assert Capitalize(x) == "An" && Capitalize(y) == "Na";
    assert Join(" ", [Capitalize(x), Capitalize(y)]) == Capitalize(x) + " " + Capitalize(y);
  }

  /** Middle-dot segments are romanized separately and joined by a space. */
  lemma DotExample(s: string)
    requires s == "アン・ナ"
    ensures Romanize(s) == "An Na"
  {
    DotSplit(s);
    DotSegments(Standard, s[..2], s[3..]);
    DotJoin(Standard, s);
  }
}
