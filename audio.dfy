// The live audio segmenter of scripts/audio_translator.py: a block-by-block
// voice activity state machine that cuts the captured stream into speech
// segments, the hot reload of the two glossary tables, and the de-duplicated
// overlay write that follows each transcription.
//
// Audio blocks are opaque values of a type parameter B; whether a block is
// voiced (its RMS level against the threshold) is an input of each step.
// Durations are counted in whole blocks of 250 ms.

module Audio {
  import opened Wrappers
  import opened Text
  import opened Glossary

  /** Length of one captured block, in milliseconds. */
  const BlockMs: nat := 250
  /** A segment is forced out once it holds this much voiced audio. */
  const MaxSegMs: nat := 6000
  /** Audio kept from before the onset of speech. */
  const PrerollMs: nat := 200
  /** Default minimum voiced duration of a segment. */
  const DefaultMinSpeechMs: nat := 500
  /** Default trailing silence that ends a segment. */
  const DefaultHangSilMs: nat := 250

  /** The fewest whole blocks whose duration reaches `ms`. */
  function BlocksAtLeast(ms: nat): nat
  {
    (ms + BlockMs - 1) / BlockMs
  }

  /** A duration of n blocks reaches ms exactly when n is at least BlocksAtLeast(ms). */
  lemma BlocksAtLeastIff(ms: nat, n: nat)
    ensures n * BlockMs >= ms <==> n >= BlocksAtLeast(ms)
  {
    var k := BlocksAtLeast(ms);
    assert k * BlockMs >= ms;
    assert (k - 1) * BlockMs < ms;
    if n >= k {
      assert n * BlockMs >= k * BlockMs;
    } else {
      assert n * BlockMs <= (k - 1) * BlockMs;
    }
  }

  /** Thresholds of the segmenter, in blocks. */
  datatype Config = Config(minSpeech: nat, hangSil: nat, maxSeg: nat, preroll: nat)

  /** The block counts the millisecond settings amount to. */
  function ConfigFor(minSpeechMs: nat, hangSilMs: nat): (c: Config)
    ensures c.preroll >= 1
    ensures forall n: nat {:trigger n * BlockMs} :: n >= c.minSpeech <==> n * BlockMs >= minSpeechMs
    ensures forall n: nat {:trigger n * BlockMs} :: n >= c.hangSil <==> n * BlockMs >= hangSilMs
    ensures forall n: nat {:trigger n * BlockMs} :: n >= c.maxSeg <==> n * BlockMs >= MaxSegMs
  {
    forall n: nat ensures n >= BlocksAtLeast(minSpeechMs) <==> n * BlockMs >= minSpeechMs {
      BlocksAtLeastIff(minSpeechMs, n);
    }
    forall n: nat ensures n >= BlocksAtLeast(hangSilMs) <==> n * BlockMs >= hangSilMs {
      BlocksAtLeastIff(hangSilMs, n);
    }
    forall n: nat ensures n >= BlocksAtLeast(MaxSegMs) <==> n * BlockMs >= MaxSegMs {
      BlocksAtLeastIff(MaxSegMs, n);
    }
    Config(BlocksAtLeast(minSpeechMs), BlocksAtLeast(hangSilMs), BlocksAtLeast(MaxSegMs),
           AtLeastOne(PrerollMs / BlockMs))
  }

  function AtLeastOne(n: nat): (m: nat)
    ensures m >= 1 && (n >= 1 ==> m == n)
  {
    if n >= 1 then n else 1
  }

  /** With the default settings: 2 blocks of speech, 1 of silence, 24 at most, 1 of pre-roll. */
  lemma DefaultConfig()
    ensures ConfigFor(DefaultMinSpeechMs, DefaultHangSilMs) == Config(2, 1, 24, 1)
  {
  }

  /** The longest voiced run a segment can hold before it must be cut. */
  function Cap(c: Config): nat
  {
    AtLeastOne(if c.minSpeech >= c.maxSeg then c.minSpeech else c.maxSeg)
  }

  /** The segmenter state: pre-roll history, the open segment, its voiced
      length and trailing silence, and whether a segment is open. */
  datatype Vad<B> = Vad(history: seq<B>, speech: seq<B>, speechLen: nat, silenceRun: nat, inVoiced: bool)

  /** No segment open; only the history is kept. */
  function Idle<B>(history: seq<B>): Vad<B>
  {
    Vad(history, [], 0, 0, false)
  }

  /** Appending to a bounded deque: the latest `cap` blocks, oldest dropped first. */
  function Push<B>(history: seq<B>, b: B, cap: nat): (h: seq<B>)
    requires cap >= 1
    ensures 1 <= |h| <= cap && h[|h| - 1] == b
    ensures |h| == if |history| < cap then |history| + 1 else cap
    ensures h == (history + [b])[|history| + 1 - |h|..]
  {
    var all := history + [b];
    if |all| > cap then all[|all| - cap..] else all
  }

  /** The state once a block has been added and classified, before the cut test. */
  function Classify<B>(c: Config, v: Vad<B>, voiced: bool, b: B): Vad<B>
    requires c.preroll >= 1
  {
    var h := Push(v.history, b, c.preroll);
    if voiced then
      var onset := if !v.inVoiced && |h| > 0 then v.speech + h else v.speech;
      Vad(h, onset + [b], v.speechLen + 1, 0, true)
    else if v.inVoiced then
      Vad(h, v.speech, v.speechLen, v.silenceRun + 1, true)
    else
      Vad(h, v.speech, v.speechLen, v.silenceRun, false)
  }

  /** The end-of-segment test. */
  predicate ShouldCut<B>(c: Config, v: Vad<B>)
  {
    v.inVoiced && (v.silenceRun >= c.hangSil || v.speechLen >= c.maxSeg) && v.speechLen >= c.minSpeech
  }

  /** The new state and the segment cut by one block, if any. */
  datatype Step<B> = Step(state: Vad<B>, segment: Option<seq<B>>)

  function StepVad<B>(c: Config, v: Vad<B>, voiced: bool, b: B): Step<B>
    requires c.preroll >= 1
  {
    var w := Classify(c, v, voiced, b);
    if ShouldCut(c, w) then Step(Idle(w.history), Some(w.speech)) else Step(w, None)
  }

  /** The states the loop can reach. */
  predicate Inv<B>(c: Config, v: Vad<B>)
  {
    && |v.history| <= c.preroll
    && (!v.inVoiced ==> v.speech == [] && v.speechLen == 0 && v.silenceRun == 0)
    && (v.inVoiced ==> 1 <= v.speechLen < Cap(c) && v.speechLen + 1 <= |v.speech| <= v.speechLen + c.preroll)
  }

  /** The history is the pre-roll deque whether or not the block cut a segment. */
  lemma HistoryKept<B>(c: Config, v: Vad<B>, voiced: bool, b: B)
    requires c.preroll >= 1
    ensures StepVad(c, v, voiced, b).state.history == Push(v.history, b, c.preroll)
  {
  }

  /** A segment is cut exactly when, after this block, a segment is open, the
      trailing silence or the voiced length reaches its limit, and the voiced
      length reaches the minimum. */
  lemma CutIff<B>(c: Config, v: Vad<B>, voiced: bool, b: B)
    requires c.preroll >= 1
    ensures StepVad(c, v, voiced, b).segment.Some? <==>
      var len := if voiced then v.speechLen + 1 else v.speechLen;
      var sil := if voiced then 0 else v.silenceRun + 1;
      (voiced || v.inVoiced) && (sil >= c.hangSil || len >= c.maxSeg) && len >= c.minSpeech
  {
  }

  /** No block closes a segment whose voiced length, counting this block,
      is still below the minimum. */
  lemma NoCutBelowMin<B>(c: Config, v: Vad<B>, voiced: bool, b: B)
    requires c.preroll >= 1
    requires (if voiced then v.speechLen + 1 else v.speechLen) < c.minSpeech
    ensures StepVad(c, v, voiced, b).segment == None
    ensures StepVad(c, v, voiced, b).state.inVoiced == (voiced || v.inVoiced)
  {
  }

  /** The onset of speech: the segment opens with the whole pre-roll history,
      which already ends with the current block, and then the block itself. */
  lemma Onset<B>(c: Config, v: Vad<B>, b: B)
    requires c.preroll >= 1 && Inv(c, v) && !v.inVoiced
    ensures var h := Push(v.history, b, c.preroll);
      && Classify(c, v, true, b).speech == h + [b]
      && h[|h| - 1] == b
      && (c.preroll == 1 ==> Classify(c, v, true, b).speech == [b, b])
  {
  }

  /** Inside a segment a voiced block is appended once and resets the silence. */
  lemma VoicedInside<B>(c: Config, v: Vad<B>, b: B)
    requires c.preroll >= 1 && v.inVoiced
    ensures Classify(c, v, true, b) == Vad(Push(v.history, b, c.preroll), v.speech + [b], v.speechLen + 1, 0, true)
  {
  }

  /** Inside a segment a silent block is not appended; it only lengthens the silence. */
  lemma SilentInside<B>(c: Config, v: Vad<B>, b: B)
    requires c.preroll >= 1 && v.inVoiced
    ensures Classify(c, v, false, b) == v.(history := Push(v.history, b, c.preroll), silenceRun := v.silenceRun + 1)
  {
  }

  /** Outside a segment a silent block only enters the history. */
  lemma SilentOutside<B>(c: Config, v: Vad<B>, b: B)
    requires c.preroll >= 1 && !v.inVoiced
    ensures StepVad(c, v, false, b) == Step(v.(history := Push(v.history, b, c.preroll)), None)
  {
  }

  /** After a cut the segment state is reset and the history kept. */
  lemma ResetAfterCut<B>(c: Config, v: Vad<B>, voiced: bool, b: B)
    requires c.preroll >= 1
    requires StepVad(c, v, voiced, b).segment.Some?
    ensures StepVad(c, v, voiced, b).state == Idle(Push(v.history, b, c.preroll))
    ensures StepVad(c, v, voiced, b).segment == Some(Classify(c, v, voiced, b).speech)
  {
  }

  /** Every step keeps the reachable-state invariant. */
  lemma StepInv<B>(c: Config, v: Vad<B>, voiced: bool, b: B)
    requires c.preroll >= 1 && Inv(c, v)
    ensures Inv(c, StepVad(c, v, voiced, b).state)
  {
    var w := Classify(c, v, voiced, b);
    if voiced && !ShouldCut(c, w) {
      assert w.speechLen < Cap(c);
    }
  }

  /** A cut segment holds at least the minimum voiced blocks plus one (the
      onset block, which the history repeats), and at most the cap plus the
      pre-roll. */
  lemma SegmentBounds<B>(c: Config, v: Vad<B>, voiced: bool, b: B)
    requires c.preroll >= 1 && Inv(c, v)
    requires StepVad(c, v, voiced, b).segment.Some?
    ensures var s := StepVad(c, v, voiced, b).segment.value;
      && 2 <= |s| <= Cap(c) + c.preroll
      && c.minSpeech + 1 <= |s|
  {
    var w := Classify(c, v, voiced, b);
    assert ShouldCut(c, w);
    if voiced && !v.inVoiced {
      assert w.speechLen == 1;
      assert |w.speech| == |Push(v.history, b, c.preroll)| + 1;
    } else if voiced {
      assert w.speechLen == v.speechLen + 1 && |w.speech| == |v.speech| + 1;
    } else {
      assert w.speechLen == v.speechLen && w.speech == v.speech;
    }
  }

  /** The pause flag file and the glossary files as they stand when a block is handled. */
  datatype Env = Env(paused: bool, jpTime: Option<int>, enTime: Option<int>, jpFile: Option<string>, enFile: Option<string>)

  /** One captured block: whether it is voiced, its samples, and the files around it. */
  datatype Input<B> = Input(voiced: bool, block: B, env: Env)

  function Blocks<B>(xs: seq<Input<B>>): (bs: seq<B>)
    ensures |bs| == |xs|
    decreases |xs|
  {
    if xs == [] then [] else Blocks(xs[..|xs| - 1]) + [xs[|xs| - 1].block]
  }

  predicate AllVoiced<B>(xs: seq<Input<B>>)
  {
    forall i :: 0 <= i < |xs| ==> xs[i].voiced
  }

  /** The state after a run of blocks and the segments it cut, in order. */
  datatype Trace<B> = Trace(state: Vad<B>, segments: seq<seq<B>>)

  function Run<B>(c: Config, v: Vad<B>, xs: seq<Input<B>>): Trace<B>
    requires c.preroll >= 1
    decreases |xs|
  {
    if xs == [] then Trace(v, [])
    else
      var p := Run(c, v, xs[..|xs| - 1]);
      var x := xs[|xs| - 1];
      var s := StepVad(c, p.state, x.voiced, x.block);
      Trace(s.state, p.segments + s.segment.ToSeq())
  }

  /** Inside a segment with a positive hang-over, a voiced block that brings
      the voiced length to the cap cuts the segment, with the block appended. */
  lemma VoicedCut<B>(c: Config, v: Vad<B>, b: B)
    requires c.preroll >= 1 && c.hangSil >= 1 && v.inVoiced
    requires v.speechLen + 1 >= Cap(c)
    ensures StepVad(c, v, true, b) == Step(Idle(Push(v.history, b, c.preroll)), Some(v.speech + [b]))
  {
  }

  /** Below the cap such a block only grows the segment. */
  lemma VoicedGrow<B>(c: Config, v: Vad<B>, b: B)
    requires c.preroll >= 1 && c.hangSil >= 1 && v.inVoiced
    requires v.speechLen + 1 < Cap(c)
    ensures StepVad(c, v, true, b) == Step(Vad(Push(v.history, b, c.preroll), v.speech + [b], v.speechLen + 1, 0, true), None)
  {
  }

  /** Onset when the cap is a single block: the segment is cut at once. */
  lemma OnsetCut<B>(c: Config, hist: seq<B>, b: B)
    requires c.preroll >= 1 && c.hangSil >= 1 && Cap(c) == 1
    ensures var h := Push(hist, b, c.preroll);
      StepVad(c, Idle(hist), true, b) == Step(Idle(h), Some(h + [b]))
  {
    var h := Push(hist, b, c.preroll);
    assert Idle(hist).speech + h == h;
    assert Classify(c, Idle(hist), true, b) == Vad(h, h + [b], 1, 0, true);
  }

  /** Onset otherwise: a segment opens with one voiced block. */
  lemma OnsetGrow<B>(c: Config, hist: seq<B>, b: B)
    requires c.preroll >= 1 && c.hangSil >= 1 && Cap(c) > 1
    ensures var h := Push(hist, b, c.preroll);
      StepVad(c, Idle(hist), true, b) == Step(Vad(h, h + [b], 1, 0, true), None)
  {
    var h := Push(hist, b, c.preroll);
    assert Idle(hist).speech + h == h;
    assert Classify(c, Idle(hist), true, b) == Vad(h, h + [b], 1, 0, true);
  }

  lemma VoicedInit<B>(xs: seq<Input<B>>)
    requires xs != [] && AllVoiced(xs)
    ensures xs[|xs| - 1].voiced && AllVoiced(xs[..|xs| - 1])
    ensures Blocks(xs) == Blocks(xs[..|xs| - 1]) + [xs[|xs| - 1].block]
  {
    assert xs[|xs| - 1].voiced;
    var init := xs[..|xs| - 1];
    forall i | 0 <= i < |init| ensures init[i].voiced {
      assert init[i] == xs[i];
    }
  }

  lemma RunLast<B>(c: Config, v: Vad<B>, xs: seq<Input<B>>, p: Trace<B>, s: Step<B>)
    requires c.preroll >= 1 && xs != []
    requires p == Run(c, v, xs[..|xs| - 1])
    requires s == StepVad(c, p.state, xs[|xs| - 1].voiced, xs[|xs| - 1].block)
    ensures Run(c, v, xs) == Trace(s.state, p.segments + s.segment.ToSeq())
  {
  }

  /** A voiced block below the cap, after a run that left a segment open
      without cutting, extends that segment and still cuts nothing. */
  lemma GrowLast<B>(c: Config, v: Vad<B>, xs: seq<Input<B>>, p: Trace<B>)
    requires c.preroll >= 1 && c.hangSil >= 1
    requires xs != [] && xs[|xs| - 1].voiced && |xs| < Cap(c)
    requires p == Run(c, v, xs[..|xs| - 1])
    requires p.segments == [] && p.state.inVoiced && p.state.speechLen == |xs| - 1
    ensures var r := Run(c, v, xs);
      && r.segments == [] && r.state.inVoiced && r.state.speechLen == |xs| && r.state.silenceRun == 0
      && r.state.speech == p.state.speech + [xs[|xs| - 1].block]
  {
    var b := xs[|xs| - 1].block;
    VoicedGrow(c, p.state, b);
    var w := Vad(Push(p.state.history, b, c.preroll), p.state.speech + [b], p.state.speechLen + 1, 0, true);
    RunLast(c, v, xs, p, Step(w, None));
  }

  /** The same block at the cap cuts the open segment, with the block appended. */
  lemma CutLast<B>(c: Config, v: Vad<B>, xs: seq<Input<B>>, p: Trace<B>)
    requires c.preroll >= 1 && c.hangSil >= 1
    requires xs != [] && xs[|xs| - 1].voiced && |xs| == Cap(c)
    requires p == Run(c, v, xs[..|xs| - 1])
    requires p.segments == [] && p.state.inVoiced && p.state.speechLen == |xs| - 1
    ensures var r := Run(c, v, xs);
      && r.segments == [p.state.speech + [xs[|xs| - 1].block]] && !r.state.inVoiced
  {
    var b := xs[|xs| - 1].block;
    VoicedCut(c, p.state, b);
    var seg := p.state.speech + [b];
    RunLast(c, v, xs, p, Step(Idle(Push(p.state.history, b, c.preroll)), Some(seg)));
  }

  /** The first block of an uninterrupted run, from an idle state. */
  lemma FirstBlock<B>(c: Config, hist: seq<B>, xs: seq<Input<B>>)
    requires c.preroll >= 1 && c.hangSil >= 1
    requires |xs| == 1 && xs[0].voiced
    ensures var h := Push(hist, xs[0].block, c.preroll); var r := Run(c, Idle(hist), xs);
      && (Cap(c) > 1 ==> r == Trace(Vad(h, h + Blocks(xs), 1, 0, true), []))
      && (Cap(c) == 1 ==> r == Trace(Idle(h), [h + Blocks(xs)]))
  {
    var b := xs[0].block;
    var h := Push(hist, b, c.preroll);
    var p := Run(c, Idle(hist), xs[..0]);
    assert xs[..0] == [];
    assert p == Trace(Idle(hist), []);
    assert Blocks(xs) == [b];
    if Cap(c) > 1 {
      OnsetGrow(c, hist, b);
      RunLast(c, Idle(hist), xs, p, Step(Vad(h, h + [b], 1, 0, true), None));
    } else {
      OnsetCut(c, hist, b);
      RunLast(c, Idle(hist), xs, p, Step(Idle(h), Some(h + [b])));
    }
  }

  /** Continuous voice from an idle state, shorter than the cap, cuts nothing:
      the open segment is the pre-roll history (ending with the first block)
      followed by every block of the run. */
  lemma {:induction false} VoicedPrefix<B>(c: Config, hist: seq<B>, xs: seq<Input<B>>)
    requires c.preroll >= 1 && c.hangSil >= 1
    requires AllVoiced(xs) && 1 <= |xs| < Cap(c)
    ensures var r := Run(c, Idle(hist), xs);
      && r.segments == []
      && r.state.inVoiced && r.state.speechLen == |xs| && r.state.silenceRun == 0
      && r.state.speech == Push(hist, xs[0].block, c.preroll) + Blocks(xs)
    decreases |xs|
  {
    VoicedInit(xs);
    if |xs| == 1 {
      FirstBlock(c, hist, xs);
    } else {
      var init := xs[..|xs| - 1];
      assert init[0] == xs[0];
      VoicedPrefix(c, hist, init);
      var p := Run(c, Idle(hist), init);
      GrowLast(c, Idle(hist), xs, p);
      assert p.state.speech + [xs[|xs| - 1].block] == Push(hist, xs[0].block, c.preroll) + Blocks(xs);
    }
  }

  /** Uninterrupted voice from an idle state is cut after exactly Cap blocks,
      as one segment: the pre-roll history (ending with the first block)
      followed by every block of the run. */
  lemma CapCut<B>(c: Config, hist: seq<B>, xs: seq<Input<B>>)
    requires c.preroll >= 1 && c.hangSil >= 1
    requires AllVoiced(xs) && |xs| == Cap(c)
    ensures var r := Run(c, Idle(hist), xs);
      && r.segments == [Push(hist, xs[0].block, c.preroll) + Blocks(xs)]
      && !r.state.inVoiced
  {
    VoicedInit(xs);
    if |xs| == 1 {
      FirstBlock(c, hist, xs);
    } else {
      var init := xs[..|xs| - 1];
      assert init[0] == xs[0];
      VoicedPrefix(c, hist, init);
      var p := Run(c, Idle(hist), init);
      CutLast(c, Idle(hist), xs, p);
      assert p.state.speech + [xs[|xs| - 1].block] == Push(hist, xs[0].block, c.preroll) + Blocks(xs);
    }
  }

  /** With the default settings six seconds of continuous speech make one
      segment of 25 blocks: the first block twice, then the other 23. */
  lemma DefaultCapCut<B>(hist: seq<B>, xs: seq<Input<B>>)
    requires |hist| <= 1 && AllVoiced(xs) && |xs| == 24
    ensures var r := Run(Config(2, 1, 24, 1), Idle(hist), xs);
      && r.segments == [[xs[0].block] + Blocks(xs)]
      && |r.segments[0]| == 25
  {
    CapCut(Config(2, 1, 24, 1), hist, xs);
  }

  /** One iteration of the capture loop's segmenter, on its local variables. */
  method StepBlock<B>(c: Config, v: Vad<B>, voiced: bool, b: B) returns (r: Vad<B>, segment: Option<seq<B>>)
    requires c.preroll >= 1
    ensures Step(r, segment) == StepVad(c, v, voiced, b)
  {
    var history, speech, speechLen, silenceRun, inVoiced := v.history, v.speech, v.speechLen, v.silenceRun, v.inVoiced;
    history := history + [b];
    if |history| > c.preroll {
      history := history[|history| - c.preroll..];
    }
    if voiced {
      if !inVoiced && |history| > 0 {
        speech := speech + history;
      }
      speech := speech + [b];
      speechLen := speechLen + 1;
      silenceRun := 0;
      inVoiced := true;
    } else if inVoiced {
      silenceRun := silenceRun + 1;
    }
    var cut := inVoiced && (silenceRun >= c.hangSil || speechLen >= c.maxSeg) && speechLen >= c.minSpeech;
    if cut {
      segment := Some(speech);
      speech, speechLen, silenceRun, inVoiced := [], 0, 0, false;
    } else {
      segment := None;
    }
    r := Vad(history, speech, speechLen, silenceRun, inVoiced);
  }

  // --- overlay -------------------------------------------------------------

  /** What is written to the overlay file, if anything, and the new last-written line. */
  function Offer(last: string, line: string, paused: bool): (r: (Option<string>, string))
    ensures r.0.Some? <==> !paused && line != [] && line != last
    ensures r.0.Some? ==> r.0.value == line && r.1 == line
    ensures r.0.None? ==> r.1 == last
  {
    if !paused && line != [] && line != last then (Some(line), line) else (None, last)
  }

  /** A line just written is not written again by the next offer. */
  lemma OfferNoRepeat(last: string, line: string, p: bool, q: bool)
    requires Offer(last, line, p).0.Some?
    ensures Offer(Offer(last, line, p).1, line, q).0 == None
  {
  }

  // --- glossary hot reload ---------------------------------------------------

  /** The table read from a glossary file; a missing or unreadable file gives none. */
  function LoadTable(file: Option<string>): (t: seq<Entry>)
    ensures WellFormed(t)
    ensures file.None? ==> t == []
  {
    match file
    case None => []
    case Some(text) =>
      ParseGlossaryEntries(text);
      ParseGlossary(text)
  }

  /** One table's reload: re-read only when the file's modification time is
      known and differs from the stored one. */
  function ReloadTable(table: seq<Entry>, stored: Option<int>, cur: Option<int>, file: Option<string>): (r: (seq<Entry>, Option<int>))
    ensures cur.None? ==> r == (table, stored)
    ensures cur.Some? ==> r.1 == cur
    ensures cur.Some? && cur != stored ==> r.0 == LoadTable(file)
    ensures WellFormed(table) ==> WellFormed(r.0)
  {
    if cur.Some? && cur != stored then (LoadTable(file), cur) else (table, stored)
  }

  /** A second reload with the same modification time changes nothing. */
  lemma ReloadStable(table: seq<Entry>, stored: Option<int>, cur: Option<int>, f: Option<string>, g: Option<string>)
    ensures var r := ReloadTable(table, stored, cur, f);
      ReloadTable(r.0, r.1, cur, g) == r
  {
  }

  /** Both tables and the modification times they were read at. */
  datatype Tables = Tables(jp2en: seq<Entry>, en2en: seq<Entry>, jpTime: Option<int>, enTime: Option<int>)

  /** The two tables reload independently of each other. */
  function ReloadTables(t: Tables, e: Env): (r: Tables)
    ensures (r.jp2en, r.jpTime) == ReloadTable(t.jp2en, t.jpTime, e.jpTime, e.jpFile)
    ensures (r.en2en, r.enTime) == ReloadTable(t.en2en, t.enTime, e.enTime, e.enFile)
  {
    var j := ReloadTable(t.jp2en, t.jpTime, e.jpTime, e.jpFile);
    var n := ReloadTable(t.en2en, t.enTime, e.enTime, e.enFile);
    Tables(j.0, n.0, j.1, n.1)
  }

  /** The module-level glossary tables, replaced in place on reload. */
  class Glossaries {
    var jp2en: seq<Entry>
    var en2en: seq<Entry>
    var jpTime: Option<int>
    var enTime: Option<int>

    function Value(): Tables
      reads this
    {
      Tables(jp2en, en2en, jpTime, enTime)
    }

    constructor (t: Tables)
      ensures Value() == t
    {
      jp2en, en2en, jpTime, enTime := t.jp2en, t.en2en, t.jpTime, t.enTime;
    }

    /** Reload each table whose file changed since it was last read. */
    method Reload(e: Env)
      modifies this
      ensures Value() == ReloadTables(old(Value()), e)
    {
      if e.jpTime.Some? && e.jpTime != jpTime {
        jp2en := ReadTable(e.jpFile);
        jpTime := e.jpTime;
      }
      if e.enTime.Some? && e.enTime != enTime {
        en2en := ReadTable(e.enFile);
        enTime := e.enTime;
      }
    }
  }

  /** Read a glossary file's text into a table. */
  method ReadTable(file: Option<string>) returns (t: seq<Entry>)
    ensures t == LoadTable(file)
  {
    t := [];
    if file.Some? {
      t := LoadGlossary(file.value);
    }
  }

  // --- after a cut -----------------------------------------------------------

  /** What a provider call returned; a raised exception counts as empty text. */
  datatype Outcome = Ok(text: string) | Failed

  function TextOf(o: Outcome): (s: string)
    ensures o.Failed? ==> s == []
  {
    match o
    case Ok(t) => t
    case Failed => []
  }

  /** The tables, the last-written line and the overlay write after one segment. */
  datatype Handled = Handled(tables: Tables, last: string, line: Option<string>)

  /** Transcribe a segment; when that yields text, reload the tables, translate
      with them and offer the translation to the overlay. */
  function HandleCut<B>(t: Tables, last: string, seg: seq<B>, e: Env,
                        transcribe: seq<B> -> Outcome,
                        translate: (string, seq<Entry>, seq<Entry>) -> Outcome): (h: Handled)
    ensures TextOf(transcribe(seg)) == [] ==> h == Handled(t, last, None)
    ensures h.tables == t || h.tables == ReloadTables(t, e)
    ensures h.line.Some? ==> h.line.value != [] && h.line.value != last && h.last == h.line.value && !e.paused
    ensures h.line.None? ==> h.last == last
  {
    var jp := TextOf(transcribe(seg));
    if jp == [] then Handled(t, last, None)
    else
      var t' := ReloadTables(t, e);
      var en := TextOf(translate(jp, t'.jp2en, t'.en2en));
      var o := Offer(last, en, e.paused);
      Handled(t', o.1, o.0)
  }

  /** The same, on the module-level tables. */
  method HandleSegment<B>(g: Glossaries, last: string, seg: seq<B>, e: Env,
                          transcribe: seq<B> -> Outcome,
                          translate: (string, seq<Entry>, seq<Entry>) -> Outcome)
    returns (last': string, line: Option<string>)
    modifies g
    ensures Handled(g.Value(), last', line) == HandleCut(old(g.Value()), last, seg, e, transcribe, translate)
  {
    last', line := last, None;
    var jp := TextOf(transcribe(seg));
    if jp != [] {
      g.Reload(e);
      var en := TextOf(translate(jp, g.jp2en, g.en2en));
      if !e.paused {
        if en != [] && en != last {
          line := Some(en);
          last' := en;
        }
      }
    }
  }

  // --- the capture loop ------------------------------------------------------

  /** Everything the capture loop carries from one block to the next, and the
      lines it has written to the overlay so far. */
  datatype Live<B> = Live(vad: Vad<B>, tables: Tables, last: string, written: seq<string>)

  /** The capture loop over a run of blocks. */
  function Session<B>(c: Config, s0: Live<B>, xs: seq<Input<B>>,
                      transcribe: seq<B> -> Outcome,
                      translate: (string, seq<Entry>, seq<Entry>) -> Outcome): Live<B>
    requires c.preroll >= 1
    decreases |xs|
  {
    if xs == [] then s0
    else
      var p := Session(c, s0, xs[..|xs| - 1], transcribe, translate);
      var x := xs[|xs| - 1];
      var s := StepVad(c, p.vad, x.voiced, x.block);
      if s.segment.None? then p.(vad := s.state)
      else
        var h := HandleCut(p.tables, p.last, s.segment.value, x.env, transcribe, translate);
        Live(s.state, h.tables, h.last, p.written + h.line.ToSeq())
  }

  /** The segmenter inside the loop runs exactly as on its own. */
  lemma {:induction false} SessionVad<B>(c: Config, s0: Live<B>, xs: seq<Input<B>>,
                                         transcribe: seq<B> -> Outcome,
                                         translate: (string, seq<Entry>, seq<Entry>) -> Outcome)
    requires c.preroll >= 1
    ensures Session(c, s0, xs, transcribe, translate).vad == Run(c, s0.vad, xs).state
    decreases |xs|
  {
    if xs != [] {
      SessionVad(c, s0, xs[..|xs| - 1], transcribe, translate);
    }
  }

  /** The overlay history: every line written is non-empty, the last one is the
      remembered line, and no line is written twice in a row. */
  predicate WrittenOk<B>(s: Live<B>)
  {
    && (s.written != [] ==> s.written[|s.written| - 1] == s.last)
    && (forall i :: 0 <= i < |s.written| ==> s.written[i] != [])
    && (forall i :: 0 < i < |s.written| ==> s.written[i] != s.written[i - 1])
  }

  lemma WrittenAppend<B>(p: Live<B>, h: Handled, v: Vad<B>)
    requires WrittenOk(p)
    requires h.line.Some? ==> h.line.value != [] && h.line.value != p.last && h.last == h.line.value
    requires h.line.None? ==> h.last == p.last
    ensures WrittenOk(Live(v, h.tables, h.last, p.written + h.line.ToSeq()))
  {
    if h.line.None? {
      assert p.written + h.line.ToSeq() == p.written;
    }
  }

  /** The capture loop never writes the same line twice in a row. */
  lemma {:induction false} SessionNoRepeat<B>(c: Config, s0: Live<B>, xs: seq<Input<B>>,
                                              transcribe: seq<B> -> Outcome,
                                              translate: (string, seq<Entry>, seq<Entry>) -> Outcome)
    requires c.preroll >= 1 && WrittenOk(s0)
    ensures WrittenOk(Session(c, s0, xs, transcribe, translate))
    decreases |xs|
  {
    if xs != [] {
      var p := Session(c, s0, xs[..|xs| - 1], transcribe, translate);
      SessionNoRepeat(c, s0, xs[..|xs| - 1], transcribe, translate);
      var x := xs[|xs| - 1];
      var s := StepVad(c, p.vad, x.voiced, x.block);
      if s.segment.Some? {
        var h := HandleCut(p.tables, p.last, s.segment.value, x.env, transcribe, translate);
        WrittenAppend(p, h, s.state);
      }
    }
  }

  /** Glossary tables loaded by the loop keep a non-empty source on every entry. */
  lemma {:induction false} SessionTables<B>(c: Config, s0: Live<B>, xs: seq<Input<B>>,
                                            transcribe: seq<B> -> Outcome,
                                            translate: (string, seq<Entry>, seq<Entry>) -> Outcome)
    requires c.preroll >= 1 && WellFormed(s0.tables.jp2en) && WellFormed(s0.tables.en2en)
    ensures var t := Session(c, s0, xs, transcribe, translate).tables;
      WellFormed(t.jp2en) && WellFormed(t.en2en)
    decreases |xs|
  {
    if xs != [] {
      SessionTables(c, s0, xs[..|xs| - 1], transcribe, translate);
    }
  }

  /** The capture loop: from an idle segmenter with nothing written, feed every
      block, handle each cut segment, and return the lines written. */
  method Listen<B>(c: Config, g: Glossaries, xs: seq<Input<B>>,
                   transcribe: seq<B> -> Outcome,
                   translate: (string, seq<Entry>, seq<Entry>) -> Outcome)
    returns (written: seq<string>)
    requires c.preroll >= 1
    modifies g
    ensures var s := Session(c, Live(Idle([]), old(g.Value()), [], []), xs, transcribe, translate);
      written == s.written && g.Value() == s.tables
  {
    ghost var s0 := Live(Idle([]), g.Value(), [], []);
    var v: Vad<B> := Idle([]);
    var last: string := [];
    written := [];
    for i := 0 to |xs|
      invariant Session(c, s0, xs[..i], transcribe, translate) == Live(v, g.Value(), last, written)
    {
      assert xs[..i + 1][..i] == xs[..i];
      var segment;
      v, segment := StepBlock(c, v, xs[i].voiced, xs[i].block);
      if segment.Some? {
        var line;
        last, line := HandleSegment(g, last, segment.value, xs[i].env, transcribe, translate);
        written := written + line.ToSeq();
      }
    }
    assert xs[..|xs|] == xs;
  }
}
