/**
 * The reuse-or-synthesize decision of `generateSlidesAudio`. Every added slide with a
 * non-empty text is handled in order: when its text already occurs in the deck the
 * slide keeps its own audio and media and the deck slide with that text is spliced
 * out (it is about to be re-inserted at its new position); otherwise the text goes
 * to the speech synthesizer, whose failure aborts the whole pass.
 *
 * The bot looks the reused text up in `updatedSlidesText`, a snapshot of the deck
 * texts taken before any splice, so from the second reuse on the index can point at
 * the wrong slide. `StaleIndices` models that; `CurrentIndices` looks the text up in
 * the deck as it stands, which is what the pass evidently intends.
 */
module Narration {
  import opened Wrappers
  import opened JsArray
  import opened SeqFacts
  import opened Slides
  import opened Removal

  /** The speech synthesizer (`textToSpeech`): the stored audio file for a text, or an error. */
  type Synthesizer = string -> Result<string, string>

  /** Where the index of a reused slide is looked up. */
  datatype IndexSource = StaleIndices | CurrentIndices

  /** The state threaded through the pass: the deck being trimmed and the slides
      narrated so far (`audifiedSlides`). */
  datatype Narration = Narration(deck: seq<Slide>, audified: seq<Slide>)

  // ---------------------------------------------------------------------------
  // Reference descriptions of the pass
  // ---------------------------------------------------------------------------

  /** The added slides the pass looks at: those with a non-empty text, in order. */
  function Narratable(slides: seq<Slide>): (r: seq<Slide>)
    ensures |r| <= |slides|
    ensures forall i :: 0 <= i < |r| ==> r[i].text != ""
    decreases |slides|
  {
    if |slides| == 0 then []
    else
      var n := |slides|;
      assert slides == slides[..n - 1] + [slides[n - 1]];
      Narratable(slides[..n - 1]) + (if slides[n - 1].text != "" then [slides[n - 1]] else [])
  }

  /** A slide is looked at exactly when it is among the added slides and its text is
      non-empty: an empty text contributes nothing. */
  lemma {:induction false} NarratableMembers(slides: seq<Slide>)
    ensures forall s :: s in Narratable(slides) <==> s in slides && s.text != ""
    decreases |slides|
  {
    var n := |slides|;
    if n > 0 {
      NarratableMembers(slides[..n - 1]);
      assert slides == slides[..n - 1] + [slides[n - 1]];
    }
  }

  /** The texts that are reused rather than synthesized, in the order they are met. */
  function ReusedTexts(stale: seq<string>, slides: seq<Slide>): (r: seq<string>)
    ensures |r| <= |slides|
    decreases |slides|
  {
    if |slides| == 0 then []
    else
      var n := |slides|;
      var t := slides[n - 1].text;
      ReusedTexts(stale, slides[..n - 1]) + (if t != "" && t in stale then [t] else [])
  }

  /** What the pass emits for the spoken slides `spoken`: a reused slide unchanged,
      any other slide with its audio set to what the synthesizer returned. */
  ghost predicate AudifiedAs(stale: seq<string>, spoken: seq<Slide>, audified: seq<Slide>, synth: Synthesizer) {
    && |audified| == |spoken|
    && forall i :: 0 <= i < |spoken| ==>
        if spoken[i].text in stale then audified[i] == spoken[i]
        else synth(spoken[i].text).Success? && audified[i] == spoken[i].(audio := Some(synth(spoken[i].text).value))
  }

  /** Narration never changes a text: the emitted slides spell the spoken ones. */
  lemma {:induction false} AudifiedTexts(stale: seq<string>, spoken: seq<Slide>, audified: seq<Slide>, synth: Synthesizer)
    requires AudifiedAs(stale, spoken, audified, synth)
    ensures Texts(audified) == Texts(spoken)
  {
    forall i | 0 <= i < |spoken| ensures Texts(audified)[i] == Texts(spoken)[i] {
    }
  }

  /** Slide `i` of `spoken` is a synthesis request that fails. */
  ghost predicate FailingRequest(stale: seq<string>, spoken: seq<Slide>, synth: Synthesizer, i: int) {
    0 <= i < |spoken| && spoken[i].text !in stale && synth(spoken[i].text).Failure?
  }

  /** Some synthesis request of the pass fails. */
  ghost predicate SynthesisFails(stale: seq<string>, spoken: seq<Slide>, synth: Synthesizer) {
    exists i :: FailingRequest(stale, spoken, synth, i)
  }

  /** Request `i` fails and every request before it succeeded. */
  ghost predicate FirstFailingRequest(stale: seq<string>, spoken: seq<Slide>, synth: Synthesizer, i: int) {
    && FailingRequest(stale, spoken, synth, i)
    && forall j :: 0 <= j < i ==> !FailingRequest(stale, spoken, synth, j)
  }

  // ---------------------------------------------------------------------------
  // The pass
  // ---------------------------------------------------------------------------

  /** Splicing out the deck slide a reused text came from. As written the slide at the
      text's snapshot index goes, whatever text the deck now holds there, and nothing goes
      once that index has run past the shrunk deck; looked up in the deck as it stands,
      one slide carrying the text goes. */
  function DropReused(mode: IndexSource, deck: seq<Slide>, stale: seq<string>, t: string): (r: seq<Slide>)
    ensures |deck| - 1 <= |r| <= |deck|
    ensures mode.StaleIndices? && 0 <= IndexOf(stale, t) < |deck| ==>
      r == deck[..IndexOf(stale, t)] + deck[IndexOf(stale, t) + 1..]
    ensures mode.StaleIndices? && |deck| <= IndexOf(stale, t) ==> r == deck
    ensures mode.CurrentIndices? ==> multiset(Texts(r)) == multiset(Texts(deck)) - multiset{t}
    ensures mode.CurrentIndices? && t in Texts(deck) ==> |r| == |deck| - 1
  {
    match mode
    case StaleIndices =>
      var k := IndexOf(stale, t);
      if 0 <= k < |deck| then
        SpliceRemoveAt(deck, k);
        Splice(deck, k, 1, [])
      else if |deck| <= k then
        SplicePastEnd(deck, k);
        Splice(deck, k, 1, [])
      else
        Splice(deck, k, 1, [])
    case CurrentIndices => RemoveFirst(deck, t)
  }

  /** One waterfall task: skip an empty text, reuse a known text, or synthesize. A task
      fails exactly when its text is new and the synthesizer fails on it, with that
      error; otherwise it emits the slide, narrated when its text is new, and only a
      reused text touches the deck. */
  function Step(mode: IndexSource, stale: seq<string>, st: Narration, slide: Slide, synth: Synthesizer): (r: Result<Narration, string>)
    ensures slide.text == "" ==> r == Success(st)
    ensures r.Failure? <==> slide.text != "" && slide.text !in stale && synth(slide.text).Failure?
    ensures r.Failure? ==> r.error == synth(slide.text).error
    ensures r.Success? && slide.text != "" ==>
      r.value.audified == st.audified +
        [if slide.text in stale then slide else slide.(audio := Some(synth(slide.text).value))]
    ensures r.Success? && slide.text !in stale ==> r.value.deck == st.deck
    ensures r.Success? ==> |st.deck| - 1 <= |r.value.deck| <= |st.deck|
  {
    if slide.text == "" then Success(st)
    else if IndexOf(stale, slide.text) > -1 then
      Success(Narration(DropReused(mode, st.deck, stale, slide.text), st.audified + [slide]))
    else
      match synth(slide.text)
      case Failure(e) => Failure(e)
      case Success(path) => Success(Narration(st.deck, st.audified + [slide.(audio := Some(path))]))
  }

  /** The waterfall over the added slides in order; the first error stops it. */
  function Run(mode: IndexSource, deck: seq<Slide>, stale: seq<string>, slides: seq<Slide>, synth: Synthesizer): (r: Result<Narration, string>)
    ensures r.Success? ==> |deck| - |ReusedTexts(stale, slides)| <= |r.value.deck| <= |deck|
    decreases |slides|
  {
    if |slides| == 0 then Success(Narration(deck, []))
    else
      var n := |slides|;
      var prev := Run(mode, deck, stale, slides[..n - 1], synth);
      if prev.Failure? then prev
      else
        var r := Step(mode, stale, prev.value, slides[n - 1], synth);
        assert r.Success? && slides[n - 1].text != "" && slides[n - 1].text in stale ==>
          |ReusedTexts(stale, slides)| == |ReusedTexts(stale, slides[..n - 1])| + 1;
        r
  }

  // ---------------------------------------------------------------------------
  // What the pass computes
  // ---------------------------------------------------------------------------

  /** The pass succeeds exactly when no synthesis request fails, and then it emits
      every spoken slide in order: reused ones as they are, the others narrated. */
  lemma {:induction false} RunOutcome(mode: IndexSource, deck: seq<Slide>, stale: seq<string>, slides: seq<Slide>, synth: Synthesizer)
    ensures Run(mode, deck, stale, slides, synth).Success? <==> !SynthesisFails(stale, Narratable(slides), synth)
    ensures Run(mode, deck, stale, slides, synth).Success? ==>
      AudifiedAs(stale, Narratable(slides), Run(mode, deck, stale, slides, synth).value.audified, synth)
    decreases |slides|
  {
    var n := |slides|;
    if n > 0 {
      var init := slides[..n - 1];
      var last := slides[n - 1];
      RunOutcome(mode, deck, stale, init, synth);
      var prev := Run(mode, deck, stale, init, synth);
      var spokenInit := Narratable(init);
      var spoken := Narratable(slides);
      NarratableSnoc(slides);
      RunSnoc(mode, deck, stale, slides, synth);
      PrefixRequests(stale, spokenInit, spoken, synth);
      if prev.Failure? {
        var i :| FailingRequest(stale, spokenInit, synth, i);
        assert FailingRequest(stale, spoken, synth, i);
      } else if last.text != "" {
        if last.text !in stale && synth(last.text).Failure? {
          assert FailingRequest(stale, spoken, synth, |spokenInit|);
        } else {
          AudifiedSnoc(stale, spokenInit, prev.value.audified, last, synth);
        }
      }
    }
  }

  /** The spoken slides grow by the last added slide when its text is non-empty. */
  lemma {:induction false} NarratableSnoc(slides: seq<Slide>)
    requires |slides| > 0
    ensures Narratable(slides) == Narratable(slides[..|slides| - 1]) +
      (if slides[|slides| - 1].text != "" then [slides[|slides| - 1]] else [])
  {
  }

  /** The requests of a prefix fail exactly as they do in the longer sequence. */
  lemma {:induction false} PrefixRequests(stale: seq<string>, a: seq<Slide>, b: seq<Slide>, synth: Synthesizer)
    requires a <= b
    ensures forall i :: 0 <= i < |a| ==> (FailingRequest(stale, a, synth, i) <==> FailingRequest(stale, b, synth, i))
  {
    forall i | 0 <= i < |a| ensures FailingRequest(stale, a, synth, i) <==> FailingRequest(stale, b, synth, i) {
      assert a[i] == b[i];
    }
  }

  /** Emitting one more spoken slide the way the pass does extends the emitted slides. */
  lemma {:induction false} AudifiedSnoc(stale: seq<string>, spoken: seq<Slide>, audified: seq<Slide>, slide: Slide, synth: Synthesizer)
    requires AudifiedAs(stale, spoken, audified, synth)
    requires !SynthesisFails(stale, spoken, synth)
    requires slide.text in stale || synth(slide.text).Success?
    ensures AudifiedAs(stale, spoken + [slide],
      audified + [if slide.text in stale then slide else slide.(audio := Some(synth(slide.text).value))], synth)
    ensures !SynthesisFails(stale, spoken + [slide], synth)
  {
    var s := spoken + [slide];
    forall i | 0 <= i < |s| ensures !FailingRequest(stale, s, synth, i) {
      if i < |spoken| {
        assert s[i] == spoken[i];
        assert !FailingRequest(stale, spoken, synth, i);
      }
    }
  }

  /** On failure the error returned is that of the first failing synthesis request. */
  lemma {:induction false} RunFirstError(mode: IndexSource, deck: seq<Slide>, stale: seq<string>, slides: seq<Slide>, synth: Synthesizer)
    ensures Run(mode, deck, stale, slides, synth).Failure? ==>
      exists i :: FirstFailingRequest(stale, Narratable(slides), synth, i)
        && Run(mode, deck, stale, slides, synth).error == synth(Narratable(slides)[i].text).error
    decreases |slides|
  {
    var n := |slides|;
    if n > 0 {
      var init := slides[..n - 1];
      var last := slides[n - 1];
      RunFirstError(mode, deck, stale, init, synth);
      RunOutcome(mode, deck, stale, init, synth);
      var prev := Run(mode, deck, stale, init, synth);
      var spokenInit := Narratable(init);
      var spoken := Narratable(slides);
      NarratableSnoc(slides);
      RunSnoc(mode, deck, stale, slides, synth);
      PrefixRequests(stale, spokenInit, spoken, synth);
      if prev.Failure? {
        var i :| FirstFailingRequest(stale, spokenInit, synth, i)
          && prev.error == synth(spokenInit[i].text).error;
        assert spoken[i] == spokenInit[i];
        assert FirstFailingRequest(stale, spoken, synth, i);
      } else if last.text != "" {
        if last.text !in stale && synth(last.text).Failure? {
          var i := |spokenInit|;
          assert spoken[i] == last;
          assert FirstFailingRequest(stale, spoken, synth, i);
        }
      }
    }
  }

  /** Looking reused slides up in the current deck removes, for every reused text,
      the first slide still carrying it: the by-text removal of the reused texts. */
  lemma {:induction false} RunCurrentDeck(deck: seq<Slide>, stale: seq<string>, slides: seq<Slide>, synth: Synthesizer)
    ensures Run(CurrentIndices, deck, stale, slides, synth).Success? ==>
      Run(CurrentIndices, deck, stale, slides, synth).value.deck == RemoveSlidesByText(deck, ReusedTexts(stale, slides))
    decreases |slides|
  {
    var n := |slides|;
    if n > 0 {
      var init := slides[..n - 1];
      var last := slides[n - 1];
      RunCurrentDeck(deck, stale, init, synth);
      var prev := Run(CurrentIndices, deck, stale, init, synth);
      RunSnoc(CurrentIndices, deck, stale, slides, synth);
      if prev.Success? {
        var r := Step(CurrentIndices, stale, prev.value, last, synth);
        ReusedSnoc(stale, slides);
        if last.text != "" && last.text in stale {
          assert r.value.deck == RemoveFirst(prev.value.deck, last.text);
          RemoveByTextSnoc(deck, ReusedTexts(stale, init), last.text);
        } else {
          assert r.Success? ==> r.value.deck == prev.value.deck;
        }
      }
    }
  }

  /** The reused texts grow by the last added slide's text when that one is reused. */
  lemma {:induction false} ReusedSnoc(stale: seq<string>, slides: seq<Slide>)
    requires |slides| > 0
    ensures var t := slides[|slides| - 1].text;
      ReusedTexts(stale, slides) ==
        if t != "" && t in stale then ReusedTexts(stale, slides[..|slides| - 1]) + [t]
        else ReusedTexts(stale, slides[..|slides| - 1])
  {
    var t := slides[|slides| - 1].text;
    assert ReusedTexts(stale, slides[..|slides| - 1]) + [] == ReusedTexts(stale, slides[..|slides| - 1]);
  }

  /** Where the index is looked up changes only the deck, never the outcome or the
      narrated slides. */
  lemma {:induction false} IndexSourceOnlyAffectsDeck(deck: seq<Slide>, stale: seq<string>, slides: seq<Slide>, synth: Synthesizer)
    ensures Run(StaleIndices, deck, stale, slides, synth).Success? == Run(CurrentIndices, deck, stale, slides, synth).Success?
    ensures Run(StaleIndices, deck, stale, slides, synth).Success? ==>
      Run(StaleIndices, deck, stale, slides, synth).value.audified == Run(CurrentIndices, deck, stale, slides, synth).value.audified
    ensures Run(StaleIndices, deck, stale, slides, synth).Failure? ==>
      Run(StaleIndices, deck, stale, slides, synth).error == Run(CurrentIndices, deck, stale, slides, synth).error
    decreases |slides|
  {
    if |slides| > 0 {
      IndexSourceOnlyAffectsDeck(deck, stale, slides[..|slides| - 1], synth);
    }
  }

  // ---------------------------------------------------------------------------
  // generateSlidesAudio, as written and corrected
  // ---------------------------------------------------------------------------

  /** `generateSlidesAudio` as written: reuse decisions and splice indices both come
      from the snapshot of the deck texts taken on entry. */
  function GenerateSlidesAudio(updatedSlides: seq<Slide>, slides: seq<Slide>, synth: Synthesizer): (r: Result<Narration, string>)
    ensures r.Success? <==> !SynthesisFails(Texts(updatedSlides), Narratable(slides), synth)
    ensures r.Success? ==> AudifiedAs(Texts(updatedSlides), Narratable(slides), r.value.audified, synth)
    ensures r.Success? ==> |updatedSlides| - |ReusedTexts(Texts(updatedSlides), slides)| <= |r.value.deck| <= |updatedSlides|
    ensures r.Failure? ==>
      exists i :: FirstFailingRequest(Texts(updatedSlides), Narratable(slides), synth, i)
        && r.error == synth(Narratable(slides)[i].text).error
  {
    RunFirstError(StaleIndices, updatedSlides, Texts(updatedSlides), slides, synth);
    RunOutcome(StaleIndices, updatedSlides, Texts(updatedSlides), slides, synth);
    Run(StaleIndices, updatedSlides, Texts(updatedSlides), slides, synth)
  }

  /** `generateSlidesAudio` with each reused slide looked up in the deck as it stands:
      same decisions and narration, and the deck loses exactly one slide per reused text. */
  function GenerateSlidesAudioFresh(updatedSlides: seq<Slide>, slides: seq<Slide>, synth: Synthesizer): (r: Result<Narration, string>)
    ensures r.Success? <==> !SynthesisFails(Texts(updatedSlides), Narratable(slides), synth)
    ensures r.Success? ==> AudifiedAs(Texts(updatedSlides), Narratable(slides), r.value.audified, synth)
    ensures r.Success? ==> r.value.deck == RemoveSlidesByText(updatedSlides, ReusedTexts(Texts(updatedSlides), slides))
    ensures r.Success? ==>
      multiset(Texts(r.value.deck)) == multiset(Texts(updatedSlides)) - multiset(ReusedTexts(Texts(updatedSlides), slides))
    ensures r.Failure? ==>
      exists i :: FirstFailingRequest(Texts(updatedSlides), Narratable(slides), synth, i)
        && r.error == synth(Narratable(slides)[i].text).error
  {
    RunFirstError(CurrentIndices, updatedSlides, Texts(updatedSlides), slides, synth);
    RunOutcome(CurrentIndices, updatedSlides, Texts(updatedSlides), slides, synth);
    RunCurrentDeck(updatedSlides, Texts(updatedSlides), slides, synth);
    Run(CurrentIndices, updatedSlides, Texts(updatedSlides), slides, synth)
  }

  /** The stale snapshot only goes wrong from the second reuse on: with at most one
      reused text the pass as written and the corrected pass return the same result,
      deck included, and with none the deck is left as it was. */
  lemma {:induction false} OneReuseNarrationsAgree(deck: seq<Slide>, slides: seq<Slide>, synth: Synthesizer)
    requires |ReusedTexts(Texts(deck), slides)| <= 1
    ensures Run(StaleIndices, deck, Texts(deck), slides, synth) == Run(CurrentIndices, deck, Texts(deck), slides, synth)
    ensures GenerateSlidesAudio(deck, slides, synth) == GenerateSlidesAudioFresh(deck, slides, synth)
    ensures |ReusedTexts(Texts(deck), slides)| == 0 && Run(CurrentIndices, deck, Texts(deck), slides, synth).Success? ==>
      Run(CurrentIndices, deck, Texts(deck), slides, synth).value.deck == deck
    decreases |slides|
  {
    var stale := Texts(deck);
    var n := |slides|;
    if n > 0 {
      var init := slides[..n - 1];
      var last := slides[n - 1];
      ReusedSnoc(stale, slides);
      OneReuseNarrationsAgree(deck, init, synth);
      RunSnoc(StaleIndices, deck, stale, slides, synth);
      RunSnoc(CurrentIndices, deck, stale, slides, synth);
      var prev := Run(CurrentIndices, deck, stale, init, synth);
      if prev.Success? && last.text != "" && last.text in stale {
        assert prev.value.deck == deck;
        var k := IndexOf(stale, last.text);
        RemoveFirstAt(deck, last.text, k);
        assert DropReused(StaleIndices, deck, stale, last.text) == DropReused(CurrentIndices, deck, stale, last.text);
      }
    }
  }

  /** One more added slide is one more waterfall task on the state so far. */
  lemma {:induction false} RunSnoc(mode: IndexSource, deck: seq<Slide>, stale: seq<string>, slides: seq<Slide>, synth: Synthesizer)
    requires |slides| > 0
    ensures Run(mode, deck, stale, slides, synth) ==
      var prev := Run(mode, deck, stale, slides[..|slides| - 1], synth);
      if prev.Failure? then prev else Step(mode, stale, prev.value, slides[|slides| - 1], synth)
  {
  }

  /** Two added slides whose texts are both already in the deck: nothing is synthesized
      and the deck loses one slide per text, in order. */
  lemma {:induction false} RunTwoReused(mode: IndexSource, deck: seq<Slide>, stale: seq<string>, slides: seq<Slide>, synth: Synthesizer)
    requires |slides| == 2
    requires forall i :: 0 <= i < 2 ==> slides[i].text != "" && IndexOf(stale, slides[i].text) > -1
    ensures Run(mode, deck, stale, slides, synth) ==
      Success(Narration(DropReused(mode, DropReused(mode, deck, stale, slides[0].text), stale, slides[1].text), slides))
  {
    var first := slides[..1];
    var start := Narration(deck, []);
    var once := Narration(DropReused(mode, deck, stale, slides[0].text), [slides[0]]);
    assert first[..0] == [];
    assert Run(mode, deck, stale, first[..0], synth) == Success(start);
    RunSnoc(mode, deck, stale, first, synth);
    StepReused(mode, stale, start, slides[0], synth);
    assert [] + [slides[0]] == first;
    assert Run(mode, deck, stale, first, synth) == Success(once);
    RunSnoc(mode, deck, stale, slides, synth);
    assert slides[..1] == first;
    assert Run(mode, deck, stale, slides, synth) == Step(mode, stale, once, slides[1], synth);
    StepReused(mode, stale, once, slides[1], synth);
    var twice := DropReused(mode, once.deck, stale, slides[1].text);
    PairOf(slides);
    assert Narration(twice, once.audified + [slides[1]]) == Narration(twice, slides);
  }

  /** A waterfall task on a text the deck already had reuses it: no synthesis, one
      slide dropped from the deck, and the slide emitted as it is. */
  lemma {:induction false} StepReused(mode: IndexSource, stale: seq<string>, st: Narration, slide: Slide, synth: Synthesizer)
    requires slide.text != "" && IndexOf(stale, slide.text) > -1
    ensures Step(mode, stale, st, slide, synth) ==
      Success(Narration(DropReused(mode, st.deck, stale, slide.text), st.audified + [slide]))
  {
  }

  /** The stale snapshot at work: deck A B C D, and the slides with texts A and C come
      back at new positions. After A is spliced out the deck is B C D, but C is looked
      up at its old index 2, so D is removed and C stays (to be inserted a second time). */
  lemma {:induction false} StaleIndexRemovesWrongSlide(deck: seq<Slide>, slides: seq<Slide>, synth: Synthesizer)
    requires |deck| == 4 && |slides| == 2
    requires forall i, j :: 0 <= i < j < 4 ==> deck[i].text != deck[j].text
    requires slides[0].text == deck[0].text != "" && slides[1].text == deck[2].text != ""
    ensures Run(StaleIndices, deck, Texts(deck), slides, synth) == Success(Narration([deck[1], deck[2]], slides))
  {
    var stale := Texts(deck);
    var a, c := deck[0].text, deck[2].text;
    IndexOfIsFirst(stale, a, 0);
    IndexOfIsFirst(stale, c, 2);
    RunTwoReused(StaleIndices, deck, stale, slides, synth);
    var rest := deck[1..];
    SpliceRemoveAt(deck, 0);
    DropHead(deck);
    assert DropReused(StaleIndices, deck, stale, a) == rest;
    SpliceRemoveAt(rest, 2);
    DropOfThree(rest, 2);
    assert DropReused(StaleIndices, rest, stale, c) == [deck[1], deck[2]];
  }

  /** The same input through the corrected pass: C is looked up in B C D and found at
      index 1, so A and C leave and B and D stay. */
  lemma {:induction false} CurrentIndexRemovesReusedSlides(deck: seq<Slide>, slides: seq<Slide>, synth: Synthesizer)
    requires |deck| == 4 && |slides| == 2
    requires forall i, j :: 0 <= i < j < 4 ==> deck[i].text != deck[j].text
    requires slides[0].text == deck[0].text != "" && slides[1].text == deck[2].text != ""
    ensures GenerateSlidesAudioFresh(deck, slides, synth) == Success(Narration([deck[1], deck[3]], slides))
  {
    var stale := Texts(deck);
    var a, c := deck[0].text, deck[2].text;
    IndexOfIsFirst(stale, a, 0);
    IndexOfIsFirst(stale, c, 2);
    RunTwoReused(CurrentIndices, deck, stale, slides, synth);
    var rest := deck[1..];
    RemoveFirstHead(deck, a);
    assert rest[0] == deck[1] && rest[1] == deck[2] && rest[2] == deck[3];
    RemoveFirstMiddle(rest, c);
  }
}
