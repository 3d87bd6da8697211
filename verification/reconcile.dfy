/**
 * Reconciliation of a stored deck with a freshly segmented one (`updateArticleSlides`)
 * and the article field update around it (`updateArticle`).
 *
 * The order of the stages is the one of the bot: batch the diff of the two text
 * sequences, let the helper functions place and decorate the changed slides, narrate
 * the added slides (which also takes reused slides out of the stored deck), splice the
 * narrated slides in, remove the deleted slides, and finally renumber every position.
 * Insertion happens before removal throughout.
 */
module Reconcile {
  import opened Wrappers
  import opened Slides
  import opened Batching
  import opened Removal
  import opened Insertion
  import opened Narration

  // ---------------------------------------------------------------------------
  // Renumbering
  // ---------------------------------------------------------------------------

  /** The deck after the renumbering loop: each slide's position is its index. */
  function Renumbered(slides: seq<Slide>): (r: seq<Slide>)
    ensures |r| == |slides|
    ensures WellNumbered(r)
    ensures forall i :: 0 <= i < |r| ==>
      && r[i].text == slides[i].text
      && r[i].audio == slides[i].audio
      && r[i].media == slides[i].media
      && r[i].mediaType == slides[i].mediaType
  {
    seq(|slides|, i requires 0 <= i < |slides| => slides[i].(position := i))
  }

  /** The renumbering loop itself, one assignment per slide. */
  method RenumberPositions(slides: seq<Slide>) returns (updatedSlides: seq<Slide>)
    ensures |updatedSlides| == |slides|
    ensures WellNumbered(updatedSlides)
    ensures forall i :: 0 <= i < |slides| ==> updatedSlides[i].(position := slides[i].position) == slides[i]
  {
    updatedSlides := slides;
    var i := 0;
    while i < |updatedSlides|
      invariant 0 <= i <= |updatedSlides| == |slides|
      invariant forall k :: 0 <= k < i ==> updatedSlides[k] == slides[k].(position := k)
      invariant forall k :: i <= k < |slides| ==> updatedSlides[k] == slides[k]
    {
      updatedSlides := updatedSlides[i := updatedSlides[i].(position := i)];
      i := i + 1;
    }
  }

  /** The loop and the function agree on every deck. */
  lemma {:induction false} RenumberPositionsIsRenumbered(slides: seq<Slide>, updatedSlides: seq<Slide>)
    requires |updatedSlides| == |slides| && WellNumbered(updatedSlides)
    requires forall i :: 0 <= i < |slides| ==> updatedSlides[i].(position := slides[i].position) == slides[i]
    ensures updatedSlides == Renumbered(slides)
  {
    var r := Renumbered(slides);
    forall i | 0 <= i < |slides| ensures updatedSlides[i] == r[i] {
      assert updatedSlides[i].position == i;
    }
  }

  /** Renumbering leaves a deck alone exactly when it is already well numbered. */
  lemma {:induction false} RenumberedFixesWellNumbered(slides: seq<Slide>)
    ensures Renumbered(slides) == slides <==> WellNumbered(slides)
  {
    if WellNumbered(slides) {
      forall i | 0 <= i < |slides| ensures Renumbered(slides)[i] == slides[i] {
      }
    }
  }

  /** Renumbering twice is renumbering once. */
  lemma {:induction false} RenumberedIdempotent(slides: seq<Slide>)
    ensures Renumbered(Renumbered(slides)) == Renumbered(slides)
  {
    RenumberedFixesWellNumbered(Renumbered(slides));
  }

  /** Renumbering keeps the texts in place. */
  lemma {:induction false} RenumberedTexts(slides: seq<Slide>)
    ensures Texts(Renumbered(slides)) == Texts(slides)
  {
  }

  // ---------------------------------------------------------------------------
  // The stages of updateArticleSlides
  // ---------------------------------------------------------------------------

  /** What `fetchUpdatedSlidesMeta` hands back. */
  datatype SlidesMeta = SlidesMeta(addedSlidesArray: seq<Slide>, updatedslidesArray: seq<Slide>)

  /** The helper functions reconciliation calls but does not define: the array diff and
      the placing and decorating of changed slides. */
  datatype Helpers = Helpers(
    diffArrays: (seq<string>, seq<string>) -> seq<Chunk>,
    slidesPosition: (seq<Slide>, seq<string>) -> seq<Slide>,
    fetchUpdatedSlidesMeta: (seq<Slide>, seq<Slide>, seq<Slide>) -> SlidesMeta,
    addRandomMediaOnSlides: (seq<Slide>, seq<Slide>) -> seq<Slide>)

  /** Everything `updateArticleSlides` reports back. */
  datatype SlidesUpdate = SlidesUpdate(
    slides: seq<Slide>,
    removedSlidesBatch: seq<string>,
    addedSlidesBatch: seq<string>,
    addedSlidesArray: seq<Slide>,
    removedSlidesArray: seq<Slide>,
    updatedslidesArray: seq<Slide>)

  function Diffs(oldUpdatedSlides: seq<Slide>, slides: seq<Slide>, h: Helpers): seq<Chunk> {
    h.diffArrays(Texts(oldUpdatedSlides), Texts(slides))
  }

  /** The stored slides whose texts the diff reports as removed: the removed batch placed
      on the stored deck. Helpers that place nothing for nothing report no slide when the
      diff removes nothing. */
  function RemovedSlidesArray(oldUpdatedSlides: seq<Slide>, slides: seq<Slide>, h: Helpers): (r: seq<Slide>)
    ensures QuietOnEmpty(h) && Gather(Diffs(oldUpdatedSlides, slides, h), RemovedView) == [] ==> r == []
  {
    h.slidesPosition(oldUpdatedSlides, Gather(Diffs(oldUpdatedSlides, slides, h), RemovedView))
  }

  /** The added batch placed on the fresh slides, then matched against the stored deck
      and the removed slides; no added slide comes back when the diff changes nothing. */
  function SlidesMetaOf(oldUpdatedSlides: seq<Slide>, slides: seq<Slide>, h: Helpers): (r: SlidesMeta)
    ensures (&& QuietOnEmpty(h)
             && Gather(Diffs(oldUpdatedSlides, slides, h), AddedView) == []
             && Gather(Diffs(oldUpdatedSlides, slides, h), RemovedView) == []) ==> r.addedSlidesArray == []
  {
    var addedSlidesArray := h.slidesPosition(slides, Gather(Diffs(oldUpdatedSlides, slides, h), AddedView));
    h.fetchUpdatedSlidesMeta(oldUpdatedSlides, addedSlidesArray, RemovedSlidesArray(oldUpdatedSlides, slides, h))
  }

  /** The new slides, placed and decorated, that go to narration and insertion; none
      when the diff changes nothing. */
  function AddedSlidesArray(oldUpdatedSlides: seq<Slide>, slides: seq<Slide>, h: Helpers): (r: seq<Slide>)
    ensures (&& QuietOnEmpty(h)
             && Gather(Diffs(oldUpdatedSlides, slides, h), AddedView) == []
             && Gather(Diffs(oldUpdatedSlides, slides, h), RemovedView) == []) ==> r == []
  {
    h.addRandomMediaOnSlides(oldUpdatedSlides, SlidesMetaOf(oldUpdatedSlides, slides, h).addedSlidesArray)
  }

  /** `updateArticleSlides`: reconcile the stored deck `oldUpdatedSlides` with the freshly
      segmented `slides`. Narration uses the current-index lookup and removal goes by
      text; a synthesis error fails the whole update. */
  function UpdateArticleSlides(oldUpdatedSlides: seq<Slide>, slides: seq<Slide>, h: Helpers, synth: Synthesizer): (r: Result<SlidesUpdate, string>)
    ensures var added := AddedSlidesArray(oldUpdatedSlides, slides, h);
      r.Success? <==> !SynthesisFails(Texts(oldUpdatedSlides), Narratable(added), synth)
    ensures var added := AddedSlidesArray(oldUpdatedSlides, slides, h);
      r.Failure? ==>
        exists i :: FirstFailingRequest(Texts(oldUpdatedSlides), Narratable(added), synth, i)
          && r.error == synth(Narratable(added)[i].text).error
    ensures r.Success? ==> WellNumbered(r.value.slides)
    ensures var added := AddedSlidesArray(oldUpdatedSlides, slides, h);
      r.Success? ==>
        multiset(Texts(r.value.slides)) ==
          multiset(Texts(oldUpdatedSlides)) - multiset(ReusedTexts(Texts(oldUpdatedSlides), added))
          + multiset(Texts(Narratable(added)))
          - multiset(Texts(RemovedSlidesArray(oldUpdatedSlides, slides, h)))
    ensures r.Success? ==>
      && r.value.addedSlidesBatch == Gather(Diffs(oldUpdatedSlides, slides, h), AddedView)
      && r.value.removedSlidesBatch == Gather(Diffs(oldUpdatedSlides, slides, h), RemovedView)
  {
    var diffs := Diffs(oldUpdatedSlides, slides, h);
    var addedSlidesBatch := Gather(diffs, AddedView);
    var removedSlidesBatch := Gather(diffs, RemovedView);
    var removedSlidesArray := RemovedSlidesArray(oldUpdatedSlides, slides, h);
    var meta := SlidesMetaOf(oldUpdatedSlides, slides, h);
    var addedSlidesArray := AddedSlidesArray(oldUpdatedSlides, slides, h);
    var narration :- GenerateSlidesAudioFresh(oldUpdatedSlides, addedSlidesArray, synth);
    var resultSlides := InsertAll(narration.deck, narration.audified);
    var updatedSlides := RemoveSlidesByText(resultSlides, Texts(removedSlidesArray));
    AudifiedTexts(Texts(oldUpdatedSlides), Narratable(addedSlidesArray), narration.audified, synth);
    InsertAllTexts(narration.deck, narration.audified);
    RenumberedTexts(updatedSlides);
    Success(SlidesUpdate(
      Renumbered(updatedSlides), removedSlidesBatch, addedSlidesBatch,
      addedSlidesArray, removedSlidesArray, meta.updatedslidesArray))
  }

  /** Helpers that report nothing when given nothing to place. */
  ghost predicate QuietOnEmpty(h: Helpers) {
    && (forall deck: seq<Slide> :: h.slidesPosition(deck, []) == [])
    && (forall deck: seq<Slide> :: h.fetchUpdatedSlidesMeta(deck, [], []).addedSlidesArray == [])
    && (forall deck: seq<Slide> :: h.addRandomMediaOnSlides(deck, []) == [])
  }

  /** When the diff flags no chunk, reconciliation only renumbers the stored deck, and a
      well-numbered deck comes back unchanged. */
  lemma {:induction false} NoDifferenceKeepsDeck(oldUpdatedSlides: seq<Slide>, slides: seq<Slide>, h: Helpers, synth: Synthesizer)
    requires forall k :: 0 <= k < |Diffs(oldUpdatedSlides, slides, h)| ==>
      !Diffs(oldUpdatedSlides, slides, h)[k].added && !Diffs(oldUpdatedSlides, slides, h)[k].removed
    requires QuietOnEmpty(h)
    ensures UpdateArticleSlides(oldUpdatedSlides, slides, h, synth).Success?
    ensures UpdateArticleSlides(oldUpdatedSlides, slides, h, synth).value.slides == Renumbered(oldUpdatedSlides)
    ensures WellNumbered(oldUpdatedSlides) ==> UpdateArticleSlides(oldUpdatedSlides, slides, h, synth).value.slides == oldUpdatedSlides
  {
    var diffs := Diffs(oldUpdatedSlides, slides, h);
    UnflaggedDiffHasNoBatches(diffs);
    assert RemovedSlidesArray(oldUpdatedSlides, slides, h) == [];
    assert AddedSlidesArray(oldUpdatedSlides, slides, h) == [];
    var n := GenerateSlidesAudioFresh(oldUpdatedSlides, [], synth);
    assert Narratable([]) == [];
    assert n.Success?;
    assert ReusedTexts(Texts(oldUpdatedSlides), []) == [];
    assert n.value.deck == oldUpdatedSlides;
    assert |n.value.audified| == 0;
    assert InsertAll(n.value.deck, n.value.audified) == oldUpdatedSlides;
    assert Texts([]) == [];
    assert RemoveSlidesByText(oldUpdatedSlides, []) == oldUpdatedSlides;
    RenumberedFixesWellNumbered(oldUpdatedSlides);
  }

  /** A slide that only moves is lost. The stored deck is A B and the fresh one B A, and
      the diff reports A removed up front and added at the end. Narration finds A in the
      stored deck, keeps its audio and splices it out; insertion puts it back; but A is
      also among the removed slides, and removal by text takes it out again. Only B is
      left, although the pass was written to keep a moved slide's audio. */
  lemma {:induction false} MovedSlideIsDropped(a: Slide, b: Slide, latest: seq<Slide>, h: Helpers, synth: Synthesizer)
    requires a.text != "" && b.text != "" && a.text != b.text
    requires |latest| == 2 && latest[0].text == b.text && latest[1].text == a.text
    requires h.diffArrays([a.text, b.text], [b.text, a.text]) ==
      [Chunk([a.text], false, true), Chunk([b.text], false, false), Chunk([a.text], true, false)]
    requires h.slidesPosition([a, b], [a.text]) == [a]
    requires h.slidesPosition(latest, [a.text]) == [latest[1]]
    requires h.fetchUpdatedSlidesMeta([a, b], [latest[1]], [a]).addedSlidesArray == [latest[1]]
    requires h.addRandomMediaOnSlides([a, b], [latest[1]]) == [latest[1]]
    ensures UpdateArticleSlides([a, b], latest, h, synth).Success?
    ensures |UpdateArticleSlides([a, b], latest, h, synth).value.slides| == 1
    ensures UpdateArticleSlides([a, b], latest, h, synth).value.slides[0].text == b.text
  {
    MovedSlideArrays(a, b, latest, h);
    assert Texts([a, b]) == [a.text, b.text];
    assert Texts([a]) == [a.text];
    MovedSlideCounts([a, b], latest, h, synth, latest[1], b.text);
  }

  /** The counting half of the moved-slide example: one added slide whose text the stored
      deck has, the same text as the only removed slide, and one other stored text `y`. */
  lemma {:induction false} MovedSlideCounts(
    stored: seq<Slide>, latest: seq<Slide>, h: Helpers, synth: Synthesizer, x: Slide, y: string)
    requires x.text != "" && Texts(stored) == [x.text, y]
    requires AddedSlidesArray(stored, latest, h) == [x]
    requires Texts(RemovedSlidesArray(stored, latest, h)) == [x.text]
    ensures UpdateArticleSlides(stored, latest, h, synth).Success?
    ensures |UpdateArticleSlides(stored, latest, h, synth).value.slides| == 1
    ensures UpdateArticleSlides(stored, latest, h, synth).value.slides[0].text == y
  {
    ReusedOnce(Texts(stored), x, synth);
    var s := UpdateTexts(stored, latest, h, synth);
    ReinsertedThenRemoved(multiset(Texts(s)), Texts(stored), ReusedTexts(Texts(stored), [x]),
      Texts(Narratable([x])), Texts(RemovedSlidesArray(stored, latest, h)), x.text, y);
    SingleText(s, y);
  }

  /** The placed slides of the moved-slide example: A from the stored deck as removed,
      A from the fresh deck as added. */
  lemma {:induction false} MovedSlideArrays(a: Slide, b: Slide, latest: seq<Slide>, h: Helpers)
    requires |latest| == 2 && latest[0].text == b.text && latest[1].text == a.text
    requires h.diffArrays([a.text, b.text], [b.text, a.text]) ==
      [Chunk([a.text], false, true), Chunk([b.text], false, false), Chunk([a.text], true, false)]
    requires h.slidesPosition([a, b], [a.text]) == [a]
    requires h.slidesPosition(latest, [a.text]) == [latest[1]]
    requires h.fetchUpdatedSlidesMeta([a, b], [latest[1]], [a]).addedSlidesArray == [latest[1]]
    requires h.addRandomMediaOnSlides([a, b], [latest[1]]) == [latest[1]]
    ensures RemovedSlidesArray([a, b], latest, h) == [a]
    ensures AddedSlidesArray([a, b], latest, h) == [latest[1]]
  {
    var stored := [a, b];
    assert Texts(stored) == [a.text, b.text];
    assert Texts(latest) == [b.text, a.text];
    var diffs := Diffs(stored, latest, h);
    assert Gather(diffs[..1], RemovedView) == [a.text];
    assert Gather(diffs[..2], RemovedView) == [a.text] by {
      assert diffs[..2][..1] == diffs[..1];
    }
    assert Gather(diffs, RemovedView) == [a.text] by {
      assert diffs[..2] == diffs[..|diffs| - 1];
    }
    assert Gather(diffs[..1], AddedView) == [];
    assert Gather(diffs[..2], AddedView) == [] by {
      assert diffs[..2][..1] == diffs[..1];
    }
    assert Gather(diffs, AddedView) == [a.text] by {
      assert diffs[..2] == diffs[..|diffs| - 1];
    }
  }

  /** A single added slide whose text the stored deck has: it is looked at, reused, and
      asks the synthesizer nothing. */
  lemma {:induction false} ReusedOnce(stale: seq<string>, x: Slide, synth: Synthesizer)
    requires x.text != "" && x.text in stale
    ensures Narratable([x]) == [x]
    ensures ReusedTexts(stale, [x]) == [x.text]
    ensures Texts(Narratable([x])) == [x.text]
    ensures !SynthesisFails(stale, Narratable([x]), synth)
  {
    assert [x][..0] == [];
    NarratableSnoc([x]);
    ReusedSnoc(stale, [x]);
    assert Narratable([x]) == [x];
    assert !FailingRequest(stale, [x], synth, 0);
  }

  /** Without a failing synthesis request the update succeeds, with the text counts its
      contract gives. */
  lemma {:induction false} UpdateTexts(oldUpdatedSlides: seq<Slide>, slides: seq<Slide>, h: Helpers, synth: Synthesizer)
    returns (updated: seq<Slide>)
    requires !SynthesisFails(Texts(oldUpdatedSlides), Narratable(AddedSlidesArray(oldUpdatedSlides, slides, h)), synth)
    ensures UpdateArticleSlides(oldUpdatedSlides, slides, h, synth) == Success(UpdateArticleSlides(oldUpdatedSlides, slides, h, synth).value)
    ensures UpdateArticleSlides(oldUpdatedSlides, slides, h, synth).value.slides == updated
    ensures var added := AddedSlidesArray(oldUpdatedSlides, slides, h);
      multiset(Texts(updated)) ==
        multiset(Texts(oldUpdatedSlides)) - multiset(ReusedTexts(Texts(oldUpdatedSlides), added))
        + multiset(Texts(Narratable(added)))
        - multiset(Texts(RemovedSlidesArray(oldUpdatedSlides, slides, h)))
  {
    updated := UpdateArticleSlides(oldUpdatedSlides, slides, h, synth).value.slides;
  }

  /** A deck whose texts are the one text `y` is one slide carrying it. */
  lemma {:induction false} SingleText(s: seq<Slide>, y: string)
    requires multiset(Texts(s)) == multiset{y}
    ensures |s| == 1 && s[0].text == y
  {
    assert |Texts(s)| == |multiset(Texts(s))| == 1;
    assert Texts(s)[0] in multiset(Texts(s));
  }

  /** The text counts of the moved-slide example: A taken out, put back, taken out again. */
  lemma {:induction false} ReinsertedThenRemoved(
    left: multiset<string>, stored: seq<string>, reused: seq<string>, narrated: seq<string>, removed: seq<string>,
    x: string, y: string)
    requires left == multiset(stored) - multiset(reused) + multiset(narrated) - multiset(removed)
    requires stored == [x, y] && reused == [x] && narrated == [x] && removed == [x]
    ensures left == multiset{y}
  {
    assert multiset([x, y]) == multiset{x} + multiset{y};
    assert multiset([x]) == multiset{x};
  }

  // ---------------------------------------------------------------------------
  // updateArticle
  // ---------------------------------------------------------------------------

  /** What `getLatestData` delivers: the segmented slides and the annotated sections. */
  datatype LatestData = LatestData(slides: seq<Slide>, sections: seq<Section>)

  /** `updateArticle`: on fresh data, replace the article's slides by the reconciled deck
      and its sections by the fresh ones; any error is passed on and leaves no article. */
  function UpdateArticle(article: Article, latest: Result<LatestData, string>, h: Helpers, synth: Synthesizer): (r: Result<Article, string>)
    ensures latest.Failure? ==> r == Failure(latest.error)
    ensures latest.Success? ==>
      (r.Success? <==> UpdateArticleSlides(article.slides, latest.value.slides, h, synth).Success?)
    ensures latest.Success? && r.Failure? ==> r.error == UpdateArticleSlides(article.slides, latest.value.slides, h, synth).error
    ensures r.Success? ==>
      && r.value.id == article.id && r.value.title == article.title
      && r.value.published == article.published && r.value.updatedAt == article.updatedAt
      && r.value.sections == latest.value.sections
      && WellNumbered(r.value.slides)
      && r.value.slides == UpdateArticleSlides(article.slides, latest.value.slides, h, synth).value.slides
  {
    var data :- latest;
    var result :- UpdateArticleSlides(article.slides, data.slides, h, synth);
    Success(article.(slides := result.slides, sections := data.sections))
  }
}
