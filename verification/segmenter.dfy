/**
 * Segmentation numbering (`getSectionsSlides`): every section's text is cut into
 * slide-sized fragments, the fragments become slides numbered by one running
 * counter across all sections, and each section records how many slides it
 * produced and the position of its first one.
 */
module Segmenter {
  import opened Wrappers
  import opened SeqFacts
  import opened Slides

  /** The character budget handed to `splitter` for each paragraph. */
  const MaxSlideChars: nat := 300

  /** `paragraphs` and `splitter` come from a utility module outside this model; they
      are taken as parameters. A section's fragments are the paragraphs' pieces,
      concatenated in paragraph order. */
  function SplitParagraphs(paras: seq<string>, splitter: (string, nat) -> seq<string>): seq<string>
  {
    if |paras| == 0 then []
    else SplitParagraphs(paras[..|paras| - 1], splitter) + splitter(paras[|paras| - 1], MaxSlideChars)
  }

  function Fragments(text: string, paragraphs: string -> seq<string>, splitter: (string, nat) -> seq<string>): seq<string>
  {
    SplitParagraphs(paragraphs(text), splitter)
  }

  /** Splitting two runs of paragraphs one after the other gives the first run's
      pieces followed by the second's: no piece moves across a paragraph boundary. */
  lemma {:induction false} SplitParagraphsAppend(a: seq<string>, b: seq<string>, splitter: (string, nat) -> seq<string>)
    ensures SplitParagraphs(a + b, splitter) == SplitParagraphs(a, splitter) + SplitParagraphs(b, splitter)
    decreases |b|
  {
    if |b| == 0 {
      assert a + b == a;
    } else {
      var init := b[..|b| - 1];
      var last := b[|b| - 1];
      SplitParagraphsAppend(a, init, splitter);
      assert (a + b)[..|a + b| - 1] == a + init;
      assert (a + b)[|a + b| - 1] == last;
    }
  }

  /** The paragraph loop of one section: `slideText = slideText.concat(splitter(para, 300))`
      for each paragraph in turn. */
  method SectionFragments(text: string, paragraphs: string -> seq<string>, splitter: (string, nat) -> seq<string>)
    returns (slideText: seq<string>)
    ensures slideText == Fragments(text, paragraphs, splitter)
  {
    var paras := paragraphs(text);
    slideText := [];
    var i := 0;
    while i < |paras|
      invariant 0 <= i <= |paras|
      invariant slideText == SplitParagraphs(paras[..i], splitter)
    {
      slideText := slideText + splitter(paras[i], MaxSlideChars);
      assert paras[..i + 1][..i] == paras[..i];
      i := i + 1;
    }
    assert paras[..i] == paras;
  }

  /** Total number of slides the given sections account for. */
  function SlideCount(secs: seq<Section>): nat
  {
    if |secs| == 0 then 0 else SlideCount(secs[..|secs| - 1]) + secs[|secs| - 1].numSlides
  }

  /** The inner `slideText.forEach` of `getSectionsSlides`: appends one fresh slide per
      fragment, numbering them on from the current end of the deck. */
  method PushNumbered(slides: seq<Slide>, slideText: seq<string>) returns (r: seq<Slide>)
    ensures |r| == |slides| + |slideText|
    ensures forall k :: 0 <= k < |slides| ==> r[k] == slides[k]
    ensures forall k :: |slides| <= k < |r| ==> r[k] == Slide(slideText[k - |slides|], k, None, None, None)
  {
    r := slides;
    var index := 0;
    while index < |slideText|
      invariant 0 <= index <= |slideText|
      invariant |r| == |slides| + index
      invariant forall k :: 0 <= k < |slides| ==> r[k] == slides[k]
      invariant forall k :: |slides| <= k < |r| ==> r[k] == Slide(slideText[k - |slides|], k, None, None, None)
    {
      r := r + [Slide(slideText[index], |slides| + index, None, None, None)];
      index := index + 1;
    }
  }

  /** Fresh slides carry a text and a position only. */
  ghost predicate Unnarrated(s: Slide) {
    s.audio == None && s.media == None && s.mediaType == None
  }

  /** Reference reading of the whole pass: every section's fragments, in section order. */
  function AllFragments(
    sections: seq<Section>,
    paragraphs: string -> seq<string>,
    splitter: (string, nat) -> seq<string>): seq<string>
  {
    if |sections| == 0 then []
    else
      AllFragments(sections[..|sections| - 1], paragraphs, splitter)
      + Fragments(sections[|sections| - 1].text, paragraphs, splitter)
  }

  /** `section` as `getSectionsSlides` leaves it: its slide count and the position its
      first slide receives, all other fields untouched. */
  ghost predicate AnnotatedAs(
    annotated: seq<Section>,
    sections: seq<Section>,
    j: int,
    paragraphs: string -> seq<string>,
    splitter: (string, nat) -> seq<string>)
    requires 0 <= j < |annotated| && j < |sections|
  {
    annotated[j] == sections[j].(
      numSlides := |Fragments(sections[j].text, paragraphs, splitter)|,
      slideStartPosition := SlideCount(annotated[..j]))
  }

  method GetSectionsSlides(
    sections: seq<Section>,
    paragraphs: string -> seq<string>,
    splitter: (string, nat) -> seq<string>)
    returns (slides: seq<Slide>, annotated: seq<Section>)
    ensures |annotated| == |sections|
    ensures forall j :: 0 <= j < |sections| ==> AnnotatedAs(annotated, sections, j, paragraphs, splitter)
    ensures |slides| == SlideCount(annotated)
    ensures Texts(slides) == AllFragments(sections, paragraphs, splitter)
    ensures forall k :: 0 <= k < |slides| ==> slides[k].position == k && Unnarrated(slides[k])
  {
    slides := [];
    annotated := [];
    var currentPosition: nat := 0;
    var i := 0;
    while i < |sections|
      invariant 0 <= i <= |sections|
      invariant |annotated| == i
      invariant currentPosition == |slides| == SlideCount(annotated)
      invariant forall j :: 0 <= j < i ==> AnnotatedAs(annotated, sections, j, paragraphs, splitter)
      invariant Texts(slides) == AllFragments(sections[..i], paragraphs, splitter)
      invariant forall k :: 0 <= k < |slides| ==> slides[k].position == k && Unnarrated(slides[k])
    {
      var slideText := SectionFragments(sections[i].text, paragraphs, splitter);
      var section := sections[i].(numSlides := |slideText|, slideStartPosition := currentPosition);
      currentPosition := currentPosition + |slideText|;
      ghost var before := slides;
      slides := PushNumbered(slides, slideText);
      assert forall k :: 0 <= k < |slides| ==> slides[k].position == k && Unnarrated(slides[k]);
      TextsAfterPush(before, slides, slideText);
      AllFragmentsSnoc(sections, paragraphs, splitter, i);
      ghost var prev := annotated;
      annotated := annotated + [section];
      forall j | 0 <= j <= i
        ensures AnnotatedAs(annotated, sections, j, paragraphs, splitter)
      {
        assert annotated[..j] == prev[..j];
        if j < i {
          assert AnnotatedAs(prev, sections, j, paragraphs, splitter);
        }
      }
      assert annotated[..i] == prev;
      i := i + 1;
    }
    assert sections[..i] == sections;
  }

  lemma {:induction false} TextsAfterPush(before: seq<Slide>, after: seq<Slide>, slideText: seq<string>)
    requires |after| == |before| + |slideText|
    requires forall k :: 0 <= k < |before| ==> after[k] == before[k]
    requires forall k :: |before| <= k < |after| ==> after[k].text == slideText[k - |before|]
    ensures Texts(after) == Texts(before) + slideText
  {
    var want := Texts(before) + slideText;
    forall k | 0 <= k < |after| ensures Texts(after)[k] == want[k] {
      if k < |before| {
        assert after[k] == before[k];
      }
    }
  }

  lemma {:induction false} AllFragmentsCount(
    sections: seq<Section>,
    annotated: seq<Section>,
    paragraphs: string -> seq<string>,
    splitter: (string, nat) -> seq<string>,
    n: nat)
    requires |annotated| == |sections|
    requires forall j :: 0 <= j < |sections| ==> AnnotatedAs(annotated, sections, j, paragraphs, splitter)
    requires n <= |sections|
    ensures |AllFragments(sections[..n], paragraphs, splitter)| == SlideCount(annotated[..n])
  {
    if n > 0 {
      AllFragmentsCount(sections, annotated, paragraphs, splitter, n - 1);
      assert sections[..n][..n - 1] == sections[..n - 1];
      assert annotated[..n][..n - 1] == annotated[..n - 1];
      assert AnnotatedAs(annotated, sections, n - 1, paragraphs, splitter);
    }
  }

  lemma {:induction false} AllFragmentsPrefix(
    sections: seq<Section>,
    paragraphs: string -> seq<string>,
    splitter: (string, nat) -> seq<string>,
    n: nat)
    requires n <= |sections|
    ensures AllFragments(sections[..n], paragraphs, splitter) <= AllFragments(sections, paragraphs, splitter)
  {
    if n < |sections| {
      var init := sections[..|sections| - 1];
      AllFragmentsPrefix(init, paragraphs, splitter, n);
      assert init[..n] == sections[..n];
    } else {
      assert sections[..n] == sections;
    }
  }

  /** Section `j`'s slides are the deck's slides `slideStartPosition .. slideStartPosition + numSlides - 1`,
      holding that section's fragments in order. */
  lemma SectionSlidesAt(
    sections: seq<Section>,
    annotated: seq<Section>,
    slides: seq<Slide>,
    paragraphs: string -> seq<string>,
    splitter: (string, nat) -> seq<string>,
    j: int,
    m: int)
    requires |annotated| == |sections|
    requires forall j :: 0 <= j < |sections| ==> AnnotatedAs(annotated, sections, j, paragraphs, splitter)
    requires Texts(slides) == AllFragments(sections, paragraphs, splitter)
    requires 0 <= j < |sections| && 0 <= m < |Fragments(sections[j].text, paragraphs, splitter)|
    ensures annotated[j].slideStartPosition + m < |slides|
    ensures slides[annotated[j].slideStartPosition + m].text == Fragments(sections[j].text, paragraphs, splitter)[m]
  {
    var pre := AllFragments(sections[..j], paragraphs, splitter);
    var frag := Fragments(sections[j].text, paragraphs, splitter);
    var upTo := AllFragments(sections[..j + 1], paragraphs, splitter);
    assert AnnotatedAs(annotated, sections, j, paragraphs, splitter);
    AllFragmentsCount(sections, annotated, paragraphs, splitter, j);
    assert |pre| == annotated[j].slideStartPosition;
    AllFragmentsSnoc(sections, paragraphs, splitter, j);
    AllFragmentsPrefix(sections, paragraphs, splitter, j + 1);
    var k := |pre| + m;
    ConcatIndex(pre, frag, m);
    assert upTo[k] == frag[m];
    PrefixIndex(upTo, Texts(slides), k);
    assert k < |slides| && Texts(slides)[k] == slides[k].text;
    assert annotated[j].slideStartPosition + m == k;
    assert slides[k].text == frag[m];
  }

  lemma {:induction false} AllFragmentsSnoc(
    sections: seq<Section>,
    paragraphs: string -> seq<string>,
    splitter: (string, nat) -> seq<string>,
    j: int)
    requires 0 <= j < |sections|
    ensures AllFragments(sections[..j + 1], paragraphs, splitter) ==
      AllFragments(sections[..j], paragraphs, splitter) + Fragments(sections[j].text, paragraphs, splitter)
  {
    assert sections[..j + 1][..j] == sections[..j];
  }
}
