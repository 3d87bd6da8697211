/** The records the bot manipulates: slides, sections and articles. */
module Slides {
  import opened Wrappers

  /** One narrated slide. `text` is the identity used to match slides across passes;
      `audio`, `media` and `mediaType` are opaque locators the bot only carries along. */
  datatype Slide = Slide(
    text: string,
    position: int,
    audio: Option<string>,
    media: Option<string>,
    mediaType: Option<string>)

  /** A slide as segmentation emits it: a text and a position, nothing narrated yet. */
  function NewSlide(text: string, position: int): Slide {
    Slide(text, position, None, None, None)
  }

  /** A section of the encyclopedia article, annotated by segmentation with how many
      slides it produced and where its first slide sits in the deck. */
  datatype Section = Section(text: string, numSlides: nat, slideStartPosition: nat)

  /** The persisted article record, restricted to the fields the bot reads or writes. */
  datatype Article = Article(
    id: nat,
    title: string,
    published: bool,
    slides: seq<Slide>,
    sections: seq<Section>,
    updatedAt: int)

  /** The texts of a deck, in deck order (`slides.map(slide => slide.text)`). */
  function Texts(s: seq<Slide>): (r: seq<string>)
    ensures |r| == |s|
    ensures forall i :: 0 <= i < |s| ==> r[i] == s[i].text
  {
    seq(|s|, i requires 0 <= i < |s| => s[i].text)
  }

  lemma TextsAppend(a: seq<Slide>, b: seq<Slide>)
    ensures Texts(a + b) == Texts(a) + Texts(b)
  {
  }

  lemma TextsSlice(s: seq<Slide>, i: int, j: int)
    requires 0 <= i <= j <= |s|
    ensures Texts(s[i..j]) == Texts(s)[i..j]
  {
  }

  lemma {:induction false} TextsSnoc(s: seq<Slide>)
    requires |s| > 0
    ensures Texts(s)[..|s| - 1] == Texts(s[..|s| - 1])
    ensures Texts(s)[|s| - 1] == s[|s| - 1].text
  {
  }

  /** The deck invariant after reconciliation: positions are exactly 0..N-1 in order. */
  ghost predicate WellNumbered(s: seq<Slide>) {
    forall i :: 0 <= i < |s| ==> s[i].position == i
  }
}
