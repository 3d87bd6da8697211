/**
 * Insertion of new slides (`addNewSlides`): every narrated new slide is spliced
 * into the deck at its own `position`, one after the other, in the order
 * narration returned them.
 */
module Insertion {
  import opened JsArray
  import opened SeqFacts
  import opened Slides

  /** One step of the insertion loop: `updatedSlides.splice(slide.position, 0, slide)`. */
  function InsertAt(deck: seq<Slide>, slide: Slide): (r: seq<Slide>)
    ensures |r| == |deck| + 1
    ensures multiset(r) == multiset(deck) + multiset{slide}
    ensures 0 <= slide.position <= |deck| ==>
      && r[slide.position] == slide
      && (forall i :: 0 <= i < slide.position ==> r[i] == deck[i])
      && (forall i :: slide.position <= i < |deck| ==> r[i + 1] == deck[i])
  {
    Splice(deck, slide.position, 0, [slide])
  }

  /** The whole insertion loop, as a fold over the narrated slides in order. */
  function InsertAll(deck: seq<Slide>, newAddedSlides: seq<Slide>): (r: seq<Slide>)
    ensures |r| == |deck| + |newAddedSlides|
    decreases |newAddedSlides|
  {
    if |newAddedSlides| == 0 then deck
    else
      var n := |newAddedSlides|;
      assert newAddedSlides == newAddedSlides[..n - 1] + [newAddedSlides[n - 1]];
      InsertAt(InsertAll(deck, newAddedSlides[..n - 1]), newAddedSlides[n - 1])
  }

  /** A single splice never disturbs the relative order of the slides already there,
      wherever the position points (negative and oversized ones included). */
  lemma {:induction false} InsertAtKeepsOrder(deck: seq<Slide>, slide: Slide)
    ensures IsSubsequence(deck, InsertAt(deck, slide))
  {
    var a := SpliceStart(|deck|, slide.position);
    assert InsertAt(deck, slide) == deck[..a] + [slide] + deck[a..];
    InsertOneIsSubsequence(deck, a, slide);
  }

  /** The old slides survive insertion in their relative order. */
  lemma {:induction false} InsertAllKeepsOrder(deck: seq<Slide>, newAddedSlides: seq<Slide>)
    ensures IsSubsequence(deck, InsertAll(deck, newAddedSlides))
    decreases |newAddedSlides|
  {
    var n := |newAddedSlides|;
    if n == 0 {
      SubsequenceRefl(deck);
    } else {
      var prev := InsertAll(deck, newAddedSlides[..n - 1]);
      InsertAllKeepsOrder(deck, newAddedSlides[..n - 1]);
      InsertAtKeepsOrder(prev, newAddedSlides[n - 1]);
      SubsequenceTrans(deck, prev, InsertAll(deck, newAddedSlides));
    }
  }

  /** When positions strictly increase and each one is reachable at the time of its
      splice, every new slide ends up at exactly its `position` in the final deck. */
  lemma {:induction false} InsertAllPlacesEach(deck: seq<Slide>, newAddedSlides: seq<Slide>)
    requires forall i :: 0 <= i < |newAddedSlides| ==> 0 <= newAddedSlides[i].position <= |deck| + i
    requires forall i, j :: 0 <= i < j < |newAddedSlides| ==>
      newAddedSlides[i].position < newAddedSlides[j].position
    ensures forall i :: 0 <= i < |newAddedSlides| ==>
      InsertAll(deck, newAddedSlides)[newAddedSlides[i].position] == newAddedSlides[i]
    decreases |newAddedSlides|
  {
    var n := |newAddedSlides|;
    if n > 0 {
      var init := newAddedSlides[..n - 1];
      var last := newAddedSlides[n - 1];
      var prev := InsertAll(deck, init);
      InsertAllPlacesEach(deck, init);
      var r := InsertAll(deck, newAddedSlides);
      assert r == InsertAt(prev, last);
      forall i | 0 <= i < n
        ensures r[newAddedSlides[i].position] == newAddedSlides[i]
      {
        if i < n - 1 {
          assert init[i] == newAddedSlides[i];
          assert prev[init[i].position] == init[i];
        }
      }
    }
  }

  /** Inserting a slide adds exactly its text to the deck's texts. */
  lemma {:induction false} InsertAtTexts(deck: seq<Slide>, slide: Slide)
    ensures multiset(Texts(InsertAt(deck, slide))) == multiset(Texts(deck)) + multiset{slide.text}
  {
    var a := SpliceStart(|deck|, slide.position);
    assert InsertAt(deck, slide) == deck[..a] + [slide] + deck[a..];
    TextsInsert(deck, a, slide);
    MultisetInsert(Texts(deck), a, slide.text);
  }

  /** The texts of a deck with a slide slotted in at `a`. */
  lemma {:induction false} TextsInsert(deck: seq<Slide>, a: int, slide: Slide)
    requires 0 <= a <= |deck|
    ensures Texts(deck[..a] + [slide] + deck[a..]) == Texts(deck)[..a] + [slide.text] + Texts(deck)[a..]
  {
    TextsAppend(deck[..a] + [slide], deck[a..]);
    TextsAppend(deck[..a], [slide]);
    TextsSlice(deck, 0, a);
    TextsSlice(deck, a, |deck|);
    assert Texts([slide]) == [slide.text];
  }

  /** The texts after insertion are the old texts plus the inserted ones. */
  lemma {:induction false} InsertAllTexts(deck: seq<Slide>, newAddedSlides: seq<Slide>)
    ensures multiset(Texts(InsertAll(deck, newAddedSlides))) == multiset(Texts(deck)) + multiset(Texts(newAddedSlides))
    decreases |newAddedSlides|
  {
    var n := |newAddedSlides|;
    if n > 0 {
      var init := newAddedSlides[..n - 1];
      var last := newAddedSlides[n - 1];
      var prev := InsertAll(deck, init);
      InsertAllTexts(deck, init);
      assert InsertAll(deck, newAddedSlides) == InsertAt(prev, last);
      InsertAtTexts(prev, last);
      TextsSnoc(newAddedSlides);
      MultisetSnoc(Texts(newAddedSlides));
    }
  }

  /** Insertion loses no slide and invents none: the result holds the old slides and
      the inserted ones. */
  lemma {:induction false} InsertAllContents(deck: seq<Slide>, newAddedSlides: seq<Slide>)
    ensures multiset(InsertAll(deck, newAddedSlides)) == multiset(deck) + multiset(newAddedSlides)
    decreases |newAddedSlides|
  {
    var n := |newAddedSlides|;
    if n > 0 {
      var init := newAddedSlides[..n - 1];
      var last := newAddedSlides[n - 1];
      InsertAllContents(deck, init);
      assert InsertAll(deck, newAddedSlides) == InsertAt(InsertAll(deck, init), last);
      MultisetSnoc(newAddedSlides);
    }
  }
}
