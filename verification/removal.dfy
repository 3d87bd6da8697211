/**
 * Removal of deleted slides. `RemoveDeletedSlides` is the index-based removal of the
 * bot as written: look every removed text up with `indexOf`, sort the indices, and
 * splice them out from the highest down. `RemoveSlidesByText` is the removal the bot
 * evidently intends: one slide per removed text, matched by text, and nothing when no
 * slide carries that text.
 */
module Removal {
  import opened Wrappers
  import opened JsArray
  import opened SeqFacts
  import opened Slides

  // ---------------------------------------------------------------------------
  // Index bookkeeping

  /** The elements of `s` at indices lo..hi-1 that are not in `gone`, in order. */
  function Keep<T>(s: seq<T>, gone: set<int>, lo: int, hi: int): seq<T>
    requires 0 <= lo <= hi <= |s|
    decreases hi - lo
  {
    if hi == lo then [] else Keep(s, gone, lo, hi - 1) + (if hi - 1 in gone then [] else [s[hi - 1]])
  }

  lemma {:induction false} KeepSplit<T>(s: seq<T>, gone: set<int>, lo: int, mid: int, hi: int)
    requires 0 <= lo <= mid <= hi <= |s|
    ensures Keep(s, gone, lo, hi) == Keep(s, gone, lo, mid) + Keep(s, gone, mid, hi)
    decreases hi - mid
  {
    if hi > mid {
      KeepSplit(s, gone, lo, mid, hi - 1);
    }
  }

  lemma {:induction false} KeepNothingGone<T>(s: seq<T>, gone: set<int>, lo: int, hi: int)
    requires 0 <= lo <= hi <= |s|
    requires forall k :: lo <= k < hi ==> k !in gone
    ensures Keep(s, gone, lo, hi) == s[lo..hi]
    decreases hi - lo
  {
    if hi > lo {
      KeepNothingGone(s, gone, lo, hi - 1);
      assert s[lo..hi] == s[lo..hi - 1] + [s[hi - 1]];
    }
  }

  lemma {:induction false} KeepCongruent<T>(s1: seq<T>, g1: set<int>, s2: seq<T>, g2: set<int>, lo: int, hi: int)
    requires 0 <= lo <= hi <= |s1| && hi <= |s2|
    requires forall k :: lo <= k < hi ==> s1[k] == s2[k] && (k in g1 <==> k in g2)
    ensures Keep(s1, g1, lo, hi) == Keep(s2, g2, lo, hi)
    decreases hi - lo
  {
    if hi > lo {
      KeepCongruent(s1, g1, s2, g2, lo, hi - 1);
    }
  }

  lemma {:induction false} KeepSameGone<T>(s: seq<T>, g1: set<int>, g2: set<int>, lo: int, hi: int)
    requires 0 <= lo <= hi <= |s|
    requires forall k :: lo <= k < hi ==> (k in g1 <==> k in g2)
    ensures Keep(s, g1, lo, hi) == Keep(s, g2, lo, hi)
    decreases hi - lo
  {
    if hi > lo {
      KeepSameGone(s, g1, g2, lo, hi - 1);
    }
  }

  lemma {:induction false} KeepDrawsFrom<T>(s: seq<T>, gone: set<int>, lo: int, hi: int, x: T)
    requires 0 <= lo <= hi <= |s|
    requires x in Keep(s, gone, lo, hi)
    ensures x in s[lo..hi]
    decreases hi - lo
  {
    if hi > lo {
      if x in Keep(s, gone, lo, hi - 1) {
        KeepDrawsFrom(s, gone, lo, hi - 1, x);
        assert s[lo..hi] == s[lo..hi - 1] + [s[hi - 1]];
      }
    }
  }

  // ---------------------------------------------------------------------------
  // The removal as written

  /** `removedSlidesBatch.forEach(slide => removedIndices.push(slidesText.indexOf(slide)))`. */
  function LookupIndices(texts: seq<string>, batch: seq<string>): (r: seq<int>)
    ensures |r| == |batch|
    ensures forall i :: 0 <= i < |batch| ==> r[i] == IndexOf(texts, batch[i])
  {
    seq(|batch|, i requires 0 <= i < |batch| => IndexOf(texts, batch[i]))
  }

  /** `while (removedIndices.length) slides.splice(removedIndices.pop(), 1)`. */
  function SpliceFromBack<T>(s: seq<T>, idx: seq<int>): (r: seq<T>)
    ensures |s| - |idx| <= |r| <= |s|
    decreases |idx|
  {
    if |idx| == 0 then s
    else SpliceFromBack(Splice(s, idx[|idx| - 1], 1, []), idx[..|idx| - 1])
  }

  lemma {:induction false} SpliceFromBackKeepsOrder<T>(s: seq<T>, idx: seq<int>)
    ensures IsSubsequence(SpliceFromBack(s, idx), s)
    decreases |idx|
  {
    if |idx| == 0 {
      SubsequenceRefl(s);
    } else {
      var once := Splice(s, idx[|idx| - 1], 1, []);
      SpliceOneIsSubsequence(s, idx[|idx| - 1]);
      SpliceFromBackKeepsOrder(once, idx[..|idx| - 1]);
      SubsequenceTrans(SpliceFromBack(once, idx[..|idx| - 1]), once, s);
    }
  }

  lemma {:induction false} SpliceOneIsSubsequence<T>(s: seq<T>, k: int)
    ensures IsSubsequence(Splice(s, k, 1, []), s)
  {
    var a := SpliceStart(|s|, k);
    if a < |s| {
      assert Splice(s, k, 1, []) == s[..a] + s[a + 1..];
      DropOneIsSubsequence(s, a);
    } else {
      assert Splice(s, k, 1, []) == s;
      SubsequenceRefl(s);
    }
  }

  /** `removeDeletedSlides` as written. Whatever the batch, it removes at most one slide
      per batch entry. */
  function RemoveDeletedSlides(slides: seq<Slide>, removedSlidesBatch: seq<string>): (r: seq<Slide>)
    ensures |slides| - |removedSlidesBatch| <= |r| <= |slides|
  {
    var removedIndices := SortNumeric(LookupIndices(Texts(slides), removedSlidesBatch));
    assert |removedIndices| == |removedSlidesBatch| by {
      assert |multiset(removedIndices)| == |multiset(LookupIndices(Texts(slides), removedSlidesBatch))|;
    }
    SpliceFromBack(slides, removedIndices)
  }

  /** Whatever the batch, the slides `removeDeletedSlides` keeps stay in their order. */
  lemma {:induction false} RemoveDeletedKeepsOrder(slides: seq<Slide>, removedSlidesBatch: seq<string>)
    ensures IsSubsequence(RemoveDeletedSlides(slides, removedSlidesBatch), slides)
  {
    SpliceFromBackKeepsOrder(slides, SortNumeric(LookupIndices(Texts(slides), removedSlidesBatch)));
  }

  ghost predicate StrictlyIncreasing(idx: seq<int>) {
    forall i, j :: 0 <= i < j < |idx| ==> idx[i] < idx[j]
  }

  /** Deleting the highest gone index first: the survivors of the spliced deck are the
      survivors of the original one. */
  lemma {:induction false} KeepAfterSplice<T>(s: seq<T>, m: int, below: set<int>)
    requires 0 <= m < |s|
    requires forall k :: k in below ==> k < m
    ensures Keep(s[..m] + s[m + 1..], below, 0, |s| - 1) == Keep(s, below + {m}, 0, |s|)
  {
    var once := s[..m] + s[m + 1..];
    var gone := below + {m};
    var n := |once|;
    assert n == |s| - 1;
    KeepSplit(once, below, 0, m, n);
    KeepNothingGone(once, below, m, n);
    forall k | 0 <= k < m ensures once[k] == s[k] && (k in below <==> k in gone) {
    }
    KeepCongruent(once, below, s, gone, 0, m);
    KeepSplit(s, gone, 0, m, |s|);
    KeepSplit(s, gone, m, m + 1, |s|);
    assert Keep(s, gone, m, m) == [];
    assert Keep(s, gone, m, m + 1) == [];
    forall k | m + 1 <= k < |s| ensures k !in gone {
    }
    KeepNothingGone(s, gone, m + 1, |s|);
    assert once[m..n] == s[m + 1..|s|];
    assert Keep(s, gone, m, |s|) == s[m + 1..|s|];
    assert Keep(once, below, m, n) == Keep(s, gone, m, |s|);
  }

  /** Splicing valid, strictly increasing indices out from the highest down deletes
      exactly the elements at those indices and keeps the rest in order. */
  lemma {:induction false} SpliceFromBackDeletes<T>(s: seq<T>, idx: seq<int>)
    requires StrictlyIncreasing(idx)
    requires forall i :: 0 <= i < |idx| ==> 0 <= idx[i] < |s|
    ensures SpliceFromBack(s, idx) == Keep(s, set k | k in idx, 0, |s|)
    ensures |SpliceFromBack(s, idx)| == |s| - |idx|
    decreases |idx|
  {
    if |idx| == 0 {
      KeepNothingGone(s, set k | k in idx, 0, |s|);
    } else {
      var m := idx[|idx| - 1];
      var init := idx[..|idx| - 1];
      SpliceRemoveAt(s, m);
      var once := s[..m] + s[m + 1..];
      assert SpliceFromBack(s, idx) == SpliceFromBack(once, init);
      IncreasingSnoc(idx, init, m);
      SpliceFromBackDeletes(once, init);
      KeepAfterSplice(s, m, set k | k in init);
    }
  }

  /** Splitting strictly increasing indices into the earlier ones and the highest. */
  lemma {:induction false} IncreasingSnoc(idx: seq<int>, init: seq<int>, m: int)
    requires StrictlyIncreasing(idx) && |idx| > 0
    requires init == idx[..|idx| - 1] && m == idx[|idx| - 1]
    ensures StrictlyIncreasing(init)
    ensures forall k :: k in init ==> k < m
    ensures (set k | k in idx) == (set j | j in init) + {m}
  {
    forall k | k in init ensures k < m {
      var i :| 0 <= i < |init| && init[i] == k;
      assert idx[i] < idx[|idx| - 1];
    }
    assert idx == init + [m];
  }

  /** The indices `indexOf` reports for the texts of a batch. */
  function FirstIndices(slides: seq<Slide>, batch: seq<string>): set<int>
  {
    set t | t in batch :: IndexOf(Texts(slides), t)
  }

  /** Removal with distinct removed texts, each present in the deck: the result is the
      deck with exactly the first slide carrying each removed text deleted, survivors in
      their original order, and the deck is shorter by the batch size. */
  lemma {:induction false} RemoveDistinctPresent(slides: seq<Slide>, batch: seq<string>)
    requires Distinct(batch)
    requires forall i :: 0 <= i < |batch| ==> batch[i] in Texts(slides)
    ensures RemoveDeletedSlides(slides, batch) == Keep(slides, FirstIndices(slides, batch), 0, |slides|)
    ensures |RemoveDeletedSlides(slides, batch)| == |slides| - |batch|
  {
    var looked := LookupIndices(Texts(slides), batch);
    var sorted := SortNumeric(looked);
    LookupPresent(slides, batch);
    PermutationOfDistinct(looked, sorted);
    AscendingDistinctIncreasing(sorted);
    forall i | 0 <= i < |sorted| ensures 0 <= sorted[i] < |slides| {
      assert sorted[i] in looked;
    }
    SpliceFromBackDeletes(slides, sorted);
    assert (set k | k in sorted) == FirstIndices(slides, batch);
  }

  /** An ascending sequence without repeats strictly increases. */
  lemma {:induction false} AscendingDistinctIncreasing(s: seq<int>)
    requires Ascending(s) && Distinct(s)
    ensures StrictlyIncreasing(s)
  {
  }

  /** Looking up distinct texts the deck holds: distinct valid indices, namely the
      first index of each text. */
  lemma {:induction false} LookupPresent(slides: seq<Slide>, batch: seq<string>)
    requires Distinct(batch)
    requires forall i :: 0 <= i < |batch| ==> batch[i] in Texts(slides)
    ensures var looked := LookupIndices(Texts(slides), batch);
      && Distinct(looked)
      && (forall i :: 0 <= i < |looked| ==> 0 <= looked[i] < |slides|)
      && (forall k :: k in looked <==> k in FirstIndices(slides, batch))
  {
    var texts := Texts(slides);
    var looked := LookupIndices(texts, batch);
    forall i, j | 0 <= i < j < |looked| ensures looked[i] != looked[j] {
      assert texts[looked[i]] == batch[i] && texts[looked[j]] == batch[j];
    }
    forall k | k in looked ensures k in FirstIndices(slides, batch) {
      var i :| 0 <= i < |looked| && looked[i] == k;
      assert batch[i] in batch;
    }
    forall k | k in FirstIndices(slides, batch) ensures k in looked {
      var t :| t in batch && k == IndexOf(texts, t);
      var i :| 0 <= i < |batch| && batch[i] == t;
      assert looked[i] == k;
    }
  }

  /** The indices of the slides whose text is in `batch`. */
  function IndicesWithText(slides: seq<Slide>, batch: seq<string>): set<int>
  {
    set k | 0 <= k < |slides| && slides[k].text in batch
  }

  /** When, moreover, no two slides share a text, the removed slides are exactly those
      whose text is in the batch. */
  lemma {:induction false} RemoveDistinctPresentByText(slides: seq<Slide>, batch: seq<string>)
    requires Distinct(batch) && Distinct(Texts(slides))
    requires forall i :: 0 <= i < |batch| ==> batch[i] in Texts(slides)
    ensures RemoveDeletedSlides(slides, batch) == Keep(slides, IndicesWithText(slides, batch), 0, |slides|)
  {
    RemoveDistinctPresent(slides, batch);
    FirstIndicesAreTextIndices(slides, batch);
    KeepSameGone(slides, FirstIndices(slides, batch), IndicesWithText(slides, batch), 0, |slides|);
  }

  lemma {:induction false} FirstIndicesAreTextIndices(slides: seq<Slide>, batch: seq<string>)
    requires Distinct(Texts(slides))
    ensures forall k :: 0 <= k < |slides| ==> (k in FirstIndices(slides, batch) <==> k in IndicesWithText(slides, batch))
  {
    forall k | 0 <= k < |slides|
      ensures k in FirstIndices(slides, batch) <==> k in IndicesWithText(slides, batch)
    {
      FirstIndexIffText(slides, batch, k);
    }
  }

  lemma {:induction false} FirstIndexIffText(slides: seq<Slide>, batch: seq<string>, k: int)
    requires Distinct(Texts(slides))
    requires 0 <= k < |slides|
    ensures k in FirstIndices(slides, batch) <==> k in IndicesWithText(slides, batch)
  {
    var texts := Texts(slides);
    if k in FirstIndices(slides, batch) {
      var t :| t in batch && k == IndexOf(texts, t);
      assert texts[k] == t;
    }
    if k in IndicesWithText(slides, batch) {
      var t := slides[k].text;
      assert texts[k] == t;
      assert t !in texts[..k] by {
        forall j | 0 <= j < k ensures texts[..k][j] != t {
          assert texts[j] != texts[k];
        }
      }
      IndexOfIsFirst(texts, t, k);
      assert k in FirstIndices(slides, batch);
    }
  }

  // ---------------------------------------------------------------------------
  // Error cases of the removal as written

  /** A removed text the deck does not hold yields index -1, and `splice(-1, 1)` then
      deletes the deck's last slide instead of doing nothing. */
  lemma {:induction false} MissingTextDropsLastSlide(slides: seq<Slide>, t: string)
    requires |slides| > 0 && t !in Texts(slides)
    ensures RemoveDeletedSlides(slides, [t]) == slides[..|slides| - 1]
  {
    var looked := LookupIndices(Texts(slides), [t]);
    assert looked == [-1];
    assert SortNumeric(looked) == [-1];
    SpliceMinusOneDropsLast(slides);
    var once := Splice(slides, -1, 1, []);
    assert SpliceFromBack(slides, [-1]) == SpliceFromBack(once, []);
  }

  /** A text listed twice yields the same index twice, so the slide after the first
      match is deleted as well. */
  lemma {:induction false} DuplicateTextDropsNeighbour(slides: seq<Slide>, t: string)
    requires t in Texts(slides)
    requires IndexOf(Texts(slides), t) + 1 < |slides|
    ensures var i := IndexOf(Texts(slides), t);
      RemoveDeletedSlides(slides, [t, t]) == slides[..i] + slides[i + 2..]
  {
    var i := IndexOf(Texts(slides), t);
    var batch := [t, t];
    var sorted := SortNumeric(LookupIndices(Texts(slides), batch));
    LookupRepeated(Texts(slides), t);
    SortNumericTwice(i);
    assert sorted == [i, i];
    RemoveDeletedUnfold(slides, batch);
    assert RemoveDeletedSlides(slides, batch) == SpliceFromBack(slides, [i, i]);
    SpliceTwiceAt(slides, i);
    assert RemoveDeletedSlides(slides, batch) == slides[..i] + slides[i + 2..];
  }

  lemma {:induction false} LookupRepeated(texts: seq<string>, t: string)
    ensures LookupIndices(texts, [t, t]) == [IndexOf(texts, t), IndexOf(texts, t)]
  {
  }

  lemma {:induction false} RemoveDeletedUnfold(slides: seq<Slide>, batch: seq<string>)
    ensures RemoveDeletedSlides(slides, batch) == SpliceFromBack(slides, SortNumeric(LookupIndices(Texts(slides), batch)))
  {
  }

  /** Splicing out index `i` twice deletes the elements at `i` and `i + 1`. */
  lemma {:induction false} SpliceTwiceAt<T>(s: seq<T>, i: int)
    requires 0 <= i && i + 1 < |s|
    ensures SpliceFromBack(s, [i, i]) == s[..i] + s[i + 2..]
  {
    SpliceRemoveAt(s, i);
    var once := s[..i] + s[i + 1..];
    SpliceRemoveAt(once, i);
    DropTwiceAt(s, i);
    assert SpliceFromBack(s, [i, i]) == SpliceFromBack(once, [i]);
    assert SpliceFromBack(once, [i]) == SpliceFromBack(once[..i] + once[i + 1..], []);
  }

  // ---------------------------------------------------------------------------
  // The removal as intended

  lemma {:induction false} DropTextAt(s: seq<Slide>, k: int)
    requires 0 <= k < |s|
    ensures multiset(Texts(s[..k] + s[k + 1..])) == multiset(Texts(s)) - multiset{s[k].text}
  {
    var x := Texts(s);
    assert Texts(s[..k] + s[k + 1..]) == x[..k] + x[k + 1..];
    assert x == x[..k] + [x[k]] + x[k + 1..];
    assert multiset(x) == multiset(x[..k]) + multiset{x[k]} + multiset(x[k + 1..]);
  }

  /** Removes the first slide carrying `t`; a text no slide carries removes nothing. */
  function RemoveFirst(s: seq<Slide>, t: string): (r: seq<Slide>)
    ensures multiset(Texts(r)) == multiset(Texts(s)) - multiset{t}
    ensures t in Texts(s) ==> |r| == |s| - 1
    ensures t !in Texts(s) ==> r == s
  {
    var k := IndexOf(Texts(s), t);
    if k < 0 then
      assert multiset(Texts(s))[t] == 0;
      s
    else
      DropTextAt(s, k);
      s[..k] + s[k + 1..]
  }

  lemma {:induction false} RemoveFirstKeepsOrder(s: seq<Slide>, t: string)
    ensures IsSubsequence(RemoveFirst(s, t), s)
  {
    var k := IndexOf(Texts(s), t);
    if k < 0 {
      SubsequenceRefl(s);
    } else {
      DropOneIsSubsequence(s, k);
    }
  }

  lemma {:induction false} MultisetDifferenceAssoc<T>(a: multiset<T>, b: multiset<T>, c: multiset<T>)
    ensures (a - b) - c == a - (b + c)
  {
    forall x ensures ((a - b) - c)[x] == (a - (b + c))[x] {
    }
  }

  /** One slide removed per batch entry, matched by text, in batch order; entries that
      match no remaining slide are no-ops. As a bag, the deck's texts lose exactly the
      batch's texts. */
  function RemoveSlidesByText(slides: seq<Slide>, removedSlidesBatch: seq<string>): (r: seq<Slide>)
    ensures multiset(Texts(r)) == multiset(Texts(slides)) - multiset(removedSlidesBatch)
    decreases |removedSlidesBatch|
  {
    if |removedSlidesBatch| == 0 then slides
    else
      var init := removedSlidesBatch[..|removedSlidesBatch| - 1];
      var t := removedSlidesBatch[|removedSlidesBatch| - 1];
      var partial := RemoveSlidesByText(slides, init);
      var r := RemoveFirst(partial, t);
      MultisetSnoc(removedSlidesBatch);
      MultisetDifferenceAssoc(multiset(Texts(slides)), multiset(init), multiset{t});
      r
  }

  /** The slides the by-text removal keeps stay in their order. */
  lemma {:induction false} RemoveByTextKeepsOrder(slides: seq<Slide>, removedSlidesBatch: seq<string>)
    ensures IsSubsequence(RemoveSlidesByText(slides, removedSlidesBatch), slides)
    decreases |removedSlidesBatch|
  {
    if |removedSlidesBatch| == 0 {
      SubsequenceRefl(slides);
    } else {
      var init := removedSlidesBatch[..|removedSlidesBatch| - 1];
      var t := removedSlidesBatch[|removedSlidesBatch| - 1];
      var partial := RemoveSlidesByText(slides, init);
      RemoveByTextKeepsOrder(slides, init);
      RemoveFirstKeepsOrder(partial, t);
      SubsequenceTrans(RemoveFirst(partial, t), partial, slides);
    }
  }

  /** The survivors around a surviving index `i`. */
  lemma {:induction false} KeepAroundSurvivor<T>(s: seq<T>, gone: set<int>, i: int)
    requires 0 <= i < |s| && i !in gone
    ensures Keep(s, gone, 0, |s|) == Keep(s, gone, 0, i) + [s[i]] + Keep(s, gone, i + 1, |s|)
  {
    KeepSplit(s, gone, 0, i, |s|);
    KeepSplit(s, gone, i, i + 1, |s|);
    assert Keep(s, gone, i, i) == [];
    assert Keep(s, gone, i, i + 1) == [s[i]];
  }

  /** The survivors around a gone index `i`. */
  lemma {:induction false} KeepAroundGone<T>(s: seq<T>, gone: set<int>, i: int)
    requires 0 <= i < |s| && i in gone
    ensures Keep(s, gone, 0, |s|) == Keep(s, gone, 0, i) + Keep(s, gone, i + 1, |s|)
  {
    KeepSplit(s, gone, 0, i, |s|);
    KeepSplit(s, gone, i, i + 1, |s|);
    assert Keep(s, gone, i, i) == [];
    assert Keep(s, gone, i, i + 1) == [];
  }

  /** `RemoveFirst` drops `x` when no slide before it carries its text. */
  lemma {:induction false} RemoveFirstAfterPrefix(p: seq<Slide>, x: Slide, q: seq<Slide>)
    requires forall y :: y in p ==> y.text != x.text
    ensures RemoveFirst(p + [x] + q, x.text) == p + q
  {
    var s := p + [x] + q;
    assert s[|p|] == x;
    forall j | 0 <= j < |p| ensures s[j].text != x.text {
      assert s[j] == p[j];
    }
    RemoveFirstAt(s, x.text, |p|);
    assert s[..|p|] == p;
    assert s[|p| + 1..] == q;
  }

  /** Removing the first match of `t` from the survivors of `gone` removes the first slide
      of the whole deck carrying `t`, provided that slide survived. */
  lemma {:induction false} RemoveFirstOfKeep(s: seq<Slide>, gone: set<int>, t: string)
    requires t in Texts(s)
    requires IndexOf(Texts(s), t) !in gone
    ensures RemoveFirst(Keep(s, gone, 0, |s|), t) == Keep(s, gone + {IndexOf(Texts(s), t)}, 0, |s|)
  {
    var i := IndexOf(Texts(s), t);
    var gone' := gone + {i};
    var p := Keep(s, gone, 0, i);
    var q := Keep(s, gone, i + 1, |s|);
    assert s[i].text == t;
    KeepAroundSurvivor(s, gone, i);
    KeepBeforeFirst(s, gone, t);
    RemoveFirstAfterPrefix(p, s[i], q);
    assert RemoveFirst(Keep(s, gone, 0, |s|), t) == p + q;
    KeepAroundGone(s, gone', i);
    KeepSameGone(s, gone, gone', 0, i);
    KeepSameGone(s, gone, gone', i + 1, |s|);
  }

  /** No survivor before the first slide carrying `t` carries `t`. */
  lemma {:induction false} KeepBeforeFirst(s: seq<Slide>, gone: set<int>, t: string)
    requires t in Texts(s)
    ensures forall y :: y in Keep(s, gone, 0, IndexOf(Texts(s), t)) ==> y.text != t
  {
    var texts := Texts(s);
    var i := IndexOf(texts, t);
    forall y | y in Keep(s, gone, 0, i) ensures y.text != t {
      KeepDrawsFrom(s, gone, 0, i, y);
      var k :| 0 <= k < i && s[..i][k] == y;
      assert texts[..i][k] == y.text;
    }
  }

  lemma {:induction false} FirstIndicesSnoc(s: seq<Slide>, b: seq<string>)
    requires |b| > 0
    ensures FirstIndices(s, b) == FirstIndices(s, b[..|b| - 1]) + {IndexOf(Texts(s), b[|b| - 1])}
  {
    var init := b[..|b| - 1];
    var t := b[|b| - 1];
    assert b == init + [t];
    forall x | x in b ensures x in init || x == t {
      var j :| 0 <= j < |b| && b[j] == x;
      if j < |init| {
        assert init[j] == x;
      }
    }
    assert forall x :: x in init ==> x in b;
  }

  /** Splitting a distinct batch into its prefix and last text. */
  lemma {:induction false} DistinctSnoc(batch: seq<string>)
    requires |batch| > 0 && Distinct(batch)
    ensures Distinct(batch[..|batch| - 1])
    ensures batch[|batch| - 1] !in batch[..|batch| - 1]
  {
  }

  lemma {:induction false} RemoveByTextMatchesFirstIndices(s: seq<Slide>, batch: seq<string>)
    requires Distinct(batch)
    requires forall i :: 0 <= i < |batch| ==> batch[i] in Texts(s)
    ensures RemoveSlidesByText(s, batch) == Keep(s, FirstIndices(s, batch), 0, |s|)
    decreases |batch|
  {
    if |batch| == 0 {
      assert FirstIndices(s, batch) == {};
      KeepNothingGone(s, {}, 0, |s|);
    } else {
      var init := batch[..|batch| - 1];
      var t := batch[|batch| - 1];
      var texts := Texts(s);
      var i := IndexOf(texts, t);
      DistinctSnoc(batch);
      assert forall j :: 0 <= j < |init| ==> init[j] in texts by {
        forall j | 0 <= j < |init| ensures init[j] in texts {
          assert init[j] == batch[j];
        }
      }
      RemoveByTextMatchesFirstIndices(s, init);
      assert t in texts by {
        assert batch[|batch| - 1] in texts;
      }
      assert i !in FirstIndices(s, init) by {
        forall t' | t' in init ensures IndexOf(texts, t') != i {
          assert texts[i] == t;
        }
      }
      FirstIndicesSnoc(s, batch);
      RemoveFirstOfKeep(s, FirstIndices(s, init), t);
    }
  }

  /** On the inputs the index-based removal handles correctly, distinct removed texts
      that are all present, it agrees with the by-text removal. */
  lemma {:induction false} RemovalsAgreeOnDistinctPresent(slides: seq<Slide>, batch: seq<string>)
    requires Distinct(batch)
    requires forall i :: 0 <= i < |batch| ==> batch[i] in Texts(slides)
    ensures RemoveDeletedSlides(slides, batch) == RemoveSlidesByText(slides, batch)
  {
    RemoveDistinctPresent(slides, batch);
    RemoveByTextMatchesFirstIndices(slides, batch);
  }

  // ---------------------------------------------------------------------------
  // Small decks exhibiting the two defects

  /** Deck a, b, c with a removed text x that no slide carries: as written the slide c is
      lost; the by-text removal leaves the deck alone. */
  lemma {:induction false} MissingTextExample(a: string, b: string, c: string, x: string)
    requires x != a && x != b && x != c
    ensures var deck := [NewSlide(a, 0), NewSlide(b, 1), NewSlide(c, 2)];
      && RemoveDeletedSlides(deck, [x]) == [NewSlide(a, 0), NewSlide(b, 1)]
      && RemoveSlidesByText(deck, [x]) == deck
  {
    var deck := [NewSlide(a, 0), NewSlide(b, 1), NewSlide(c, 2)];
    assert Texts(deck) == [a, b, c];
    MissingTextDropsLastSlide(deck, x);
    assert deck[..2] == [NewSlide(a, 0), NewSlide(b, 1)];
    assert [x][..0] == [];
  }

  /** Deck a, b, a whose two `a` slides both disappeared upstream: as written the first
      `a` and the `b` are deleted and the second `a` survives. */
  lemma {:induction false} DuplicateTextExample(a: string, b: string)
    requires a != b
    ensures RemoveDeletedSlides([NewSlide(a, 0), NewSlide(b, 1), NewSlide(a, 2)], [a, a])
         == [NewSlide(a, 2)]
  {
    var deck := [NewSlide(a, 0), NewSlide(b, 1), NewSlide(a, 2)];
    assert Texts(deck) == [a, b, a];
    assert IndexOf(Texts(deck), a) == 0;
    DuplicateTextDropsNeighbour(deck, a);
    assert deck[2..] == [NewSlide(a, 2)];
  }

  /** One more text in the batch is one more `RemoveFirst` on the previous result. */
  lemma {:induction false} RemoveByTextSnoc(slides: seq<Slide>, init: seq<string>, t: string)
    ensures RemoveSlidesByText(slides, init + [t]) == RemoveFirst(RemoveSlidesByText(slides, init), t)
  {
    var b := init + [t];
    assert b[..|b| - 1] == init;
  }

  /** The deck of the duplicate-text case under the by-text removal: both slides
      carrying `a` go and the one between them stays. */
  lemma {:induction false} DuplicateTextExampleByText(deck: seq<Slide>, a: string)
    requires |deck| == 3 && deck[0].text == a && deck[1].text != a && deck[2].text == a
    ensures RemoveSlidesByText(deck, [a, a]) == [deck[1]]
  {
    var once := deck[1..];
    RemoveFirstHead(deck, a);
    assert |once| == 2 && once[0] == deck[1] && once[1].text == a;
    RemoveFirstSecondOfTwo(once, a);
    RemoveByTextPair(deck, a, a);
    assert RemoveSlidesByText(deck, [a, a]) == RemoveFirst(once, a);
  }

  /** `RemoveFirst` on two slides where only the second matches keeps the first. */
  lemma {:induction false} RemoveFirstSecondOfTwo(s: seq<Slide>, t: string)
    requires |s| == 2 && s[0].text != t && s[1].text == t
    ensures RemoveFirst(s, t) == [s[0]]
  {
    RemoveFirstAt(s, t, 1);
    DropSecondOfTwo(s);
  }

  /** A two-text batch is two `RemoveFirst` steps, in batch order. */
  lemma {:induction false} RemoveByTextPair(slides: seq<Slide>, a: string, b: string)
    ensures RemoveSlidesByText(slides, [a, b]) == RemoveFirst(RemoveFirst(slides, a), b)
  {
    var one := [a];
    var two := [a, b];
    assert one[..0] == [];
    assert RemoveSlidesByText(slides, one) == RemoveFirst(slides, a);
    assert two[..1] == one;
  }

  /** `RemoveFirst` drops the slide at `k` when that is the first one carrying `t`. */
  lemma {:induction false} RemoveFirstAt(s: seq<Slide>, t: string, k: int)
    requires 0 <= k < |s| && s[k].text == t
    requires forall j :: 0 <= j < k ==> s[j].text != t
    ensures RemoveFirst(s, t) == s[..k] + s[k + 1..]
  {
    var texts := Texts(s);
    assert t !in texts[..k] by {
      forall j | 0 <= j < k ensures texts[..k][j] != t {
      }
    }
    IndexOfIsFirst(texts, t, k);
  }

  /** `RemoveFirst` of the text the first slide carries drops that slide. */
  lemma {:induction false} RemoveFirstHead(s: seq<Slide>, t: string)
    requires |s| > 0 && s[0].text == t
    ensures RemoveFirst(s, t) == s[1..]
  {
    RemoveFirstAt(s, t, 0);
    assert s[..0] + s[1..] == s[1..];
  }

  /** `RemoveFirst` on three slides where only the middle one matches so far. */
  lemma {:induction false} RemoveFirstMiddle(s: seq<Slide>, t: string)
    requires |s| == 3 && s[0].text != t && s[1].text == t
    ensures RemoveFirst(s, t) == [s[0], s[2]]
  {
    RemoveFirstAt(s, t, 1);
    assert s[..1] + s[2..] == [s[0], s[2]];
  }
}
