/**
 * Diff batching: an array diff of the old and the new slide texts is a sequence of
 * chunks, each flagged added, removed, or neither (text common to both). The bot
 * flattens the added chunks into `addedSlidesBatch` and the removed chunks into
 * `removedSlidesBatch`, keeping the diff's order.
 */
module Batching {

  /** One chunk of an array diff. The two flags are read independently, as the bot does. */
  datatype Chunk = Chunk(value: seq<string>, added: bool, removed: bool)

  /** Which chunks a view of the diff collects. `OldSide` is everything that was in the
      old text sequence (all but the added chunks), `NewSide` everything in the new one. */
  datatype View = AddedView | RemovedView | OldSide | NewSide

  predicate Selects(v: View, c: Chunk) {
    match v
    case AddedView => c.added
    case RemovedView => c.removed
    case OldSide => !c.added
    case NewSide => !c.removed
  }

  /** The values of the chunks `v` selects, concatenated in diff order. */
  function Gather(diffs: seq<Chunk>, v: View): seq<string>
  {
    if |diffs| == 0 then []
    else
      var last := diffs[|diffs| - 1];
      Gather(diffs[..|diffs| - 1], v) + (if Selects(v, last) then last.value else [])
  }

  /** A diff of `oldTexts` against `newTexts`: its old side spells the one and its new side the other. */
  ghost predicate DiffOf(diffs: seq<Chunk>, oldTexts: seq<string>, newTexts: seq<string>) {
    Gather(diffs, OldSide) == oldTexts && Gather(diffs, NewSide) == newTexts
  }

  /** The batching loop: `addedSlidesBatch` is the in-order concatenation of the added chunks'
      values, `removedSlidesBatch` that of the removed chunks'. */
  method FlattenBatches(diffs: seq<Chunk>) returns (addedSlidesBatch: seq<string>, removedSlidesBatch: seq<string>)
    ensures addedSlidesBatch == Gather(diffs, AddedView)
    ensures removedSlidesBatch == Gather(diffs, RemovedView)
  {
    addedSlidesBatch := [];
    removedSlidesBatch := [];
    var i := 0;
    while i < |diffs|
      invariant 0 <= i <= |diffs|
      invariant addedSlidesBatch == Gather(diffs[..i], AddedView)
      invariant removedSlidesBatch == Gather(diffs[..i], RemovedView)
    {
      if diffs[i].added {
        addedSlidesBatch := addedSlidesBatch + diffs[i].value;
      }
      if diffs[i].removed {
        removedSlidesBatch := removedSlidesBatch + diffs[i].value;
      }
      assert diffs[..i + 1][..i] == diffs[..i];
      i := i + 1;
    }
    assert diffs[..i] == diffs;
  }

  /** When no chunk is flagged (identical inputs), both batches are empty and the two
      sides of the diff coincide. */
  lemma {:induction false} UnflaggedDiffHasNoBatches(diffs: seq<Chunk>)
    requires forall i :: 0 <= i < |diffs| ==> !diffs[i].added && !diffs[i].removed
    ensures Gather(diffs, AddedView) == [] && Gather(diffs, RemovedView) == []
    ensures Gather(diffs, OldSide) == Gather(diffs, NewSide)
  {
    if |diffs| > 0 {
      UnflaggedDiffHasNoBatches(diffs[..|diffs| - 1]);
    }
  }

  /** Every text is accounted for: the old texts plus the added batch are, as a bag,
      the new texts plus the removed batch. */
  lemma {:induction false} DiffBalance(diffs: seq<Chunk>)
    ensures multiset(Gather(diffs, OldSide)) + multiset(Gather(diffs, AddedView))
         == multiset(Gather(diffs, NewSide)) + multiset(Gather(diffs, RemovedView))
  {
    if |diffs| > 0 {
      var init := diffs[..|diffs| - 1];
      var v := diffs[|diffs| - 1].value;
      DiffBalance(init);
      assert multiset(Gather(diffs, OldSide)) + multiset(Gather(diffs, AddedView))
          == multiset(Gather(init, OldSide)) + multiset(Gather(init, AddedView)) + multiset(v);
      assert multiset(Gather(diffs, NewSide)) + multiset(Gather(diffs, RemovedView))
          == multiset(Gather(init, NewSide)) + multiset(Gather(init, RemovedView)) + multiset(v);
    }
  }

  /** With no chunk flagged both ways, the removed batch is drawn from the old texts and
      the added batch from the new ones, multiplicity included. */
  lemma {:induction false} BatchesWithinSides(diffs: seq<Chunk>)
    requires forall i :: 0 <= i < |diffs| ==> !(diffs[i].added && diffs[i].removed)
    ensures multiset(Gather(diffs, RemovedView)) <= multiset(Gather(diffs, OldSide))
    ensures multiset(Gather(diffs, AddedView)) <= multiset(Gather(diffs, NewSide))
  {
    if |diffs| > 0 {
      BatchesWithinSides(diffs[..|diffs| - 1]);
    }
  }

  /** Read against the two text sequences the diff was taken of: the stored texts plus
      the added batch are the fresh texts plus the removed batch, and with no chunk
      flagged both ways each batch is drawn from its own side. */
  lemma {:induction false} DiffOfBalance(diffs: seq<Chunk>, oldTexts: seq<string>, newTexts: seq<string>)
    requires DiffOf(diffs, oldTexts, newTexts)
    ensures multiset(oldTexts) + multiset(Gather(diffs, AddedView)) == multiset(newTexts) + multiset(Gather(diffs, RemovedView))
    ensures (forall i :: 0 <= i < |diffs| ==> !(diffs[i].added && diffs[i].removed)) ==>
      multiset(Gather(diffs, RemovedView)) <= multiset(oldTexts) && multiset(Gather(diffs, AddedView)) <= multiset(newTexts)
  {
    DiffBalance(diffs);
    if forall i :: 0 <= i < |diffs| ==> !(diffs[i].added && diffs[i].removed) {
      BatchesWithinSides(diffs);
    }
  }
}
