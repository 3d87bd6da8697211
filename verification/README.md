# Slide-deck reconciliation of the videowiki auto-update bot, in Dafny

The videowiki auto-update bot keeps every published article's narrated slide deck
in step with the encyclopedia text it was made from. For one article it:

1. cuts the fresh section texts into slides and numbers them (`getSectionsSlides`);
2. diffs the stored slide texts against the fresh ones and flattens the diff into an
   added batch and a removed batch;
3. narrates the added slides (`generateSlidesAudio`). A slide whose text is already in
   the stored deck keeps its own audio and media, and the stored copy is spliced out.
   Any other slide is sent to the speech synthesizer;
4. splices the narrated slides in at their positions (`addNewSlides`);
5. removes the deleted slides (`removeDeletedSlides`);
6. renumbers every position to its index.

Across the corpus, `runBot` queues pages of `limitPerOperation` published articles in
`created_at` order. The articles of a page are updated in parallel (`async.parallel` over
`reflectAll`, line 124), and the updated articles are saved with one bulk write.

The model is a set of pure functions over immutable sequences, one module per stage:

| module | file | what it holds |
|---|---|---|
| `Wrappers` | wrappers.dfy | `Option` and `Result` |
| `JsArray` | js_array.dfy | `indexOf`, `splice` and the numeric `sort`, with ECMAScript semantics (a -1 index, a negative splice start, clamping) |
| `SeqFacts` | seq_facts.dfy | subsequence ("relative order kept") and distinctness |
| `Slides` | slides.dfy | `Slide`, `Section`, `Article`, deck texts, the well-numbered invariant |
| `Segmenter` | segmenter.dfy | `getSectionsSlides` |
| `Batching` | batching.dfy | the diff-batch flattening |
| `Removal` | removal.dfy | `removeDeletedSlides` as written, and removal by text |
| `Insertion` | insertion.dfy | `addNewSlides` |
| `Narration` | narration.dfy | `generateSlidesAudio` as written, and with current indices |
| `Reconcile` | reconcile.dfy | renumbering, `updateArticleSlides`, `updateArticle` |
| `Scheduler` | scheduler.dfy | `runBot` paging, page collection, `saveUpdatedArticles` |

The bot file holds an unresolved merge conflict. The `HEAD` side defines the pipeline
and its order: narration (with its reuse splices), then insertion, then removal, then
renumbering. The model follows that order. The synchronous `removeDeletedSlides` at
lines 318-334 exists only on the other side; `HEAD` imports its own from a helpers
module that is not part of this model. The index-based removal as written is modelled
and its defects are shown. The pipeline removes by text, one slide per removed entry,
using the corrected definition. Its narration stage likewise uses the corrected lookup:
a reused slide is looked up in the deck as it stands (`GenerateSlidesAudioFresh`), not
at its index in the snapshot taken on entry. The two agree whenever at most one added
text is reused (`Narration.OneReuseNarrationsAgree`).

Three facts about the code shape the model:

- Insertion comes before removal (lines 196-197).
- The narration waterfall stops at the first failed synthesis (lines 283-287), and the
  whole article update fails with it.
- Whether a slide is reused is decided on the snapshot of the stored deck's texts taken
  on entry (line 225).

## Model

All source paths are in `server/bots/autoupdate/index.js`.

| member | source | states |
|---|---|---|
| Segmenter.GetSectionsSlides | server/bots/autoupdate/index.js:367-397 | each section is annotated with `numSlides` = its fragment count and `slideStartPosition` = the slide count of all earlier sections; the deck spells every section's fragments in order; slide `k` has position `k` and no audio or media; so no sections give no slides |
| Segmenter.PushNumbered | server/bots/autoupdate/index.js:390-395 | pushing a section's fragments keeps the slides already there and numbers the new ones consecutively from the current length |
| Segmenter.AllFragmentsCount | server/bots/autoupdate/index.js:385-388 | the running `currentPosition` after `n` sections equals the number of fragments of those sections |
| Segmenter.SectionFragments | server/bots/autoupdate/index.js:378-383 | a section's slide texts are its paragraphs' pieces (split with the 300-character budget) concatenated in paragraph order |
| Segmenter.SplitParagraphsAppend | server/bots/autoupdate/index.js:381-383 | the pieces of two runs of paragraphs are the first run's pieces followed by the second's, so no piece crosses a paragraph boundary |
| Segmenter.SectionSlidesAt | server/bots/autoupdate/index.js:385-394 | fragment `m` of section `j` sits at deck index `slideStartPosition + m` |
| Batching.FlattenBatches | server/bots/autoupdate/index.js:300-305 | `addedSlidesBatch` is the in-order concatenation of the added chunks' values, and `removedSlidesBatch` that of the removed chunks' |
| Batching.UnflaggedDiffHasNoBatches | server/bots/autoupdate/index.js:300-305 | a diff with no flagged chunk (identical inputs) gives two empty batches, and its two sides coincide |
| Batching.DiffBalance | server/bots/autoupdate/index.js:297-305 | old texts plus added batch equal new texts plus removed batch, as multisets |
| Batching.BatchesWithinSides | server/bots/autoupdate/index.js:297-305 | when no chunk is flagged both ways, every removed text comes from the old side and every added text from the new side |
| Batching.DiffOfBalance | server/bots/autoupdate/index.js:297-305 | for a diff of the stored texts against the fresh ones, stored texts plus added batch equal fresh texts plus removed batch as multisets, and without chunks flagged both ways each batch is drawn from its own side |
| JsArray.IndexOf | server/bots/autoupdate/index.js:323 | `indexOf` gives the first index holding the value, and -1 exactly when the value is absent |
| JsArray.Splice | server/bots/autoupdate/index.js:330 | `splice` keeps the length within the ECMAScript bounds; with nothing deleted, the content is the old elements plus the inserted ones |
| JsArray.SpliceMinusOneDropsLast | server/bots/autoupdate/index.js:330 | `splice(-1, 1)` on a non-empty array removes its last element |
| JsArray.SpliceInsertAt | server/bots/autoupdate/index.js:216 | `splice(p, 0, x)` with `0 <= p <= length` puts `x` at `p` and shifts the rest right |
| JsArray.SortNumeric | server/bots/autoupdate/index.js:327 | the sort with `(a, b) => a - b` returns the same integers (a permutation) in ascending order |
| Removal.LookupPresent | server/bots/autoupdate/index.js:319-323 | for distinct removed texts that are all in the deck, the looked-up indices are valid, pairwise distinct, and exactly the first index of each removed text |
| Removal.SpliceFromBack | server/bots/autoupdate/index.js:329-331 | popping and splicing one index per entry removes at most one slide per index |
| Removal.RemoveDeletedSlides | server/bots/autoupdate/index.js:318-334 | the result loses at most one slide per removed text |
| Removal.RemoveDeletedKeepsOrder | server/bots/autoupdate/index.js:318-334 | the surviving slides keep their relative order |
| Removal.SpliceFromBackDeletes | server/bots/autoupdate/index.js:327-331 | popping strictly increasing valid indices and splicing each one deletes exactly those indices |
| Removal.RemoveDistinctPresent | server/bots/autoupdate/index.js:318-334 | for distinct removed texts that are all present, the result is the deck without the first slide carrying each text, and the length drops by the batch size |
| Removal.RemoveDistinctPresentByText | server/bots/autoupdate/index.js:318-334 | if the deck texts are also distinct, the result is the deck without exactly the slides carrying a removed text |
| Removal.MissingTextDropsLastSlide | server/bots/autoupdate/index.js:323-330 | a removed text absent from the deck deletes the last slide instead of nothing |
| Removal.MissingTextExample | server/bots/autoupdate/index.js:323-330 | deck A B C with removed batch [X]: as written B is the last survivor, by text the deck is unchanged |
| Removal.DuplicateTextDropsNeighbour | server/bots/autoupdate/index.js:323-331 | a text listed twice yields its first index twice, and the slide after it is deleted as well |
| Removal.DuplicateTextExample | server/bots/autoupdate/index.js:323-331 | deck A B A with removed batch [A, A] keeps the second A and loses B |
| Removal.RemoveFirst | server/bots/autoupdate/index.js:323-330 | removing one text deletes one slide carrying it, or nothing when no slide does |
| Removal.RemoveSlidesByText | server/bots/autoupdate/index.js:318-334 | the deck texts lose exactly the removed batch, with multiplicity (multiset difference) |
| Removal.RemoveByTextKeepsOrder | server/bots/autoupdate/index.js:318-334 | removal by text keeps the survivors in order |
| Removal.RemovalsAgreeOnDistinctPresent | server/bots/autoupdate/index.js:318-334 | for distinct removed texts that are all present, the index-based and the by-text removal give the same deck |
| Removal.DuplicateTextExampleByText | server/bots/autoupdate/index.js:323 | by text, deck A B A with batch [A, A] keeps B only |
| Insertion.InsertAt | server/bots/autoupdate/index.js:216 | one insertion adds the slide to the deck; at a reachable position it lands there, with the slides before it in place and the rest shifted by one |
| Insertion.InsertAll | server/bots/autoupdate/index.js:212-218 | the deck grows by the number of new slides |
| Insertion.InsertAllContents | server/bots/autoupdate/index.js:215-217 | the result holds the old slides and the new ones (multiset sum) |
| Insertion.InsertAllTexts | server/bots/autoupdate/index.js:215-217 | the result's texts are the old texts plus the new ones |
| Insertion.InsertAtKeepsOrder | server/bots/autoupdate/index.js:216 | a splice, at any position, keeps the deck's slides in order |
| Insertion.InsertAllKeepsOrder | server/bots/autoupdate/index.js:215-217 | the old slides keep their relative order through the whole loop |
| Insertion.InsertAllPlacesEach | server/bots/autoupdate/index.js:215-217 | with strictly increasing positions, each reachable at its splice, every new slide ends up at its own position |
| Narration.Narratable | server/bots/autoupdate/index.js:227-228 | every slide looked at has a non-empty text, and there are no more of them than added slides; `NarratableMembers` gives the converse |
| Narration.NarratableMembers | server/bots/autoupdate/index.js:228 | a slide is looked at exactly when it is an added slide with a non-empty text |
| Narration.DropReused | server/bots/autoupdate/index.js:248 | as written, the slide at the text's snapshot index is spliced out whatever text it now carries, and nothing is removed once that index lies past the shrunk deck; corrected, the deck texts lose exactly one copy of the text |
| Narration.Step | server/bots/autoupdate/index.js:236-273 | an empty text is skipped; a task fails exactly when its text is not in the stored deck and the synthesizer fails, with that error; otherwise it emits the slide (with the synthesized audio when the text is new), and only a reused text touches the deck |
| Narration.Run | server/bots/autoupdate/index.js:283-290 | the waterfall's deck loses at most one slide per reused text |
| Narration.OneReuseNarrationsAgree | server/bots/autoupdate/index.js:225-248 | with at most one reused text the pass as written and the corrected pass return the same result, and with none the deck is unchanged |
| Narration.RunOutcome | server/bots/autoupdate/index.js:227-290 | the pass succeeds exactly when no synthesis request fails; then it emits every non-empty slide in order, a reused one as it is and any other with its audio set to the synthesizer's result |
| Narration.RunFirstError | server/bots/autoupdate/index.js:261-264 | a failed pass returns the error of the first failing synthesis request |
| Narration.AudifiedTexts | server/bots/autoupdate/index.js:241-272 | narration never changes a slide's text |
| Narration.GenerateSlidesAudio | server/bots/autoupdate/index.js:222-291 | as written: success exactly when no request fails, the emitted slides as in `RunOutcome`, the first error on failure, and the deck loses at most one slide per reused text |
| Narration.StaleIndexRemovesWrongSlide | server/bots/autoupdate/index.js:225-248 | deck A B C D with A and C coming back: the stale index removes D and keeps C |
| Narration.IndexSourceOnlyAffectsDeck | server/bots/autoupdate/index.js:239-248 | where the reused slide is looked up changes neither the outcome, the error, nor the emitted slides |
| Narration.RunCurrentDeck | server/bots/autoupdate/index.js:239-248 | looked up in the current deck, the reuse splices remove one slide per reused text by text |
| Narration.GenerateSlidesAudioFresh | server/bots/autoupdate/index.js:222-291 | corrected: same outcome, error and emitted slides, and the deck texts lose exactly the reused texts |
| Narration.CurrentIndexRemovesReusedSlides | server/bots/autoupdate/index.js:239-248 | deck A B C D with A and C coming back: the corrected pass removes A and C and keeps B and D |
| Reconcile.Renumbered | server/bots/autoupdate/index.js:199-201 | after renumbering, position `i` is `i` for every slide, and length, text, audio, media and media type are unchanged |
| Reconcile.RenumberPositions | server/bots/autoupdate/index.js:199-201 | the loop leaves a well-numbered deck that differs from its input only in positions |
| Reconcile.RenumberPositionsIsRenumbered | server/bots/autoupdate/index.js:199-201 | the loop's result is the renumbered deck |
| Reconcile.RenumberedFixesWellNumbered | server/bots/autoupdate/index.js:199-201 | renumbering leaves a deck unchanged exactly when it is already well numbered |
| Reconcile.RenumberedIdempotent | server/bots/autoupdate/index.js:199-201 | renumbering twice is renumbering once |
| Reconcile.RemovedSlidesArray | server/bots/autoupdate/index.js:184 | the removed batch is placed on the stored deck; with helpers that place nothing for nothing, no slide when the diff removes nothing |
| Reconcile.SlidesMetaOf | server/bots/autoupdate/index.js:186-189 | the added batch is placed on the fresh slides and matched against the stored deck and the removed slides; no added slide when the diff changes nothing |
| Reconcile.AddedSlidesArray | server/bots/autoupdate/index.js:186-192 | the placed, decorated added slides; none when the diff changes nothing |
| Reconcile.UpdateArticleSlides | server/bots/autoupdate/index.js:174-206 | corrected narration lookup (see "Left out"): the update fails exactly when a synthesis request fails, with the first error; on success the deck is well numbered, its texts are the stored ones minus the reused ones, plus the narrated ones, minus the removed ones, and the batches are the diff's |
| Reconcile.MovedSlideIsDropped | server/bots/autoupdate/index.js:184-197 | with pure helpers, stored deck A B against fresh B A (diff: A removed, B kept, A added) leaves only B: narration reuses A and splices it out, insertion puts it back, and removal by text deletes it again |
| Reconcile.NoDifferenceKeepsDeck | server/bots/autoupdate/index.js:178-201 | when the diff flags nothing, the update only renumbers, so a well-numbered deck comes back unchanged |
| Reconcile.UpdateArticle | server/bots/autoupdate/index.js:130-155 | a fetch error or a reconciliation error is passed on; on success only slides and sections change, to the reconciled deck and the fresh sections |
| Scheduler.QueueSkips | server/bots/autoupdate/index.js:52-54 | for `N` articles and page size `P > 0`, the skips are exactly 0, P, 2P, ... below `N`, that is ⌈N/P⌉ tasks that reach past the last article |
| Scheduler.Page | server/bots/autoupdate/index.js:67-71 | a page holds the next `limit` articles after `skip` in `created_at` order, fewer at the end, none past it |
| Scheduler.PagesCoverCorpus | server/bots/autoupdate/index.js:52-71 | the pages of the queued tasks, read in order, are the stored article list |
| Scheduler.UpdateArticles | server/bots/autoupdate/index.js:111-128 | one reflected outcome per article at its index; a success keeps the article's id and carries a well-numbered deck; an error exactly when fetching or reconciling that article fails |
| Scheduler.CollectArticles | server/bots/autoupdate/index.js:78 | as written: the page is lost exactly when some update failed; otherwise every article in order |
| Scheduler.CollectSucceeded | server/bots/autoupdate/index.js:78 | corrected: exactly the successfully updated articles are kept |
| Scheduler.CollectionsAgreeWithoutErrors | server/bots/autoupdate/index.js:78 | without failures both collections give the same articles |
| Scheduler.OneFailureLosesPage | server/bots/autoupdate/index.js:78 | one failed update loses the page as written, and loses only itself when corrected |
| Scheduler.SaveOps | server/bots/autoupdate/index.js:87-104 | one `updateOne` per article in input order, filtered on that article's id, setting its slides and sections, all with one timestamp |
| Scheduler.ApplyBulk | server/bots/autoupdate/index.js:106 | the bulk write changes records but adds or drops none |
| Scheduler.SaveStoresArticles | server/bots/autoupdate/index.js:87-106 | after the bulk write each saved article's record has its new slides, sections and the shared timestamp, its other fields unchanged, and every other record is untouched |

## Left out

- `paragraphs`, `splitter` and `getSectionText` are not part of this model. The first
  two are function parameters of the segmenter, and the section texts are an input.
- `getLatestData` is a `Result` input of `UpdateArticle`, and a function of the title in
  `UpdateArticles`.
- `Diff.diffArrays` and the helpers `getSlidesPosition`, `fetchUpdatedSlidesMeta` and
  `addRandomMediaOnSlides` are not part of this model. They are uninterpreted function
  fields of `Reconcile.Helpers`.
- `getDifferences` (line 179) is not part of this model. The model assumes it computes
  what lines 300-305 compute: the added and removed chunks of `diffArrays`, each
  flattened in diff order. `Reconcile.UpdateArticleSlides` builds its two batches that way.
- The `removeDeletedSlides` that `HEAD` imports from the helpers module is not part of
  this model. The pipeline removes the texts of `removedSlidesArray` by text.
- `textToSpeech` is the `Synthesizer` parameter. Its request parameters (mp3, voice)
  carry no logic.
- `async.queue`, `async.parallel`/`reflectAll` and `async.waterfall` are modelled
  sequentially: per-item outcomes in input order, with the waterfall stopping at the
  first error.
- Article and page order under concurrency are not modelled.
- Mongo `find`/`sort`/`skip`/`limit` become `Page` over the list of published articles
  in `created_at` order (line 69), and `bulkWrite` becomes `ApplyBulk` over a map from id to article.
- The bulk write's own failure, the `drain` callback and all logging are not modelled.
- `Date.now()` is the `updatedAt` parameter.
- Articles added or removed between two queued tasks are not modelled: the list is fixed.
- `bottest`, the Express handler and the other side's `getLatestSlides` response are
  plumbing.
- Narration failure: `HEAD` ignores the errors passed to the callbacks at lines 196-197
  and reads `newAddedSlides.length` of `undefined` at line 215, so a synthesis error
  ends the article's update with a throw. The model returns that error as a `Failure`.
- `runBot`: the error branch at line 47 calls a `callback` that does not exist, and is
  not modelled. A `limitPerOperation` of 0 or less never leaves the loop at 52-54, so
  `QueueSkips` requires a positive page size.
- JavaScript truthiness: texts are strings, and the empty string is the only falsy
  text. Positions are integers; `undefined` or fractional positions are not modelled.
- Slide and article records keep only the fields the bot reads or writes.
- Removal.RemoveDeletedSlides: for arbitrary batches the contract gives only the length
  bounds and the order. The exact result is proved for distinct present texts and for
  the two defect shapes (a missing text, a duplicated text).
- Reconcile.UpdateArticleSlides: narration uses the corrected current-deck lookup
  (`GenerateSlidesAudioFresh`), not the stale snapshot index of lines 225 and 248. So
  with two or more reused texts its deck, and the decks of `Reconcile.UpdateArticle`
  and `Scheduler.UpdateArticles` built on it, can differ from the code's. The deck A B C D
  with A and C reused keeps B and D here; the code keeps B and C and inserts C again.
  With at most one reused text the two agree (`Narration.OneReuseNarrationsAgree`).
- Reconcile.UpdateArticleSlides: the helpers are taken as pure functions of their
  arguments, and under that reading a slide that only moves is dropped
  (`Reconcile.MovedSlideIsDropped`). Narration splices it out as reused, insertion
  puts it back, and removal by text takes it out again, because its text is also in
  `removedSlidesArray`. Two pieces of the code could prevent this, and neither is part
  of this model. One is `HEAD`'s own `removeDeletedSlides`. The other is
  `fetchUpdatedSlidesMeta`, which receives `removedSlidesArray` by reference at line 188
  and could trim it. So the model does not claim that the code loses a moved slide.
- Narration.Run: its own contract bounds the deck's length only. The outcome, the emitted
  slides and the first error are stated by `RunOutcome` and `RunFirstError`, and the
  exact deck by `RunCurrentDeck` and `OneReuseNarrationsAgree`.
- Removal.SpliceFromBack: its own contract bounds the length only. The exact result for
  strictly increasing valid indices is `SpliceFromBackDeletes`.
- Reconcile.RemovedSlidesArray: `getSlidesPosition` is not part of this model, so the
  contract states only the empty case.
- Reconcile.SlidesMetaOf: `fetchUpdatedSlidesMeta` is not part of this model, so the
  contract states only the empty case.
- Reconcile.AddedSlidesArray: `addRandomMediaOnSlides` is not part of this model, so the
  contract states only the empty case.
- Narration.GenerateSlidesAudio: the deck as written is bounded by length only, because
  the stale indices make its content depend on earlier splices. The exact content is
  shown by `Narration.StaleIndexRemovesWrongSlide`.

## Findings

| source | as written | input that shows it | evidently intended | confidence | as-written member | corrected member |
|---|---|---|---|---|---|---|
| server/bots/autoupdate/index.js:323-330 | a removed text that is not in the deck gets `indexOf` -1, and `splice(-1, 1)` removes the last slide | deck A B C, removed batch [X]. At the only call in this file, line 307, every removed text comes from the texts of the deck being trimmed, so this input needs another caller | a missing text removes nothing | high, not executed | Removal.MissingTextDropsLastSlide | Removal.RemoveSlidesByText |
| server/bots/autoupdate/index.js:323 | a text removed twice gets the same first index twice, so the slide after it is removed too | deck A B A, removed batch [A, A] | both A slides go and B stays | high, not executed | Removal.DuplicateTextDropsNeighbour | Removal.RemoveSlidesByText |
| server/bots/autoupdate/index.js:225-248 | reused slides are spliced at their index in the entry snapshot of the deck texts, which is stale after the first splice | deck A B C D, added slides A and C at new positions | A and C leave the deck, B and D stay | high, not executed | Narration.StaleIndexRemovesWrongSlide | Narration.GenerateSlidesAudioFresh |
| server/bots/autoupdate/index.js:78 | `result.value.article` on a reflected error result reads a property of `undefined` and throws, so the page is never saved | a page whose second article's update fails | save the articles that were updated | medium, not executed | Scheduler.CollectArticles | Scheduler.CollectSucceeded |
