/**
 * The batch driver of the bot: `runBot` cuts the published articles into pages of
 * `limitPerOperation`, each queued task updates one page (`updateArticles`), collects
 * the updated articles out of the reflected results, and saves them with one bulk write
 * (`saveUpdatedArticles`).
 */
module Scheduler {
  import opened Wrappers
  import opened Slides
  import opened Narration
  import opened Reconcile

  // ---------------------------------------------------------------------------
  // Paging
  // ---------------------------------------------------------------------------

  /** One queued task: skip this many articles and update the next `limitPerOperation`. */
  datatype Task = Task(skip: nat, limitPerOperation: nat)

  /** The queueing loop of `runBot`: one task per page, at skips 0, P, 2P, ... below N.
      A page size of zero or less would never leave the loop, so it is excluded. */
  method QueueSkips(numberOfArticles: nat, limitPerOperation: nat) returns (tasks: seq<Task>)
    requires limitPerOperation > 0
    ensures |tasks| == (numberOfArticles + limitPerOperation - 1) / limitPerOperation
    ensures forall k :: 0 <= k < |tasks| ==>
      tasks[k] == Task(k * limitPerOperation, limitPerOperation) && tasks[k].skip < numberOfArticles
    ensures numberOfArticles <= |tasks| * limitPerOperation
  {
    tasks := [];
    var i := 0;
    while i < numberOfArticles
      invariant i == |tasks| * limitPerOperation
      invariant i <= numberOfArticles + limitPerOperation - 1
      invariant forall k :: 0 <= k < |tasks| ==>
        tasks[k] == Task(k * limitPerOperation, limitPerOperation) && tasks[k].skip < numberOfArticles
    {
      tasks := tasks + [Task(i, limitPerOperation)];
      i := i + limitPerOperation;
    }
    CeilingDivision(numberOfArticles, limitPerOperation, |tasks|);
  }

  /** `k` is the number of pages of size `p` that `n` items need. */
  lemma {:induction false} CeilingDivision(n: nat, p: nat, k: nat)
    requires p > 0
    requires n <= k * p < n + p
    ensures (n + p - 1) / p == k
  {
    var q := (n + p - 1) / p;
    var m := (n + p - 1) % p;
    assert n + p - 1 == q * p + m && 0 <= m < p;
    if q < k {
      MulMonotone(q, k - 1, p);
    } else if q > k {
      MulMonotone(k + 1, q, p);
    }
  }

  lemma {:induction false} MulMonotone(a: int, b: int, p: nat)
    requires a <= b
    ensures a * p <= b * p
  {
    var d := b - a;
    assert b * p == a * p + d * p;
  }

  lemma {:induction false} MulStep(a: nat, p: nat)
    ensures (a + 1) * p == a * p + p
  {
  }

  /** What `find().skip(skip).limit(limit)` returns from the ordered article list. */
  function Page<T>(corpus: seq<T>, t: Task): (r: seq<T>)
    ensures |r| == if t.skip >= |corpus| then 0 else Min(t.limitPerOperation, |corpus| - t.skip)
    ensures forall k :: 0 <= k < |r| ==> t.skip + k < |corpus| && r[k] == corpus[t.skip + k]
  {
    if t.skip >= |corpus| then []
    else if t.skip + t.limitPerOperation >= |corpus| then corpus[t.skip..]
    else corpus[t.skip..t.skip + t.limitPerOperation]
  }

  function Min(a: int, b: int): int {
    if a <= b then a else b
  }

  /** The pages of the queued tasks, one after the other. */
  function Pages<T>(corpus: seq<T>, tasks: seq<Task>): seq<T>
    decreases |tasks|
  {
    if |tasks| == 0 then []
    else Pages(corpus, tasks[..|tasks| - 1]) + Page(corpus, tasks[|tasks| - 1])
  }

  /** Read through the queued tasks, the pages visit every article exactly once and in
      the stored order. */
  lemma {:induction false} PagesCoverCorpus<T>(corpus: seq<T>, tasks: seq<Task>, limitPerOperation: nat)
    requires limitPerOperation > 0
    requires forall k :: 0 <= k < |tasks| ==>
      tasks[k] == Task(k * limitPerOperation, limitPerOperation) && tasks[k].skip < |corpus|
    requires |corpus| <= |tasks| * limitPerOperation
    ensures Pages(corpus, tasks) == corpus
  {
    var p := limitPerOperation;
    forall k | 0 < k < |tasks| ensures tasks[k].skip == tasks[k - 1].skip + p {
      MulStep(k - 1, p);
    }
    PagesPrefix(corpus, tasks, p, |tasks|);
    assert tasks[..|tasks|] == tasks;
    if |tasks| > 0 {
      MulStep(|tasks| - 1, p);
    }
    assert corpus[..|corpus|] == corpus;
  }

  /** Where the first `m` pages end in the article list. */
  function PagesEnd(corpusLength: nat, tasks: seq<Task>, limitPerOperation: nat, m: nat): nat
    requires m <= |tasks|
  {
    if m == 0 then 0 else Min(tasks[m - 1].skip + limitPerOperation, corpusLength)
  }

  /** Pages that follow one another without gap or overlap spell the article list up
      to where the last of them ends. */
  lemma {:induction false} PagesPrefix<T>(corpus: seq<T>, tasks: seq<Task>, limitPerOperation: nat, m: nat)
    requires m <= |tasks|
    requires forall k :: 0 <= k < |tasks| ==> tasks[k].limitPerOperation == limitPerOperation && tasks[k].skip < |corpus|
    requires |tasks| > 0 ==> tasks[0].skip == 0
    requires forall k :: 0 < k < |tasks| ==> tasks[k].skip == tasks[k - 1].skip + limitPerOperation
    ensures Pages(corpus, tasks[..m]) == corpus[..PagesEnd(|corpus|, tasks, limitPerOperation, m)]
    decreases m
  {
    if m == 0 {
      assert tasks[..0] == [];
    } else {
      var p := limitPerOperation;
      var t := tasks[m - 1];
      var lo := PagesEnd(|corpus|, tasks, p, m - 1);
      var hi := PagesEnd(|corpus|, tasks, p, m);
      PagesPrefix(corpus, tasks, p, m - 1);
      PagesSnoc(corpus, tasks, m);
      if m > 1 {
        assert t.skip == tasks[m - 2].skip + p;
      }
      assert lo == t.skip;
      PageSlice(corpus, t);
      assert Page(corpus, t) == corpus[lo..hi];
      assert Pages(corpus, tasks[..m - 1]) == corpus[..lo];
      assert lo <= hi <= |corpus|;
      PrefixJoin(corpus, lo, hi);
    }
  }

  lemma {:induction false} PrefixJoin<T>(s: seq<T>, lo: int, hi: int)
    requires 0 <= lo <= hi <= |s|
    ensures s[..lo] + s[lo..hi] == s[..hi]
  {
  }

  /** The first `m` pages are the first `m - 1` followed by the `m`-th. */
  lemma {:induction false} PagesSnoc<T>(corpus: seq<T>, tasks: seq<Task>, m: nat)
    requires 0 < m <= |tasks|
    ensures Pages(corpus, tasks[..m]) == Pages(corpus, tasks[..m - 1]) + Page(corpus, tasks[m - 1])
  {
    assert tasks[..m][..m - 1] == tasks[..m - 1];
  }

  /** A page starting inside the list runs to its limit or to the end of the list. */
  lemma {:induction false} PageSlice<T>(corpus: seq<T>, t: Task)
    requires t.skip < |corpus|
    ensures Page(corpus, t) == corpus[t.skip..Min(t.skip + t.limitPerOperation, |corpus|)]
  {
  }

  // ---------------------------------------------------------------------------
  // Updating one page
  // ---------------------------------------------------------------------------

  /** The outcome of one article's update as `reflectAll` reports it. */
  datatype Reflected = Value(article: Article) | Error(error: string)

  function Reflect(r: Result<Article, string>): Reflected {
    match r
    case Success(a) => Value(a)
    case Failure(e) => Error(e)
  }

  /** `updateArticles`: every article of the page is updated on its own, and each
      outcome, success or error, is reported at that article's index. */
  function UpdateArticles(
    articles: seq<Article>,
    getLatestData: string -> Result<LatestData, string>,
    h: Helpers,
    synth: Synthesizer): (r: seq<Reflected>)
    ensures |r| == |articles|
    ensures forall i :: 0 <= i < |r| ==> r[i].Value? ==>
      r[i].article.id == articles[i].id && WellNumbered(r[i].article.slides)
    ensures forall i :: 0 <= i < |r| ==> (r[i].Error? <==>
      (getLatestData(articles[i].title).Failure?
        || UpdateArticleSlides(articles[i].slides, getLatestData(articles[i].title).value.slides, h, synth).Failure?))
  {
    seq(|articles|, i requires 0 <= i < |articles| =>
      Reflect(UpdateArticle(articles[i], getLatestData(articles[i].title), h, synth)))
  }

  /** `results.map(result => result.value.article)` as written: an error result has no
      `value`, so the expression throws and the page is lost. `None` stands for the throw. */
  function CollectArticles(results: seq<Reflected>): (r: Option<seq<Article>>)
    ensures r.None? <==> exists i :: 0 <= i < |results| && results[i].Error?
    ensures r.Some? ==> |r.value| == |results| && forall i :: 0 <= i < |results| ==> r.value[i] == results[i].article
    decreases |results|
  {
    if |results| == 0 then Some([])
    else
      var n := |results|;
      match CollectArticles(results[..n - 1])
      case None =>
        assert exists i :: 0 <= i < n && results[i].Error? by {
          var i :| 0 <= i < n - 1 && results[..n - 1][i].Error?;
          assert results[i].Error?;
        }
        None
      case Some(init) =>
        if results[n - 1].Error? then None
        else Some(init + [results[n - 1].article])
  }

  /** What the page evidently means to save: the articles that were updated, in page
      order, skipping the ones whose update failed. */
  function CollectSucceeded(results: seq<Reflected>): (r: seq<Article>)
    ensures |r| <= |results|
    ensures forall a :: a in r <==> Value(a) in results
    decreases |results|
  {
    if |results| == 0 then []
    else
      var n := |results|;
      assert results == results[..n - 1] + [results[n - 1]];
      CollectSucceeded(results[..n - 1]) + (if results[n - 1].Value? then [results[n - 1].article] else [])
  }

  /** Without errors the two collections agree. */
  lemma {:induction false} CollectionsAgreeWithoutErrors(results: seq<Reflected>)
    requires forall i :: 0 <= i < |results| ==> results[i].Value?
    ensures CollectArticles(results) == Some(CollectSucceeded(results))
    decreases |results|
  {
    var n := |results|;
    if n > 0 {
      CollectionsAgreeWithoutErrors(results[..n - 1]);
    }
  }

  /** A page whose second article failed to update: as written the page crashes and
      nothing is saved; the corrected collection still saves the first article. */
  lemma {:induction false} OneFailureLosesPage(a: Article, e: string)
    ensures CollectArticles([Value(a), Error(e)]) == None
    ensures CollectSucceeded([Value(a), Error(e)]) == [a]
  {
    assert [Value(a), Error(e)][..1] == [Value(a)];
    assert [Value(a)][..0] == [];
  }

  // ---------------------------------------------------------------------------
  // Saving
  // ---------------------------------------------------------------------------

  /** One `updateOne` of the bulk write: match on the id, set three fields. */
  datatype UpdateOp = UpdateOne(filterId: nat, slides: seq<Slide>, sections: seq<Section>, updatedAt: int)

  /** The operations `saveUpdatedArticles` builds; `updatedAt` is the single timestamp
      taken before the loop. */
  function SaveOps(articles: seq<Article>, updatedAt: int): (ops: seq<UpdateOp>)
    ensures |ops| == |articles|
    ensures forall i :: 0 <= i < |ops| ==>
      && ops[i].filterId == articles[i].id
      && ops[i].slides == articles[i].slides
      && ops[i].sections == articles[i].sections
    ensures forall i, j :: 0 <= i < |ops| && 0 <= j < |ops| ==> ops[i].updatedAt == ops[j].updatedAt
  {
    seq(|articles|, i requires 0 <= i < |articles| =>
      UpdateOne(articles[i].id, articles[i].slides, articles[i].sections, updatedAt))
  }

  /** The article store, by id. */
  type Store = map<nat, Article>

  /** One `updateOne` applied to the store; no match changes nothing. */
  function ApplyOne(store: Store, op: UpdateOp): Store {
    if op.filterId in store then
      store[op.filterId := store[op.filterId].(slides := op.slides, sections := op.sections, updatedAt := op.updatedAt)]
    else store
  }

  /** The bulk write, applied in order. */
  function ApplyBulk(store: Store, ops: seq<UpdateOp>): (r: Store)
    ensures r.Keys == store.Keys
    decreases |ops|
  {
    if |ops| == 0 then store
    else ApplyOne(ApplyBulk(store, ops[..|ops| - 1]), ops[|ops| - 1])
  }

  /** Ids that occur once each. */
  ghost predicate DistinctIds(articles: seq<Article>) {
    forall i, j :: 0 <= i < j < |articles| ==> articles[i].id != articles[j].id
  }

  /** After the bulk write every saved article's record carries its new slides and
      sections and the shared timestamp, keeps its other fields, and every other record
      is untouched. */
  lemma {:induction false} SaveStoresArticles(store: Store, articles: seq<Article>, updatedAt: int)
    requires DistinctIds(articles)
    ensures var after := ApplyBulk(store, SaveOps(articles, updatedAt));
      forall i :: 0 <= i < |articles| && articles[i].id in store ==>
        after[articles[i].id] == store[articles[i].id].(slides := articles[i].slides, sections := articles[i].sections, updatedAt := updatedAt)
    ensures var after := ApplyBulk(store, SaveOps(articles, updatedAt));
      forall id :: id in store && (forall i :: 0 <= i < |articles| ==> articles[i].id != id) ==> after[id] == store[id]
    decreases |articles|
  {
    var n := |articles|;
    if n > 0 {
      var init := articles[..n - 1];
      SaveStoresArticles(store, init, updatedAt);
      var ops := SaveOps(articles, updatedAt);
      assert ops[..n - 1] == SaveOps(init, updatedAt);
      var prev := ApplyBulk(store, SaveOps(init, updatedAt));
      var last := ops[n - 1];
      var after := ApplyOne(prev, last);
      assert ApplyBulk(store, ops) == after;
      forall i | 0 <= i < n && articles[i].id in store
        ensures after[articles[i].id] ==
          store[articles[i].id].(slides := articles[i].slides, sections := articles[i].sections, updatedAt := updatedAt)
      {
        if i < n - 1 {
          assert init[i] == articles[i];
          assert articles[i].id != articles[n - 1].id;
          ApplyOneElsewhere(prev, last, articles[i].id);
        }
      }
      forall id | id in store && (forall i :: 0 <= i < n ==> articles[i].id != id)
        ensures after[id] == store[id]
      {
        forall i | 0 <= i < n - 1 ensures init[i].id != id {
          assert init[i] == articles[i];
        }
        ApplyOneElsewhere(prev, last, id);
      }
    }
  }

  /** A write to one id leaves every other record as it was. */
  lemma {:induction false} ApplyOneElsewhere(store: Store, op: UpdateOp, id: nat)
    requires id in store && id != op.filterId
    ensures id in ApplyOne(store, op) && ApplyOne(store, op)[id] == store[id]
  {
  }
}
