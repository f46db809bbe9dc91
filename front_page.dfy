/**
  The front-page tool's `main`: clamp the requested limit, keep that many IDs
  of the top-stories ranking, collect the items fetched in parallel into a
  dictionary as their requests complete, then emit the stories in ranking
  order together with their count.

  The network is a parameter: `fetched[p]` is the answer to the request for
  the p-th selected ID, and `completion` is the order in which those requests
  finished.
 */
module FrontPage {
  import opened Json
  import opened Stories

  type StoryId = int

  const DEFAULT_LIMIT: int := 30
  const MIN_LIMIT: int := 1
  const MAX_LIMIT: int := 500

  /** The tool's output object: `{"stories": ..., "count": ...}`. */
  datatype Page = Page(stories: seq<Story>, count: int)

  function Min(a: int, b: int): (r: int) { if a <= b then a else b }
  function Max(a: int, b: int): (r: int) { if a >= b then a else b }

  // ---------------------------------------------------------------------------
  // Limit normalisation and ranking truncation
  // ---------------------------------------------------------------------------

  /** The `limit` parameter, 30 when absent, clamped into [1, 500]. */
  function EffectiveLimit(requested: Option<int>): (limit: int)
    ensures MIN_LIMIT <= limit <= MAX_LIMIT
    ensures requested.None? ==> limit == DEFAULT_LIMIT
    ensures requested.Some? && MIN_LIMIT <= requested.value <= MAX_LIMIT ==> limit == requested.value
    ensures requested.Some? && requested.value < MIN_LIMIT ==> limit == MIN_LIMIT
    ensures requested.Some? && requested.value > MAX_LIMIT ==> limit == MAX_LIMIT
  {
    var l := if requested.Some? then requested.value else DEFAULT_LIMIT;
    Max(MIN_LIMIT, Min(MAX_LIMIT, l))
  }

  /** Python's slice `s[:n]`: a negative `n` counts from the end. */
  function SliceTo<T>(s: seq<T>, n: int): (r: seq<T>)
    ensures |r| <= |s| && r == s[..|r|]
    ensures n >= 0 ==> |r| == Min(n, |s|)
    ensures n < 0 ==> |r| == Max(0, |s| + n)
  {
    if n >= 0 then s[..Min(n, |s|)] else s[..Max(0, |s| + n)]
  }

  /** The story IDs the tool fetches: a prefix of the ranking, at most the effective limit long. */
  function SelectedIds(ranking: seq<StoryId>, requested: Option<int>): (ids: seq<StoryId>)
    ensures |ids| <= |ranking| && ids == ranking[..|ids|]
    ensures |ids| == Min(EffectiveLimit(requested), |ranking|)
    ensures 0 < |ranking| ==> 0 < |ids|
    ensures |ids| <= MAX_LIMIT
  {
    SliceTo(ranking, EffectiveLimit(requested))
  }

  // ---------------------------------------------------------------------------
  // Collecting the parallel fetches
  // ---------------------------------------------------------------------------

  /** Python truthiness of a fetched item: it is not null and not the empty object. */
  predicate Truthy(answer: Option<Item>)
  {
    answer.Some? && answer.value != map[]
  }

  /** The indices 0, 1, ..., n - 1 of the submitted requests, in submission order. */
  function InOrder(n: nat): (order: seq<nat>)
    ensures |order| == n
    ensures forall k :: 0 <= k < n ==> order[k] == k
  {
    seq(n, k requires 0 <= k => k as nat)
  }

  /** Submission order is one of the possible completion orders. */
  lemma InOrderIsCompletionOrder(n: nat)
    ensures IsCompletionOrder(InOrder(n), n)
  {
    var order := InOrder(n);
    forall p | 0 <= p < n
      ensures p in order
    {
      assert order[p] == p;
    }
  }

  /**
    `order` lists each of the `n` submitted requests exactly once, as
    completion does: it has length `n` and holds every index below `n`.
   */
  predicate IsCompletionOrder(order: seq<nat>, n: nat)
  {
    && |order| == n
    && (forall k :: 0 <= k < |order| ==> order[k] < n)
    && (forall p :: 0 <= p < n ==> p in order)
  }

  /**
    The `results` dictionary after the requests listed in `order` completed,
    in that order: a truthy answer is stored under its ID, overwriting an
    earlier one for the same ID; a falsy answer leaves the dictionary alone.
   */
  function Collected(ids: seq<StoryId>, fetched: seq<Option<Item>>, order: seq<nat>): (results: map<StoryId, Item>)
    requires |fetched| == |ids|
    requires forall k :: 0 <= k < |order| ==> order[k] < |ids|
    decreases |order|
  {
    if order == [] then map[]
    else
      var last := |order| - 1;
      var results := Collected(ids, fetched, order[..last]);
      var p := order[last];
      if Truthy(fetched[p]) then results[ids[p] := fetched[p].value] else results
  }

  /**
    An ID is a key of the collected dictionary exactly when one of its
    completed requests answered with a truthy item, and the value stored is
    one of the items answered for it.
   */
  lemma {:induction false} CollectedContents(ids: seq<StoryId>, fetched: seq<Option<Item>>, order: seq<nat>)
    requires |fetched| == |ids|
    requires forall k :: 0 <= k < |order| ==> order[k] < |ids|
    ensures forall id :: id in Collected(ids, fetched, order) <==>
      exists p :: p in order && p < |ids| && ids[p] == id && Truthy(fetched[p])
    ensures forall id :: id in Collected(ids, fetched, order) ==>
      exists p :: p in order && p < |ids| && ids[p] == id && fetched[p] == Some(Collected(ids, fetched, order)[id])
    decreases |order|
  {
    if order != [] {
      var last := |order| - 1;
      var prefix := order[..last];
      var q := order[last];
      assert order == prefix + [q];
      CollectedContents(ids, fetched, prefix);
      var before := Collected(ids, fetched, prefix);
      var results := Collected(ids, fetched, order);
      forall id
        ensures id in results <==> exists p :: p in order && p < |ids| && ids[p] == id && Truthy(fetched[p])
        ensures id in results ==> exists p :: p in order && p < |ids| && ids[p] == id && fetched[p] == Some(results[id])
      {
        if Truthy(fetched[q]) && ids[q] == id {
          assert results[id] == fetched[q].value;
          assert q in order;
        } else {
          assert id in results <==> id in before;
          if id in before {
            assert results[id] == before[id];
            var p :| p in prefix && p < |ids| && ids[p] == id && fetched[p] == Some(before[id]);
            assert p in order;
          }
          forall p | p in order && p < |ids| && ids[p] == id && Truthy(fetched[p])
            ensures p in prefix
          {
          }
        }
      }
    }
  }

  /**
    Each ID gets the same answer from every request for it, as when the
    answers come from one map from ID to item.
   */
  predicate DeterministicFetches(ids: seq<StoryId>, fetched: seq<Option<Item>>)
  {
    && |fetched| == |ids|
    && forall p, q :: 0 <= p < |ids| && 0 <= q < |ids| && ids[p] == ids[q] ==> fetched[p] == fetched[q]
  }

  /**
    When each ID always gets the same answer, the collected dictionary holds
    exactly the IDs whose answer is truthy, each with that answer.
   */
  lemma CollectedUnderDeterministicFetches(ids: seq<StoryId>, fetched: seq<Option<Item>>, order: seq<nat>)
    requires DeterministicFetches(ids, fetched)
    requires IsCompletionOrder(order, |ids|)
    ensures forall p :: 0 <= p < |ids| ==> (ids[p] in Collected(ids, fetched, order) <==> Truthy(fetched[p]))
    ensures forall p :: 0 <= p < |ids| && ids[p] in Collected(ids, fetched, order) ==>
      fetched[p] == Some(Collected(ids, fetched, order)[ids[p]])
  {
    CollectedContents(ids, fetched, order);
    var results := Collected(ids, fetched, order);
    forall p | 0 <= p < |ids|
      ensures ids[p] in results <==> Truthy(fetched[p])
      ensures ids[p] in results ==> fetched[p] == Some(results[ids[p]])
    {
      var id := ids[p];
      if Truthy(fetched[p]) {
        assert p in order;
      }
      if id in results {
        var p' :| p' in order && p' < |ids| && ids[p'] == id && fetched[p'] == Some(results[id]);
        assert fetched[p'] == fetched[p];
      }
    }
  }

  /**
    The collected dictionary does not depend on the order in which the
    requests complete, as long as each ID always gets the same answer.
   */
  lemma CollectedIgnoresCompletionOrder(ids: seq<StoryId>, fetched: seq<Option<Item>>, order1: seq<nat>, order2: seq<nat>)
    requires DeterministicFetches(ids, fetched)
    requires IsCompletionOrder(order1, |ids|)
    requires IsCompletionOrder(order2, |ids|)
    ensures Collected(ids, fetched, order1) == Collected(ids, fetched, order2)
  {
    CollectedUnderDeterministicFetches(ids, fetched, order1);
    CollectedUnderDeterministicFetches(ids, fetched, order2);
    CollectedContents(ids, fetched, order1);
    CollectedContents(ids, fetched, order2);
    var r1 := Collected(ids, fetched, order1);
    var r2 := Collected(ids, fetched, order2);
    forall id | id in r1
      ensures id in r2 && r1[id] == r2[id]
    {
      var p :| p in order1 && p < |ids| && ids[p] == id && fetched[p] == Some(r1[id]);
    }
    forall id | id in r2
      ensures id in r1
    {
      var p :| p in order2 && p < |ids| && ids[p] == id && fetched[p] == Some(r2[id]);
    }
    assert r1.Keys == r2.Keys;
  }

  /**
    A truthy answer that no later completion for the same ID overrides is
    what the dictionary holds for that ID: the last truthy answer wins.
   */
  lemma {:induction false} CollectedKeepsLastTruthyAnswer(ids: seq<StoryId>, fetched: seq<Option<Item>>, order: seq<nat>, k: nat)
    requires |fetched| == |ids|
    requires forall i :: 0 <= i < |order| ==> order[i] < |ids|
    requires k < |order| && Truthy(fetched[order[k]])
    requires forall j :: k < j < |order| && ids[order[j]] == ids[order[k]] ==> !Truthy(fetched[order[j]])
    ensures ids[order[k]] in Collected(ids, fetched, order)
    ensures Collected(ids, fetched, order)[ids[order[k]]] == fetched[order[k]].value
    decreases |order|
  {
    var last := |order| - 1;
    if k < last {
      var prefix := order[..last];
      assert prefix[k] == order[k];
      forall j | k < j < |prefix| && ids[prefix[j]] == ids[prefix[k]]
        ensures !Truthy(fetched[prefix[j]])
      {
        assert prefix[j] == order[j];
      }
      CollectedKeepsLastTruthyAnswer(ids, fetched, prefix, k);
    }
  }

  /**
    With one ID requested twice and two truthy answers, the dictionary keeps
    whichever answer completed last, so differing answers make the result
    depend on the completion order.
   */
  lemma DuplicateIdKeepsLastAnswer(id: StoryId, first: Item, second: Item)
    requires first != map[] && second != map[]
    ensures Collected([id, id], [Some(first), Some(second)], [0, 1]) == map[id := second]
    ensures Collected([id, id], [Some(first), Some(second)], [1, 0]) == map[id := first]
  {
  }

  /** The first loop of `main`: store each truthy answer as its request completes. */
  method CollectResults(ids: seq<StoryId>, fetched: seq<Option<Item>>, completion: seq<nat>)
    returns (results: map<StoryId, Item>)
    requires |fetched| == |ids|
    requires IsCompletionOrder(completion, |ids|)
    ensures results == Collected(ids, fetched, completion)
  {
    results := map[];
    for k := 0 to |completion|
      invariant results == Collected(ids, fetched, completion[..k])
    {
      assert completion[..k + 1][..k] == completion[..k];
      var p := completion[k];
      var answer := fetched[p];
      if Truthy(answer) {
        results := results[ids[p] := answer.value];
      }
    }
    assert completion[..|completion|] == completion;
  }

  // ---------------------------------------------------------------------------
  // Assembling the stories in ranking order
  // ---------------------------------------------------------------------------

  /**
    The positions of `ids` that yield a story, in increasing order: exactly
    the positions whose ID has an entry in `results`, each once.
   */
  function KeptPositions(ids: seq<StoryId>, results: map<StoryId, Item>): (ps: seq<nat>)
    ensures |ps| <= |ids|
    ensures forall j :: 0 <= j < |ps| ==> ps[j] < |ids| && ids[ps[j]] in results
    ensures forall i, j :: 0 <= i < j < |ps| ==> ps[i] < ps[j]
    ensures forall p :: 0 <= p < |ids| && ids[p] in results ==> p in ps
    decreases |ids|
  {
    if ids == [] then []
    else
      var last := |ids| - 1;
      var ps := KeptPositions(ids[..last], results);
      if ids[last] in results then ps + [last] else ps
  }

  /** The `stories` list built from `results` by walking `ids` in order. */
  function StoriesOf(ids: seq<StoryId>, results: map<StoryId, Item>): (stories: seq<Story>)
  {
    var ps := KeptPositions(ids, results);
    seq(|ps|, j requires 0 <= j < |ps| => FormatStory(results[ids[ps[j]]]))
  }

  /** Walking one more ID appends its story when it has an entry, and nothing otherwise. */
  lemma StoriesOfStep(ids: seq<StoryId>, results: map<StoryId, Item>, n: nat)
    requires n < |ids|
    ensures StoriesOf(ids[..n + 1], results) ==
      StoriesOf(ids[..n], results) + (if ids[n] in results then [FormatStory(results[ids[n]])] else [])
  {
    var longer := ids[..n + 1];
    assert longer[..n] == ids[..n];
    var ps := KeptPositions(ids[..n], results);
    var ps' := KeptPositions(longer, results);
    assert ps' == if ids[n] in results then ps + [n] else ps;
    var s := StoriesOf(ids[..n], results);
    var s' := StoriesOf(longer, results);
    forall j | 0 <= j < |ps|
      ensures s'[j] == s[j]
    {
      assert ps'[j] == ps[j] && longer[ps[j]] == ids[..n][ps[j]];
    }
  }

  /** The second loop of `main`: format the collected item of each ID, in ranking order. */
  method AssembleStories(ids: seq<StoryId>, results: map<StoryId, Item>) returns (stories: seq<Story>)
    ensures stories == StoriesOf(ids, results)
  {
    stories := [];
    for i := 0 to |ids|
      invariant stories == StoriesOf(ids[..i], results)
    {
      StoriesOfStep(ids, results, i);
      if ids[i] in results {
        stories := stories + [FormatStory(results[ids[i]])];
      }
    }
    assert ids[..|ids|] == ids;
  }

  // ---------------------------------------------------------------------------
  // The whole tool
  // ---------------------------------------------------------------------------

  /**
    The reference output: what the tool emits when the requests complete in
    submission order, i.e. as if the stories were fetched one after another.
   */
  function SequentialFrontPage(requested: Option<int>, ranking: seq<StoryId>, fetched: seq<Option<Item>>): (stories: seq<Story>)
    requires |fetched| == |SelectedIds(ranking, requested)|
  {
    var ids := SelectedIds(ranking, requested);
    StoriesOf(ids, Collected(ids, fetched, InOrder(|ids|)))
  }

  /** `main`, with the ranking, the answers and their completion order supplied by the network. */
  method GetFrontPage(requested: Option<int>, ranking: seq<StoryId>, fetched: seq<Option<Item>>, completion: seq<nat>)
    returns (page: Page)
    requires |fetched| == |SelectedIds(ranking, requested)|
    requires IsCompletionOrder(completion, |fetched|)
    ensures page.count == |page.stories|
    ensures page.count <= EffectiveLimit(requested) && page.count <= |ranking| && page.count <= MAX_LIMIT
    ensures page.stories ==
      StoriesOf(SelectedIds(ranking, requested), Collected(SelectedIds(ranking, requested), fetched, completion))
    ensures DeterministicFetches(SelectedIds(ranking, requested), fetched) ==>
      page.stories == SequentialFrontPage(requested, ranking, fetched)
  {
    var limit := EffectiveLimit(requested);
    var ids := SliceTo(ranking, limit);
    var results := CollectResults(ids, fetched, completion);
    var stories := AssembleStories(ids, results);
    page := Page(stories, |stories|);
    if DeterministicFetches(ids, fetched) {
      InOrderIsCompletionOrder(|ids|);
      CollectedIgnoresCompletionOrder(ids, fetched, completion, InOrder(|ids|));
    }
  }

  /**
    Under deterministic fetches, a selected position yields a story exactly
    when its answer is truthy, and the stories follow the ranking, each
    formatted from that answer, whatever the completion order.
   */
  lemma FrontPageStories(ids: seq<StoryId>, fetched: seq<Option<Item>>, completion: seq<nat>, results: map<StoryId, Item>)
    requires DeterministicFetches(ids, fetched)
    requires IsCompletionOrder(completion, |ids|)
    requires results == Collected(ids, fetched, completion)
    ensures forall p :: 0 <= p < |ids| ==> (p in KeptPositions(ids, results) <==> Truthy(fetched[p]))
    ensures |StoriesOf(ids, results)| == |KeptPositions(ids, results)|
    ensures forall j :: 0 <= j < |StoriesOf(ids, results)| ==>
      var p := KeptPositions(ids, results)[j];
      Truthy(fetched[p]) && StoriesOf(ids, results)[j] == FormatStory(fetched[p].value)
  {
    CollectedUnderDeterministicFetches(ids, fetched, completion);
  }
}
