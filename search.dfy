/** What every search of src/algorithms.py returns, and the contract they share. */
module Search {
  import opened Wrappers
  import opened Graph
  import opened Ladders

  /** Why a search raises instead of answering. */
  datatype SearchError =
    | NodeNotInGraph(word: string)  // networkx's neighbors() on a word that is not a node
    | UnknownAlgorithm               // the ValueError of search_path

  /** A found ladder, Python's None (no ladder), or a raised error. */
  type SearchResult = Result<Option<seq<string>>, SearchError>

  /**
   * The contract all three searches share: they raise exactly when the start word
   * is not a node and is not already the goal; a found ladder leads from start to
   * goal with the fewest words; None means no ladder exists.
   */
  ghost predicate Answers(g: Adjacency, start: string, goal: string, r: SearchResult)
  {
    && (r.Err? <==> start !in g && start != goal)
    && (r.Err? ==> r.error == NodeNotInGraph(start))
    && (r.Ok? && r.value.Some? ==> Shortest(g, r.value.value, start, goal))
    && (r.Ok? && r.value.None? ==> Unreachable(g, start, goal))
  }

  /** A set that holds start and every neighbour of its members, but not goal, shows goal unreachable. */
  lemma ClosedSetExcludes(g: Adjacency, start: string, goal: string, inside: set<string>)
    requires start in inside && goal !in inside
    requires forall u :: u in inside ==> u in g && g[u] <= inside
    ensures Unreachable(g, start, goal)
  {
    forall q | LadderFrom(g, q, start) ensures Last(q) != goal {
      LadderStaysInside(g, q, start, inside);
    }
  }

  /** Searching from a word to itself answers with that word alone (bfs(g, w, w) == [w]). */
  lemma SearchToSelf(g: Adjacency, w: string, r: SearchResult)
    requires Answers(g, w, w, r)
    ensures r == Ok(Some([w]))
  {
    assert LadderFrom(g, [w], w);
    if r.Ok? && r.value.Some? {
      ShortestToSelf(g, r.value.value, w);
    }
  }

  /**
   * Any two searches that keep the shared contract agree: both raise or neither
   * does, both find a ladder or neither does, and found ladders are equally long.
   */
  lemma AnswersAgree(g: Adjacency, start: string, goal: string, r1: SearchResult, r2: SearchResult)
    requires Answers(g, start, goal, r1) && Answers(g, start, goal, r2)
    ensures r1.Err? <==> r2.Err?
    ensures r1.Ok? && r2.Ok? ==> (r1.value.Some? <==> r2.value.Some?)
    ensures r1.Ok? && r2.Ok? && r1.value.Some? && r2.value.Some? ==> |r1.value.value| == |r2.value.value|
  {
    if r1.Ok? && r1.value.Some? {
      assert LadderFrom(g, r1.value.value, start) && Last(r1.value.value) == goal;
    }
    if r2.Ok? && r2.value.Some? {
      assert LadderFrom(g, r2.value.value, start) && Last(r2.value.value) == goal;
    }
  }
}
