/**
 * The heap of ucs and astar (src/algorithms.py), modelled as a multiset of
 * entries from which some entry of minimal key is popped, and the facts that make
 * those searches return shortest ladders: lazy deletion skips words already
 * expanded, the cost recorded for an expanded word is optimal, and every ladder
 * that leaves the expanded words passes through a queued entry no dearer than it.
 */
module HeapQueue {
  import opened Wrappers
  import opened Graph
  import opened Ladders
  import opened Search

  /** A heap entry: its priority key, the accumulated cost, the word and the ladder that reached it. */
  datatype Item = Item(key: nat, cost: nat, word: string, path: seq<string>)

  /** Every entry carries a ladder from start to its word whose cost is its number of steps. */
  ghost predicate ItemsValid(g: Adjacency, start: string, heap: multiset<Item>)
  {
    forall it :: it in heap ==> LadderFrom(g, it.path, start) && Last(it.path) == it.word && it.cost == |it.path| - 1
  }

  /** Keys are cost plus the estimate h of the entry's word. */
  ghost predicate KeysFollow(heap: multiset<Item>, h: string -> nat)
  {
    forall it :: it in heap ==> it.key == it.cost + h(it.word)
  }

  /** The estimate drops by at most one across an edge. */
  ghost predicate Consistent(g: Adjacency, h: string -> nat)
  {
    forall u, v :: u in g && v in g[u] ==> h(u) <= h(v) + 1
  }

  /** Some entry for word w with cost at most `bound` is still in the heap. */
  ghost predicate Pending(heap: multiset<Item>, w: string, bound: int)
  {
    exists it :: it in heap && it.word == w && it.cost <= bound
  }

  /**
   * Expanded words are nodes; the start word is expanded or pending at cost 0;
   * every neighbour of an expanded word u is expanded or pending at cost
   * visited[u] + 1, except the neighbours `todo` of `current` still to be pushed.
   */
  ghost predicate FrontierBut(g: Adjacency, start: string, visited: map<string, nat>,
                              heap: multiset<Item>, current: string, todo: set<string>)
  {
    && (forall u :: u in visited ==> u in g)
    && (start in visited || Pending(heap, start, 0))
    && (forall u, v :: u in visited && u in g && v in g[u] && (u != current || v !in todo) ==>
          v in visited || Pending(heap, v, visited[u] + 1))
  }

  ghost predicate Frontier(g: Adjacency, start: string, visited: map<string, nat>, heap: multiset<Item>)
  {
    FrontierBut(g, start, visited, heap, start, {})
  }

  /** No ladder reaches an expanded word for less than the cost recorded for it. */
  ghost predicate CostsOptimal(g: Adjacency, start: string, visited: map<string, nat>)
  {
    forall q :: LadderFrom(g, q, start) && Last(q) in visited ==> visited[Last(q)] <= |q| - 1
  }

  /** The loop invariant of ucs and astar. */
  ghost predicate HeapInvariant(g: Adjacency, start: string, goal: string, heap: multiset<Item>,
                                visited: map<string, nat>, h: string -> nat)
  {
    && ItemsValid(g, start, heap)
    && KeysFollow(heap, h)
    && Frontier(g, start, visited, heap)
    && CostsOptimal(g, start, visited)
    && goal !in visited
    && (forall it :: it in heap ==> it.word in g || it.word == start)
    && (start !in g ==> visited == map[] && heap == multiset{Item(h(start), 0, start, [start])})
  }

  /** The invariant of the loop that pushes the neighbours of `current`. */
  ghost predicate PushInvariant(g: Adjacency, start: string, goal: string, heap: multiset<Item>,
                                visited: map<string, nat>, h: string -> nat,
                                current: string, cost: nat, path: seq<string>, todo: set<string>)
  {
    && ItemsValid(g, start, heap)
    && KeysFollow(heap, h)
    && FrontierBut(g, start, visited, heap, current, todo)
    && CostsOptimal(g, start, visited)
    && goal !in visited
    && (forall it :: it in heap ==> it.word in g)
    && start in g && current in g && todo <= g[current]
    && current in visited && visited[current] == cost
    && LadderFrom(g, path, start) && Last(path) == current && cost == |path| - 1
  }

  /** A non-empty heap has an entry of minimal key. */
  lemma MinKeyExists(heap: multiset<Item>) returns (m: Item)
    requires |heap| > 0
    ensures m in heap && forall x :: x in heap ==> m.key <= x.key
    decreases |heap|
  {
    var x :| x in heap;
    var rest := heap - multiset{x};
    if |rest| == 0 {
      m := x;
      assert heap == rest + multiset{x};
    } else {
      var m' := MinKeyExists(rest);
      m := if x.key <= m'.key then x else m';
      forall y | y in heap ensures m.key <= y.key {
        if y != x { assert y in rest; }
      }
    }
  }

  /** The heap holding only the start entry satisfies the invariant. */
  lemma InitialHeap(g: Adjacency, start: string, goal: string, h: string -> nat)
    ensures HeapInvariant(g, start, goal, multiset{Item(h(start), 0, start, [start])}, map[], h)
  {
    var it := Item(h(start), 0, start, [start]);
    assert it in multiset{it};
    assert LadderFrom(g, [start], start);
    assert Pending(multiset{it}, start, 0);
  }

  /** Along a ladder, a consistent estimate falls by at most one per step. */
  lemma {:induction false} ConsistentAlongLadder(g: Adjacency, h: string -> nat, q: seq<string>, i: int)
    requires Consistent(g, h) && IsLadder(g, q) && 0 <= i < |q|
    ensures h(q[i]) <= (|q| - 1 - i) + h(Last(q))
    decreases |q| - i
  {
    if i < |q| - 1 {
      ConsistentAlongLadder(g, h, q, i + 1);
      assert q[i] in g && q[i + 1] in g[q[i]];
    }
  }

  /**
   * A ladder from start to a word not yet expanded passes through a heap entry
   * for one of its words, q[i], whose cost is at most i.
   */
  lemma FrontierItem(g: Adjacency, start: string, visited: map<string, nat>, heap: multiset<Item>,
                     q: seq<string>) returns (it: Item, i: nat)
    requires Frontier(g, start, visited, heap) && CostsOptimal(g, start, visited)
    requires LadderFrom(g, q, start) && Last(q) !in visited
    ensures it in heap && i < |q| && it.word == q[i] && it.cost <= i
    decreases |q|
  {
    if |q| == 1 {
      it :| it in heap && it.word == start && it.cost <= 0;
      i := 0;
    } else {
      var p := q[..|q| - 1];
      LadderPrefix(g, q, start, |q| - 1);
      if Last(p) !in visited {
        it, i := FrontierItem(g, start, visited, heap, p);
      } else {
        var u := Last(p);
        assert u == q[|q| - 2] && q[|q| - 1] in g[u];
        it :| it in heap && it.word == Last(q) && it.cost <= visited[u] + 1;
        i := |q| - 1;
      }
    }
  }

  /** A popped entry of minimal key for a word not yet expanded carries an optimal cost. */
  lemma PopIsOptimal(g: Adjacency, start: string, visited: map<string, nat>, heap: multiset<Item>,
                     h: string -> nat, it: Item)
    requires Frontier(g, start, visited, heap) && CostsOptimal(g, start, visited)
    requires KeysFollow(heap, h) && Consistent(g, h)
    requires it in heap && (forall x :: x in heap ==> it.key <= x.key) && it.word !in visited
    ensures NoShorter(g, start, it.word, it.cost + 1)
  {
    forall q | LadderFrom(g, q, start) && Last(q) == it.word ensures it.cost + 1 <= |q| {
      var x, i := FrontierItem(g, start, visited, heap, q);
      ConsistentAlongLadder(g, h, q, i);
    }
  }

  /** Popping the goal answers with its ladder, which is a shortest one. */
  lemma FoundGoal(g: Adjacency, start: string, goal: string, heap: multiset<Item>,
                  visited: map<string, nat>, h: string -> nat, it: Item)
    requires HeapInvariant(g, start, goal, heap, visited, h) && Consistent(g, h)
    requires it in heap && (forall x :: x in heap ==> it.key <= x.key) && it.word == goal
    ensures Answers(g, start, goal, Ok(Some(it.path)))
  {
    PopIsOptimal(g, start, visited, heap, h, it);
  }

  /** A popped word that is already expanded was expanded no dearer, so the entry is skipped. */
  lemma SkipExpanded(g: Adjacency, start: string, goal: string, heap: multiset<Item>,
                     visited: map<string, nat>, h: string -> nat, it: Item)
    requires HeapInvariant(g, start, goal, heap, visited, h)
    requires it in heap && it.word in visited
    ensures visited[it.word] <= it.cost
    ensures HeapInvariant(g, start, goal, heap - multiset{it}, visited, h)
  {
    var heap' := heap - multiset{it};
    forall x | x in heap' ensures x in heap { }
    forall w, b | Pending(heap, w, b) && w != it.word ensures Pending(heap', w, b) {
      PopKeepsPending(heap, it, w, b);
    }
  }

  /** Popping a word that is not a node (only the start word can be one) raises. */
  lemma MissingNode(g: Adjacency, start: string, goal: string, heap: multiset<Item>,
                    visited: map<string, nat>, h: string -> nat, it: Item)
    requires HeapInvariant(g, start, goal, heap, visited, h)
    requires it in heap && it.word != goal && it.word !in g
    ensures it.word == start && it.word !in visited
    ensures Answers(g, start, goal, Err(NodeNotInGraph(it.word)))
  {
  }

  /** Removing one entry leaves pending every other word. */
  lemma PopKeepsPending(heap: multiset<Item>, it: Item, w: string, b: int)
    requires Pending(heap, w, b) && w != it.word
    ensures Pending(heap - multiset{it}, w, b)
  {
    var y :| y in heap && y.word == w && y.cost <= b;
    assert y in heap - multiset{it};
  }

  /** After the pop, the frontier holds except for the neighbours of the newly expanded word. */
  lemma ExpandFrontier(g: Adjacency, start: string, visited: map<string, nat>, heap: multiset<Item>,
                       it: Item)
    requires Frontier(g, start, visited, heap)
    requires it in heap && it.word !in visited && it.word in g
    ensures FrontierBut(g, start, visited[it.word := it.cost], heap - multiset{it}, it.word, g[it.word])
  {
    var heap' := heap - multiset{it};
    var visited' := visited[it.word := it.cost];
    if start != it.word && start !in visited {
      PopKeepsPending(heap, it, start, 0);
    }
    forall u, v | u in visited' && u in g && v in g[u] && (u != it.word || v !in g[it.word])
      ensures v in visited' || Pending(heap', v, visited'[u] + 1)
    {
      assert u in visited && visited'[u] == visited[u];
      if v !in visited' {
        PopKeepsPending(heap, it, v, visited[u] + 1);
      }
    }
  }

  /** Recording the popped word at its optimal cost keeps every recorded cost optimal. */
  lemma ExpandCosts(g: Adjacency, start: string, visited: map<string, nat>, it: Item)
    requires CostsOptimal(g, start, visited) && NoShorter(g, start, it.word, it.cost + 1)
    ensures CostsOptimal(g, start, visited[it.word := it.cost])
  {
  }

  /** Expanding a popped word not yet expanded starts the loop that pushes its neighbours. */
  lemma StartExpand(g: Adjacency, start: string, goal: string, heap: multiset<Item>,
                    visited: map<string, nat>, h: string -> nat, it: Item)
    requires HeapInvariant(g, start, goal, heap, visited, h) && Consistent(g, h)
    requires it in heap && (forall x :: x in heap ==> it.key <= x.key)
    requires it.word !in visited && it.word != goal && it.word in g
    ensures PushInvariant(g, start, goal, heap - multiset{it}, visited[it.word := it.cost], h,
                          it.word, it.cost, it.path, g[it.word])
  {
    PopIsOptimal(g, start, visited, heap, h, it);
    ExpandFrontier(g, start, visited, heap, it);
    ExpandCosts(g, start, visited, it);
    var heap' := heap - multiset{it};
    forall x | x in heap' ensures x in heap { }
    assert start in g;
  }

  /** Pushing an entry for a neighbour still to be pushed keeps every other word's frontier promise. */
  lemma PushFrontier(g: Adjacency, start: string, visited: map<string, nat>, heap: multiset<Item>,
                     current: string, todo: set<string>, x: Item)
    requires FrontierBut(g, start, visited, heap, current, todo)
    requires current in visited && x.cost <= visited[current] + 1
    ensures FrontierBut(g, start, visited, heap + multiset{x}, current, todo - {x.word})
  {
    var heap' := heap + multiset{x};
    forall w, b | Pending(heap, w, b) ensures Pending(heap', w, b) {
      var y :| y in heap && y.word == w && y.cost <= b;
      assert y in heap';
    }
    assert Pending(heap', x.word, visited[current] + 1) by {
      assert x in heap';
    }
  }

  /** Pushing a neighbour with the ladder extended by it keeps the push invariant. */
  lemma Push(g: Adjacency, start: string, goal: string, heap: multiset<Item>,
             visited: map<string, nat>, h: string -> nat,
             current: string, cost: nat, path: seq<string>, todo: set<string>, n: string, key: nat)
    requires Closed(g)
    requires PushInvariant(g, start, goal, heap, visited, h, current, cost, path, todo)
    requires n in todo && key == cost + 1 + h(n)
    ensures PushInvariant(g, start, goal, heap + multiset{Item(key, cost + 1, n, path + [n])},
                          visited, h, current, cost, path, todo - {n})
  {
    var x := Item(key, cost + 1, n, path + [n]);
    var heap' := heap + multiset{x};
    LadderExtend(g, path, start, n);
    assert n in g;
    forall y | y in heap' ensures y in heap || y == x { }
    PushFrontier(g, start, visited, heap, current, todo, x);
  }

  /** Once every neighbour is pushed, the loop invariant holds again. */
  lemma FinishExpand(g: Adjacency, start: string, goal: string, heap: multiset<Item>,
                     visited: map<string, nat>, h: string -> nat,
                     current: string, cost: nat, path: seq<string>)
    requires PushInvariant(g, start, goal, heap, visited, h, current, cost, path, {})
    ensures HeapInvariant(g, start, goal, heap, visited, h)
  {
  }

  /** An empty heap means the goal is unreachable. */
  lemma HeapExhausted(g: Adjacency, start: string, goal: string, visited: map<string, nat>,
                      h: string -> nat)
    requires HeapInvariant(g, start, goal, multiset{}, visited, h)
    ensures Answers(g, start, goal, Ok(None))
  {
    forall q | LadderFrom(g, q, start) ensures Last(q) != goal {
      if Last(q) == goal {
        var x, i := FrontierItem(g, start, visited, multiset{}, q);
      }
    }
  }

  /** Expanding a word that is a node and not yet expanded shrinks the set of unexpanded nodes. */
  lemma ExpandShrinks(all: set<string>, visited: map<string, nat>, w: string, c: nat)
    requires w in all && w !in visited
    ensures |all - visited[w := c].Keys| < |all - visited.Keys|
  {
    assert all - visited[w := c].Keys == (all - visited.Keys) - {w};
  }
}
