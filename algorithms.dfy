/**
 * The searches of src/algorithms.py over an adjacency map: breadth-first search,
 * uniform-cost search, A* with the mismatch-count heuristic, and the dispatcher
 * that chooses among them by name.
 */
module Algorithms {
  import opened Wrappers
  import opened Graph
  import opened Ladders
  import opened Search
  import opened BfsQueue
  import HeapQueue

  /** bfs: FIFO queue of (word, ladder); a word is marked visited when it is enqueued. */
  method Bfs(g: Adjacency, start: string, goal: string) returns (r: SearchResult)
    requires Closed(g)
    ensures Answers(g, start, goal, r)
  {
    var queue := [Entry(start, [start])];
    var visited := {start};
    ghost var expanded: set<string> := {};
    ghost var level: nat := 1;
    InitialQueue(g, start, goal);
    while queue != []
      invariant BfsInvariant(g, start, goal, queue, visited, expanded, level)
      decreases |g.Keys - visited|, |queue|
    {
      if |queue[0].path| == level + 1 {
        NextLevel(g, start, goal, queue, visited, expanded, level);
        level := level + 1;
      }
      var current, path := queue[0].word, queue[0].path;
      if current == goal {
        FoundGoal(g, start, goal, queue, visited, expanded, level);
        return Ok(Some(path));
      }
      if current !in g {
        MissingNode(g, start, goal, queue, visited, expanded, level);
        return Err(NodeNotInGraph(current));
      }
      StartExpand(g, start, goal, queue, visited, expanded, level);
      queue := queue[1..];
      expanded := expanded + {current};
      ghost var visited0 := visited;
      ghost var queue0 := queue;
      var neighbours := g[current];
      while neighbours != {}
        invariant ExpandInvariant(g, start, goal, queue, visited, expanded, level, current, path, neighbours)
        invariant visited0 <= visited <= g.Keys + {start}
        invariant (visited == visited0 && queue == queue0) || |g.Keys - visited| < |g.Keys - visited0|
        decreases neighbours
      {
        var neighbour :| neighbour in neighbours;
        if neighbour !in visited {
          Enqueue(g, start, goal, queue, visited, expanded, level, current, path, neighbours, neighbour);
          VisitShrinks(g.Keys, visited, neighbour);
          visited := visited + {neighbour};
          queue := queue + [Entry(neighbour, path + [neighbour])];
        } else {
          Skip(g, start, goal, queue, visited, expanded, level, current, path, neighbours, neighbour);
        }
        neighbours := neighbours - {neighbour};
      }
      FinishExpand(g, start, goal, queue, visited, expanded, level, current, path);
    }
    QueueExhausted(g, start, goal, visited, expanded, level);
    return Ok(None);
  }

  /**
   * The inner loop of ucs and astar: push every neighbour of `current` one step
   * dearer, keyed on the new cost plus the estimate h of the neighbour.
   */
  method PushNeighbours(g: Adjacency, ghost start: string, ghost goal: string, heap: multiset<HeapQueue.Item>,
                        ghost visited: map<string, nat>, h: string -> nat,
                        current: string, cost: nat, path: seq<string>) returns (heap': multiset<HeapQueue.Item>)
    requires Closed(g)
    requires current in g && HeapQueue.PushInvariant(g, start, goal, heap, visited, h, current, cost, path, g[current])
    ensures HeapQueue.HeapInvariant(g, start, goal, heap', visited, h)
  {
    heap' := heap;
    var neighbours := g[current];
    while neighbours != {}
      invariant HeapQueue.PushInvariant(g, start, goal, heap', visited, h, current, cost, path, neighbours)
      decreases neighbours
    {
      var neighbour :| neighbour in neighbours;
      var newCost := cost + 1;
      var key := newCost + h(neighbour);
      HeapQueue.Push(g, start, goal, heap', visited, h, current, cost, path, neighbours, neighbour, key);
      heap' := heap' + multiset{HeapQueue.Item(key, newCost, neighbour, path + [neighbour])};
      neighbours := neighbours - {neighbour};
    }
    HeapQueue.FinishExpand(g, start, goal, heap', visited, h, current, cost, path);
  }

  /** ucs keys entries by cost alone: an estimate that is zero everywhere. */
  function NoEstimate(word: string): nat
  {
    0
  }

  /** ucs: a heap keyed on accumulated cost; a popped word already expanded no dearer is skipped. */
  method Ucs(g: Adjacency, start: string, goal: string) returns (r: SearchResult)
    requires Closed(g)
    ensures Answers(g, start, goal, r)
  {
    var h: string -> nat := NoEstimate;
    var heap := multiset{HeapQueue.Item(0, 0, start, [start])};
    var visited: map<string, nat> := map[];
    HeapQueue.InitialHeap(g, start, goal, h);
    while heap != multiset{}
      invariant HeapQueue.HeapInvariant(g, start, goal, heap, visited, h)
      decreases |g.Keys - visited.Keys|, |heap|
    {
      ghost var least := HeapQueue.MinKeyExists(heap);
      var entry :| entry in heap && forall x :: x in heap ==> entry.key <= x.key;
      ghost var heap0, visited0 := heap, visited;
      heap := heap - multiset{entry};
      var cost, current, path := entry.cost, entry.word, entry.path;
      if current == goal {
        HeapQueue.FoundGoal(g, start, goal, heap0, visited, h, entry);
        return Ok(Some(path));
      }
      if current in visited {
        HeapQueue.SkipExpanded(g, start, goal, heap0, visited, h, entry);
      }
      if current in visited && visited[current] <= cost {
        continue;
      }
      visited := visited[current := cost];
      if current !in g {
        HeapQueue.MissingNode(g, start, goal, heap0, visited0, h, entry);
        return Err(NodeNotInGraph(current));
      }
      HeapQueue.ExpandShrinks(g.Keys, visited0, current, cost);
      HeapQueue.StartExpand(g, start, goal, heap0, visited0, h, entry);
      heap := PushNeighbours(g, start, goal, heap, visited, h, current, cost, path);
    }
    HeapQueue.HeapExhausted(g, start, goal, visited, h);
    return Ok(None);
  }

  /** heuristic: the number of mismatching positions among those both words have. */
  function Heuristic(word: string, goal: string): (r: nat)
    ensures r <= |word| && r <= |goal|
  {
    Mismatches(word, goal)
  }

  /** The estimate at the goal itself is zero. */
  lemma HeuristicAtGoal(goal: string)
    ensures Heuristic(goal, goal) == 0
  {
    MismatchesZero(goal, goal);
  }

  /** Across a one-letter step the estimate changes by at most one. */
  lemma HeuristicStep(u: string, v: string, goal: string)
    requires DifferByOne(u, v)
    ensures Heuristic(u, goal) <= Heuristic(v, goal) + 1
    ensures Heuristic(v, goal) <= Heuristic(u, goal) + 1
  {
    MismatchesTriangle(u, v, goal);
    MismatchesTriangle(v, u, goal);
    MismatchesSymmetric(u, v);
  }

  /** On a graph of one-letter edges the estimate is consistent. */
  lemma HeuristicConsistent(g: Adjacency, goal: string)
    requires OneLetterEdges(g)
    ensures HeapQueue.Consistent(g, w => Heuristic(w, goal))
  {
    forall u, v | u in g && v in g[u] ensures Heuristic(u, goal) <= Heuristic(v, goal) + 1 {
      HeuristicStep(u, v, goal);
    }
  }

  /** Admissible: the estimate never exceeds the number of steps of any ladder to the goal. */
  lemma HeuristicAdmissible(g: Adjacency, q: seq<string>, goal: string)
    requires OneLetterEdges(g) && |q| > 0 && IsLadder(g, q) && Last(q) == goal
    ensures Heuristic(q[0], goal) <= |q| - 1
  {
    HeuristicConsistent(g, goal);
    HeapQueue.ConsistentAlongLadder(g, w => Heuristic(w, goal), q, 0);
    HeuristicAtGoal(goal);
  }

  /** astar: a heap keyed on cost plus heuristic, with the same lazy skipping as ucs. */
  method AStar(g: Adjacency, start: string, goal: string) returns (r: SearchResult)
    requires Closed(g) && OneLetterEdges(g)
    ensures Answers(g, start, goal, r)
  {
    var h: string -> nat := w => Heuristic(w, goal);
    HeuristicConsistent(g, goal);
    var heap := multiset{HeapQueue.Item(Heuristic(start, goal), 0, start, [start])};
    var visited: map<string, nat> := map[];
    HeapQueue.InitialHeap(g, start, goal, h);
    while heap != multiset{}
      invariant HeapQueue.HeapInvariant(g, start, goal, heap, visited, h)
      decreases |g.Keys - visited.Keys|, |heap|
    {
      ghost var least := HeapQueue.MinKeyExists(heap);
      var entry :| entry in heap && forall x :: x in heap ==> entry.key <= x.key;
      ghost var heap0, visited0 := heap, visited;
      heap := heap - multiset{entry};
      var cost, current, path := entry.cost, entry.word, entry.path;
      if current == goal {
        HeapQueue.FoundGoal(g, start, goal, heap0, visited, h, entry);
        return Ok(Some(path));
      }
      if current in visited {
        HeapQueue.SkipExpanded(g, start, goal, heap0, visited, h, entry);
      }
      if current in visited && visited[current] <= cost {
        continue;
      }
      visited := visited[current := cost];
      if current !in g {
        HeapQueue.MissingNode(g, start, goal, heap0, visited0, h, entry);
        return Err(NodeNotInGraph(current));
      }
      HeapQueue.ExpandShrinks(g.Keys, visited0, current, cost);
      HeapQueue.StartExpand(g, start, goal, heap0, visited0, h, entry);
      heap := PushNeighbours(g, start, goal, heap, visited, h, current, cost, path);
    }
    HeapQueue.HeapExhausted(g, start, goal, visited, h);
    return Ok(None);
  }

  /** The three searches search_path can dispatch to. */
  datatype Algorithm = BreadthFirst | UniformCost | AStarSearch

  /** str.lower on one character, for the ASCII letters. */
  function LowerChar(c: char): char
  {
    if 'A' <= c <= 'Z' then (c as int - 'A' as int + 'a' as int) as char else c
  }

  /** str.lower: every character lowered, nothing else changed. */
  function Lower(s: string): (r: string)
    ensures |r| == |s|
    ensures forall i :: 0 <= i < |s| ==> r[i] == LowerChar(s[i])
  {
    if s == [] then [] else [LowerChar(s[0])] + Lower(s[1..])
  }

  /** Lowering twice is lowering once. */
  lemma LowerIdempotent(s: string)
    ensures Lower(Lower(s)) == Lower(s)
  {
    assert forall i :: 0 <= i < |s| ==> LowerChar(LowerChar(s[i])) == LowerChar(s[i]);
  }

  /** The lower-case name search_path accepts for each search. */
  function Name(a: Algorithm): string
  {
    match a
    case BreadthFirst => "bfs"
    case UniformCost => "ucs"
    case AStarSearch => "astar"
  }

  /** search_path's choice: the name, lower-cased, must be one of the three; anything else raises ValueError. */
  function ParseAlgorithm(name: string): (r: Result<Algorithm, SearchError>)
    ensures r.Ok? ==> Lower(name) == Name(r.value)
    ensures r.Err? ==> r.error == UnknownAlgorithm && forall a :: Lower(name) != Name(a)
  {
    var lowered := Lower(name);
    if lowered == "bfs" then Ok(BreadthFirst)
    else if lowered == "ucs" then Ok(UniformCost)
    else if lowered == "astar" then Ok(AStarSearch)
    else Err(UnknownAlgorithm)
  }

  /** Each search's own name selects it. */
  lemma ParseName(a: Algorithm)
    ensures ParseAlgorithm(Name(a)) == Ok(a)
  {
    var n := Name(a);
    assert Lower(n) == n by {
      forall i | 0 <= i < |n| ensures LowerChar(n[i]) == n[i] {
      }
    }
  }

  /** The choice ignores case: a name and its lower-case form select the same search. */
  lemma ParseIgnoresCase(name: string)
    ensures ParseAlgorithm(name) == ParseAlgorithm(Lower(name))
  {
    LowerIdempotent(name);
  }

  /**
   * search_path: run the named search. An unknown name raises whatever the graph;
   * otherwise the answer is the chosen search's (all three share one contract).
   */
  method SearchPath(g: Adjacency, start: string, goal: string, algorithm: string := "bfs") returns (r: SearchResult)
    requires Closed(g)
    requires ParseAlgorithm(algorithm) == Ok(AStarSearch) ==> OneLetterEdges(g)
    ensures ParseAlgorithm(algorithm).Err? <==> r == Err(UnknownAlgorithm)
    ensures ParseAlgorithm(algorithm).Ok? ==> Answers(g, start, goal, r)
  {
    var choice := ParseAlgorithm(algorithm);
    match choice {
      case Err(_) =>
        r := Err(UnknownAlgorithm);
      case Ok(BreadthFirst) =>
        r := Bfs(g, start, goal);
      case Ok(UniformCost) =>
        r := Ucs(g, start, goal);
      case Ok(AStarSearch) =>
        r := AStar(g, start, goal);
    }
  }
}
