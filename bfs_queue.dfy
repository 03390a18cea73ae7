/**
 * The deque of bfs (src/algorithms.py) and the facts that make it a
 * breadth-first search: entries leave in order of ladder length, every queued
 * ladder is a shortest one, and every word within the current level is visited.
 */
module BfsQueue {
  import opened Wrappers
  import opened Graph
  import opened Ladders
  import opened Search

  /** A deque entry: a word and the ladder that reached it. */
  datatype Entry = Entry(word: string, path: seq<string>)

  function QueuedWords(queue: seq<Entry>): set<string>
  {
    set e | e in queue :: e.word
  }

  /** Every entry carries a ladder from start that ends at its word. */
  ghost predicate EntriesValid(g: Adjacency, start: string, queue: seq<Entry>)
  {
    forall e :: e in queue ==> LadderFrom(g, e.path, start) && Last(e.path) == e.word
  }

  /** Ladder lengths never decrease along the queue and span at most two levels. */
  ghost predicate Layered(queue: seq<Entry>, level: nat)
  {
    (forall i, j :: 0 <= i <= j < |queue| ==> |queue[i].path| <= |queue[j].path|) &&
    (forall e :: e in queue ==> level <= |e.path| <= level + 1)
  }

  /** Each queued ladder is a shortest ladder to its word. */
  ghost predicate EntriesShortest(g: Adjacency, start: string, queue: seq<Entry>)
  {
    forall e :: e in queue ==> NoShorter(g, start, e.word, |e.path|)
  }

  /** Every word that a ladder of at most `level` words reaches is visited. */
  ghost predicate LevelCovered(g: Adjacency, start: string, visited: set<string>, level: nat)
  {
    forall q :: LadderFrom(g, q, start) && |q| <= level ==> Last(q) in visited
  }

  /** Every expanded word is a node, and all its neighbours are visited. */
  ghost predicate ExpandedClosed(g: Adjacency, expanded: set<string>, visited: set<string>)
  {
    forall u :: u in expanded ==> u in g && g[u] <= visited
  }

  /**
   * Each word enters the queue at most once, because it is marked visited when it
   * is enqueued: queued words are pairwise distinct and none is expanded.
   */
  ghost predicate QueuedOnce(queue: seq<Entry>, expanded: set<string>)
  {
    (forall i, j :: 0 <= i < j < |queue| ==> queue[i].word != queue[j].word) &&
    (forall e :: e in queue ==> e.word !in expanded)
  }

  /** The loop invariant of bfs; `expanded` and `level` are ghost bookkeeping. */
  ghost predicate BfsInvariant(g: Adjacency, start: string, goal: string, queue: seq<Entry>,
                               visited: set<string>, expanded: set<string>, level: nat)
  {
    && level >= 1
    && EntriesValid(g, start, queue)
    && Layered(queue, level)
    && EntriesShortest(g, start, queue)
    && LevelCovered(g, start, visited, level)
    && ExpandedClosed(g, expanded, visited)
    && QueuedOnce(queue, expanded)
    && visited == expanded + QueuedWords(queue)
    && start in visited
    && goal !in expanded
    && (forall e :: e in queue ==> e.word in g || e.word == start)
    && (start !in g ==> expanded == {} && queue == [Entry(start, [start])])
  }

  /** The queue holding only the start word satisfies the invariant at level one. */
  lemma InitialQueue(g: Adjacency, start: string, goal: string)
    ensures BfsInvariant(g, start, goal, [Entry(start, [start])], {start}, {}, 1)
  {
    var queue := [Entry(start, [start])];
    assert QueuedWords(queue) == {start} by {
      assert queue[0] in queue;
    }
    assert LadderFrom(g, [start], start);
  }

  /** When the front of the queue is one level deeper, every word one level deeper is visited. */
  lemma LevelUp(g: Adjacency, start: string, queue: seq<Entry>, visited: set<string>,
                expanded: set<string>, level: nat)
    requires level >= 1 && |queue| > 0 && |queue[0].path| == level + 1
    requires Layered(queue, level) && EntriesShortest(g, start, queue)
    requires LevelCovered(g, start, visited, level) && ExpandedClosed(g, expanded, visited)
    requires visited == expanded + QueuedWords(queue)
    ensures LevelCovered(g, start, visited, level + 1)
  {
    forall q | LadderFrom(g, q, start) && |q| <= level + 1 ensures Last(q) in visited {
      if |q| == level + 1 {
        var p := q[..level];
        LadderPrefix(g, q, start, level);
        var x := Last(p);
        assert x in visited;
        assert q[level - 1] == x;
      }
    }
  }

  /** The invariant of the inner loop that enqueues the neighbours of `current`. */
  ghost predicate ExpandInvariant(g: Adjacency, start: string, goal: string, queue: seq<Entry>,
                                  visited: set<string>, expanded: set<string>, level: nat,
                                  current: string, path: seq<string>, neighbours: set<string>)
  {
    && level >= 1
    && |path| == level && current in g && start in g
    && LadderFrom(g, path, start) && Last(path) == current
    && EntriesValid(g, start, queue)
    && Layered(queue, level)
    && EntriesShortest(g, start, queue)
    && LevelCovered(g, start, visited, level)
    && current in expanded
    && (forall u :: u in expanded && u != current ==> u in g && g[u] <= visited)
    && QueuedOnce(queue, expanded)
    && neighbours <= g[current]
    && g[current] - neighbours <= visited
    && visited == expanded + QueuedWords(queue)
    && start in visited
    && goal !in expanded
    && (forall e :: e in queue ==> e.word in g)
  }

  /** The outer invariant still holds one level deeper once the front is one level deeper. */
  lemma NextLevel(g: Adjacency, start: string, goal: string, queue: seq<Entry>,
                  visited: set<string>, expanded: set<string>, level: nat)
    requires BfsInvariant(g, start, goal, queue, visited, expanded, level)
    requires |queue| > 0 && |queue[0].path| == level + 1
    ensures BfsInvariant(g, start, goal, queue, visited, expanded, level + 1)
  {
    LevelUp(g, start, queue, visited, expanded, level);
    forall e | e in queue ensures level + 1 <= |e.path| {
      var k :| 0 <= k < |queue| && queue[k] == e;
    }
  }

  /** The entries behind the front are entries of the queue. */
  lemma RestInQueue(queue: seq<Entry>, e: Entry)
    requires |queue| > 0 && e in queue[1..]
    ensures e in queue
  {
    var k :| 0 <= k < |queue[1..]| && queue[1..][k] == e;
    assert queue[k + 1] == e;
  }

  /** Ladder lengths still never decrease once the front is removed. */
  lemma PopLayered(queue: seq<Entry>, level: nat)
    requires |queue| > 0 && Layered(queue, level)
    ensures Layered(queue[1..], level)
  {
    var rest := queue[1..];
    forall i, j | 0 <= i <= j < |rest| ensures |rest[i].path| <= |rest[j].path| {
      assert rest[i] == queue[i + 1] && rest[j] == queue[j + 1];
    }
    forall e | e in rest ensures level <= |e.path| <= level + 1 {
      RestInQueue(queue, e);
    }
  }

  /** Removing the front entry and marking its word expanded keeps every word queued once. */
  lemma PopOnce(queue: seq<Entry>, expanded: set<string>)
    requires |queue| > 0 && QueuedOnce(queue, expanded)
    ensures QueuedOnce(queue[1..], expanded + {queue[0].word})
  {
    var rest := queue[1..];
    forall i, j | 0 <= i < j < |rest| ensures rest[i].word != rest[j].word {
      assert rest[i] == queue[i + 1] && rest[j] == queue[j + 1];
    }
    forall e | e in rest ensures e.word !in expanded + {queue[0].word} {
      RestInQueue(queue, e);
      var k :| 0 <= k < |rest| && rest[k] == e;
      assert e == queue[k + 1];
    }
  }

  /** Appending an entry for a word neither queued nor expanded keeps every word queued once. */
  lemma PushOnce(queue: seq<Entry>, expanded: set<string>, x: Entry)
    requires QueuedOnce(queue, expanded) && x.word !in expanded + QueuedWords(queue)
    ensures QueuedOnce(queue + [x], expanded)
  {
    var queue' := queue + [x];
    forall i, j | 0 <= i < j < |queue'| ensures queue'[i].word != queue'[j].word {
      assert queue'[i] == queue[i] && queue[i] in queue;
      if j < |queue| {
        assert queue'[j] == queue[j];
      }
    }
    forall e | e in queue' ensures e.word !in expanded {
      if e != x {
        assert e in queue;
      }
    }
  }

  /** The queue facts survive removing the front entry. */
  lemma PopFront(g: Adjacency, start: string, queue: seq<Entry>, level: nat)
    requires |queue| > 0
    requires EntriesValid(g, start, queue) && EntriesShortest(g, start, queue) && Layered(queue, level)
    ensures EntriesValid(g, start, queue[1..]) && EntriesShortest(g, start, queue[1..])
    ensures Layered(queue[1..], level)
    ensures QueuedWords(queue) == {queue[0].word} + QueuedWords(queue[1..])
  {
    assert queue == [queue[0]] + queue[1..];
    forall e | e in queue[1..] ensures e in queue {
      RestInQueue(queue, e);
    }
    PopLayered(queue, level);
  }

  /** Popping a front entry that is not the goal and is a node starts its expansion. */
  lemma StartExpand(g: Adjacency, start: string, goal: string, queue: seq<Entry>,
                    visited: set<string>, expanded: set<string>, level: nat)
    requires BfsInvariant(g, start, goal, queue, visited, expanded, level)
    requires |queue| > 0 && |queue[0].path| == level
    requires queue[0].word != goal && queue[0].word in g
    ensures ExpandInvariant(g, start, goal, queue[1..], visited, expanded + {queue[0].word}, level,
                            queue[0].word, queue[0].path, g[queue[0].word])
  {
    PopFront(g, start, queue, level);
    PopOnce(queue, expanded);
    assert queue[0] in queue;
    assert start in g;
  }

  /** Appending an entry one level deeper keeps the queue layered and adds its word. */
  lemma PushBack(queue: seq<Entry>, x: Entry, level: nat)
    requires Layered(queue, level) && |x.path| == level + 1
    ensures Layered(queue + [x], level)
    ensures QueuedWords(queue + [x]) == QueuedWords(queue) + {x.word}
    ensures forall e :: e in queue + [x] ==> e in queue || e == x
  {
    var queue' := queue + [x];
    forall i, j | 0 <= i <= j < |queue'| ensures |queue'[i].path| <= |queue'[j].path| {
      if j < |queue| {
        assert queue'[i] == queue[i] && queue'[j] == queue[j];
      } else if i < |queue| {
        assert queue'[i] == queue[i] && queue[i] in queue;
      }
    }
  }

  /** Enqueueing an unvisited neighbour with the ladder extended by it keeps the inner invariant. */
  lemma Enqueue(g: Adjacency, start: string, goal: string, queue: seq<Entry>,
                visited: set<string>, expanded: set<string>, level: nat,
                current: string, path: seq<string>, neighbours: set<string>, n: string)
    requires Closed(g)
    requires ExpandInvariant(g, start, goal, queue, visited, expanded, level, current, path, neighbours)
    requires n in neighbours && n !in visited
    ensures ExpandInvariant(g, start, goal, queue + [Entry(n, path + [n])], visited + {n}, expanded,
                            level, current, path, neighbours - {n})
  {
    LadderExtend(g, path, start, n);
    var x := Entry(n, path + [n]);
    PushBack(queue, x, level);
    PushOnce(queue, expanded, x);
  }

  /** A neighbour that is already visited is skipped. */
  lemma Skip(g: Adjacency, start: string, goal: string, queue: seq<Entry>,
             visited: set<string>, expanded: set<string>, level: nat,
             current: string, path: seq<string>, neighbours: set<string>, n: string)
    requires ExpandInvariant(g, start, goal, queue, visited, expanded, level, current, path, neighbours)
    requires n in neighbours && n in visited
    ensures ExpandInvariant(g, start, goal, queue, visited, expanded, level, current, path, neighbours - {n})
  {
  }

  /** Once every neighbour is handled, the outer invariant holds again. */
  lemma FinishExpand(g: Adjacency, start: string, goal: string, queue: seq<Entry>,
                     visited: set<string>, expanded: set<string>, level: nat,
                     current: string, path: seq<string>)
    requires ExpandInvariant(g, start, goal, queue, visited, expanded, level, current, path, {})
    ensures BfsInvariant(g, start, goal, queue, visited, expanded, level)
  {
  }

  /** Popping the goal answers with its queued ladder. */
  lemma FoundGoal(g: Adjacency, start: string, goal: string, queue: seq<Entry>,
                  visited: set<string>, expanded: set<string>, level: nat)
    requires BfsInvariant(g, start, goal, queue, visited, expanded, level)
    requires |queue| > 0 && queue[0].word == goal
    ensures Answers(g, start, goal, Ok(Some(queue[0].path)))
  {
    assert queue[0] in queue;
  }

  /** Popping a word that is not a node (only the start word can be one) raises. */
  lemma MissingNode(g: Adjacency, start: string, goal: string, queue: seq<Entry>,
                    visited: set<string>, expanded: set<string>, level: nat)
    requires BfsInvariant(g, start, goal, queue, visited, expanded, level)
    requires |queue| > 0 && queue[0].word != goal && queue[0].word !in g
    ensures queue[0].word == start && Answers(g, start, goal, Err(NodeNotInGraph(queue[0].word)))
  {
    assert queue[0] in queue;
  }

  /** An empty queue means the goal is unreachable. */
  lemma QueueExhausted(g: Adjacency, start: string, goal: string,
                       visited: set<string>, expanded: set<string>, level: nat)
    requires BfsInvariant(g, start, goal, [], visited, expanded, level)
    ensures Answers(g, start, goal, Ok(None))
  {
    ClosedSetExcludes(g, start, goal, expanded);
  }

  /** Removing k from a set that holds it makes the rest of `all` one smaller. */
  lemma VisitShrinks(all: set<string>, visited: set<string>, k: string)
    requires k in all && k !in visited
    ensures |all - (visited + {k})| < |all - visited|
  {
    assert all - (visited + {k}) == (all - visited) - {k};
  }
}
