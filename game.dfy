/**
 * The game state of src/game.py: a current word, the history of accepted moves,
 * one-letter moves checked against the word graph, hints from the searches and
 * the win / lose / ongoing status.
 */
module Game {
  import opened Wrappers
  import opened Graph
  import opened Ladders
  import opened Search
  import opened Algorithms

  /** The KeyError networkx raises when the graph is indexed by a word that is not a node. */
  datatype LookupError = KeyError(key: string)

  /** What game_status reports. */
  datatype Status = Win | Lose | Ongoing

  /** A ladder ending at a node extends by a word exactly when that word is a neighbour of its end. */
  lemma LadderExtendIff(g: Adjacency, q: seq<string>, s: string, n: string)
    requires LadderFrom(g, q, s) && Last(q) in g
    ensures LadderFrom(g, q + [n], s) <==> n in g[Last(q)]
  {
    var q' := q + [n];
    if LadderFrom(g, q', s) {
      assert q'[|q| - 1] == Last(q) && q'[|q|] == n;
    }
    if n in g[Last(q)] {
      LadderExtend(g, q, s, n);
    }
  }

  /** In a networkx graph a ladder of two or more words ends at a node. */
  lemma LadderEndsAtNode(g: Adjacency, q: seq<string>, s: string)
    requires Closed(g) && LadderFrom(g, q, s) && |q| > 1
    ensures Last(q) in g
  {
    assert q[|q| - 2] in g;
  }

  /** So a ladder that ends outside the graph is its start alone. */
  lemma NonNodeEnd(g: Adjacency, q: seq<string>, s: string)
    requires Closed(g) && LadderFrom(g, q, s) && Last(q) !in g
    ensures q == [s]
  {
    if |q| > 1 {
      LadderEndsAtNode(g, q, s);
    }
  }

  class WordLadderGame {
    const startWord: string
    const goalWord: string
    const words: seq<string>
    const graph: Adjacency
    const maxMoves: int
    var currentWord: string
    var movesTaken: seq<string>

    /**
     * The graph is a networkx graph (every neighbour is a node), and the history
     * is a ladder that starts at the start word and ends at the current word.
     */
    ghost predicate Valid()
      reads this
    {
      Closed(graph) && LadderFrom(graph, movesTaken, startWord) && Last(movesTaken) == currentWord
    }

    /** __init__: the game starts at the start word with a history of that word alone. */
    constructor(startWord: string, goalWord: string, words: seq<string>, graph: Adjacency, maxMoves: int := 20)
      requires Closed(graph)
      ensures Valid()
      ensures this.startWord == startWord && this.goalWord == goalWord && this.words == words
      ensures this.graph == graph && this.maxMoves == maxMoves
      ensures currentWord == startWord && movesTaken == [startWord]
    {
      this.startWord := startWord;
      this.goalWord := goalWord;
      this.words := words;
      this.graph := graph;
      this.maxMoves := maxMoves;
      this.currentWord := startWord;
      this.movesTaken := [startWord];
    }

    /**
     * is_valid_move: a move is valid exactly when it extends the history to a longer
     * ladder. Indexing the graph by a current word that is not a node raises, and
     * only the start word, before any move, can be such a word.
     */
    function IsValidMove(next: string): (r: Result<bool, LookupError>)
      reads this
      requires Valid()
      ensures r.Err? <==> currentWord !in graph
      ensures r.Err? ==> r.error == KeyError(currentWord) && movesTaken == [startWord]
      ensures r.Ok? ==> (r.value <==> LadderFrom(graph, movesTaken + [next], startWord))
    {
      if currentWord in graph then
        LadderExtendIff(graph, movesTaken, startWord, next);
        Ok(next in graph[currentWord])
      else
        NonNodeEnd(graph, movesTaken, startWord);
        Err(KeyError(currentWord))
    }

    /**
     * make_move: an accepted move appends the word to the history and makes it
     * current; a rejected one (or one that raises) changes nothing.
     */
    method MakeMove(next: string) returns (r: Result<bool, LookupError>)
      requires Valid()
      modifies this
      ensures Valid()
      ensures r == old(IsValidMove(next))
      ensures r == Ok(true) ==> currentWord == next && movesTaken == old(movesTaken) + [next]
      ensures r != Ok(true) ==> currentWord == old(currentWord) && movesTaken == old(movesTaken)
    {
      r := IsValidMove(next);
      if r == Ok(true) {
        currentWord := next;
        movesTaken := movesTaken + [next];
      }
    }

    /**
     * request_hint: the second word of the ladder the chosen search finds from the
     * current word. That word is a valid move on a shortest ladder to the goal. No
     * hint is given at the goal or when the goal is unreachable; an unknown search
     * name, or a current word that is not a node, raises.
     */
    method RequestHint(algorithm: string := "astar") returns (r: Result<Option<string>, SearchError>)
      requires Valid()
      requires ParseAlgorithm(algorithm) == Ok(AStarSearch) ==> OneLetterEdges(graph)
      ensures ParseAlgorithm(algorithm).Err? <==> r == Err(UnknownAlgorithm)
      ensures ParseAlgorithm(algorithm).Ok? ==>
        (r.Err? <==> currentWord !in graph && currentWord != goalWord)
      ensures r == Ok(None) <==>
        (ParseAlgorithm(algorithm).Ok? &&
         (currentWord == goalWord || (currentWord in graph && Unreachable(graph, currentWord, goalWord))))
      ensures r.Ok? && r.value.Some? ==>
        IsValidMove(r.value.value) == Ok(true) &&
        exists q :: Shortest(graph, q, currentWord, goalWord) && |q| >= 2 && q[1] == r.value.value
    {
      var path := SearchPath(graph, currentWord, goalWord, algorithm);
      match path {
        case Err(e) =>
          r := Err(e);
        case Ok(None) =>
          assert LadderFrom(graph, [currentWord], currentWord);
          r := Ok(None);
        case Ok(Some(p)) =>
          if |p| >= 2 {
            assert p[0] == currentWord && p[1] in graph[currentWord];
            r := Ok(Some(p[1]));
          } else {
            assert p == [currentWord];
            r := Ok(None);
          }
      }
    }

    /**
     * game_status: reaching the goal wins, even on the last allowed move; otherwise
     * the game is lost once the moves made reach the limit, and goes on until then.
     */
    function GameStatus(): (r: Status)
      reads this
      requires Valid()
      ensures r == Win <==> currentWord == goalWord
      ensures r == Lose <==> currentWord != goalWord && |movesTaken| - 1 >= maxMoves
      ensures r == Ongoing <==> currentWord != goalWord && |movesTaken| - 1 < maxMoves
      ensures r == Win ==> LadderFrom(graph, movesTaken, startWord) && Last(movesTaken) == goalWord
    {
      if currentWord == goalWord then Win
      else if |movesTaken| - 1 >= maxMoves then Lose
      else Ongoing
    }
  }
}
