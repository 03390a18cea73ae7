/**
 * Ladders: sequences of words in which each word is a graph neighbour of the
 * one before it: the ladders every search returns and the game's move history.
 */
module Ladders {
  import opened Graph

  function Last(q: seq<string>): string
    requires |q| > 0
  {
    q[|q| - 1]
  }

  /** Consecutive words are neighbours. */
  ghost predicate IsLadder(g: Adjacency, q: seq<string>)
  {
    forall i :: 0 <= i < |q| - 1 ==> q[i] in g && q[i + 1] in g[q[i]]
  }

  /** A non-empty ladder that starts at s. */
  ghost predicate LadderFrom(g: Adjacency, q: seq<string>, s: string)
  {
    |q| > 0 && q[0] == s && IsLadder(g, q)
  }

  /** Every ladder from s to t has at least n words. */
  ghost predicate NoShorter(g: Adjacency, s: string, t: string, n: int)
  {
    forall q :: LadderFrom(g, q, s) && Last(q) == t ==> n <= |q|
  }

  /** q is a ladder from s to t with the fewest words. */
  ghost predicate Shortest(g: Adjacency, q: seq<string>, s: string, t: string)
  {
    LadderFrom(g, q, s) && Last(q) == t && NoShorter(g, s, t, |q|)
  }

  /** No ladder leads from s to t. */
  ghost predicate Unreachable(g: Adjacency, s: string, t: string)
  {
    forall q :: LadderFrom(g, q, s) ==> Last(q) != t
  }

  lemma LadderExtend(g: Adjacency, q: seq<string>, s: string, n: string)
    requires LadderFrom(g, q, s) && Last(q) in g && n in g[Last(q)]
    ensures LadderFrom(g, q + [n], s) && Last(q + [n]) == n
  {
  }

  lemma LadderPrefix(g: Adjacency, q: seq<string>, s: string, k: int)
    requires LadderFrom(g, q, s) && 1 <= k <= |q|
    ensures LadderFrom(g, q[..k], s)
  {
  }

  /** Cutting out the loop between two occurrences of the same word leaves a ladder. */
  lemma LadderSplice(g: Adjacency, q: seq<string>, s: string, i: int, j: int)
    requires LadderFrom(g, q, s) && 0 <= i < j < |q| && q[i] == q[j]
    ensures LadderFrom(g, q[..i] + q[j..], s) && Last(q[..i] + q[j..]) == Last(q)
    ensures |q[..i] + q[j..]| < |q|
  {
    var r := q[..i] + q[j..];
    forall k | 0 <= k < |r| - 1 ensures r[k] in g && r[k + 1] in g[r[k]] {
      if k < i - 1 {
        assert r[k] == q[k] && r[k + 1] == q[k + 1];
      } else if k == i - 1 {
        assert r[k] == q[i - 1] && r[k + 1] == q[j] == q[i];
      } else {
        assert r[k] == q[k - i + j] && r[k + 1] == q[k - i + j + 1];
      }
    }
  }

  /** A shortest ladder never visits a word twice. */
  lemma ShortestHasNoRepeats(g: Adjacency, q: seq<string>, s: string, t: string)
    requires Shortest(g, q, s, t)
    ensures forall i, j :: 0 <= i < j < |q| ==> q[i] != q[j]
  {
    forall i, j | 0 <= i < j < |q| ensures q[i] != q[j] {
      if q[i] == q[j] {
        LadderSplice(g, q, s, i, j);
        assert false;
      }
    }
  }

  /** The only shortest ladder from a word to itself is that word alone. */
  lemma ShortestToSelf(g: Adjacency, q: seq<string>, s: string)
    requires Shortest(g, q, s, s)
    ensures q == [s]
  {
    assert LadderFrom(g, [s], s);
  }

  /** A set that holds s and every neighbour of its members holds every word a ladder from s reaches. */
  lemma {:induction false} LadderStaysInside(g: Adjacency, q: seq<string>, s: string, inside: set<string>)
    requires LadderFrom(g, q, s) && s in inside
    requires forall u :: u in inside && u in g ==> g[u] <= inside
    ensures Last(q) in inside
    decreases |q|
  {
    if |q| > 1 {
      var p := q[..|q| - 1];
      LadderPrefix(g, q, s, |q| - 1);
      LadderStaysInside(g, p, s, inside);
      assert q[|q| - 2] == Last(p);
    }
  }
}
