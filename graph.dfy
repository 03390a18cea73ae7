/**
 * The transformation graph of src/graph.py: a node per word and an edge between
 * every two words of equal length that differ in exactly one position.
 * A networkx graph is modelled by its adjacency: each node maps to its neighbours.
 */
module Graph {

  type Adjacency = map<string, set<string>>

  /** The number of positions, among those both words have, where they differ
      (the sum over `zip(a, b)` shared by differ_by_one and heuristic). */
  function Mismatches(a: string, b: string): (r: nat)
    ensures r <= |a| && r <= |b|
  {
    if |a| == 0 || |b| == 0 then 0
    else (if a[0] != b[0] then 1 else 0) + Mismatches(a[1..], b[1..])
  }

  /** differ_by_one: the words have equal length and differ at exactly one position. */
  function DifferByOne(a: string, b: string): (r: bool)
    ensures r <==> |a| == |b| && exists i :: OnlyDifferenceAt(a, b, i)
  {
    if |a| != |b| then false
    else
      MismatchesOneIff(a, b);
      Mismatches(a, b) == 1
  }

  /** Position i is the only one at which the equal-length words a and b differ. */
  ghost predicate OnlyDifferenceAt(a: string, b: string, i: int)
    requires |a| == |b|
  {
    0 <= i < |a| && a[i] != b[i] && forall j :: 0 <= j < |a| && j != i ==> a[j] == b[j]
  }

  lemma {:induction false} MismatchesZero(a: string, b: string)
    requires |a| == |b|
    ensures Mismatches(a, b) == 0 <==> a == b
  {
    if |a| > 0 {
      MismatchesZero(a[1..], b[1..]);
      if a[0] == b[0] && a[1..] == b[1..] {
        assert a == [a[0]] + a[1..] && b == [b[0]] + b[1..];
      }
    }
  }

  lemma {:induction false} MismatchesSymmetric(a: string, b: string)
    ensures Mismatches(a, b) == Mismatches(b, a)
  {
    if |a| > 0 && |b| > 0 {
      MismatchesSymmetric(a[1..], b[1..]);
    }
  }

  /** Equal-length words have one mismatch exactly when they differ at one position only. */
  lemma {:induction false} MismatchesOneIff(a: string, b: string)
    requires |a| == |b|
    ensures Mismatches(a, b) == 1 <==> exists i :: OnlyDifferenceAt(a, b, i)
  {
    if |a| > 0 {
      var a', b' := a[1..], b[1..];
      MismatchesOneIff(a', b');
      if a[0] != b[0] {
        MismatchesZero(a', b');
        if Mismatches(a, b) == 1 {
          assert OnlyDifferenceAt(a, b, 0) by {
            forall j | 0 < j < |a| ensures a[j] == b[j] {
              assert a'[j - 1] == b'[j - 1];
            }
          }
        }
        if i :| OnlyDifferenceAt(a, b, i) {
          assert i == 0;
          assert a' == b' by {
            forall j | 0 <= j < |a'| ensures a'[j] == b'[j] {
              assert a[j + 1] == b[j + 1];
            }
          }
        }
      } else {
        if Mismatches(a, b) == 1 {
          var i' :| OnlyDifferenceAt(a', b', i');
          assert OnlyDifferenceAt(a, b, i' + 1) by {
            forall j | 0 <= j < |a| && j != i' + 1 ensures a[j] == b[j] {
              if j > 0 { assert a'[j - 1] == b'[j - 1]; }
            }
          }
        }
        if i :| OnlyDifferenceAt(a, b, i) {
          assert OnlyDifferenceAt(a', b', i - 1) by {
            forall j | 0 <= j < |a'| && j != i - 1 ensures a'[j] == b'[j] {
              assert a[j + 1] == b[j + 1];
            }
          }
        }
      }
    }
  }

  /** differ_by_one is false for words of different lengths. */
  lemma DifferByOneNeedsEqualLength(a: string, b: string)
    requires |a| != |b|
    ensures !DifferByOne(a, b)
  {
  }

  lemma DifferByOneSymmetric(a: string, b: string)
    ensures DifferByOne(a, b) == DifferByOne(b, a)
  {
    MismatchesSymmetric(a, b);
  }

  lemma DifferByOneIrreflexive(w: string)
    ensures !DifferByOne(w, w)
  {
    MismatchesZero(w, w);
  }

  /** Mismatch counts obey the triangle inequality through a word of the same length as the first. */
  lemma {:induction false} MismatchesTriangle(u: string, v: string, w: string)
    requires |u| == |v|
    ensures Mismatches(u, w) <= Mismatches(u, v) + Mismatches(v, w)
  {
    if |u| > 0 && |w| > 0 {
      MismatchesTriangle(u[1..], v[1..], w[1..]);
    }
  }

  /** Every neighbour is itself a node (true of every networkx graph). */
  ghost predicate Closed(g: Adjacency)
  {
    forall u :: u in g ==> g[u] <= g.Keys
  }

  /** Edges go both ways. */
  ghost predicate Undirected(g: Adjacency)
  {
    forall u, v :: u in g && v in g[u] ==> v in g && u in g[v]
  }

  /** No word is its own neighbour. */
  ghost predicate Loopless(g: Adjacency)
  {
    forall u :: u in g ==> u !in g[u]
  }

  /** Every edge joins two words one substitution apart. */
  ghost predicate OneLetterEdges(g: Adjacency)
  {
    forall u, v :: u in g && v in g[u] ==> DifferByOne(u, v)
  }

  /** The graph build_graph is meant to return: the distinct words as nodes,
      and an edge between every two of them one substitution apart. */
  ghost function WordGraphOf(words: seq<string>): Adjacency
  {
    map w | w in words :: set v | v in words && DifferByOne(w, v)
  }

  /** The pair (p, q) of positions in `words` was visited before the loops of
      build_graph reached position (i, j), and it contributes the edge u -- v. */
  ghost predicate EdgeAdded(words: seq<string>, i: int, j: int, u: string, v: string)
  {
    exists p, q :: 0 <= p < q < |words| && (p < i || (p == i && q < j)) &&
      DifferByOne(words[p], words[q]) &&
      ((u == words[p] && v == words[q]) || (u == words[q] && v == words[p]))
  }

  lemma EdgeAddedStep(words: seq<string>, i: int, j: int, u: string, v: string)
    requires 0 <= i < j < |words|
    ensures EdgeAdded(words, i, j + 1, u, v) <==>
      EdgeAdded(words, i, j, u, v) ||
      (DifferByOne(words[i], words[j]) &&
       ((u == words[i] && v == words[j]) || (u == words[j] && v == words[i])))
  {
    if EdgeAdded(words, i, j + 1, u, v) && !EdgeAdded(words, i, j, u, v) {
      var p, q :| 0 <= p < q < |words| && (p < i || (p == i && q < j + 1)) &&
        DifferByOne(words[p], words[q]) &&
        ((u == words[p] && v == words[q]) || (u == words[q] && v == words[p]));
      assert p == i && q == j;
    }
    if DifferByOne(words[i], words[j]) &&
       ((u == words[i] && v == words[j]) || (u == words[j] && v == words[i])) {
      assert EdgeAdded(words, i, j + 1, u, v) by {
        var p, q := i, j;
        assert 0 <= p < q < |words| && (p < i || (p == i && q < j + 1));
      }
    }
  }

  lemma EdgeAddedNextRow(words: seq<string>, i: int, u: string, v: string)
    requires 0 <= i < |words|
    ensures EdgeAdded(words, i, |words|, u, v) <==> EdgeAdded(words, i + 1, i + 2, u, v)
  {
  }

  /** After the last row, exactly the one-letter pairs of the list are edges. */
  lemma EdgeAddedAll(words: seq<string>, u: string, v: string)
    ensures EdgeAdded(words, |words|, |words| + 1, u, v) <==>
      u in words && v in words && DifferByOne(u, v)
  {
    if u in words && v in words && DifferByOne(u, v) {
      var p :| 0 <= p < |words| && words[p] == u;
      var q :| 0 <= q < |words| && words[q] == v;
      DifferByOneIrreflexive(u);
      DifferByOneSymmetric(u, v);
      if p < q {
        assert EdgeAdded(words, |words|, |words| + 1, u, v) by {
          assert 0 <= p < q < |words| && p < |words| && DifferByOne(words[p], words[q]);
        }
      } else {
        assert EdgeAdded(words, |words|, |words| + 1, u, v) by {
          assert 0 <= q < p < |words| && q < |words| && DifferByOne(words[q], words[p]);
        }
      }
    }
    if EdgeAdded(words, |words|, |words| + 1, u, v) {
      var p, q :| 0 <= p < q < |words| &&
        DifferByOne(words[p], words[q]) &&
        ((u == words[p] && v == words[q]) || (u == words[q] && v == words[p]));
      DifferByOneSymmetric(words[p], words[q]);
    }
  }

  /** The edges of g are exactly the one-letter pairs p < q compared before pair (i, j). */
  ghost predicate EdgesSoFar(words: seq<string>, g: Adjacency, i: int, j: int)
  {
    forall u, v :: u in g ==> (v in g[u] <==> EdgeAdded(words, i, j, u, v))
  }

  /** Before any pair is compared the graph has no edges. */
  lemma NoEdgesYet(words: seq<string>, g: Adjacency)
    requires forall u :: u in g ==> g[u] == {}
    ensures EdgesSoFar(words, g, 0, 1)
  {
  }

  /** Comparing words[i] with words[j], and linking them when they differ by one letter, advances the edge invariant by one pair. */
  lemma ColumnStep(words: seq<string>, i: int, j: int, before: Adjacency, after: Adjacency)
    requires 0 <= i < j < |words|
    requires before.Keys == set w | w in words
    requires EdgesSoFar(words, before, i, j)
    requires after == if DifferByOne(words[i], words[j])
      then before[words[i] := before[words[i]] + {words[j]}][words[j] := before[words[j]] + {words[i]}]
      else before
    ensures after.Keys == before.Keys
    ensures EdgesSoFar(words, after, i, j + 1)
  {
    if DifferByOne(words[i], words[j]) {
      DifferByOneIrreflexive(words[i]);
    }
    forall u, v | u in after ensures v in after[u] <==> EdgeAdded(words, i, j + 1, u, v) {
      EdgeAddedStep(words, i, j, u, v);
    }
  }

  /** Finishing row i is starting row i + 1. */
  lemma RowStep(words: seq<string>, i: int, g: Adjacency)
    requires 0 <= i < |words|
    requires EdgesSoFar(words, g, i, |words|)
    ensures EdgesSoFar(words, g, i + 1, i + 2)
  {
    forall u, v | u in g ensures v in g[u] <==> EdgeAdded(words, i + 1, i + 2, u, v) {
      EdgeAddedNextRow(words, i, u, v);
    }
  }

  /** Once every row is done, the map is the word graph. */
  lemma AllRows(words: seq<string>, g: Adjacency)
    requires g.Keys == set w | w in words
    requires EdgesSoFar(words, g, |words|, |words| + 1)
    ensures g == WordGraphOf(words)
  {
    forall u | u in g ensures g[u] == WordGraphOf(words)[u] {
      forall v ensures v in g[u] <==> v in WordGraphOf(words)[u] {
        EdgeAddedAll(words, u, v);
      }
    }
  }

  /** One pass of build_graph's inner loop: compare words[i] with every later word and link one-letter pairs. */
  method LinkRow(words: seq<string>, i: nat, g0: Adjacency) returns (g: Adjacency)
    requires i < |words| && g0.Keys == set w | w in words
    requires EdgesSoFar(words, g0, i, i + 1)
    ensures g.Keys == g0.Keys
    ensures EdgesSoFar(words, g, i + 1, i + 2)
  {
    g := g0;
    for j := i + 1 to |words|
      invariant g.Keys == g0.Keys
      invariant EdgesSoFar(words, g, i, j)
    {
      ghost var before := g;
      var a, b := words[i], words[j];
      if DifferByOne(a, b) {
        DifferByOneIrreflexive(a);
        g := g[a := g[a] + {b}];
        g := g[b := g[b] + {a}];
      }
      ColumnStep(words, i, j, before, g);
    }
    RowStep(words, i, g);
  }

  /**
   * build_graph: add every word as a node, then compare every pair i < j and add
   * an edge when the two words differ by one letter.
   */
  method BuildGraph(words: seq<string>) returns (g: Adjacency)
    ensures g == WordGraphOf(words)
  {
    g := map w | w in words :: {};
    NoEdgesYet(words, g);
    for i := 0 to |words|
      invariant g.Keys == set w | w in words
      invariant EdgesSoFar(words, g, i, i + 1)
    {
      g := LinkRow(words, i, g);
    }
    AllRows(words, g);
  }

  /** The word graph is a networkx-shaped simple undirected graph whose edges are one-letter steps. */
  lemma WordGraphShape(words: seq<string>)
    ensures var g := WordGraphOf(words);
      g.Keys == (set w | w in words) && Closed(g) && Undirected(g) && Loopless(g) && OneLetterEdges(g)
  {
    var g := WordGraphOf(words);
    forall u, v | u in g && v in g[u] ensures u in g[v] {
      DifferByOneSymmetric(u, v);
    }
    forall u | u in g ensures u !in g[u] {
      DifferByOneIrreflexive(u);
    }
  }
}
