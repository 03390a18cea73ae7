# Word Ladder Puzzle — a verified model of its engine

The word ladder puzzle asks the player to turn a start word into a goal word one
letter at a time, where every intermediate word must be in the dictionary. This
project models the engine behind it:

- **the transformation graph.** `differ_by_one` decides whether two words are one
  substitution apart. `build_graph` links every such pair of dictionary words.
  Module `Graph`, in `graph.dfy`.
- **the three searches for a ladder.**
  - Breadth-first search over a FIFO queue.
  - Uniform-cost search over a heap keyed by cost.
  - A* over a heap keyed by cost plus the letter-mismatch heuristic.
  - The case-insensitive dispatcher `search_path`.

  Module `Algorithms`, in `algorithms.dfy`. Three modules support it:
  - `Search`, in `search.dfy`: the contract all three searches share.
  - `BfsQueue`, in `bfs_queue.dfy`: the proof of breadth-first search.
  - `HeapQueue`, in `heap_queue.dfy`: the proof of uniform-cost search and A*.
- **the game.** Class `WordLadderGame` tracks the current word and the history of
  moves. It accepts only moves to a graph neighbour of the current word, hands out hints
  from a search, and reports win, lose or ongoing. Module `Game`, in `game.dfy`.
- **dictionary cleaning.** `extract_word_from_entry` pulls the headword out of one
  dictionary entry. Module `DictionaryCleaning`, in `dictionary_cleaning.dfy`.

Ladders are the paths the searches return. A ladder is a non-empty sequence of
words in which each word is a neighbour of the one before. `Ladders` in
`ladders.dfy` defines them, together with "shortest" and "unreachable".

A networkx graph is modelled by its adjacency `map<string, set<string>>`. Every
neighbour in it is itself a node (`Graph.Closed`).

The searches are imperative: their loops, the queue and heap, and the
visited-set and visited-map updates are written as Dafny `while` loops. Each is
proved against one contract, `Search.Answers`:

- it raises exactly when the start word is not a node and is not already the goal;
- a ladder it returns is a shortest ladder from start to goal;
- `None` means that no ladder exists.

How the model handles parts of the source:

- **Heap pops.** The heap is a multiset. A pop takes *some* entry of minimal key, so
  every property holds under any tie-breaking.
- **Exceptions.** Python exceptions are `Err` values:
  - networkx's error for a missing node;
  - the `KeyError` of `graph[current_word]`;
  - the `ValueError` of an unknown algorithm name.
- **Uniform-cost keys.** Uniform-cost search keys its heap by cost alone. The model
  writes that key as cost plus an estimate that is zero everywhere
  (`Algorithms.NoEstimate`), so uniform-cost search and A* share their heap lemmas.

## Model

| member | source | states |
|---|---|---|
| Graph.Mismatches | src/graph.py:24 | The count of differing positions over `zip` never exceeds either word's length |
| Graph.MismatchesZero | src/graph.py:24 | Two equal-length words have no mismatching position exactly when they are equal |
| Graph.DifferByOne | src/graph.py:15-25 | `differ_by_one(a, b)` holds iff the lengths are equal and exactly one index has `a[i] != b[i]` |
| Graph.MismatchesOneIff | src/graph.py:24-25 | For equal-length words, a mismatch count of one means exactly one index differs, and conversely |
| Graph.DifferByOneNeedsEqualLength | src/graph.py:21-22 | Words of different lengths never differ by one |
| Graph.DifferByOneSymmetric | src/graph.py:24-25 | `differ_by_one` is symmetric |
| Graph.DifferByOneIrreflexive | src/graph.py:24-25 | No word differs by one from itself |
| Graph.MismatchesTriangle | src/algorithms.py:80 | Mismatch counts obey the triangle inequality (used for the heuristic's consistency) |
| Graph.ColumnStep | src/graph.py:38-40 | One comparison of the inner loop keeps the edge set equal to the one-letter pairs compared so far |
| Graph.LinkRow | src/graph.py:38-40 | After row i the nodes are unchanged and the edges are exactly the one-letter pairs (p, q) with p <= i |
| Graph.EdgeAddedAll | src/graph.py:37-40 | Once every pair is compared, an edge u–v exists iff both words occur in the list and differ by one |
| Graph.BuildGraph | src/graph.py:27-41 | The result is exactly the word graph: the distinct words as nodes, and an edge between every two of them that differ by one |
| Graph.WordGraphShape | src/graph.py:32-40 | The word graph's nodes are the distinct words; it is closed, undirected, loopless, and every edge is a one-letter step |
| Ladders.ShortestHasNoRepeats | src/algorithms.py:21-32 | A shortest ladder never repeats a word |
| Ladders.ShortestToSelf | src/algorithms.py:20-26 | The only shortest ladder from a word to itself is that word alone |
| Search.ClosedSetExcludes | src/algorithms.py:33 | A set holding the start and all neighbours of its members, but not the goal, proves the goal unreachable |
| Search.SearchToSelf | src/algorithms.py:20-26 | Any search that keeps the shared contract answers `[w]` when searching from w to w |
| Search.AnswersAgree | src/algorithms.py:37-38 | Any two searches keeping the contract agree: both raise or neither does, both find a ladder or neither does, and found ladders are equally long |
| BfsQueue.LevelUp | src/algorithms.py:23-32 | When the front entry is one level deeper, every word reachable within that level is already visited |
| BfsQueue.Enqueue | src/algorithms.py:30-32 | Enqueuing an unvisited neighbour with its extended ladder keeps the queue layered and every queued ladder shortest |
| BfsQueue.FoundGoal | src/algorithms.py:25-26 | Popping the goal answers with a shortest ladder |
| BfsQueue.MissingNode | src/algorithms.py:29 | Only the start word can be popped while not a node, and then the search raises |
| BfsQueue.QueueExhausted | src/algorithms.py:33 | An empty queue means the goal is unreachable |
| BfsQueue.PopOnce | src/algorithms.py:23 | Popping the front keeps every word queued at most once and none queued after its expansion |
| BfsQueue.PushOnce | src/algorithms.py:30-32 | Enqueuing only unvisited words keeps every word queued at most once |
| Algorithms.Bfs | src/algorithms.py:6-33 | bfs raises iff the start is not a node and not the goal; a returned path is a shortest ladder; None iff the goal is unreachable |
| HeapQueue.MinKeyExists | src/algorithms.py:54 | A non-empty heap has an entry of minimal key, which is what heappop removes |
| HeapQueue.ConsistentAlongLadder | src/algorithms.py:112 | With a consistent estimate, the estimate at a ladder's i-th word is at most the remaining steps plus the estimate at its end |
| HeapQueue.PopIsOptimal | src/algorithms.py:54 | The cost of a popped, not yet expanded entry is the length of a shortest ladder to its word |
| HeapQueue.SkipExpanded | src/algorithms.py:59-60 | A popped word that is already expanded was expanded no dearer, so the lazy skip always fires; skipping keeps the invariant |
| HeapQueue.FoundGoal | src/algorithms.py:55-56 | Popping the goal answers with a shortest ladder |
| HeapQueue.MissingNode | src/algorithms.py:63 | Only the start word can be expanded while not a node, and then the search raises |
| HeapQueue.StartExpand | src/algorithms.py:61-63 | Recording the popped cost in `visited` keeps every recorded cost optimal |
| HeapQueue.Push | src/algorithms.py:63-65 | Pushing a neighbour one step dearer keeps the frontier invariant |
| HeapQueue.HeapExhausted | src/algorithms.py:66 | An empty heap means the goal is unreachable |
| Algorithms.PushNeighbours | src/algorithms.py:63-65 | Pushing every neighbour of the expanded word restores the heap invariant |
| Algorithms.Ucs | src/algorithms.py:35-66 | ucs raises iff the start is not a node and not the goal; a returned path is a shortest ladder; None iff the goal is unreachable |
| Algorithms.Heuristic | src/algorithms.py:68-80 | The heuristic never exceeds either word's length |
| Algorithms.HeuristicAtGoal | src/algorithms.py:80 | The heuristic is zero at the goal |
| Algorithms.HeuristicStep | src/algorithms.py:68-80 | Across a one-letter step the heuristic changes by at most one |
| Algorithms.HeuristicConsistent | src/algorithms.py:68-80 | On a graph of one-letter edges the heuristic is consistent |
| Algorithms.HeuristicAdmissible | src/algorithms.py:69-71 | The heuristic never exceeds the number of steps of any ladder to the goal (admissible) |
| Algorithms.AStar | src/algorithms.py:82-114 | astar raises iff the start is not a node and not the goal; a returned path is a shortest ladder; None iff the goal is unreachable |
| Algorithms.Lower | src/algorithms.py:129 | Lowering keeps the length and lowers each character |
| Algorithms.LowerIdempotent | src/algorithms.py:129 | Lowering twice is lowering once |
| Algorithms.ParseAlgorithm | src/algorithms.py:129-137 | An accepted name lowers to that search's name; any other name raises ValueError |
| Algorithms.ParseName | src/algorithms.py:130-135 | "bfs", "ucs" and "astar" select their own searches |
| Algorithms.ParseIgnoresCase | src/algorithms.py:129 | A name and its lower-case form select the same search |
| Algorithms.SearchPath | src/algorithms.py:116-137 | An unknown name raises ValueError; otherwise the result keeps the shared contract of the chosen search |
| Game.LadderExtendIff | src/game.py:31 | A history extended by a word is still a ladder iff the word is a neighbour of the current word |
| Game.NonNodeEnd | src/game.py:31 | A history ending at a word that is not a node is the start word alone |
| Game.WordLadderGame.constructor | src/game.py:7-24 | The game starts at the start word with history `[start_word]`, and the history invariant holds |
| Game.WordLadderGame.IsValidMove | src/game.py:26-31 | A move is valid iff it is a graph neighbour of the current word; it raises KeyError only when the current word is not a node, which only happens before any move |
| Game.WordLadderGame.MakeMove | src/game.py:33-43 | An accepted move (exactly when valid) appends the word and makes it current; a rejected move changes nothing; the history stays a ladder from the start to the current word |
| Game.WordLadderGame.RequestHint | src/game.py:45-55 | The hint is a valid move and the second word of a shortest ladder to the goal; None at the goal or when the goal is unreachable; an unknown algorithm raises |
| Game.WordLadderGame.GameStatus | src/game.py:57-70 | Win iff at the goal, even past the move limit; otherwise Lose iff the moves made reach max_moves; otherwise Ongoing; a win means the history is a ladder from the start word to the goal |
| DictionaryCleaning.SplitLines | src/dictionaryCleaning.py:8 | No line that splitlines yields contains a line break |
| DictionaryCleaning.TrimLeft | src/dictionaryCleaning.py:8 | The stripped text is no longer, and is empty or starts with a non-space |
| DictionaryCleaning.TrimLeftBlank | src/dictionaryCleaning.py:8 | Left stripping leaves nothing exactly when the text is all whitespace |
| DictionaryCleaning.TrimRight | src/dictionaryCleaning.py:8 | Right stripping keeps a prefix, removes only whitespace, and leaves text that is empty or ends with a non-space |
| DictionaryCleaning.Strip | src/dictionaryCleaning.py:8 | `strip()` is empty exactly when the line is all whitespace, and otherwise starts and ends with a non-space |
| DictionaryCleaning.StrippedNonBlank | src/dictionaryCleaning.py:8 | The kept lines are no more than the lines, none is empty, and none is kept exactly when every line is all whitespace |
| DictionaryCleaning.Split | src/dictionaryCleaning.py:10 | Every token is non-empty and free of whitespace |
| DictionaryCleaning.IsAlpha | src/dictionaryCleaning.py:15 | An alphabetic word is non-empty and free of whitespace |
| DictionaryCleaning.StripKeepsFirstToken | src/dictionaryCleaning.py:8-12 | Stripping a line does not change its first token, and a line strips to empty iff it is all whitespace |
| DictionaryCleaning.FirstLineToken | src/dictionaryCleaning.py:8-12 | A non-blank stripped line exists iff the entry is not all whitespace, and its first token is the entry's first token |
| DictionaryCleaning.ExtractWord | src/dictionaryCleaning.py:1-19 | A returned word is non-empty, alphabetic and free of whitespace |
| DictionaryCleaning.ExtractWordIsFirstToken | src/dictionaryCleaning.py:8-18 | The result is the first whitespace-separated token of the entry when that token is alphabetic, and None otherwise |
| DictionaryCleaning.BlankEntry | src/dictionaryCleaning.py:8-19 | An entry with no non-blank line gives None |
| DictionaryCleaning.LeadingBlankIgnored | src/dictionaryCleaning.py:8 | Blank lines and whitespace before the first non-blank line do not change the result |

## Left out

- File reading and writing are not modelled. This covers `load_dictionary` (src/graph.py), `main` of src/dictionaryCleaning.py, src/main.py, and the pygame interface src/ui.py.
- Console output is not modelled. This covers `play_game` and `display_status` (src/game.py) and the `__main__` demonstrations.
- `select_valid_word_pair` (src/utils.py) is not modelled. It draws random words, and it calls `select_start_end_words`, which is not part of this model.
- The order in which networkx yields neighbours is left open: each loop takes any remaining neighbour. Results hold for every order, but the model does not say which of several shortest ladders comes back.
- The tie-breaking of `heapq` on equal keys is not modelled. In `ucs` it compares the word, then the path. In `astar` it compares the cost, then the word, then the path. The model pops some entry of minimal key.
- Algorithms.AStar: requires every edge to join two words one letter apart. This is `Graph.OneLetterEdges`, which every graph `build_graph` makes satisfies (`Graph.WordGraphShape`). On other graphs the heuristic can be inconsistent, and the model says nothing about the result.
- Algorithms.SearchPath: requires one-letter edges when "astar" is chosen, for the same reason.
- Game.WordLadderGame.RequestHint: requires one-letter edges when "astar" is chosen, including the default algorithm.
- Algorithms.Bfs, Algorithms.Ucs, Algorithms.AStar: require every neighbour to be a node. networkx graphs always satisfy this.
- Game.WordLadderGame.constructor: requires every neighbour to be a node, for the same reason.
- Algorithms.Lower: lowers ASCII letters only. Python's `str.lower` also lowers other Unicode letters, and none of those lowers to one of the three accepted names.
- DictionaryCleaning.IsAlpha: accepts ASCII letters only. Python's `str.isalpha` also accepts other Unicode letters.
- Whitespace and line breaks follow Python's lists of `str.isspace` and `str.splitlines` characters.
- The game's `words` field is stored but not used by the modelled methods. `play_game` and the pygame interface read it.
