# Character relationship queries — a verified model

This project models the query engine of a small game-character explorer
(`507gameproject.py`). The engine reads a table of character rows. Each row has a
name and lists of games, friends, enemies and locations. It answers four
questions:

- **build_graph** builds the co-appearance graph. It maps each character name to
  its neighbours, and each neighbour to the game labels that connect the two.
- **find_shortest_path** runs a breadth-first search over that graph. It returns
  a shortest chain of characters, with one connecting game per hop.
- **find_closely_related_characters** scores every other character against a
  queried one and returns the five best scores.
- **find_most_connected_node** counts each character's distinct direct
  connections through games, friends and enemies, and returns the first
  character with the largest count.

The modules follow the program's structure:

| module | file | contents |
|---|---|---|
| `Dicts` | dicts.dfy | Python's insertion-ordered `dict`: a key sequence plus a map |
| `Characters` | characters.dfy | the row datatype, the table, first/last row lookup by name, first-appearance name order |
| `ByName` | by_name.dfy | the "`d[row.name] = value` for every row" pattern shared by two queries |
| `RelationshipGraph` | graph.dfy | `build_graph` as loops, and an order-independent description of its result |
| `PathFinder` | path_finder.dfy | the BFS, proved correct and optimal |
| `Similarity` | similarity.dfy | the pair score, the score dictionary, the stable descending sort and the cut to five |
| `Connectivity` | connectivity.dfy | the connection sets, the count dictionary and `max` |

Some modelling choices:
- The table is a `seq<Character>`. Names need not be unique.
- A dictionary filled row by row keeps a repeated name at its first position
  but holds the value from its last row. The model states this explicitly.
- Scores are exact integers in tenths of a point. The weights 2, 1, 0.5 and 0.2
  and the two bonuses of 1 become 20, 10, 5, 2 and 10.
- The loops of the source are methods. Each method except the search is
  proved equal to a specification function, and the promised properties are
  proved about that function as lemmas.
- `build_graph` is specified as the fold of the exact updates its three nested
  loops make (`GraphOf`). It is then shown equal to a direct description:
  keys, neighbours, label membership and label multiplicity.
- The BFS is proved against predicates on walks in the graph: the returned path
  is a walk, has no repeats, carries first labels and is shortest; `NoPath`
  means no walk exists.

Three behaviours of the code that the model keeps:
- An unknown name given to `find_closely_related_characters` returns a message
  string in the code (line 28). The model returns `NotFound(message)` holding
  that same text.
- `find_most_connected_node` on an empty table makes `max` raise (line 136).
  The model returns `EmptyTable` in that case.
- `find_closely_related_characters` skips every row that carries the queried
  name (line 34), not only the first such row.

## Model

| member | source | states |
|---|---|---|
| `RelationshipGraph.BuildGraph` | 507gameproject.py:66-84 | the graph equals the result of the exact update sequence of the loops: a touch per row, then one append per game occurrence and per co-appearing row with a different name |
| `RelationshipGraph.AppendGames` | 507gameproject.py:75-82 | the loop over a row's games performs that row's appends, game by game in list order |
| `RelationshipGraph.AppendCoAppearing` | 507gameproject.py:76-82 | the scan for one game appends the game towards every row (table order) that lists it and is not named like the current row |
| `RelationshipGraph.GraphOfWellFormed` | 507gameproject.py:68-82 | every adjacency is a proper dict and every recorded label list is non-empty |
| `RelationshipGraph.GraphKeys` | 507gameproject.py:70-73 | the graph's keys are exactly the names of the table |
| `RelationshipGraph.GraphLabels` | 507gameproject.py:75-82 | the labels on c -> d are, for each row named c and each occurrence of a game in its list, that game once per row named d listing it; there are none on c -> c |
| `RelationshipGraph.LabelMembers` | 507gameproject.py:75-82 | a game labels c -> d exactly when c differs from d and rows named c and d both list it |
| `RelationshipGraph.NeighbourIffCoAppear` | 507gameproject.py:76-81 | d is a neighbour of c exactly when d differs from c and they share a game; no name is its own neighbour |
| `RelationshipGraph.NeighbourSymmetric` | 507gameproject.py:75-82 | d is a neighbour of c exactly when c is a neighbour of d |
| `RelationshipGraph.LabelCounts` | 507gameproject.py:75-82 | no deduplication: a game occurs on c -> d (occurrences of it in c's lists) times (rows named d listing it) times |
| `PathFinder.FindShortestPath` | 507gameproject.py:86-106 | equal names give `Same(source)`; a found path starts at the source, ends at the target, repeats no name, follows edges, has one label per hop, each the first label of its edge, and is no longer than any walk; `NoPath` exactly when the target is unreachable |
| `PathFinder.Expand` | 507gameproject.py:95-104 | scanning one dequeued node either returns a shortest trail to the target or marks and queues every unvisited neighbour, keeping the BFS invariant |
| `PathFinder.Meet` | 507gameproject.py:98-104 | only the first label of an edge can find its neighbour unvisited; that label is the one recorded |
| `PathFinder.TableEdges` | 507gameproject.py:97 | on a built graph, the search moves between two names exactly when they differ and share a game, and every move can be made backwards |
| `PathFinder.Exhausted` | 507gameproject.py:94-106 | when the queue runs empty the target is unreachable |
| `Similarity.FindRelated` | 507gameproject.py:24-62 | first-row lookup, then the message for an unknown name or the ranked list |
| `Similarity.RankAgainst` | 507gameproject.py:32-60 | the scoring loop fills the score dict row by row, skipping the queried name, then sorts and keeps five |
| `Similarity.ScoreRow` | 507gameproject.py:37-56 | one row's record: four set-intersection sizes, the weighted score in tenths and the two one-directional bonuses |
| `Similarity.RankMeaning` | 507gameproject.py:24-62 | NotFound exactly when no row has the name; otherwise at most five distinct names other than the query, each with its record, in non-increasing score order, equal scores in table order, no name left out scoring higher than any name kept, and any name left out that ties with a kept one first appearing later in the table |
| `Similarity.CompareFacts` | 507gameproject.py:37-56 | the flags say whether the candidate lists the query; each count is bounded by both sides' distinct values; the score is non-negative and bounded |
| `Similarity.SharedFacts` | 507gameproject.py:37-40 | an intersection size is bounded by both distinct counts and is zero exactly when the lists share nothing |
| `Similarity.ScoreZero` | 507gameproject.py:37-47 | the score is zero exactly when nothing is shared and the candidate lists the query neither as friend nor as enemy |
| `Similarity.ScoreSwap` | 507gameproject.py:42-47 | swapping the two rows changes the score only through the one-directional friend and enemy bonuses |
| `Similarity.ScoresShape` | 507gameproject.py:32-57 | the score dict has one key per other name in first-appearance order, holding the record of that name's last row |
| `Similarity.SortDesc` | 507gameproject.py:58 | the sort yields a permutation in non-increasing score order |
| `Similarity.SortStable` | 507gameproject.py:58 | records of equal score keep their relative order |
| `Similarity.SortedTiesInOrder` | 507gameproject.py:58 | two equal-score records in the sorted list occur in that order in the unsorted one |
| `Similarity.TieOrder` | 507gameproject.py:49-58 | equal scores in the sorted list follow the order in which their names first appear in the table |
| `Similarity.ScoresExpected` | 507gameproject.py:33-57 | every other name of the table has an entry in the score dict, holding its last row scored against the first row of the query |
| `Similarity.DroppedTie` | 507gameproject.py:58-60 | an entry cut off after the first five that ties with a kept entry has a name that first appears later in the table |
| `Similarity.AfterTop` | 507gameproject.py:60 | an item whose name is not among the first five of the sorted list sits after them |
| `Similarity.KeptEntries` | 507gameproject.py:58-60 | the first five of the sorted items have distinct names, hold their dict records, and nothing dropped scores higher |
| `Connectivity.FindMostConnected` | 507gameproject.py:109-137 | the row loop fills the count dict, then returns the first key of largest count, or `EmptyTable` |
| `Connectivity.ConnectedOf` | 507gameproject.py:116-130 | one row's connection set: co-appearing names, friends and enemies, without its own name |
| `Connectivity.ConnectedMeaning` | 507gameproject.py:116-130 | a name is connected exactly when it is not the row's own name and it shares a game, is a friend or is an enemy (a set: nothing is counted twice) |
| `Connectivity.CoAppearingMeaning` | 507gameproject.py:119-121 | the names gathered over the games are those of the rows listing one of the games |
| `Connectivity.ConnectedShared` | 507gameproject.py:119-130 | two differently named rows sharing a game are connected to each other |
| `Connectivity.CoAppearingNeighbours` | 507gameproject.py:119-121 | the co-appearing names are neighbours in the built graph, and exactly those when the name is unique |
| `Connectivity.CountOf` | 507gameproject.py:111-133 | the count dict has exactly the table's names, each with the count of its last row |
| `Connectivity.MaxIndexFirst` | 507gameproject.py:136 | `max` with a key picks a largest count, and every earlier key has a strictly smaller one |
| `Connectivity.MostConnectedMeaning` | 507gameproject.py:109-137 | `EmptyTable` exactly for the empty table; otherwise the name is in the table, its count is its own, no name has more, and every name first appearing earlier has strictly fewer |
| `Characters.FirstIndexSpec` | 507gameproject.py:25-30 | the row picked by name is the first carrying it, and none carries it when none is found |
| `Characters.NameOrderBefore` | 507gameproject.py:49 | of two dict keys, the earlier one has the earlier first row |
| `ByName.FillKeys` | 507gameproject.py:49 | the keys of a dict filled by name are the names in order of first appearance |
| `ByName.FillValue` | 507gameproject.py:133 | the value under a name is computed from its last row, and skipped names are never written |

## Left out

- Loading the CSV, trimming whitespace, filling missing descriptions and splitting on `;` (lines 1-22) are file I/O and library calls. The model starts from the already normalised table.
- The `concepts`, `objects` and `deck` columns are not part of the row datatype. None of the four queries reads them.
- `show_node_stat` (lines 139-158) only formats fields and prints them.
- `main_menu` and the module-level call (lines 163-208) are interactive input and output. Line 180 unpacks the path result into two values, which fails for the one-name path and for `None`. The model returns the tagged `PathResult` instead.
- The pandas filtering and row iteration (`df[...]`, `iterrows`, `iloc`) are replaced by scans of the sequence and a first-match lookup.
- Similarity.ScoreRow: the score is exact in tenths, not a float. In floating point, `0.2*6` is slightly above `1 + 0.2`, so two scores that are equal in tenths can compare unequal, and the source may order such a near-tie differently from the model.
- PathFinder.FindShortestPath: the contract does not fix which path is returned among several of the same shortest length. The method follows the adjacency key order, as the source does, but no lemma states that tie-break.
- PathFinder.FindShortestPath: it requires each adjacency to be a well-formed dict (every key listed once). A Python dict always satisfies this.
- RelationshipGraph.BuildGraph: the outer graph is a `map`, because the search only looks names up in it and never observes its key order. The inner adjacencies keep their insertion order.
