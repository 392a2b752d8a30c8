/** The co-appearance graph (build_graph, 507gameproject.py:66-84): for every
    character name, the characters that appear in one of its games, each with
    the sequence of game labels recorded for that pair. */
module RelationshipGraph {
  import opened Characters
  import opened Dicts

  /** name -> (neighbour name -> game labels). The outer key order is never
      observed; the inner order is, by the path finder. */
  type Graph = map<string, Dict<seq<string>>>

  ghost predicate WellFormed(g: Graph) {
    forall c :: c in g ==> g[c].Valid()
  }

  /** Every recorded label sequence holds at least one label. */
  ghost predicate NoEmptyLabels(g: Graph) {
    forall c, d :: c in g && d in g[c].vals ==> |g[c].vals[d]| > 0
  }

  /** The adjacency of `c`; an empty one when `c` is not a key (`graph.get(c, {})`). */
  function Adj(g: Graph, c: string): Dict<seq<string>> {
    if c in g then g[c] else Empty()
  }

  /** The labels recorded for c -> d, or none. */
  function Labels(g: Graph, c: string, d: string): seq<string> {
    var a := Adj(g, c);
    if d in a.vals then a.vals[d] else []
  }

  // ---------------------------------------------------------------------
  // The construction, as the sequence of updates the nested loops perform.

  /** `graph[c] = {}` when absent, or `graph[c][d].append(game)` (creating the list). */
  datatype Step = Touch(c: string) | Add(c: string, d: string, game: string)

  function Apply(g: Graph, s: Step): Graph {
    match s
    case Touch(c) => if c in g then g else g[c := Empty()]
    case Add(c, d, game) => g[c := Adj(g, c).Put(d, Labels(g, c, d) + [game])]
  }

  function Run(g: Graph, steps: seq<Step>): Graph {
    if steps == [] then g else Apply(Run(g, steps[..|steps| - 1]), steps[|steps| - 1])
  }

  /** The appends for one game of a row named `c`: one per row of `t[..m]`
      (table order) whose game list holds the game and whose name is not `c`. */
  function CoSteps(t: Table, c: string, game: string, m: nat): seq<Step>
    requires m <= |t|
  {
    if m == 0 then []
    else
      CoSteps(t, c, game, m - 1)
      + (if game in t[m - 1].games && t[m - 1].name != c then [Add(c, t[m - 1].name, game)] else [])
  }

  /** The appends for every game of `games` (in list order, repeats included). */
  function GameSteps(t: Table, c: string, games: seq<string>): seq<Step> {
    if games == [] then []
    else GameSteps(t, c, games[..|games| - 1]) + CoSteps(t, c, games[|games| - 1], |t|)
  }

  /** All updates made for rows `t[..n]`, in loop order. */
  function Trace(t: Table, n: nat): seq<Step>
    requires n <= |t|
  {
    if n == 0 then []
    else Trace(t, n - 1) + [Touch(t[n - 1].name)] + GameSteps(t, t[n - 1].name, t[n - 1].games)
  }

  /** The graph build_graph returns for table `t`. */
  function GraphOf(t: Table): Graph {
    Run(map[], Trace(t, |t|))
  }

  /** An update keeps every adjacency a proper dict and never leaves an
      empty label list behind. */
  lemma {:induction false} ApplyPreserves(g: Graph, s: Step)
    requires WellFormed(g)
    ensures WellFormed(Apply(g, s))
    ensures NoEmptyLabels(g) ==> NoEmptyLabels(Apply(g, s))
  {
    match s
    case Touch(c) =>
      EmptyValid<seq<string>>();
    case Add(c, d, game) =>
      EmptyValid<seq<string>>();
      PutValid(Adj(g, c), d, Labels(g, c, d) + [game]);
  }

  lemma {:induction false} RunPreserves(g: Graph, steps: seq<Step>)
    requires WellFormed(g)
    ensures WellFormed(Run(g, steps))
    ensures NoEmptyLabels(g) ==> NoEmptyLabels(Run(g, steps))
  {
    if steps != [] {
      RunPreserves(g, steps[..|steps| - 1]);
      ApplyPreserves(Run(g, steps[..|steps| - 1]), steps[|steps| - 1]);
    }
  }

  /** build_graph returns proper dicts whose every label list is non-empty. */
  lemma {:induction false} GraphOfWellFormed(t: Table)
    ensures WellFormed(GraphOf(t)) && NoEmptyLabels(GraphOf(t))
  {
    RunPreserves(map[], Trace(t, |t|));
  }

  lemma {:induction false} RunSnoc(g: Graph, steps: seq<Step>, s: Step)
    ensures Run(g, steps + [s]) == Apply(Run(g, steps), s)
  {
    assert (steps + [s])[..|steps|] == steps;
  }

  lemma {:induction false} AppendStep(g: Graph, done: seq<Step>, c: string, d: string, game: string)
    requires g == Run(map[], done) && c in g
    ensures var labels := if d in g[c].vals then g[c].vals[d] else [];
      g[c := g[c].Put(d, labels + [game])] == Run(map[], done + [Add(c, d, game)])
  {
    RunSnoc(map[], done, Add(c, d, game));
  }

  lemma {:induction false} TouchStep(g: Graph, done: seq<Step>, c: string)
    requires g == Run(map[], done)
    ensures (if c in g then g else g[c := Empty()]) == Run(map[], done + [Touch(c)])
  {
    RunSnoc(map[], done, Touch(c));
  }

  lemma {:induction false} CoStepsSnoc(t: Table, c: string, game: string, j: nat, before: seq<Step>)
    requires j < |t|
    ensures before + CoSteps(t, c, game, j + 1)
         == before + CoSteps(t, c, game, j)
            + (if game in t[j].games && t[j].name != c then [Add(c, t[j].name, game)] else [])
  {
  }

  lemma {:induction false} GameStepsSnoc(t: Table, c: string, games: seq<string>, k: nat, before: seq<Step>)
    requires k < |games|
    ensures before + GameSteps(t, c, games[..k + 1])
         == before + GameSteps(t, c, games[..k]) + CoSteps(t, c, games[k], |t|)
  {
    assert games[..k + 1][..k] == games[..k];
  }

  /** build_graph: for each row, make sure its name has an adjacency; for each
      of its games, scan the whole table for rows listing that game and append
      the game to the edge towards every such row not carrying the same name. */
  method BuildGraph(t: Table) returns (graph: Graph)
    ensures graph == GraphOf(t)
  {
    graph := map[];
    for i := 0 to |t|
      invariant graph == Run(map[], Trace(t, i))
    {
      var character := t[i].name;
      TouchStep(graph, Trace(t, i), character);
      if character !in graph {
        graph := graph[character := Empty()];
      }
      graph := AppendGames(t, graph, character, t[i].games, Trace(t, i) + [Touch(character)]);
    }
  }

  /** The loop of build_graph over the games of a row named `character`. */
  method AppendGames(t: Table, graph: Graph, character: string, games: seq<string>, ghost before: seq<Step>)
    returns (graph': Graph)
    requires character in graph && graph == Run(map[], before)
    ensures graph' == Run(map[], before + GameSteps(t, character, games))
  {
    graph' := graph;
    ghost var steps := before;
    assert games[..0] == [] && before + [] == before;
    for k := 0 to |games|
      invariant character in graph'
      invariant steps == before + GameSteps(t, character, games[..k])
      invariant graph' == Run(map[], steps)
    {
      GameStepsSnoc(t, character, games, k, before);
      graph' := AppendCoAppearing(t, graph', character, games[k], steps);
      steps := steps + CoSteps(t, character, games[k], |t|);
    }
    assert games[..|games|] == games;
  }

  /** The scan of build_graph for one game of a row named `character`: every
      row listing the game, other than those named `character`, gets the game
      appended to the edge towards it. */
  method AppendCoAppearing(t: Table, graph: Graph, character: string, game: string, ghost before: seq<Step>)
    returns (graph': Graph)
    requires character in graph && graph == Run(map[], before)
    ensures character in graph' && graph' == Run(map[], before + CoSteps(t, character, game, |t|))
  {
    graph' := graph;
    ghost var steps := before;
    for j := 0 to |t|
      invariant character in graph'
      invariant steps == before + CoSteps(t, character, game, j)
      invariant graph' == Run(map[], steps)
    {
      var coCharacter := t[j].name;
      if game in t[j].games && coCharacter != character {
        var adjacency := graph'[character];
        var labels := if coCharacter in adjacency.vals then adjacency.vals[coCharacter] else [];
        AppendStep(graph', steps, character, coCharacter, game);
        graph' := graph'[character := adjacency.Put(coCharacter, labels + [game])];
        steps := steps + [Add(character, coCharacter, game)];
      }
      CoStepsSnoc(t, character, game, j, before);
    }
  }

  // ---------------------------------------------------------------------
  // A direct description of the edge labels, independent of loop order.

  /** `x` repeated `m` times. */
  function Repeat(x: string, m: nat): (r: seq<string>)
    ensures |r| == m && forall i :: 0 <= i < m ==> r[i] == x
  {
    if m == 0 then [] else Repeat(x, m - 1) + [x]
  }

  /** How many rows of `t[..m]` are named `d` and list `game`. */
  function RowsListing(t: Table, d: string, game: string, m: nat): nat
    requires m <= |t|
  {
    if m == 0 then 0
    else RowsListing(t, d, game, m - 1) + (if t[m - 1].name == d && game in t[m - 1].games then 1 else 0)
  }

  /** For every game occurrence of `games`, in list order, that game once per
      row named `d` listing it. */
  function GameLabels(t: Table, d: string, games: seq<string>): seq<string> {
    if games == [] then []
    else
      var game := games[|games| - 1];
      GameLabels(t, d, games[..|games| - 1]) + Repeat(game, RowsListing(t, d, game, |t|))
  }

  /** The labels on c -> d contributed by the rows of `t[..n]` named `c`, in table order. */
  function EdgeLabels(t: Table, c: string, d: string, n: nat): seq<string>
    requires n <= |t|
  {
    if n == 0 then []
    else EdgeLabels(t, c, d, n - 1) + (if t[n - 1].name == c then GameLabels(t, d, t[n - 1].games) else [])
  }

  /** How often `x` occurs in `xs` (`xs.count(x)`); equal to `multiset(xs)[x]`
      by CountMultiset. */
  function Count(xs: seq<string>, x: string): nat {
    if xs == [] then 0
    else Count(xs[..|xs| - 1], x) + (if xs[|xs| - 1] == x then 1 else 0)
  }

  /** How often `game` occurs in the game lists of the rows of `t[..n]` named `c`. */
  function Occurrences(t: Table, c: string, game: string, n: nat): nat
    requires n <= |t|
  {
    if n == 0 then 0
    else Occurrences(t, c, game, n - 1) + (if t[n - 1].name == c then Count(t[n - 1].games, game) else 0)
  }

  /** Some row named `c` and some row named `d` list a common game. */
  ghost predicate CoAppear(t: Table, c: string, d: string) {
    exists i, j, k :: 0 <= i < |t| && 0 <= j < |t| && 0 <= k < |t[i].games|
      && t[i].name == c && t[j].name == d && t[i].games[k] in t[j].games
  }

  // ---------------------------------------------------------------------
  // From the loop order to the direct description.

  /** The labels of the Add steps for c -> d, in order. */
  function Proj(steps: seq<Step>, c: string, d: string): seq<string> {
    if steps == [] then []
    else
      var s := steps[|steps| - 1];
      Proj(steps[..|steps| - 1], c, d) + (if s.Add? && s.c == c && s.d == d then [s.game] else [])
  }

  lemma {:induction false} ProjAppend(a: seq<Step>, b: seq<Step>, c: string, d: string)
    ensures Proj(a + b, c, d) == Proj(a, c, d) + Proj(b, c, d)
  {
    if b == [] {
      assert a + b == a;
    } else {
      var b' := b[..|b| - 1];
      assert (a + b)[..|a + b| - 1] == a + b';
      ProjAppend(a, b', c, d);
    }
  }

  lemma {:induction false} ProjSingle(s: Step, c: string, d: string)
    ensures Proj([s], c, d) == if s.Add? && s.c == c && s.d == d then [s.game] else []
  {
    assert [s][..0] == [];
  }

  /** One step appends its own label, if any, to c -> d and changes no other edge. */
  lemma {:induction false} ApplyLabels(g: Graph, s: Step, c: string, d: string)
    ensures Labels(Apply(g, s), c, d) == Labels(g, c, d) + Proj([s], c, d)
  {
    ProjSingle(s, c, d);
    match s
    case Touch(c0) =>
      assert Labels(g, c, d) + [] == Labels(g, c, d);
    case Add(c0, d0, game) =>
      if c0 == c {
        var a := Adj(g, c);
        var a' := a.Put(d0, Labels(g, c, d0) + [game]);
        assert Adj(Apply(g, s), c) == a';
        assert a'.vals == a.vals[d0 := Labels(g, c, d0) + [game]];
      } else {
        assert Adj(Apply(g, s), c) == Adj(g, c);
      }
  }

  lemma {:induction false} RunLabels(g: Graph, steps: seq<Step>, c: string, d: string)
    ensures Labels(Run(g, steps), c, d) == Labels(g, c, d) + Proj(steps, c, d)
  {
    if steps != [] {
      var prefix := steps[..|steps| - 1];
      var s := steps[|steps| - 1];
      RunLabels(g, prefix, c, d);
      ApplyLabels(Run(g, prefix), s, c, d);
      ProjSingle(s, c, d);
      assert Run(g, steps) == Apply(Run(g, prefix), s);
      assert Proj(steps, c, d) == Proj(prefix, c, d) + Proj([s], c, d);
    }
  }

  /** Some step is about name `c`. */
  ghost predicate Mentions(steps: seq<Step>, c: string) {
    exists i :: 0 <= i < |steps| && steps[i].c == c
  }

  lemma {:induction false} RunKeys(g: Graph, steps: seq<Step>, c: string)
    ensures c in Run(g, steps) <==> c in g || Mentions(steps, c)
  {
    if steps != [] {
      var prefix := steps[..|steps| - 1];
      RunKeys(g, prefix, c);
      if c in Run(g, steps) && c !in g {
        if i :| 0 <= i < |prefix| && prefix[i].c == c {
          assert steps[i].c == c;
        } else {
          assert steps[|steps| - 1].c == c;
        }
      }
      if i :| 0 <= i < |steps| && steps[i].c == c {
        if i < |prefix| {
          assert prefix[i].c == c;
        }
      }
    }
  }

  /** The scan of row `m - 1` adds the game to c -> d exactly when that row
      is named `d`, lists the game, and the scan is for `c`. */
  lemma {:induction false} ProjCoStepsRow(t: Table, c0: string, game: string, m: nat, c: string, d: string)
    requires 0 < m <= |t|
    ensures Proj(CoSteps(t, c0, game, m), c, d)
         == Proj(CoSteps(t, c0, game, m - 1), c, d)
            + (if c0 == c && c != d && t[m - 1].name == d && game in t[m - 1].games then [game] else [])
  {
    var row := t[m - 1];
    var last := if game in row.games && row.name != c0 then [Add(c0, row.name, game)] else [];
    assert CoSteps(t, c0, game, m) == CoSteps(t, c0, game, m - 1) + last;
    ProjAppend(CoSteps(t, c0, game, m - 1), last, c, d);
    if last != [] {
      ProjSingle(Add(c0, row.name, game), c, d);
    }
  }

  /** One more listing row adds one more copy of the game. */
  lemma {:induction false} Tick(p: seq<string>, q: seq<string>, game: string, r: nat, r': nat, on: bool, hit: bool)
    requires p == (if on then Repeat(game, r) else [])
    requires q == (if on && hit then [game] else [])
    requires r' == r + (if hit then 1 else 0)
    ensures p + q == if on then Repeat(game, r') else []
  {
    if !(on && hit) {
      assert p + [] == p;
    }
  }

  lemma {:induction false} ProjCoSteps(t: Table, c0: string, game: string, m: nat, c: string, d: string)
    requires m <= |t|
    ensures Proj(CoSteps(t, c0, game, m), c, d)
         == if c0 == c && c != d then Repeat(game, RowsListing(t, d, game, m)) else []
  {
    if m > 0 {
      var row := t[m - 1];
      var hit := row.name == d && game in row.games;
      assert RowsListing(t, d, game, m) == RowsListing(t, d, game, m - 1) + (if hit then 1 else 0);
      ProjCoStepsRow(t, c0, game, m, c, d);
      ProjCoSteps(t, c0, game, m - 1, c, d);
      Tick(Proj(CoSteps(t, c0, game, m - 1), c, d), if c0 == c && c != d && hit then [game] else [],
        game, RowsListing(t, d, game, m - 1), RowsListing(t, d, game, m), c0 == c && c != d, hit);
    }
  }

  lemma {:induction false} ProjGameSteps(t: Table, c0: string, games: seq<string>, c: string, d: string)
    ensures Proj(GameSteps(t, c0, games), c, d) == if c0 == c && c != d then GameLabels(t, d, games) else []
  {
    if games != [] {
      var game := games[|games| - 1];
      ProjGameSteps(t, c0, games[..|games| - 1], c, d);
      ProjCoSteps(t, c0, game, |t|, c, d);
      ProjAppend(GameSteps(t, c0, games[..|games| - 1]), CoSteps(t, c0, game, |t|), c, d);
    }
  }

  /** The Touch step a row starts with contributes no label. */
  lemma {:induction false} ProjTouch(before: seq<Step>, name: string, after: seq<Step>, c: string, d: string)
    ensures Proj(before + [Touch(name)] + after, c, d) == Proj(before, c, d) + Proj(after, c, d)
  {
    ProjSingle(Touch(name), c, d);
    ProjAppend(before, [Touch(name)], c, d);
    ProjAppend(before + [Touch(name)], after, c, d);
  }

  /** The labels a row's updates contribute, after the earlier rows'. */
  lemma {:induction false} ProjTraceRow(t: Table, n: nat, c: string, d: string)
    requires 0 < n <= |t|
    ensures Proj(Trace(t, n), c, d)
         == Proj(Trace(t, n - 1), c, d) + Proj(GameSteps(t, t[n - 1].name, t[n - 1].games), c, d)
  {
    ProjTouch(Trace(t, n - 1), t[n - 1].name, GameSteps(t, t[n - 1].name, t[n - 1].games), c, d);
  }

  lemma {:induction false} ProjTrace(t: Table, n: nat, c: string, d: string)
    requires n <= |t| && c != d
    ensures Proj(Trace(t, n), c, d) == EdgeLabels(t, c, d, n)
  {
    if n > 0 {
      ProjTraceRow(t, n, c, d);
      ProjTrace(t, n - 1, c, d);
      ProjGameSteps(t, t[n - 1].name, t[n - 1].games, c, d);
    }
  }

  /** No update appends to an edge from a name to itself. */
  ghost predicate NoSelfAdds(steps: seq<Step>) {
    forall s :: s in steps && s.Add? ==> s.c != s.d
  }

  lemma {:induction false} ProjNoSelf(steps: seq<Step>, c: string)
    requires NoSelfAdds(steps)
    ensures Proj(steps, c, c) == []
  {
    if steps != [] {
      var prefix := steps[..|steps| - 1];
      var last := steps[|steps| - 1];
      assert last in steps;
      assert forall s :: s in prefix ==> s in steps;
      ProjNoSelf(prefix, c);
      assert Proj(steps, c, c) == [] + [];
    }
  }

  lemma {:induction false} TraceNoSelf(t: Table, n: nat)
    requires n <= |t|
    ensures NoSelfAdds(Trace(t, n))
  {
    if n > 0 {
      TraceNoSelf(t, n - 1);
      GameStepsNames(t, t[n - 1].name, t[n - 1].games);
    }
  }

  /** Every Add step for a row named `c` has `c` as its source. */
  lemma {:induction false} CoStepsNames(t: Table, c: string, game: string, m: nat)
    requires m <= |t|
    ensures forall s :: s in CoSteps(t, c, game, m) ==> s.c == c && s.Add? && s.d != c
  {
    if m > 0 {
      CoStepsNames(t, c, game, m - 1);
    }
  }

  lemma {:induction false} GameStepsNames(t: Table, c: string, games: seq<string>)
    ensures forall s :: s in GameSteps(t, c, games) ==> s.c == c && s.Add? && s.d != c
  {
    if games != [] {
      GameStepsNames(t, c, games[..|games| - 1]);
      CoStepsNames(t, c, games[|games| - 1], |t|);
    }
  }

  /** The steps for `t[..n]` are about exactly the names of `t[..n]`. */
  lemma {:induction false} MentionsAppend(a: seq<Step>, b: seq<Step>, c: string)
    ensures Mentions(a + b, c) <==> Mentions(a, c) || Mentions(b, c)
  {
    if Mentions(a + b, c) {
      var i :| 0 <= i < |a + b| && (a + b)[i].c == c;
      if i >= |a| {
        assert b[i - |a|].c == c;
      }
    }
    if Mentions(a, c) {
      var i :| 0 <= i < |a| && a[i].c == c;
      assert (a + b)[i].c == c;
    }
    if Mentions(b, c) {
      var i :| 0 <= i < |b| && b[i].c == c;
      assert (a + b)[|a| + i].c == c;
    }
  }

  lemma {:induction false} TraceNames(t: Table, n: nat, c: string)
    requires n <= |t|
    ensures Mentions(Trace(t, n), c) <==> FirstIndex(t, c, n) >= 0
  {
    if n > 0 {
      var row := t[n - 1];
      var rest := GameSteps(t, row.name, row.games);
      TraceNames(t, n - 1, c);
      GameStepsNames(t, row.name, row.games);
      MentionsAppend(Trace(t, n - 1), [Touch(row.name)], c);
      MentionsAppend(Trace(t, n - 1) + [Touch(row.name)], rest, c);
      if Mentions(rest, c) {
        var i :| 0 <= i < |rest| && rest[i].c == c;
        assert rest[i] in rest;
      }
      assert [Touch(row.name)][0].c == row.name;
      assert Mentions([Touch(row.name)], c) <==> row.name == c;
    }
  }

  // ---------------------------------------------------------------------
  // What the graph is.

  /** Exactly the table's names are keys. */
  lemma {:induction false} GraphKeys(t: Table, c: string)
    ensures c in GraphOf(t) <==> Named(t, c)
  {
    var steps := Trace(t, |t|);
    RunKeys(map[], steps, c);
    TraceNames(t, |t|, c);
    NamedFirst(t, c);
  }

  /** The labels on c -> d are those of the direct description; there are none on c -> c. */
  lemma {:induction false} BuildLabels(steps: seq<Step>, c: string, d: string)
    ensures Labels(Run(map[], steps), c, d) == Proj(steps, c, d)
  {
    RunLabels(map[], steps, c, d);
    assert Labels(map[], c, d) == [];
    assert [] + Proj(steps, c, d) == Proj(steps, c, d);
  }

  lemma {:induction false} GraphLabels(t: Table, c: string, d: string)
    ensures Labels(GraphOf(t), c, d) == if c == d then [] else EdgeLabels(t, c, d, |t|)
  {
    BuildLabels(Trace(t, |t|), c, d);
    if c == d {
      TraceNoSelf(t, |t|);
      ProjNoSelf(Trace(t, |t|), c);
    } else {
      ProjTrace(t, |t|, c, d);
    }
  }

  lemma {:induction false} RowsListingPositive(t: Table, d: string, game: string, m: nat)
    requires m <= |t|
    ensures RowsListing(t, d, game, m) > 0 <==> exists j :: 0 <= j < m && t[j].name == d && game in t[j].games
  {
    if m > 0 {
      RowsListingPositive(t, d, game, m - 1);
    }
  }

  lemma {:induction false} GameLabelsMembers(t: Table, d: string, games: seq<string>, game: string)
    ensures game in GameLabels(t, d, games) <==> game in games && RowsListing(t, d, game, |t|) > 0
  {
    if games != [] {
      var prefix := games[..|games| - 1];
      GameLabelsMembers(t, d, prefix, game);
      assert games == prefix + [games[|games| - 1]];
    }
  }

  lemma {:induction false} EdgeLabelsRowMembers(t: Table, c: string, d: string, n: nat, game: string)
    requires 0 < n <= |t|
    ensures game in EdgeLabels(t, c, d, n)
        <==> game in EdgeLabels(t, c, d, n - 1) || (t[n - 1].name == c && game in GameLabels(t, d, t[n - 1].games))
  {
  }

  lemma {:induction false} EdgeLabelsMembers(t: Table, c: string, d: string, n: nat, game: string)
    requires n <= |t|
    ensures game in EdgeLabels(t, c, d, n)
        <==> (exists i :: 0 <= i < n && t[i].name == c && game in t[i].games) && RowsListing(t, d, game, |t|) > 0
  {
    if n > 0 {
      EdgeLabelsRowMembers(t, c, d, n, game);
      EdgeLabelsMembers(t, c, d, n - 1, game);
      GameLabelsMembers(t, d, t[n - 1].games, game);
      if i :| 0 <= i < n && t[i].name == c && game in t[i].games {
        if i < n - 1 {
          assert exists i' :: 0 <= i' < n - 1 && t[i'].name == c && game in t[i'].games;
        }
      }
      if game in EdgeLabels(t, c, d, n - 1) {
        var i :| 0 <= i < n - 1 && t[i].name == c && game in t[i].games;
        assert 0 <= i < n;
      }
    }
  }

  /** A label on c -> d is a game that a row named `c` and a row named `d`
      both list, and every such game is a label, for distinct names. */
  lemma {:induction false} LabelMembers(t: Table, c: string, d: string, game: string)
    ensures game in Labels(GraphOf(t), c, d)
        <==> (&& c != d
              && (exists i :: 0 <= i < |t| && t[i].name == c && game in t[i].games)
              && (exists j :: 0 <= j < |t| && t[j].name == d && game in t[j].games))
  {
    GraphLabels(t, c, d);
    EdgeLabelsMembers(t, c, d, |t|, game);
    RowsListingPositive(t, d, game, |t|);
  }

  /** `d` is a neighbour of `c` exactly when the names differ and some rows
      carrying them share a game; in particular no name neighbours itself. */
  lemma {:induction false} NeighbourIffCoAppear(t: Table, c: string, d: string)
    ensures d in Adj(GraphOf(t), c).vals <==> c != d && CoAppear(t, c, d)
    ensures c !in Adj(GraphOf(t), c).vals
  {
    var g := GraphOf(t);
    GraphOfWellFormed(t);
    if d in Adj(g, c).vals {
      var ls := Labels(g, c, d);
      assert |ls| > 0;
      LabelMembers(t, c, d, ls[0]);
      var i :| 0 <= i < |t| && t[i].name == c && ls[0] in t[i].games;
      var k :| 0 <= k < |t[i].games| && t[i].games[k] == ls[0];
    }
    if c != d && CoAppear(t, c, d) {
      var i, j, k :| 0 <= i < |t| && 0 <= j < |t| && 0 <= k < |t[i].games|
        && t[i].name == c && t[j].name == d && t[i].games[k] in t[j].games;
      LabelMembers(t, c, d, t[i].games[k]);
    }
    GraphLabels(t, c, c);
  }

  /** The neighbour relation is symmetric. */
  lemma {:induction false} NeighbourSymmetric(t: Table, c: string, d: string)
    ensures d in Adj(GraphOf(t), c).vals <==> c in Adj(GraphOf(t), d).vals
  {
    NeighbourIffCoAppear(t, c, d);
    NeighbourIffCoAppear(t, d, c);
    if CoAppear(t, c, d) {
      var i, j, k :| 0 <= i < |t| && 0 <= j < |t| && 0 <= k < |t[i].games|
        && t[i].name == c && t[j].name == d && t[i].games[k] in t[j].games;
      var k' :| 0 <= k' < |t[j].games| && t[j].games[k'] == t[i].games[k];
      assert t[j].games[k'] in t[i].games;
    }
    if CoAppear(t, d, c) {
      var i, j, k :| 0 <= i < |t| && 0 <= j < |t| && 0 <= k < |t[i].games|
        && t[i].name == d && t[j].name == c && t[i].games[k] in t[j].games;
      var k' :| 0 <= k' < |t[j].games| && t[j].games[k'] == t[i].games[k];
      assert t[j].games[k'] in t[i].games;
    }
  }

  lemma {:induction false} CountAppend(a: seq<string>, b: seq<string>, x: string)
    ensures Count(a + b, x) == Count(a, x) + Count(b, x)
  {
    if b == [] {
      assert a + b == a;
    } else {
      var b' := b[..|b| - 1];
      assert (a + b)[..|a + b| - 1] == a + b';
      CountAppend(a, b', x);
    }
  }

  lemma {:induction false} CountMultiset(xs: seq<string>, x: string)
    ensures Count(xs, x) == multiset(xs)[x]
  {
    if xs != [] {
      var prefix := xs[..|xs| - 1];
      CountMultiset(prefix, x);
      assert xs == prefix + [xs[|xs| - 1]];
    }
  }

  lemma {:induction false} RepeatCount(x: string, m: nat, game: string)
    ensures Count(Repeat(x, m), game) == if x == game then m else 0
  {
    if m > 0 {
      RepeatCount(x, m - 1, game);
      assert Repeat(x, m)[..m - 1] == Repeat(x, m - 1);
    }
  }

  /** The step of a count that is a product: `m` grows by `b` exactly when
      `total` grows by `b * r`. */
  lemma {:induction false} Scale(total: nat, a: nat, b: nat, m: nat, r: nat, more: bool)
    requires total == a * r + (if more then b * r else 0)
    requires m == a + (if more then b else 0)
    ensures total == m * r
  {
    if more {
      assert (a + b) * r == a * r + b * r;
    }
  }

  lemma {:induction false} GameLabelsRowCount(t: Table, d: string, games: seq<string>, game: string)
    requires games != []
    ensures Count(GameLabels(t, d, games), game)
         == Count(GameLabels(t, d, games[..|games| - 1]), game)
            + (if games[|games| - 1] == game then RowsListing(t, d, game, |t|) else 0)
  {
    var x := games[|games| - 1];
    CountAppend(GameLabels(t, d, games[..|games| - 1]), Repeat(x, RowsListing(t, d, x, |t|)), game);
    RepeatCount(x, RowsListing(t, d, x, |t|), game);
  }

  lemma {:induction false} GameLabelsCount(t: Table, d: string, games: seq<string>, game: string)
    ensures Count(GameLabels(t, d, games), game) == Count(games, game) * RowsListing(t, d, game, |t|)
  {
    if games != [] {
      var prefix := games[..|games| - 1];
      GameLabelsRowCount(t, d, games, game);
      GameLabelsCount(t, d, prefix, game);
      Scale(Count(GameLabels(t, d, games), game), Count(prefix, game), 1, Count(games, game),
        RowsListing(t, d, game, |t|), games[|games| - 1] == game);
    }
  }

  lemma {:induction false} EdgeLabelsRowCount(t: Table, c: string, d: string, n: nat, game: string)
    requires 0 < n <= |t|
    ensures Count(EdgeLabels(t, c, d, n), game)
         == Count(EdgeLabels(t, c, d, n - 1), game)
            + (if t[n - 1].name == c then Count(GameLabels(t, d, t[n - 1].games), game) else 0)
  {
    var more := if t[n - 1].name == c then GameLabels(t, d, t[n - 1].games) else [];
    CountAppend(EdgeLabels(t, c, d, n - 1), more, game);
  }

  lemma {:induction false} EdgeLabelsCount(t: Table, c: string, d: string, n: nat, game: string)
    requires n <= |t|
    ensures Count(EdgeLabels(t, c, d, n), game) == Occurrences(t, c, game, n) * RowsListing(t, d, game, |t|)
  {
    if n > 0 {
      var row := t[n - 1];
      EdgeLabelsRowCount(t, c, d, n, game);
      EdgeLabelsCount(t, c, d, n - 1, game);
      GameLabelsCount(t, d, row.games, game);
      Scale(Count(EdgeLabels(t, c, d, n), game), Occurrences(t, c, game, n - 1), Count(row.games, game),
        Occurrences(t, c, game, n), RowsListing(t, d, game, |t|), row.name == c);
    }
  }

  /** No deduplication: on c -> d a game appears once for every pair of an
      occurrence of it in the game list of a row named `c` and a row named `d`
      listing it. */
  lemma {:induction false} LabelCounts(t: Table, c: string, d: string, game: string)
    requires c != d
    ensures multiset(Labels(GraphOf(t), c, d))[game]
         == Occurrences(t, c, game, |t|) * RowsListing(t, d, game, |t|)
  {
    GraphLabels(t, c, d);
    EdgeLabelsCount(t, c, d, |t|, game);
    CountMultiset(Labels(GraphOf(t), c, d), game);
  }
}
