/** Breadth-first search for a shortest connection between two characters
    over the co-appearance graph (find_shortest_path, 507gameproject.py:86-106). */
module PathFinder {
  import opened Dicts
  import opened RelationshipGraph

  /** The three outcomes: the trivial path when both names are equal, a path
      with one game label per hop, or no path at all (`None`). */
  datatype PathResult = Same(name: string) | Found(path: seq<string>, labels: seq<string>) | NoPath

  /** The search moves from `a` to `b` when `b` is a neighbour of `a` with at
      least one label: the loop over the labels does nothing for an empty list. */
  ghost predicate Edge(g: Graph, a: string, b: string) {
    a in g && b in g[a].vals && |g[a].vals[b]| > 0
  }

  /** `w` is a walk along edges from `s` to `t`. */
  ghost predicate IsWalk(g: Graph, w: seq<string>, s: string, t: string) {
    && |w| > 0 && w[0] == s && w[|w| - 1] == t
    && forall i :: 0 <= i < |w| - 1 ==> Edge(g, w[i], w[i + 1])
  }

  ghost predicate Reachable(g: Graph, s: string, t: string) {
    exists w :: IsWalk(g, w, s, t)
  }

  ghost predicate Distinct(w: seq<string>) {
    forall i, j :: 0 <= i < j < |w| ==> w[i] != w[j]
  }

  /** A reported path: a walk from `s` to `t` without repeated names, and for
      every hop the first label recorded on that edge. */
  ghost predicate IsTrail(g: Graph, path: seq<string>, labels: seq<string>, s: string, t: string) {
    && IsWalk(g, path, s, t)
    && Distinct(path)
    && |labels| == |path| - 1
    && forall i :: 0 <= i < |labels| ==> Edge(g, path[i], path[i + 1]) && labels[i] == g[path[i]].vals[path[i + 1]][0]
  }

  /** A queue element: the node reached, the path to it and its labels. */
  datatype Entry = Entry(node: string, path: seq<string>, labels: seq<string>)

  /** On the graph build_graph returns, the search moves between two names
      exactly when they differ and rows carrying them share a game, and every
      move can be made backwards. */
  lemma {:induction false} TableEdges(t: Characters.Table, a: string, b: string)
    ensures Edge(GraphOf(t), a, b) <==> a != b && CoAppear(t, a, b)
    ensures Edge(GraphOf(t), a, b) <==> Edge(GraphOf(t), b, a)
  {
    var g := GraphOf(t);
    GraphOfWellFormed(t);
    NeighbourIffCoAppear(t, a, b);
    NeighbourSymmetric(t, a, b);
    assert Edge(g, a, b) <==> b in Adj(g, a).vals;
    assert Edge(g, b, a) <==> a in Adj(g, b).vals;
  }

  // ---------------------------------------------------------------------
  // Invariants of the search.

  /** Every name that can ever be visited. */
  ghost function Universe(g: Graph, s: string): set<string> {
    {s} + set a, b | a in g && b in g[a].vals :: b
  }

  function Nodes(queue: seq<Entry>): set<string> {
    set i | 0 <= i < |queue| :: queue[i].node
  }

  ghost predicate Recorded(g: Graph, s: string, e: Entry, visited: set<string>) {
    && IsTrail(g, e.path, e.labels, s, e.node)
    && forall i :: 0 <= i < |e.path| ==> e.path[i] in visited
  }

  /** No walk from `s` reaches `e.node` with fewer names than `e.path`. */
  ghost predicate Shortest(g: Graph, s: string, e: Entry) {
    forall w :: IsWalk(g, w, s, e.node) ==> |e.path| <= |w|
  }

  /** Every edge out of a fully expanded node ends in a visited node. */
  ghost predicate Closed(g: Graph, done: set<string>, visited: set<string>) {
    forall p, b :: p in done && Edge(g, p, b) ==> b in visited
  }

  /** Common part of the loop invariants. */
  ghost predicate Common(g: Graph, s: string, t: string, queue: seq<Entry>, visited: set<string>, done: set<string>) {
    && s in visited && t !in visited && visited <= Universe(g, s)
    && (forall i :: 0 <= i < |queue| ==> Recorded(g, s, queue[i], visited) && Shortest(g, s, queue[i]))
    && Closed(g, done, visited)
    && (forall i, j :: 0 <= i <= j < |queue| ==> |queue[i].path| <= |queue[j].path|)
  }

  /** The state at the head of the `while queue` loop. */
  ghost predicate Inv(g: Graph, s: string, t: string, queue: seq<Entry>, visited: set<string>, done: set<string>) {
    && Common(g, s, t, queue, visited, done)
    && visited <= done + Nodes(queue)
    && (forall i, j :: 0 <= i <= j < |queue| ==> |queue[j].path| <= |queue[i].path| + 1)
  }

  /** The state while the neighbours of `current` are scanned. */
  ghost predicate Scan(g: Graph, s: string, t: string, current: Entry, queue: seq<Entry>, visited: set<string>, done: set<string>) {
    && Common(g, s, t, queue, visited, done)
    && Recorded(g, s, current, visited)
    && visited <= done + {current.node} + Nodes(queue)
    && (forall i :: 0 <= i < |queue| ==> |current.path| <= |queue[i].path| <= |current.path| + 1)
  }

  // ---------------------------------------------------------------------
  // Lemmas about walks.

  /** A walk that starts inside `visited` and ends outside leaves it on some hop. */
  lemma {:induction false} Exit(g: Graph, w: seq<string>, s: string, v: string, visited: set<string>) returns (i: nat)
    requires IsWalk(g, w, s, v) && s in visited && v !in visited
    ensures 0 < i < |w| && w[i - 1] in visited && w[i] !in visited
  {
    if w[|w| - 2] in visited {
      i := |w| - 1;
    } else {
      i := Exit(g, w[..|w| - 1], s, w[|w| - 2], visited);
    }
  }

  /** No walk leaves a set closed under edges. */
  lemma {:induction false} NoEscape(g: Graph, w: seq<string>, s: string, v: string, visited: set<string>)
    requires IsWalk(g, w, s, v) && s in visited && Closed(g, visited, visited)
    ensures v in visited
  {
    if |w| > 1 {
      var u := w[|w| - 2];
      NoEscape(g, w[..|w| - 1], s, u, visited);
      assert Edge(g, u, v);
    }
  }

  /** At the head of the loop, a name not yet visited is further away than
      the front of the queue. */
  lemma {:induction false} Frontier(g: Graph, s: string, t: string, queue: seq<Entry>, visited: set<string>, done: set<string>,
                 v: string, w: seq<string>)
    requires Inv(g, s, t, queue, visited, done) && |queue| > 0
    requires v !in visited && IsWalk(g, w, s, v)
    ensures |queue[0].path| < |w|
  {
    var i := Exit(g, w, s, v, visited);
    var u := w[i - 1];
    assert Edge(g, u, w[i]);
    assert u !in done;
    var k :| 0 <= k < |queue| && queue[k].node == u;
    assert IsWalk(g, w[..i], s, u);
  }

  lemma {:induction false} Shrinks(u: set<string>, a: set<string>, b: set<string>)
    requires a <= b <= u
    ensures |a| <= |b| && |u - b| == |u - a| - (|b| - |a|)
  {
    assert u - a == (u - b) + (b - a);
    assert b == a + (b - a);
  }

  /** Every walk from `s` to a name outside `visited0` has more than `n` names. */
  ghost predicate FarOutside(g: Graph, s: string, visited0: set<string>, n: nat) {
    forall v, w :: v !in visited0 && IsWalk(g, w, s, v) ==> n < |w|
  }

  /** Taking the front of the queue starts the scan of its neighbours. */
  lemma {:induction false} Popped(g: Graph, s: string, t: string, queue: seq<Entry>, visited: set<string>, done: set<string>)
    requires Inv(g, s, t, queue, visited, done) && |queue| > 0
    ensures Scan(g, s, t, queue[0], queue[1..], visited, done)
    ensures FarOutside(g, s, visited, |queue[0].path|)
  {
    forall v, w | v !in visited && IsWalk(g, w, s, v)
      ensures |queue[0].path| < |w|
    {
      Frontier(g, s, t, queue, visited, done, v, w);
    }
    var rest := queue[1..];
    forall x | x in visited
      ensures x in done + {queue[0].node} + Nodes(rest)
    {
      if x !in done && x != queue[0].node {
        var k :| 0 <= k < |queue| && queue[k].node == x;
        assert rest[k - 1].node == x;
      }
    }
    forall i | 0 <= i < |rest|
      ensures |queue[0].path| <= |rest[i].path| <= |queue[0].path| + 1
    {
      assert rest[i] == queue[i + 1];
    }
  }

  /** The trail to `current` extended by one hop to a name not yet visited. */
  lemma {:induction false} Extend(g: Graph, s: string, current: Entry, visited: set<string>, visited0: set<string>,
               neighbour: string, game: string)
    requires Recorded(g, s, current, visited) && visited0 <= visited
    requires FarOutside(g, s, visited0, |current.path|)
    requires Edge(g, current.node, neighbour) && neighbour !in visited
    requires game == g[current.node].vals[neighbour][0]
    ensures var e := Entry(neighbour, current.path + [neighbour], current.labels + [game]);
      Recorded(g, s, e, visited + {neighbour}) && Shortest(g, s, e)
  {
    var path := current.path + [neighbour];
    var labels := current.labels + [game];
    assert IsWalk(g, path, s, neighbour) by {
      forall i | 0 <= i < |path| - 1
        ensures Edge(g, path[i], path[i + 1])
      {
        if i < |path| - 2 {
          assert path[i] == current.path[i] && path[i + 1] == current.path[i + 1];
        }
      }
    }
    assert Distinct(path);
  }

  /** Every neighbour in `ks` that the search moves to is visited. */
  ghost predicate Covered(g: Graph, c: string, ks: seq<string>, visited: set<string>) {
    forall b :: b in ks && Edge(g, c, b) ==> b in visited
  }

  lemma {:induction false} CoverMore(g: Graph, c: string, ks: seq<string>, j: nat, v1: set<string>, v2: set<string>)
    requires j < |ks| && Covered(g, c, ks[..j], v1) && v1 <= v2
    requires Edge(g, c, ks[j]) ==> ks[j] in v2
    ensures Covered(g, c, ks[..j + 1], v2)
  {
    assert ks[..j + 1] == ks[..j] + [ks[j]];
  }

  /** Visiting a neighbour keeps the scan invariant. */
  lemma {:induction false} Visit(g: Graph, s: string, t: string, current: Entry, queue: seq<Entry>, visited: set<string>,
              done: set<string>, visited0: set<string>, neighbour: string, game: string)
    requires Scan(g, s, t, current, queue, visited, done) && visited0 <= visited
    requires FarOutside(g, s, visited0, |current.path|)
    requires Edge(g, current.node, neighbour) && neighbour !in visited && neighbour != t
    requires game == g[current.node].vals[neighbour][0]
    ensures var e := Entry(neighbour, current.path + [neighbour], current.labels + [game]);
      Scan(g, s, t, current, queue + [e], visited + {neighbour}, done)
  {
    var e := Entry(neighbour, current.path + [neighbour], current.labels + [game]);
    var visited' := visited + {neighbour};
    Extend(g, s, current, visited, visited0, neighbour, game);
    QueueSnoc(g, s, queue, visited, e);
    NodesSnoc(queue, e);
    LengthsSnoc(queue, e, |current.path|);
    assert neighbour in Universe(g, s);
    assert Closed(g, done, visited');
    assert Recorded(g, s, current, visited');
    assert Common(g, s, t, queue + [e], visited', done);
  }

  /** Appending an entry one longer than `current` keeps the queue ordered by
      path length and within one of `current`. */
  lemma {:induction false} LengthsSnoc(queue: seq<Entry>, e: Entry, n: nat)
    requires forall i, j :: 0 <= i <= j < |queue| ==> |queue[i].path| <= |queue[j].path|
    requires forall i :: 0 <= i < |queue| ==> n <= |queue[i].path| <= n + 1
    requires |e.path| == n + 1
    ensures forall i, j :: 0 <= i <= j < |queue + [e]| ==> |(queue + [e])[i].path| <= |(queue + [e])[j].path|
    ensures forall i :: 0 <= i < |queue + [e]| ==> n <= |(queue + [e])[i].path| <= n + 1
  {
    var q := queue + [e];
    forall i | 0 <= i < |q|
      ensures n <= |q[i].path| <= n + 1
    {
      if i < |queue| {
        assert q[i] == queue[i];
      }
    }
    forall i, j | 0 <= i <= j < |q|
      ensures |q[i].path| <= |q[j].path|
    {
      if j < |queue| {
        assert q[i] == queue[i] && q[j] == queue[j];
      } else if i < |queue| {
        assert q[i] == queue[i];
      }
    }
  }

  /** Appending a recorded, shortest entry keeps every queued entry recorded
      and shortest once its node is visited. */
  lemma {:induction false} QueueSnoc(g: Graph, s: string, queue: seq<Entry>, visited: set<string>, e: Entry)
    requires forall i :: 0 <= i < |queue| ==> Recorded(g, s, queue[i], visited) && Shortest(g, s, queue[i])
    requires Recorded(g, s, e, visited + {e.node}) && Shortest(g, s, e)
    ensures forall i :: 0 <= i < |queue + [e]| ==>
      Recorded(g, s, (queue + [e])[i], visited + {e.node}) && Shortest(g, s, (queue + [e])[i])
  {
    var queue' := queue + [e];
    forall i | 0 <= i < |queue'|
      ensures Recorded(g, s, queue'[i], visited + {e.node}) && Shortest(g, s, queue'[i])
    {
      if i < |queue| {
        assert queue'[i] == queue[i];
      }
    }
  }

  lemma {:induction false} NodesSnoc(queue: seq<Entry>, e: Entry)
    ensures Nodes(queue + [e]) == Nodes(queue) + {e.node}
  {
    var queue' := queue + [e];
    assert queue'[|queue|].node == e.node;
    forall x | x in Nodes(queue)
      ensures x in Nodes(queue')
    {
      var k :| 0 <= k < |queue| && queue[k].node == x;
      assert queue'[k].node == x;
    }
  }

  /** After all neighbours of `current` are scanned, it joins the expanded nodes. */
  lemma {:induction false} Expanded(g: Graph, s: string, t: string, current: Entry, queue: seq<Entry>, visited: set<string>,
                 done: set<string>)
    requires Scan(g, s, t, current, queue, visited, done)
    requires current.node in g ==> Covered(g, current.node, g[current.node].keys, visited)
    requires WellFormed(g)
    ensures Inv(g, s, t, queue, visited, done + {current.node})
  {
    forall p, b | p in done + {current.node} && Edge(g, p, b)
      ensures b in visited
    {
      if p == current.node {
        assert b in g[p].keys;
      }
    }
  }

  /** The state before the first iteration: only `s` is queued and visited. */
  lemma {:induction false} Start(g: Graph, s: string, t: string)
    requires s != t
    ensures Inv(g, s, t, [Entry(s, [s], [])], {s}, {})
  {
    var e := Entry(s, [s], []);
    assert IsWalk(g, e.path, s, s);
    assert Nodes([e]) == {s} by {
      assert [e][0].node == s;
    }
  }

  /** An empty queue leaves every reachable name visited, so the target,
      never visited, is unreachable. */
  lemma {:induction false} Exhausted(g: Graph, s: string, t: string, visited: set<string>, done: set<string>)
    requires Inv(g, s, t, [], visited, done)
    ensures !Reachable(g, s, t)
  {
    assert Nodes([]) == {};
    forall w | IsWalk(g, w, s, t)
      ensures false
    {
      NoEscape(g, w, s, t, visited);
    }
  }

  // ---------------------------------------------------------------------
  // The search.

  /** The inner loop over the labels of one edge `current.node -> neighbour`:
      only the first label can find the neighbour unvisited. */
  method Meet(g: Graph, source: string, target: string, current: Entry, neighbour: string, games: seq<string>,
              queue: seq<Entry>, visited: set<string>, ghost done: set<string>, ghost visited0: set<string>)
    returns (found: bool, path: seq<string>, labels: seq<string>, queue': seq<Entry>, visited': set<string>)
    requires WellFormed(g) && current.node in g && neighbour in g[current.node].vals
    requires games == g[current.node].vals[neighbour]
    requires Scan(g, source, target, current, queue, visited, done)
    requires FarOutside(g, source, visited0, |current.path|) && visited0 <= visited
    ensures found ==> IsTrail(g, path, labels, source, target)
    ensures found ==> forall w :: IsWalk(g, w, source, target) ==> |path| <= |w|
    ensures !found ==> Scan(g, source, target, current, queue', visited', done)
    ensures !found ==> visited <= visited' && |queue'| - |queue| == |visited'| - |visited|
    ensures !found && Edge(g, current.node, neighbour) ==> neighbour in visited'
  {
    queue', visited' := queue, visited;
    path, labels := [], [];
    for k := 0 to |games|
      invariant Scan(g, source, target, current, queue', visited', done)
      invariant visited <= visited' && |queue'| - |queue| == |visited'| - |visited|
      invariant k > 0 ==> neighbour in visited'
    {
      if neighbour !in visited' {
        path := current.path + [neighbour];
        labels := current.labels + [games[k]];
        if neighbour == target {
          Extend(g, source, current, visited', visited0, neighbour, games[k]);
          return true, path, labels, queue', visited';
        }
        Visit(g, source, target, current, queue', visited', done, visited0, neighbour, games[k]);
        visited' := visited' + {neighbour};
        queue' := queue' + [Entry(neighbour, path, labels)];
      }
    }
    found := false;
  }

  /** The body of the search loop for one dequeued entry: every neighbour of
      `current`, in insertion order, and every label on that edge; a neighbour
      not yet visited is either the target, which ends the search, or is
      marked visited and queued with the first label of its edge. */
  method Expand(g: Graph, source: string, target: string, current: Entry, queue: seq<Entry>,
                visited: set<string>, ghost done: set<string>)
    returns (found: bool, path: seq<string>, labels: seq<string>, queue': seq<Entry>, visited': set<string>)
    requires WellFormed(g)
    requires Scan(g, source, target, current, queue, visited, done)
    requires FarOutside(g, source, visited, |current.path|)
    ensures found ==> IsTrail(g, path, labels, source, target)
    ensures found ==> forall w :: IsWalk(g, w, source, target) ==> |path| <= |w|
    ensures !found ==> Inv(g, source, target, queue', visited', done + {current.node})
    ensures !found ==> visited <= visited' && |queue'| - |queue| == |visited'| - |visited|
  {
    ghost var visited0 := visited;
    queue', visited' := queue, visited;
    path, labels := [], [];
    var adjacency := Adj(g, current.node);
    var keys := adjacency.keys;
    for j := 0 to |keys|
      invariant Scan(g, source, target, current, queue', visited', done)
      invariant Covered(g, current.node, keys[..j], visited')
      invariant visited0 <= visited' && |queue'| - |queue| == |visited'| - |visited0|
    {
      var neighbour := keys[j];
      var games := adjacency.vals[neighbour];
      ghost var before := visited';
      found, path, labels, queue', visited' := Meet(g, source, target, current, neighbour, games, queue', visited', done, visited0);
      if found {
        return;
      }
      CoverMore(g, current.node, keys, j, before, visited');
    }
    assert keys[..|keys|] == keys;
    Expanded(g, source, target, current, queue', visited', done);
    found := false;
  }

  /** find_shortest_path: equal names give the one-name path; otherwise a
      FIFO queue of partial paths starting from `source`, marking a neighbour
      visited the first time it is met and recording the first label of its
      edge, until `target` is met or the queue runs out. */
  method FindShortestPath(source: string, target: string, g: Graph) returns (r: PathResult)
    requires WellFormed(g)
    ensures r.Same? <==> source == target
    ensures r.Same? ==> r.name == source
    ensures r.Found? ==> IsTrail(g, r.path, r.labels, source, target)
    ensures r.Found? ==> forall w :: IsWalk(g, w, source, target) ==> |r.path| <= |w|
    ensures r.NoPath? <==> source != target && !Reachable(g, source, target)
  {
    if source == target {
      return Same(source);
    }
    var queue := [Entry(source, [source], [])];
    var visited := {source};
    ghost var done: set<string> := {};
    ghost var universe := Universe(g, source);
    Start(g, source, target);
    while queue != []
      invariant Inv(g, source, target, queue, visited, done)
      decreases |universe - visited|, |queue|
    {
      var current := queue[0];
      Popped(g, source, target, queue, visited, done);
      ghost var visited0 := visited;
      queue := queue[1..];
      var found, path, labels;
      found, path, labels, queue, visited := Expand(g, source, target, current, queue, visited, done);
      if found {
        assert IsWalk(g, path, source, target);
        return Found(path, labels);
      }
      done := done + {current.node};
      assert visited <= universe by {
        assert Common(g, source, target, queue, visited, done);
      }
      Shrinks(universe, visited0, visited);
    }
    Exhausted(g, source, target, visited, done);
    return NoPath;
  }
}
