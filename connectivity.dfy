/** find_most_connected_node (507gameproject.py:109-137): for every row, the
    set of names sharing one of its games, listed as its friends or listed as
    its enemies, without its own name; the per-name counts kept in a dict,
    and the first name with the largest count. */
module Connectivity {
  import opened Characters
  import opened Dicts
  import opened ByName
  import opened RelationshipGraph

  /** The call raises for an empty table (`max` of an empty dict); otherwise
      it yields a name and its count. */
  datatype Most = EmptyTable | Most(name: string, count: nat)

  // ---------------------------------------------------------------------
  // The connections of one row.

  /** The names of the rows whose game list holds `game`: the name column of
      the rows a filter on `game in games` keeps. */
  function Listing(t: Table, game: string): set<string> {
    set i | 0 <= i < |t| && game in t[i].games :: t[i].name
  }

  /** The names gathered over `games`, one `update` per game. */
  function CoAppearing(t: Table, games: seq<string>): set<string> {
    if games == [] then {}
    else CoAppearing(t, games[..|games| - 1]) + Listing(t, games[|games| - 1])
  }

  /** A name is gathered exactly when some row carrying it lists one of the games. */
  lemma {:induction false} CoAppearingMeaning(t: Table, games: seq<string>, n: string)
    ensures n in CoAppearing(t, games)
        <==> exists i, k :: 0 <= i < |t| && 0 <= k < |games| && t[i].name == n && games[k] in t[i].games
  {
    if games != [] {
      var init := games[..|games| - 1];
      var last := games[|games| - 1];
      CoAppearingMeaning(t, init, n);
      if n in CoAppearing(t, games) {
        if n in CoAppearing(t, init) {
          var i, k :| 0 <= i < |t| && 0 <= k < |init| && t[i].name == n && init[k] in t[i].games;
          assert games[k] == init[k];
        } else {
          var i :| 0 <= i < |t| && last in t[i].games && t[i].name == n;
          assert games[|games| - 1] in t[i].games;
        }
      } else {
        forall i, k | 0 <= i < |t| && 0 <= k < |games| && t[i].name == n
          ensures games[k] !in t[i].games
        {
          if k < |init| {
            assert games[k] == init[k];
          } else {
            assert n !in Listing(t, last);
          }
        }
      }
    }
  }

  /** `connected_characters` for `row`: the gathered names, its friends and
      its enemies, its own name discarded. */
  function Connected(t: Table, row: Character): set<string> {
    (CoAppearing(t, row.games) + ToSet(row.friends) + ToSet(row.enemies)) - {row.name}
  }

  /** A name is connected to `row` exactly when it is not `row`'s own name and
      it shares one of `row`'s games, is a friend or is an enemy. */
  lemma {:induction false} ConnectedMeaning(t: Table, row: Character, n: string)
    ensures n in Connected(t, row) <==>
      && n != row.name
      && ((exists i, k :: 0 <= i < |t| && 0 <= k < |row.games| && t[i].name == n && row.games[k] in t[i].games)
          || n in row.friends || n in row.enemies)
  {
    CoAppearingMeaning(t, row.games, n);
  }

  /** Co-appearance counts both ways: two rows with different names sharing
      a game are connected to each other. */
  lemma {:induction false} ConnectedShared(t: Table, i: nat, j: nat, game: string)
    requires i < |t| && j < |t| && t[i].name != t[j].name
    requires game in t[i].games && game in t[j].games
    ensures t[j].name in Connected(t, t[i]) && t[i].name in Connected(t, t[j])
  {
    var ki :| 0 <= ki < |t[i].games| && t[i].games[ki] == game;
    var kj :| 0 <= kj < |t[j].games| && t[j].games[kj] == game;
    ConnectedMeaning(t, t[i], t[j].name);
    ConnectedMeaning(t, t[j], t[i].name);
  }

  /** The names a row gathers through its games are its name's neighbours in
      the graph build_graph returns; when no other row carries that name,
      they are exactly those neighbours. */
  lemma {:induction false} CoAppearingNeighbours(t: Table, i: nat)
    requires i < |t|
    ensures forall n :: n in CoAppearing(t, t[i].games) && n != t[i].name ==> n in Adj(GraphOf(t), t[i].name).vals
    ensures (forall j :: 0 <= j < |t| && t[j].name == t[i].name ==> j == i) ==>
      forall n :: n in Adj(GraphOf(t), t[i].name).vals <==> n in CoAppearing(t, t[i].games) && n != t[i].name
  {
    var c := t[i].name;
    forall n | n in CoAppearing(t, t[i].games) && n != c
      ensures n in Adj(GraphOf(t), c).vals
    {
      CoAppearingMeaning(t, t[i].games, n);
      var j, k :| 0 <= j < |t| && 0 <= k < |t[i].games| && t[j].name == n && t[i].games[k] in t[j].games;
      assert CoAppear(t, c, n);
      NeighbourIffCoAppear(t, c, n);
    }
    if forall j :: 0 <= j < |t| && t[j].name == c ==> j == i {
      forall n | n in Adj(GraphOf(t), c).vals
        ensures n in CoAppearing(t, t[i].games) && n != c
      {
        NeighbourIffCoAppear(t, c, n);
        var i', j, k :| 0 <= i' < |t| && 0 <= j < |t| && 0 <= k < |t[i'].games|
          && t[i'].name == c && t[j].name == n && t[i'].games[k] in t[j].games;
        assert i' == i;
        CoAppearingMeaning(t, t[i].games, n);
      }
    }
  }

  /** The body of the row loop for one row: the union over its games, then
      its friends and enemies, then the discard of its own name. */
  method ConnectedOf(t: Table, row: Character) returns (connected: set<string>)
    ensures connected == Connected(t, row)
  {
    connected := {};
    for j := 0 to |row.games|
      invariant connected == CoAppearing(t, row.games[..j])
    {
      var game := row.games[j];
      var co := Listing(t, game);
      assert row.games[..j + 1][..j] == row.games[..j];
      connected := connected + co;
    }
    assert row.games[..|row.games|] == row.games;
    connected := connected + ToSet(row.friends);
    connected := connected + ToSet(row.enemies);
    connected := connected - {row.name};
  }

  // ---------------------------------------------------------------------
  // The dict of counts and its maximum.

  /** `connections` after the rows `t[..k]`. */
  function Counts(t: Table, k: nat): Dict<nat>
    requires k <= |t|
  {
    Fill<nat>(t, k, {}, r => |Connected(t, r)|)
  }

  /** The count of a name: that of the last row carrying it. */
  ghost function Connections(t: Table, n: string): nat
    requires Named(t, n)
  {
    NamedLast(t, n);
    |Connected(t, t[LastIndex(t, n, |t|)])|
  }

  /** One entry per name, in order of first appearance. */
  lemma {:induction false} CountsKeys(t: Table)
    ensures Counts(t, |t|).keys == NameOrder(t, |t|, {})
  {
    FillKeys<nat>(t, |t|, {}, r => |Connected(t, r)|);
  }

  /** Exactly the names of the table are keys and have a count, and the
      count of a name is that of the last row carrying it. */
  lemma {:induction false} CountOf(t: Table, n: string)
    ensures n in Counts(t, |t|).keys <==> Named(t, n)
    ensures n in Counts(t, |t|).vals <==> Named(t, n)
    ensures n in Counts(t, |t|).vals ==> Counts(t, |t|).vals[n] == Connections(t, n)
  {
    CountsKeys(t);
    NameOrderMember(t, |t|, {}, n);
    NamedFirst(t, n);
    FillDomain<nat>(t, |t|, {}, r => |Connected(t, r)|, n);
    if n in Counts(t, |t|).vals {
      FillValue<nat>(t, |t|, {}, r => |Connected(t, r)|, n);
    }
  }

  /** `count.get(k)`; every key the query asks for has a count, so the
      default is never read. */
  function Get(count: map<string, nat>, k: string): nat {
    if k in count then count[k] else 0
  }

  /** The position `max(keys, key=count.get)` picks: scanning left to right,
      a later key replaces the current one only with a strictly larger count. */
  function MaxIndex(keys: seq<string>, count: map<string, nat>): (i: nat)
    requires keys != []
    ensures i < |keys|
  {
    if |keys| == 1 then 0
    else
      var i := MaxIndex(keys[..|keys| - 1], count);
      if Get(count, keys[|keys| - 1]) > Get(count, keys[i]) then |keys| - 1 else i
  }

  /** The picked key has the largest count, and every key before it a
      strictly smaller one: it is the first key of largest count. */
  lemma {:induction false} MaxIndexFirst(keys: seq<string>, count: map<string, nat>)
    requires keys != []
    ensures forall j :: 0 <= j < |keys| ==> Get(count, keys[j]) <= Get(count, keys[MaxIndex(keys, count)])
    ensures forall j :: 0 <= j < MaxIndex(keys, count) ==> Get(count, keys[j]) < Get(count, keys[MaxIndex(keys, count)])
  {
    if |keys| > 1 {
      var init := keys[..|keys| - 1];
      MaxIndexFirst(init, count);
      assert forall j :: 0 <= j < |init| ==> init[j] == keys[j];
    }
  }

  /** What the call returns, as a function of the table. */
  function MostConnected(t: Table): Most {
    var d := Counts(t, |t|);
    if d.keys == [] then EmptyTable
    else
      var i := MaxIndex(d.keys, d.vals);
      Most(d.keys[i], Get(d.vals, d.keys[i]))
  }

  /** find_most_connected_node: the row loop filling `connections`, then `max`. */
  method FindMostConnected(t: Table) returns (r: Most)
    ensures r == MostConnected(t)
  {
    var connections := Empty<nat>();
    for k := 0 to |t|
      invariant connections == Counts(t, k)
    {
      var row := t[k];
      var connected := ConnectedOf(t, row);
      connections := connections.Put(row.name, |connected|);
    }
    if connections.keys == [] {
      return EmptyTable;
    }
    var i := MaxIndex(connections.keys, connections.vals);
    return Most(connections.keys[i], Get(connections.vals, connections.keys[i]));
  }

  // ---------------------------------------------------------------------
  // What the result means.

  /** No name has a larger count than the one returned, and a name whose
      first row comes earlier has a strictly smaller one. */
  lemma {:induction false} Beats(t: Table, n: string)
    requires MostConnected(t).Most? && Named(t, n)
    ensures Connections(t, n) <= MostConnected(t).count
    ensures FirstIndex(t, n, |t|) < FirstIndex(t, MostConnected(t).name, |t|) ==> Connections(t, n) < MostConnected(t).count
  {
    var d := Counts(t, |t|);
    CountsKeys(t);
    CountOf(t, n);
    var i := MaxIndex(d.keys, d.vals);
    MaxIndexFirst(d.keys, d.vals);
    CountOf(t, d.keys[i]);
    var p :| 0 <= p < |d.keys| && d.keys[p] == n;
    assert MostConnected(t) == Most(d.keys[i], Get(d.vals, d.keys[i]));
    assert Get(d.vals, n) == Connections(t, n);
    if p < i {
      assert Get(d.vals, d.keys[p]) < Get(d.vals, d.keys[i]);
    } else if i < p {
      NameOrderBefore(t, |t|, {}, i, p);
      assert FirstIndex(t, MostConnected(t).name, |t|) < FirstIndex(t, n, |t|);
    } else {
      assert MostConnected(t).name == n;
    }
  }

  /** The error case is exactly the empty table. Otherwise the name carries
      a row, its count is that of its last row, no name has a larger count,
      and every name whose first row comes earlier has a strictly smaller one. */
  lemma {:induction false} MostConnectedMeaning(t: Table)
    ensures MostConnected(t).EmptyTable? <==> |t| == 0
    ensures MostConnected(t).Most? ==>
      && Named(t, MostConnected(t).name)
      && MostConnected(t).count == Connections(t, MostConnected(t).name)
      && (forall n :: Named(t, n) ==> Connections(t, n) <= MostConnected(t).count)
      && (forall n :: Named(t, n) && FirstIndex(t, n, |t|) < FirstIndex(t, MostConnected(t).name, |t|) ==>
            Connections(t, n) < MostConnected(t).count)
  {
    var d := Counts(t, |t|);
    if |t| > 0 {
      CountOf(t, t[0].name);
      assert t[0].name in d.keys;
    }
    if d.keys != [] {
      var i := MaxIndex(d.keys, d.vals);
      CountOf(t, d.keys[i]);
      assert MostConnected(t) == Most(d.keys[i], Get(d.vals, d.keys[i]));
      forall n | Named(t, n)
        ensures Connections(t, n) <= MostConnected(t).count
        ensures FirstIndex(t, n, |t|) < FirstIndex(t, MostConnected(t).name, |t|) ==> Connections(t, n) < MostConnected(t).count
      {
        Beats(t, n);
      }
    }
  }
}
