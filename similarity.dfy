/** find_closely_related_characters (507gameproject.py:24-62): score every
    other row of the table against the first row carrying the queried name,
    keep one entry per name, and return the five best scores. */
module Similarity {
  import opened Characters
  import opened Dicts
  import opened ByName

  /** The record kept per other character. `score` is held in tenths of a
      point, so the weights 2, 1, 0.5, 0.2 and the two bonuses of 1 become
      20, 10, 5, 2 and 10. */
  datatype Record = Record(
    score: int,
    isFriend: bool,
    isEnemy: bool,
    sharedGames: nat,
    sharedFriends: nat,
    sharedEnemies: nat,
    sharedLocations: nat)

  /** One `(name, record)` pair of `similarity_scores.items()`. */
  datatype Related = Related(name: string, info: Record)

  /** The message string returned for an unknown name, or the ranked list. */
  datatype Ranking = NotFound(message: string) | Ranked(entries: seq<Related>)

  function NotFoundMessage(name: string): string {
    "Character '" + name + "' not found in the dataset."
  }

  // ---------------------------------------------------------------------
  // Scoring one pair of rows.

  lemma {:induction false} IntersectionBound(a: set<string>, b: set<string>)
    ensures |a * b| <= |a| && |a * b| <= |b|
  {
    assert a == (a * b) + (a - b);
    assert b == (a * b) + (b - a);
  }

  /** `len(set(xs).intersection(set(ys)))` */
  function Shared(xs: seq<string>, ys: seq<string>): nat {
    |ToSet(xs) * ToSet(ys)|
  }

  /** The count is bounded by the distinct values of either list, and is zero
      exactly when the lists have no value in common. */
  lemma {:induction false} SharedFacts(xs: seq<string>, ys: seq<string>)
    ensures Shared(xs, ys) <= |ToSet(xs)| && Shared(xs, ys) <= |ToSet(ys)|
    ensures Shared(xs, ys) == 0 <==> forall x :: x in xs ==> x !in ys
  {
    IntersectionBound(ToSet(xs), ToSet(ys));
    var s := ToSet(xs) * ToSet(ys);
    assert forall x :: x in xs && x in ys ==> x in s;
  }

  function Bonus(b: bool): int {
    if b then 10 else 0
  }

  /** The record for row `r` against the queried row `q`; `name` is the
      queried name, looked up in `r`'s friend and enemy lists. */
  function Compare(name: string, q: Character, r: Character): Record {
    var g := Shared(q.games, r.games);
    var f := Shared(q.friends, r.friends);
    var e := Shared(q.enemies, r.enemies);
    var l := Shared(q.locations, r.locations);
    Record(20 * g + 10 * f + 5 * e + 2 * l + Bonus(name in r.friends) + Bonus(name in r.enemies),
               name in r.friends, name in r.enemies, g, f, e, l)
  }

  /** The flags record whether `r` lists the queried name; every count is
      bounded by the distinct values of both rows; the score is non-negative
      and bounded by what the queried row alone lists. */
  lemma {:induction false} CompareFacts(name: string, q: Character, r: Character)
    ensures var s := Compare(name, q, r);
      && (s.isFriend <==> name in r.friends)
      && (s.isEnemy <==> name in r.enemies)
      && s.sharedGames <= |ToSet(q.games)| && s.sharedGames <= |ToSet(r.games)|
      && s.sharedFriends <= |ToSet(q.friends)| && s.sharedFriends <= |ToSet(r.friends)|
      && s.sharedEnemies <= |ToSet(q.enemies)| && s.sharedEnemies <= |ToSet(r.enemies)|
      && s.sharedLocations <= |ToSet(q.locations)| && s.sharedLocations <= |ToSet(r.locations)|
      && 0 <= s.score
      && s.score <= 20 * |ToSet(q.games)| + 10 * |ToSet(q.friends)| + 5 * |ToSet(q.enemies)| + 2 * |ToSet(q.locations)| + 20
  {
    SharedFacts(q.games, r.games);
    SharedFacts(q.friends, r.friends);
    SharedFacts(q.enemies, r.enemies);
    SharedFacts(q.locations, r.locations);
  }

  /** A score is zero exactly when the rows share nothing and `r` lists the
      queried name neither as friend nor as enemy. */
  lemma {:induction false} ScoreZero(name: string, q: Character, r: Character)
    ensures Compare(name, q, r).score == 0 <==>
      && (forall x :: x in q.games ==> x !in r.games)
      && (forall x :: x in q.friends ==> x !in r.friends)
      && (forall x :: x in q.enemies ==> x !in r.enemies)
      && (forall x :: x in q.locations ==> x !in r.locations)
      && name !in r.friends && name !in r.enemies
  {
    SharedFacts(q.games, r.games);
    SharedFacts(q.friends, r.friends);
    SharedFacts(q.enemies, r.enemies);
    SharedFacts(q.locations, r.locations);
  }

  lemma {:induction false} SharedSymmetric(xs: seq<string>, ys: seq<string>)
    ensures Shared(xs, ys) == Shared(ys, xs)
  {
    assert ToSet(xs) * ToSet(ys) == ToSet(ys) * ToSet(xs);
  }

  /** The shared counts are symmetric, so swapping the two rows changes the
      score only through the friend and enemy bonuses. */
  lemma {:induction false} ScoreSwap(name1: string, name2: string, q: Character, r: Character)
    ensures Compare(name1, q, r).score - Compare(name2, r, q).score
      == Bonus(name1 in r.friends) - Bonus(name2 in q.friends) + Bonus(name1 in r.enemies) - Bonus(name2 in q.enemies)
  {
    SharedSymmetric(q.games, r.games);
    SharedSymmetric(q.friends, r.friends);
    SharedSymmetric(q.enemies, r.enemies);
    SharedSymmetric(q.locations, r.locations);
  }

  // ---------------------------------------------------------------------
  // The dictionary of scores.

  /** `similarity_scores` after the rows `t[..k]`: rows carrying the queried
      name are skipped; every other row writes its record under its name. */
  function Scores(name: string, q: Character, t: Table, k: nat): Dict<Record>
    requires k <= |t|
  {
    Fill(t, k, {name}, r => Compare(name, q, r))
  }

  lemma {:induction false} ScoresValid(name: string, q: Character, t: Table, k: nat)
    requires k <= |t|
    ensures Scores(name, q, t, k).Valid()
  {
    FillValid(t, k, {name}, r => Compare(name, q, r));
  }

  /** One entry per other name, in order of first appearance, holding the
      record of the last row with that name. */
  lemma {:induction false} ScoresShape(name: string, q: Character, t: Table, k: nat)
    requires k <= |t|
    ensures Scores(name, q, t, k).keys == NameOrder(t, k, {name})
    ensures forall n :: n in Scores(name, q, t, k).vals ==>
      0 <= LastIndex(t, n, k) && Scores(name, q, t, k).vals[n] == Compare(name, q, t[LastIndex(t, n, k)])
  {
    var f := r => Compare(name, q, r);
    FillKeys(t, k, {name}, f);
    forall n | n in Scores(name, q, t, k).vals
      ensures 0 <= LastIndex(t, n, k) && Scores(name, q, t, k).vals[n] == Compare(name, q, t[LastIndex(t, n, k)])
    {
      FillValue(t, k, {name}, f, n);
    }
  }

  /** `similarity_scores.items()` */
  function Items(d: Dict<Record>): (items: seq<Related>)
    requires d.Valid()
    ensures |items| == |d.keys|
    ensures forall i :: 0 <= i < |items| ==> items[i].name == d.keys[i] && items[i].info == d.vals[d.keys[i]]
  {
    seq(|d.keys|, i requires 0 <= i < |d.keys| => Related(d.keys[i], d.vals[d.keys[i]]))
  }

  // ---------------------------------------------------------------------
  // `sorted(..., key=score, reverse=True)`: a stable sort on descending score.

  predicate Descending(s: seq<Related>) {
    forall i, j :: 0 <= i < j < |s| ==> s[i].info.score >= s[j].info.score
  }

  /** Inserts `x` before the first element whose score does not exceed its own. */
  function Insert(x: Related, s: seq<Related>): (r: seq<Related>)
    ensures multiset(r) == multiset(s) + multiset{x}
  {
    if s == [] || x.info.score >= s[0].info.score then [x] + s
    else
      assert s == [s[0]] + s[1..];
      [s[0]] + Insert(x, s[1..])
  }

  /** A head no lower than the first score of a descending list keeps it descending. */
  lemma {:induction false} ConsDescending(h: Related, tail: seq<Related>)
    requires Descending(tail) && (tail != [] ==> h.info.score >= tail[0].info.score)
    ensures Descending([h] + tail)
  {
    var r := [h] + tail;
    forall i, j | 0 <= i < j < |r|
      ensures r[i].info.score >= r[j].info.score
    {
      assert r[j] == tail[j - 1];
      if i > 0 {
        assert r[i] == tail[i - 1];
      }
    }
  }

  lemma {:induction false} InsertDescending(x: Related, s: seq<Related>)
    requires Descending(s)
    ensures Descending(Insert(x, s))
  {
    if s == [] || x.info.score >= s[0].info.score {
      ConsDescending(x, s);
    } else {
      var tail := Insert(x, s[1..]);
      InsertDescending(x, s[1..]);
      assert tail[0] == x || tail[0] == s[1];
      ConsDescending(s[0], tail);
    }
  }

  function SortDesc(xs: seq<Related>): (s: seq<Related>)
    ensures multiset(s) == multiset(xs)
    ensures Descending(s)
  {
    if xs == [] then []
    else
      assert xs == [xs[0]] + xs[1..];
      InsertDescending(xs[0], SortDesc(xs[1..]));
      Insert(xs[0], SortDesc(xs[1..]))
  }

  /** The elements of `s` with score `v`, in order. */
  function WithScore(s: seq<Related>, v: int): seq<Related> {
    if s == [] then [] else (if s[0].info.score == v then [s[0]] else []) + WithScore(s[1..], v)
  }

  lemma {:induction false} InsertStable(x: Related, s: seq<Related>, v: int)
    requires Descending(s)
    ensures WithScore(Insert(x, s), v) == (if x.info.score == v then [x] else []) + WithScore(s, v)
  {
    if s == [] || x.info.score >= s[0].info.score {
      assert ([x] + s)[1..] == s;
    } else {
      var tail := Insert(x, s[1..]);
      var r := [s[0]] + tail;
      assert r[1..] == tail;
      InsertStable(x, s[1..], v);
      var rest := WithScore(s[1..], v);
      if x.info.score == v {
        assert s[0].info.score != v;
        calc {
          WithScore(r, v);
          WithScore(tail, v);
          [x] + rest;
          [x] + WithScore(s, v);
        }
      } else {
        assert WithScore(tail, v) == rest;
      }
    }
  }

  /** Records with equal scores keep their relative order. */
  lemma {:induction false} SortStable(xs: seq<Related>, v: int)
    ensures WithScore(SortDesc(xs), v) == WithScore(xs, v)
  {
    if xs != [] {
      SortStable(xs[1..], v);
      InsertStable(xs[0], SortDesc(xs[1..]), v);
    }
  }

  /** `x` occurs somewhere before `y` in `s`. */
  ghost predicate Before(s: seq<Related>, x: Related, y: Related) {
    exists a, b :: 0 <= a < b < |s| && s[a] == x && s[b] == y
  }

  /** The elements kept by WithScore are exactly those of `s` with score `v`. */
  lemma {:induction false} WithScoreMembers(s: seq<Related>, v: int, x: Related)
    ensures x in WithScore(s, v) <==> x in s && x.info.score == v
  {
    if s != [] {
      WithScoreMembers(s[1..], v, x);
      assert s == [s[0]] + s[1..];
    }
  }

  /** Two elements of score `v` in order in `s` stay in that order among the
      elements of score `v`. */
  lemma {:induction false} WithScoreKeepsOrder(s: seq<Related>, v: int, i: nat, j: nat)
    requires i < j < |s| && s[i].info.score == v && s[j].info.score == v
    ensures Before(WithScore(s, v), s[i], s[j])
  {
    var rest := WithScore(s[1..], v);
    var h := if s[0].info.score == v then [s[0]] else [];
    assert WithScore(s, v) == h + rest;
    if i == 0 {
      WithScoreMembers(s[1..], v, s[j]);
      assert s[j] == s[1..][j - 1];
      var b :| 0 <= b < |rest| && rest[b] == s[j];
      assert (h + rest)[0] == s[0] && (h + rest)[1 + b] == s[j];
    } else {
      WithScoreKeepsOrder(s[1..], v, i - 1, j - 1);
      var a, b :| 0 <= a < b < |rest| && rest[a] == s[1..][i - 1] && rest[b] == s[1..][j - 1];
      assert (h + rest)[|h| + a] == s[i] && (h + rest)[|h| + b] == s[j];
    }
  }

  /** An order among the elements of score `v` is an order in `s`. */
  lemma {:induction false} WithScoreOrderBack(s: seq<Related>, v: int, x: Related, y: Related)
    requires Before(WithScore(s, v), x, y)
    ensures Before(s, x, y)
  {
    var rest := WithScore(s[1..], v);
    var h := if s[0].info.score == v then [s[0]] else [];
    assert WithScore(s, v) == h + rest;
    var a, b :| 0 <= a < b < |h + rest| && (h + rest)[a] == x && (h + rest)[b] == y;
    if h != [] && a == 0 {
      assert rest[b - 1] == y;
      WithScoreMembers(s[1..], v, y);
      var q :| 0 <= q < |s[1..]| && s[1..][q] == y;
      assert s[0] == x && s[q + 1] == y;
    } else {
      assert rest[a - |h|] == x && rest[b - |h|] == y;
      WithScoreOrderBack(s[1..], v, x, y);
      var p, q :| 0 <= p < q < |s[1..]| && s[1..][p] == x && s[1..][q] == y;
      assert s[p + 1] == x && s[q + 1] == y;
    }
  }

  /** Two records of equal score in the sorted list appear in the same order
      in the unsorted one. */
  lemma {:induction false} SortedTiesInOrder(xs: seq<Related>, i: nat, j: nat)
    requires i < j < |SortDesc(xs)| && SortDesc(xs)[i].info.score == SortDesc(xs)[j].info.score
    ensures Before(xs, SortDesc(xs)[i], SortDesc(xs)[j])
  {
    var s := SortDesc(xs);
    var v := s[i].info.score;
    WithScoreKeepsOrder(s, v, i, j);
    SortStable(xs, v);
    WithScoreOrderBack(xs, v, s[i], s[j]);
  }

  /** `sorted_characters[:n]` */
  function Top(s: seq<Related>, n: nat): (r: seq<Related>)
    ensures |r| == if |s| < n then |s| else n
    ensures r == s[..|r|]
  {
    if |s| < n then s else s[..n]
  }

  // ---------------------------------------------------------------------
  // The query.

  /** The five best records against the queried row `q`. */
  function Best(name: string, q: Character, t: Table): seq<Related> {
    ScoresValid(name, q, t, |t|);
    Top(SortDesc(Items(Scores(name, q, t, |t|))), 5)
  }

  /** What the query returns, as a function of the table. */
  function Rank(name: string, t: Table): Ranking {
    var first := FirstIndex(t, name, |t|);
    if first < 0 then NotFound(NotFoundMessage(name)) else Ranked(Best(name, t[first], t))
  }

  /** The lookup of the first row carrying `name`, then the ranking. */
  method FindRelated(name: string, t: Table) returns (r: Ranking)
    ensures r == Rank(name, t)
  {
    var first := FirstIndex(t, name, |t|);
    if first < 0 {
      return NotFound(NotFoundMessage(name));
    }
    var entries := RankAgainst(name, t[first], t);
    return Ranked(entries);
  }

  /** The body of the scoring loop for one row `row` against the queried row
      `character`: shared-value counts, the weighted score and the two bonuses. */
  method ScoreRow(name: string, character: Character, row: Character) returns (info: Record)
    ensures info == Compare(name, character, row)
  {
    var sharedGames := ToSet(character.games) * ToSet(row.games);
    var sharedFriends := ToSet(character.friends) * ToSet(row.friends);
    var sharedEnemies := ToSet(character.enemies) * ToSet(row.enemies);
    var sharedLocations := ToSet(character.locations) * ToSet(row.locations);
    var score := 20 * |sharedGames| + 10 * |sharedFriends| + 5 * |sharedEnemies| + 2 * |sharedLocations|;
    if name in row.friends {
      score := score + 10;
    }
    if name in row.enemies {
      score := score + 10;
    }
    info := Record(score, name in row.friends, name in row.enemies,
      |sharedGames|, |sharedFriends|, |sharedEnemies|, |sharedLocations|);
  }

  /** The scoring loop over all rows, then the sort and the cut to five. */
  method RankAgainst(name: string, character: Character, t: Table) returns (entries: seq<Related>)
    ensures entries == Best(name, character, t)
  {
    var scores := Empty<Record>();
    for i := 0 to |t|
      invariant scores == Scores(name, character, t, i)
    {
      var row := t[i];
      if row.name == name {
        continue;
      }
      var info := ScoreRow(name, character, row);
      scores := scores.Put(row.name, info);
    }
    ScoresValid(name, character, t, |t|);
    var sorted := SortDesc(Items(scores));
    return Top(sorted, 5);
  }

  /** The record the ranking holds for `n`: its last row scored against the
      first row carrying the queried name. */
  function Expected(name: string, t: Table, n: string): Record
    requires Named(t, name) && Named(t, n)
  {
    NamedFirst(t, name);
    NamedLast(t, n);
    Compare(name, t[FirstIndex(t, name, |t|)], t[LastIndex(t, n, |t|)])
  }

  function Names(s: seq<Related>): set<string> {
    set i | 0 <= i < |s| :: s[i].name
  }

  /** The result is the message exactly when no row has the name; otherwise it
      holds at most five distinct other names, each with its expected record,
      in descending score order, equal scores in table order, no name left
      out scoring higher than any name kept, and a name left out that ties
      with a kept one first appearing later in the table. */
  lemma {:induction false} RankMeaning(name: string, t: Table)
    ensures Rank(name, t).NotFound? <==> !Named(t, name)
    ensures Rank(name, t).NotFound? ==> Rank(name, t).message == NotFoundMessage(name)
    ensures Rank(name, t).Ranked? ==> Meaningful(name, t, Rank(name, t).entries)
    ensures Rank(name, t).Ranked? ==> TiesInTableOrder(t, Rank(name, t).entries)
    ensures Rank(name, t).Ranked? ==> CutInTableOrder(name, t, Rank(name, t).entries)
  {
    NamedFirst(t, name);
    if Named(t, name) {
      BestMeaning(name, t);
      BestTies(name, t);
      BestCut(name, t);
    }
  }

  /** What the ranked list promises: at most five distinct other names, each
      with its expected record, in descending score order, and no name left
      out scoring higher than any name kept. */
  ghost predicate Meaningful(name: string, t: Table, e: seq<Related>)
    requires Named(t, name)
  {
    && |e| == (if |NameOrder(t, |t|, {name})| < 5 then |NameOrder(t, |t|, {name})| else 5)
    && Descending(e)
    && (forall i, j :: 0 <= i < j < |e| ==> e[i].name != e[j].name)
    && (forall i :: 0 <= i < |e| ==>
          e[i].name != name && Named(t, e[i].name) && e[i].info == Expected(name, t, e[i].name))
    && (forall n, i :: n != name && Named(t, n) && n !in Names(e) && 0 <= i < |e| ==>
          Expected(name, t, n).score <= e[i].info.score)
  }

  /** Entries of equal score are listed in the order their names first
      appear in the table: the sort is stable. */
  ghost predicate TiesInTableOrder(t: Table, e: seq<Related>) {
    forall i, j :: 0 <= i < j < |e| && e[i].info.score == e[j].info.score ==>
      FirstIndex(t, e[i].name, |t|) < FirstIndex(t, e[j].name, |t|)
  }

  /** At the cut to five, a name left out that ties with a name kept first
      appears later in the table than the kept one. */
  ghost predicate CutInTableOrder(name: string, t: Table, e: seq<Related>)
    requires Named(t, name)
  {
    forall n, i ::
      (n != name && Named(t, n) && n !in Names(e) && 0 <= i < |e| && Expected(name, t, n).score == e[i].info.score) ==>
        FirstIndex(t, e[i].name, |t|) < FirstIndex(t, n, |t|)
  }

  lemma {:induction false} BestMeaning(name: string, t: Table)
    requires Named(t, name)
    ensures Meaningful(name, t, Best(name, t[First(t, name)], t))
  {
    NamedFirst(t, name);
    var first := FirstIndex(t, name, |t|);
    var d := Scores(name, t[first], t, |t|);
    ScoresValid(name, t[first], t, |t|);
    ScoresShape(name, t[first], t, |t|);
    var e := Top(SortDesc(Items(d)), 5);
    KeptEntries(d, SortDesc(Items(d)));
    BestEntries(name, t, d, e);
    BestTop(name, t, d, e);
  }

  /** In the ranked list, equal scores follow the table order of the names. */
  lemma {:induction false} BestTies(name: string, t: Table)
    requires Named(t, name)
    ensures TiesInTableOrder(t, Best(name, t[First(t, name)], t))
  {
    var q := t[First(t, name)];
    var d := Scores(name, q, t, |t|);
    ScoresValid(name, q, t, |t|);
    FillKeys(t, |t|, {name}, r => Compare(name, q, r));
    var sorted := SortDesc(Items(d));
    var e := Top(sorted, 5);
    assert e == Best(name, q, t);
    forall i, j | 0 <= i < j < |e| && e[i].info.score == e[j].info.score
      ensures FirstIndex(t, e[i].name, |t|) < FirstIndex(t, e[j].name, |t|)
    {
      assert e[i] == sorted[i] && e[j] == sorted[j];
      TieOrder(name, t, d, i, j);
    }
  }

  /** Among names tied at the cut, the ones kept come first in the table. */
  lemma {:induction false} BestCut(name: string, t: Table)
    requires Named(t, name)
    ensures CutInTableOrder(name, t, Best(name, t[First(t, name)], t))
  {
    var q := t[First(t, name)];
    var d := Scores(name, q, t, |t|);
    ScoresValid(name, q, t, |t|);
    FillKeys(t, |t|, {name}, r => Compare(name, q, r));
    var e := Best(name, q, t);
    assert e == Top(SortDesc(Items(d)), 5);
    forall n, i | n != name && Named(t, n) && n !in Names(e) && 0 <= i < |e|
      && Expected(name, t, n).score == e[i].info.score
      ensures FirstIndex(t, e[i].name, |t|) < FirstIndex(t, n, |t|)
    {
      ScoresExpected(name, t, n);
      DroppedTie(name, t, d, n, i);
    }
  }

  /** Every other name of the table has an entry in the score dict, holding
      its expected record. */
  lemma {:induction false} ScoresExpected(name: string, t: Table, n: string)
    requires Named(t, name) && Named(t, n) && n != name
    ensures var d := Scores(name, t[First(t, name)], t, |t|);
      n in d.vals && d.vals[n] == Expected(name, t, n)
  {
    var q := t[First(t, name)];
    ScoresValid(name, q, t, |t|);
    ScoresShape(name, q, t, |t|);
    NamedFirst(t, n);
    NameOrderMember(t, |t|, {name}, n);
  }

  /** A dictionary entry left out of the first five, with the same score as a
      kept entry, has a name that first appears later than the kept one. */
  lemma {:induction false} DroppedTie(name: string, t: Table, d: Dict<Record>, n: string, i: nat)
    requires d.Valid() && d.keys == NameOrder(t, |t|, {name})
    requires n in d.vals && n !in Names(Top(SortDesc(Items(d)), 5))
    requires i < |Top(SortDesc(Items(d)), 5)|
    requires d.vals[n].score == Top(SortDesc(Items(d)), 5)[i].info.score
    ensures FirstIndex(t, Top(SortDesc(Items(d)), 5)[i].name, |t|) < FirstIndex(t, n, |t|)
  {
    var items := Items(d);
    var sorted := SortDesc(items);
    var k :| 0 <= k < |d.keys| && d.keys[k] == n;
    var j := AfterTop(items, sorted, 5, items[k]);
    assert Top(sorted, 5)[i] == sorted[i];
    TieOrder(name, t, d, i, j);
  }

  /** An item whose name is not among the first `k` of a permutation of the
      items sits after them. */
  lemma {:induction false} AfterTop(items: seq<Related>, sorted: seq<Related>, k: nat, x: Related) returns (j: nat)
    requires multiset(sorted) == multiset(items) && x in items
    requires x.name !in Names(Top(sorted, k))
    ensures |Top(sorted, k)| <= j < |sorted| && sorted[j] == x
  {
    var e := Top(sorted, k);
    assert x in multiset(sorted);
    j :| 0 <= j < |sorted| && sorted[j] == x;
  }

  /** Equal scores keep the order in which their names first appear in the table. */
  lemma {:induction false} TieOrder(name: string, t: Table, d: Dict<Record>, i: nat, j: nat)
    requires d.Valid() && d.keys == NameOrder(t, |t|, {name})
    requires i < j < |SortDesc(Items(d))|
    requires SortDesc(Items(d))[i].info.score == SortDesc(Items(d))[j].info.score
    ensures FirstIndex(t, SortDesc(Items(d))[i].name, |t|) < FirstIndex(t, SortDesc(Items(d))[j].name, |t|)
  {
    var items := Items(d);
    var sorted := SortDesc(items);
    SortedTiesInOrder(items, i, j);
    var p, q :| 0 <= p < q < |items| && items[p] == sorted[i] && items[q] == sorted[j];
    NameOrderBefore(t, |t|, {name}, p, q);
  }

  /** Facts about the scores dictionary that the ranked list inherits. */
  ghost predicate ScoresOf(name: string, t: Table, d: Dict<Record>)
    requires Named(t, name)
  {
    && d.Valid()
    && d.keys == NameOrder(t, |t|, {name})
    && forall n :: n in d.vals ==>
         0 <= LastIndex(t, n, |t|) && d.vals[n] == Compare(name, t[First(t, name)], t[LastIndex(t, n, |t|)])
  }

  lemma {:induction false} BestEntries(name: string, t: Table, d: Dict<Record>, e: seq<Related>)
    requires Named(t, name) && ScoresOf(name, t, d)
    requires forall i :: 0 <= i < |e| ==> e[i].name in d.vals && e[i].info == d.vals[e[i].name]
    ensures forall i :: 0 <= i < |e| ==>
      e[i].name != name && Named(t, e[i].name) && e[i].info == Expected(name, t, e[i].name)
  {
    forall i | 0 <= i < |e|
      ensures e[i].name != name && Named(t, e[i].name) && e[i].info == Expected(name, t, e[i].name)
    {
      var n := e[i].name;
      NameOrderMember(t, |t|, {name}, n);
      assert n in NameOrder(t, |t|, {name});
      NamedFirst(t, n);
    }
  }

  lemma {:induction false} BestTop(name: string, t: Table, d: Dict<Record>, e: seq<Related>)
    requires Named(t, name) && ScoresOf(name, t, d)
    requires forall n, i :: n in d.vals && n !in Names(e) && 0 <= i < |e| ==> d.vals[n].score <= e[i].info.score
    ensures forall n, i :: n != name && Named(t, n) && n !in Names(e) && 0 <= i < |e| ==>
      Expected(name, t, n).score <= e[i].info.score
  {
    forall n, i | n != name && Named(t, n) && n !in Names(e) && 0 <= i < |e|
      ensures Expected(name, t, n).score <= e[i].info.score
    {
      NamedFirst(t, n);
      NameOrderMember(t, |t|, {name}, n);
      assert n in d.vals;
    }
  }

  /** The first five of a descending permutation of a dictionary's items. */
  lemma {:induction false} KeptEntries(d: Dict<Record>, sorted: seq<Related>)
    requires d.Valid() && Descending(sorted) && multiset(sorted) == multiset(Items(d))
    ensures var e := Top(sorted, 5);
      && |e| == (if |d.keys| < 5 then |d.keys| else 5)
      && (forall i, j :: 0 <= i < j < |e| ==> e[i].name != e[j].name)
      && (forall i :: 0 <= i < |e| ==> e[i].name in d.vals && e[i].info == d.vals[e[i].name])
      && (forall n, i :: n in d.vals && n !in Names(e) && 0 <= i < |e| ==> d.vals[n].score <= e[i].info.score)
  {
    var items := Items(d);
    var e := Top(sorted, 5);
    assert |sorted| == |multiset(sorted)| == |items|;
    forall x | x in sorted
      ensures x.name in d.vals && x.info == d.vals[x.name]
    {
      assert x in multiset(items);
      var k :| 0 <= k < |items| && items[k] == x;
    }
    forall i, j | 0 <= i < j < |e|
      ensures e[i].name != e[j].name
    {
      DistinctNames(items, sorted, i, j);
    }
    forall i | 0 <= i < |e|
      ensures e[i].name in d.vals && e[i].info == d.vals[e[i].name]
    {
      assert e[i] in sorted;
    }
    forall n, i | n in d.vals && n !in Names(e) && 0 <= i < |e|
      ensures d.vals[n].score <= e[i].info.score
    {
      var k :| 0 <= k < |d.keys| && d.keys[k] == n;
      TopKeepsBest(items, sorted, 5, items[k], i);
    }
  }

  /** A permutation of a list with distinct names has distinct names. */
  lemma {:induction false} DistinctNames(items: seq<Related>, sorted: seq<Related>, i: int, j: int)
    requires forall a, b :: 0 <= a < b < |items| ==> items[a].name != items[b].name
    requires multiset(sorted) == multiset(items)
    requires 0 <= i < j < |sorted|
    ensures sorted[i].name != sorted[j].name
  {
    if sorted[i].name == sorted[j].name {
      assert sorted[i] in multiset(items) && sorted[j] in multiset(items);
      var a :| 0 <= a < |items| && items[a] == sorted[i];
      var b :| 0 <= b < |items| && items[b] == sorted[j];
      SingleOccurrence(items, a);
      SingleOccurrence(items, b);
      Twice(sorted, i, j);
    }
  }

  lemma {:induction false} SingleOccurrence(items: seq<Related>, a: int)
    requires forall x, y :: 0 <= x < y < |items| ==> items[x].name != items[y].name
    requires 0 <= a < |items|
    ensures multiset(items)[items[a]] == 1
  {
    var x := items[a];
    assert items == items[..a] + [x] + items[a + 1..];
    assert x !in items[..a] && x !in items[a + 1..];
  }

  lemma {:induction false} Twice(s: seq<Related>, i: int, j: int)
    requires 0 <= i < j < |s|
    ensures s[i] == s[j] ==> multiset(s)[s[i]] >= 2
  {
    assert s == s[..i] + [s[i]] + s[i + 1..j] + [s[j]] + s[j + 1..];
  }

  /** An element left out of the first `k` of a descending list of distinct
      names scores no higher than any element kept. */
  lemma {:induction false} TopKeepsBest(items: seq<Related>, sorted: seq<Related>, k: nat, x: Related, i: int)
    requires Descending(sorted) && multiset(sorted) == multiset(items)
    requires x in items && x.name !in Names(Top(sorted, k))
    requires 0 <= i < |Top(sorted, k)|
    ensures x.info.score <= Top(sorted, k)[i].info.score
  {
    var e := Top(sorted, k);
    assert x in multiset(sorted);
    var j :| 0 <= j < |sorted| && sorted[j] == x;
    assert j >= |e|;
  }
}
