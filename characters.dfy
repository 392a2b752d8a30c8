/** The character table the four queries read: one record per row, every
    multi-valued column already split into an ordered list of strings. */
module Characters {

  /** One row of the table. Only the columns the queries read are kept. */
  datatype Character = Character(
    name: string,
    games: seq<string>,
    friends: seq<string>,
    enemies: seq<string>,
    locations: seq<string>)

  /** The table, in row order. Names are not required to be unique. */
  type Table = seq<Character>

  /** The distinct elements of a list, as `set(xs)` does. */
  function ToSet(xs: seq<string>): (s: set<string>)
    ensures forall x :: x in s <==> x in xs
  {
    set x | x in xs
  }

  /** Some row of the table carries name `n`. */
  predicate Named(t: Table, n: string) {
    exists i :: 0 <= i < |t| && t[i].name == n
  }

  /** The index of the first row of `t[..k]` named `n`, or -1 when there is
      none: the row a filter on the name column followed by `iloc[0]` picks. */
  function FirstIndex(t: Table, n: string, k: nat): (i: int)
    requires k <= |t|
    ensures -1 <= i < k
    ensures i >= 0 ==> t[i].name == n
  {
    if k == 0 then -1
    else
      var i := FirstIndex(t, n, k - 1);
      if i >= 0 then i else if t[k - 1].name == n then k - 1 else -1
  }

  /** No row before the one found carries the name, and when none is found
      no row of `t[..k]` does. */
  lemma {:induction false} FirstIndexSpec(t: Table, n: string, k: nat)
    requires k <= |t|
    ensures FirstIndex(t, n, k) >= 0 ==> forall j :: 0 <= j < FirstIndex(t, n, k) ==> t[j].name != n
    ensures FirstIndex(t, n, k) < 0 ==> forall j :: 0 <= j < k ==> t[j].name != n
  {
    if k > 0 {
      FirstIndexSpec(t, n, k - 1);
    }
  }

  /** The index of the last row of `t[..k]` named `n`, or -1 when there is
      none: the row whose entry survives when later rows overwrite a dict key. */
  function LastIndex(t: Table, n: string, k: nat): (i: int)
    requires k <= |t|
    ensures -1 <= i < k
    ensures i >= 0 ==> t[i].name == n
  {
    if k == 0 then -1
    else if t[k - 1].name == n then k - 1
    else LastIndex(t, n, k - 1)
  }

  /** No row after the one found carries the name, and when none is found
      no row of `t[..k]` does. */
  lemma {:induction false} LastIndexSpec(t: Table, n: string, k: nat)
    requires k <= |t|
    ensures LastIndex(t, n, k) >= 0 ==> forall j :: LastIndex(t, n, k) < j < k ==> t[j].name != n
    ensures LastIndex(t, n, k) < 0 ==> forall j :: 0 <= j < k ==> t[j].name != n
  {
    if k > 0 {
      LastIndexSpec(t, n, k - 1);
    }
  }

  lemma {:induction false} NamedFirst(t: Table, n: string)
    ensures Named(t, n) <==> FirstIndex(t, n, |t|) >= 0
  {
    FirstIndexSpec(t, n, |t|);
  }

  /** Some row carries `n` exactly when a last one is found. */
  lemma {:induction false} NamedLast(t: Table, n: string)
    ensures Named(t, n) <==> LastIndex(t, n, |t|) >= 0
  {
    LastIndexSpec(t, n, |t|);
  }

  /** The first row carrying a name the table has. */
  function First(t: Table, n: string): (i: nat)
    requires Named(t, n)
    ensures i < |t| && t[i].name == n && i == FirstIndex(t, n, |t|)
  {
    NamedFirst(t, n);
    FirstIndex(t, n, |t|)
  }

  /** The names of `t[..k]` outside `skip`, each once, in order of first
      appearance: the key order of a dict filled row by row with `d[name] = ...`. */
  function NameOrder(t: Table, k: nat, skip: set<string>): seq<string>
    requires k <= |t|
  {
    if k == 0 then []
    else
      var r := NameOrder(t, k - 1, skip);
      var n := t[k - 1].name;
      if n in skip || n in r then r else r + [n]
  }

  /** Exactly the names outside `skip` that some row of `t[..k]` carries
      are listed. */
  lemma {:induction false} NameOrderMember(t: Table, k: nat, skip: set<string>, n: string)
    requires k <= |t|
    ensures n in NameOrder(t, k, skip) <==> n !in skip && FirstIndex(t, n, k) >= 0
  {
    if k > 0 {
      NameOrderMember(t, k - 1, skip, n);
    }
  }

  /** A name already seen in `t[..k - 1]` keeps its first row. */
  lemma {:induction false} FirstKept(t: Table, n: string, k: nat)
    requires 0 < k <= |t| && FirstIndex(t, n, k - 1) >= 0
    ensures FirstIndex(t, n, k) == FirstIndex(t, n, k - 1) < k - 1
  {
  }

  /** Of two names in order of first appearance, the earlier one has the
      earlier first row. */
  lemma {:induction false} NameOrderBefore(t: Table, k: nat, skip: set<string>, p: nat, q: nat)
    requires k <= |t| && p < q < |NameOrder(t, k, skip)|
    ensures FirstIndex(t, NameOrder(t, k, skip)[p], k) < FirstIndex(t, NameOrder(t, k, skip)[q], k)
  {
    var r := NameOrder(t, k - 1, skip);
    var a := NameOrder(t, k, skip)[p];
    var b := NameOrder(t, k, skip)[q];
    assert a == r[p] && a in r;
    NameOrderMember(t, k - 1, skip, a);
    FirstKept(t, a, k);
    if q < |r| {
      assert b == r[q] && b in r;
      NameOrderMember(t, k - 1, skip, b);
      NameOrderBefore(t, k - 1, skip, p, q);
      FirstKept(t, b, k);
    } else {
      assert b == t[k - 1].name && b !in r;
      NameOrderMember(t, k - 1, skip, b);
    }
  }
}
