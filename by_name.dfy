/** The pattern two of the queries share: walk the table row by row and write
    a value computed from the row under the row's name with `d[name] = value`.
    A name seen again keeps its first position and takes the later value. */
module ByName {
  import opened Characters
  import opened Dicts

  /** The dictionary after the rows `t[..k]`, skipping rows whose name is in
      `skip`, each other row writing `f(row)` under its name. */
  function Fill<V>(t: Table, k: nat, skip: set<string>, f: Character -> V): Dict<V>
    requires k <= |t|
  {
    if k == 0 then Empty()
    else
      var d := Fill(t, k - 1, skip, f);
      var row := t[k - 1];
      if row.name in skip then d else d.Put(row.name, f(row))
  }

  /** Every name is listed once among the keys, and the keys are exactly the
      names with a value. */
  lemma {:induction false} FillValid<V>(t: Table, k: nat, skip: set<string>, f: Character -> V)
    requires k <= |t|
    ensures Fill(t, k, skip, f).Valid()
  {
    if k == 0 {
      EmptyValid<V>();
    } else {
      FillValid(t, k - 1, skip, f);
      PutValid(Fill(t, k - 1, skip, f), t[k - 1].name, f(t[k - 1]));
    }
  }

  /** A name has a value exactly when it is among the keys. */
  lemma {:induction false} FillDomain<V>(t: Table, k: nat, skip: set<string>, f: Character -> V, n: string)
    requires k <= |t|
    ensures n in Fill(t, k, skip, f).vals <==> n in Fill(t, k, skip, f).keys
  {
    if k > 0 {
      var d := Fill(t, k - 1, skip, f);
      var row := t[k - 1];
      FillDomain(t, k - 1, skip, f, n);
      FillStep(t, k, skip, f);
      if row.name !in skip {
        PutMembers(d, row.name, f(row), n);
      }
    }
  }

  /** The keys are the names outside `skip`, in order of first appearance. */
  lemma {:induction false} FillKeys<V>(t: Table, k: nat, skip: set<string>, f: Character -> V)
    requires k <= |t|
    ensures Fill(t, k, skip, f).keys == NameOrder(t, k, skip)
  {
    if k > 0 {
      FillKeys(t, k - 1, skip, f);
      FillStep(t, k, skip, f);
    }
  }

  /** The dictionary after one more row. */
  lemma {:induction false} FillStep<V>(t: Table, k: nat, skip: set<string>, f: Character -> V)
    requires 0 < k <= |t|
    ensures Fill(t, k, skip, f) ==
      if t[k - 1].name in skip then Fill(t, k - 1, skip, f)
      else Fill(t, k - 1, skip, f).Put(t[k - 1].name, f(t[k - 1]))
  {
  }

  /** The value under a name is computed from the last row carrying it, and
      no name of `skip` is ever written. */
  lemma {:induction false} FillValue<V>(t: Table, k: nat, skip: set<string>, f: Character -> V, n: string)
    requires k <= |t| && n in Fill(t, k, skip, f).vals
    ensures n !in skip && 0 <= LastIndex(t, n, k) && Fill(t, k, skip, f).vals[n] == f(t[LastIndex(t, n, k)])
  {
    var d := Fill(t, k - 1, skip, f);
    var row := t[k - 1];
    ValsStep(t, k, skip, f);
    if row.name in skip {
      assert n in d.vals;
      FillValue(t, k - 1, skip, f, n);
      assert LastIndex(t, n, k) == LastIndex(t, n, k - 1);
    } else if n == row.name {
      assert LastIndex(t, n, k) == k - 1;
    } else {
      assert n in d.vals;
      FillValue(t, k - 1, skip, f, n);
      assert LastIndex(t, n, k) == LastIndex(t, n, k - 1);
    }
  }

  /** The values after one more row. */
  lemma {:induction false} ValsStep<V>(t: Table, k: nat, skip: set<string>, f: Character -> V)
    requires 0 < k <= |t|
    ensures Fill(t, k, skip, f).vals ==
      if t[k - 1].name in skip then Fill(t, k - 1, skip, f).vals
      else Fill(t, k - 1, skip, f).vals[t[k - 1].name := f(t[k - 1])]
  {
  }
}
