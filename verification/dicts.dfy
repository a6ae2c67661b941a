/**
 * Python's `dict` with string keys, as the sync core uses it: iteration
 * follows insertion order, assigning to an existing key keeps its place, and
 * `dict(pairs)` inserts the pairs one after another.
 */
module Dicts {

  predicate Distinct(keys: seq<string>)
  {
    forall i, j :: 0 <= i < j < |keys| ==> keys[i] != keys[j]
  }

  /** The keys of a sequence of (key, value) pairs. */
  function KeysOf<V>(items: seq<(string, V)>): (r: seq<string>)
    ensures |r| == |items|
    ensures forall i :: 0 <= i < |items| ==> r[i] == items[i].0
  {
    seq(|items|, i requires 0 <= i < |items| => items[i].0)
  }

  /** A dict: its keys in insertion order and what each maps to. */
  datatype Dict<V> = Dict(keys: seq<string>, values: map<string, V>)
  {
    predicate Valid()
    {
      && Distinct(keys)
      && (forall k :: k in keys ==> k in values)
      && (forall k :: k in values ==> k in keys)
    }

    /** `d[k] = v`: a new key goes last, an existing key keeps its place. */
    function Put(k: string, v: V): (r: Dict<V>)
      ensures Valid() ==> r.Valid()
      ensures r.values == values[k := v]
      ensures |keys| <= |r.keys| && r.keys[..|keys|] == keys
      ensures k in values ==> r.keys == keys
      ensures k !in values ==> r.keys == keys + [k]
    {
      if k in values then Dict(keys, values[k := v])
      else
        assert (keys + [k])[..|keys|] == keys;
        Dict(keys + [k], values[k := v])
    }

    /** `d.items()`, in iteration order. */
    function Items(): (r: seq<(string, V)>)
      requires Valid()
      ensures |r| == |keys| && KeysOf(r) == keys
      ensures forall i :: 0 <= i < |r| ==> r[i].0 in values && r[i].1 == values[r[i].0]
    {
      seq(|keys|, i requires 0 <= i < |keys| => (keys[i], values[keys[i]]))
    }
  }

  function EmptyDict<V>(): (r: Dict<V>)
    ensures r.Valid() && r.Items() == []
  {
    Dict([], map[])
  }

  /** `dict(items)`: the pairs inserted one after another, a later pair overriding an earlier one. */
  function FromItems<V>(items: seq<(string, V)>): (r: Dict<V>)
    ensures r.Valid()
  {
    if items == [] then EmptyDict()
    else
      var last := items[|items| - 1];
      FromItems(items[..|items| - 1]).Put(last.0, last.1)
  }

  /** The order-preserving filter of a sequence of pairs. */
  function FilterItems<V>(items: seq<(string, V)>, keep: (string, V) -> bool): (r: seq<(string, V)>)
    ensures forall i :: 0 <= i < |r| ==> r[i] in items && keep(r[i].0, r[i].1)
    ensures forall i :: 0 <= i < |items| && keep(items[i].0, items[i].1) ==> items[i] in r
    ensures |r| <= |items|
  {
    if items == [] then []
    else (if keep(items[0].0, items[0].1) then [items[0]] else []) + FilterItems(items[1..], keep)
  }

  lemma {:induction false} ItemsOfPutNew<V>(d: Dict<V>, k: string, v: V)
    requires d.Valid() && k !in d.values
    ensures d.Put(k, v).Items() == d.Items() + [(k, v)]
  {
    var r := d.Put(k, v);
    forall i | 0 <= i < |d.keys|
      ensures r.Items()[i] == d.Items()[i]
    {
      assert d.keys[i] != k;
    }
  }

  lemma {:induction false} FilterKeepsDistinct<V>(items: seq<(string, V)>, keep: (string, V) -> bool)
    requires Distinct(KeysOf(items))
    ensures Distinct(KeysOf(FilterItems(items, keep)))
  {
    if items != [] {
      var rest := FilterItems(items[1..], keep);
      assert Distinct(KeysOf(items[1..])) by {
        forall i, j | 0 <= i < j < |items| - 1
          ensures KeysOf(items[1..])[i] != KeysOf(items[1..])[j]
        {
          assert KeysOf(items)[i + 1] != KeysOf(items)[j + 1];
        }
      }
      FilterKeepsDistinct(items[1..], keep);
      if keep(items[0].0, items[0].1) {
        forall j | 0 <= j < |rest|
          ensures rest[j].0 != items[0].0
        {
          assert rest[j] in items[1..];
          var m :| 0 <= m < |items[1..]| && items[1..][m] == rest[j];
          assert KeysOf(items)[0] != KeysOf(items)[m + 1];
        }
        var r := [items[0]] + rest;
        forall i, j | 0 <= i < j < |r|
          ensures KeysOf(r)[i] != KeysOf(r)[j]
        {
          if i > 0 {
            assert KeysOf(rest)[i - 1] != KeysOf(rest)[j - 1];
          }
        }
      } else {
        assert FilterItems(items, keep) == rest;
      }
    }
  }

  /** Dropping the last pair keeps the keys distinct, and that pair's key is not among the rest. */
  lemma DistinctInit<V>(items: seq<(string, V)>)
    requires items != [] && Distinct(KeysOf(items))
    ensures Distinct(KeysOf(items[..|items| - 1]))
    ensures items[|items| - 1].0 !in KeysOf(items[..|items| - 1])
  {
    var init := items[..|items| - 1];
    forall i, j | 0 <= i < j < |init|
      ensures KeysOf(init)[i] != KeysOf(init)[j]
    {
      assert KeysOf(items)[i] != KeysOf(items)[j];
    }
    forall m | 0 <= m < |init|
      ensures KeysOf(init)[m] != items[|items| - 1].0
    {
      assert KeysOf(items)[m] != KeysOf(items)[|items| - 1];
    }
  }

  /** Building a dict from pairs with distinct keys keeps every pair, in order. */
  lemma {:induction false} ItemsOfFromItems<V>(items: seq<(string, V)>)
    requires Distinct(KeysOf(items))
    ensures FromItems(items).Items() == items
  {
    if items != [] {
      var init := items[..|items| - 1];
      var last := items[|items| - 1];
      DistinctInit(items);
      ItemsOfFromItems(init);
      var d := FromItems(init);
      assert d.keys == KeysOf(init);
      ItemsOfPutNew(d, last.0, last.1);
      assert init + [last] == items;
    }
  }

  lemma {:induction false} ItemsDistinct<V>(d: Dict<V>)
    requires d.Valid()
    ensures Distinct(KeysOf(d.Items()))
  {
  }

  lemma SelectSound<V>(d: Dict<V>, keep: (string, V) -> bool, r: Dict<V>, k: string)
    requires d.Valid() && r.Valid() && r.Items() == FilterItems(d.Items(), keep)
    requires k in r.values
    ensures k in d.values && keep(k, d.values[k]) && r.values[k] == d.values[k]
  {
    assert k in r.keys;
    var m :| 0 <= m < |r.keys| && r.keys[m] == k;
    assert r.Items()[m] in d.Items();
  }

  lemma SelectComplete<V>(d: Dict<V>, keep: (string, V) -> bool, r: Dict<V>, k: string)
    requires d.Valid() && r.Valid() && r.Items() == FilterItems(d.Items(), keep)
    requires k in d.values && keep(k, d.values[k])
    ensures k in r.values
  {
    var items := r.Items();
    assert k in d.keys;
    var m :| 0 <= m < |d.keys| && d.keys[m] == k;
    assert d.Items()[m] in items;
    var j :| 0 <= j < |items| && items[j] == d.Items()[m];
    assert KeysOf(items)[j] == k;
    assert r.keys[j] == k;
  }

  /**
   * `dict([item for item in d.items() if keep(*item)])`: a dict whose
   * iteration order is exactly the filtered iteration order of `d`.
   */
  function Select<V>(d: Dict<V>, keep: (string, V) -> bool): (r: Dict<V>)
    requires d.Valid()
    ensures r.Valid()
    ensures r.Items() == FilterItems(d.Items(), keep)
    ensures forall k :: k in r.values <==> k in d.values && keep(k, d.values[k])
    ensures forall k :: k in r.values ==> r.values[k] == d.values[k]
  {
    var items := FilterItems(d.Items(), keep);
    ItemsDistinct(d);
    FilterKeepsDistinct(d.Items(), keep);
    ItemsOfFromItems(items);
    var r := FromItems(items);
    forall k | k in r.values
      ensures k in d.values && keep(k, d.values[k]) && r.values[k] == d.values[k]
    {
      SelectSound(d, keep, r, k);
    }
    forall k | k in d.values && keep(k, d.values[k])
      ensures k in r.values
    {
      SelectComplete(d, keep, r, k);
    }
    r
  }
}
