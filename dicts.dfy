/** Python dictionaries as the server uses them: insertion-ordered, where
    `d[k] = v` replaces the value of an existing key in place and appends a
    new key at the end. A dictionary is the sequence of its items. */
module Dicts {
  import opened Basics

  type Dict<K, V> = seq<(K, V)>

  function Keys<K, V>(d: Dict<K, V>): (r: seq<K>)
    ensures |r| == |d| && forall i :: 0 <= i < |d| ==> r[i] == d[i].0
  {
    if d == [] then [] else [d[0].0] + Keys(d[1..])
  }

  predicate DistinctKeys<K(==), V>(d: Dict<K, V>) {
    forall i, j :: 0 <= i < j < |d| ==> d[i].0 != d[j].0
  }

  /** The position of the first item with key `k`. */
  function KeyIndex<K(==), V>(d: Dict<K, V>, k: K, from: nat := 0): (r: Option<nat>)
    ensures r.Some? ==> from <= r.value < |d| && d[r.value].0 == k
    ensures r.Some? ==> forall j :: from <= j < r.value ==> d[j].0 != k
    ensures r.None? ==> forall j :: from <= j < |d| ==> d[j].0 != k
    decreases |d| - from
  {
    if from >= |d| then None
    else if d[from].0 == k then Some(from)
    else KeyIndex(d, k, from + 1)
  }

  /** A position holding the first item with key `k` is the one found. */
  lemma KeyIndexIs<K, V>(d: Dict<K, V>, k: K, i: nat)
    requires i < |d| && d[i].0 == k && forall j :: 0 <= j < i ==> d[j].0 != k
    ensures KeyIndex(d, k) == Some(i)
  {
  }

  /** `d.get(k)`. */
  function Lookup<K(==), V>(d: Dict<K, V>, k: K): (r: Option<V>)
    ensures r.Some? ==> exists i :: 0 <= i < |d| && d[i] == (k, r.value)
    ensures r.None? <==> forall i :: 0 <= i < |d| ==> d[i].0 != k
  {
    match KeyIndex(d, k)
    case None => None
    case Some(i) => Some(d[i].1)
  }

  /** In a dictionary without repeated keys every item is found by its key. */
  lemma LookupItem<K, V>(d: Dict<K, V>, i: nat)
    requires DistinctKeys(d) && i < |d|
    ensures Lookup(d, d[i].0) == Some(d[i].1)
  {
    KeyIndexIs(d, d[i].0, i);
  }

  /** Dictionaries whose keys sit at the same positions find every key at
      the same position. */
  lemma SameKeysSameIndex<K, V>(d: Dict<K, V>, e: Dict<K, V>, k: K)
    requires |d| == |e| && forall j :: 0 <= j < |d| ==> d[j].0 == e[j].0
    ensures KeyIndex(d, k) == KeyIndex(e, k)
  {
    match KeyIndex(d, k)
    case None =>
    case Some(i) => KeyIndexIs(e, k, i);
  }

  /** `d[k] = v`. */
  function Set<K(==,!new), V>(d: Dict<K, V>, k: K, v: V): (r: Dict<K, V>)
    ensures Lookup(r, k) == Some(v)
    ensures forall k' :: k' != k ==> Lookup(r, k') == Lookup(d, k')
    ensures Lookup(d, k).None? ==> r == d + [(k, v)]
    ensures Lookup(d, k).Some? ==> Keys(r) == Keys(d)
    ensures DistinctKeys(d) ==> DistinctKeys(r)
  {
    match KeyIndex(d, k)
    case None =>
      var r := d + [(k, v)];
      KeyIndexIs(r, k, |d|);
      assert forall k' :: k' != k ==> KeyIndex(r, k') == KeyIndex(d, k') by {
        forall k' | k' != k ensures KeyIndex(r, k') == KeyIndex(d, k') {
          if KeyIndex(d, k').Some? { KeyIndexIs(r, k', KeyIndex(d, k').value); }
        }
      }
      r
    case Some(i) =>
      var r := d[i := (k, v)];
      KeyIndexIs(r, k, i);
      assert forall k' :: KeyIndex(r, k') == KeyIndex(d, k') by {
        forall k' ensures KeyIndex(r, k') == KeyIndex(d, k') { SameKeysSameIndex(r, d, k'); }
      }
      assert Keys(r) == Keys(d);
      r
  }

  /** The loop `for k, v in items: d[k] = v`. */
  function SetAll<K(==,!new), V>(d: Dict<K, V>, items: seq<(K, V)>): (r: Dict<K, V>)
    ensures DistinctKeys(d) ==> DistinctKeys(r)
    decreases |items|
  {
    if items == [] then d else SetAll(Set(d, items[0].0, items[0].1), items[1..])
  }

  /** One more iteration of that loop. */
  lemma {:induction false} SetAllSnoc<K(!new), V>(d: Dict<K, V>, items: seq<(K, V)>, item: (K, V))
    ensures SetAll(d, items + [item]) == Set(SetAll(d, items), item.0, item.1)
    decreases |items|
  {
    if items == [] {
      assert items + [item] == [item];
    } else {
      assert (items + [item])[1..] == items[1..] + [item];
      SetAllSnoc(Set(d, items[0].0, items[0].1), items[1..], item);
    }
  }

  /** The loop over `items` after its `i`-th iteration. */
  lemma SetAllPrefix<K(!new), V>(d: Dict<K, V>, items: seq<(K, V)>, i: nat)
    requires i < |items|
    ensures SetAll(d, items[..i + 1]) == Set(SetAll(d, items[..i]), items[i].0, items[i].1)
  {
    assert items[..i + 1] == items[..i] + [items[i]];
    SetAllSnoc(d, items[..i], items[i]);
  }

  /** A key that the items never mention keeps its old value. */
  lemma {:induction false} SetAllUntouched<K(!new), V>(d: Dict<K, V>, items: seq<(K, V)>, k: K)
    requires forall j :: 0 <= j < |items| ==> items[j].0 != k
    ensures Lookup(SetAll(d, items), k) == Lookup(d, k)
    decreases |items|
  {
    if items != [] {
      SetAllUntouched(Set(d, items[0].0, items[0].1), items[1..], k);
    }
  }

  /** The last item with a given key decides its value: later writes win. */
  lemma {:induction false} SetAllLastWins<K(!new), V>(d: Dict<K, V>, items: seq<(K, V)>, i: nat)
    requires i < |items|
    requires forall j :: i < j < |items| ==> items[j].0 != items[i].0
    ensures Lookup(SetAll(d, items), items[i].0) == Some(items[i].1)
    decreases |items|
  {
    var d' := Set(d, items[0].0, items[0].1);
    if i == 0 {
      SetAllUntouched(d', items[1..], items[0].0);
    } else {
      SetAllLastWins(d', items[1..], i - 1);
    }
  }

  /** Items with distinct keys, none of them already present, are appended
      in order. */
  lemma {:induction false} SetAllFresh<K(!new), V>(d: Dict<K, V>, items: seq<(K, V)>)
    requires DistinctKeys(d + items)
    ensures SetAll(d, items) == d + items
    decreases |items|
  {
    if items != [] {
      var e := d + items;
      forall i | 0 <= i < |d| ensures d[i].0 != items[0].0 {
        assert e[i] == d[i] && e[|d|] == items[0];
      }
      assert Set(d, items[0].0, items[0].1) == d + [items[0]];
      assert d + [items[0]] + items[1..] == d + items;
      SetAllFresh(d + [items[0]], items[1..]);
    }
  }

  /** `try_retrieve_from_dictionary(dictionary, key, error_message)`. */
  function TryRetrieve<K(==), V>(d: Dict<K, V>, key: K, errorMessage: string): (r: Result<V>)
    ensures r.Ok? <==> exists i :: 0 <= i < |d| && d[i].0 == key
    ensures r.Ok? ==> exists i :: 0 <= i < |d| && d[i] == (key, r.value)
    ensures r.Err? ==> r.error == BadRequest(errorMessage)
  {
    match Lookup(d, key)
    case None => Err(BadRequest(errorMessage))
    case Some(v) => Ok(v)
  }
}
