/** Grouping of keyed items into an insertion-ordered dictionary of lists, the
    way `WordsData._load_data` and `SinglesData._load_data` fill their Python
    `dict` (which remembers the order in which keys were first inserted). */
module Grouping {

  /** A Python dict from keys to lists: `order` is its key order, `data` its contents. */
  datatype Groups<K, V> = Groups(order: seq<K>, data: map<K, seq<V>>)

  /** No element is listed twice. */
  ghost predicate Distinct<K>(s: seq<K>)
  {
    forall i, j :: 0 <= i < j < |s| ==> s[i] != s[j]
  }

  /** Keys are listed once each, and exactly the keys of `data` are listed. */
  ghost predicate Valid<K(!new), V>(g: Groups<K, V>)
  {
    && Distinct(g.order)
    && (forall k :: k in g.data <==> k in g.order)
  }

  /** One loop step: append `v` to the list of `k`, or start the singleton list `[v]`. */
  function Insert<K(==, !new), V>(g: Groups<K, V>, k: K, v: V): Groups<K, V>
  {
    if k in g.data then Groups(g.order, g.data[k := g.data[k] + [v]])
    else Groups(g.order + [k], g.data[k := [v]])
  }

  /** Feed the items to `Insert` in order, starting from the empty dict. */
  function GroupAll<K(==, !new), V>(items: seq<(K, V)>): (g: Groups<K, V>)
    ensures Valid(g)
    ensures forall k :: k in g.data <==> Occurs(items, k)
  {
    if items == [] then Groups([], map[])
    else
      var prev := GroupAll(items[..|items| - 1]);
      var last := items[|items| - 1];
      assert forall k :: Occurs(items, k) <==> Occurs(items[..|items| - 1], k) || k == last.0 by {
        forall k ensures Occurs(items, k) <==> Occurs(items[..|items| - 1], k) || k == last.0 {
          if Occurs(items, k) {
            var i :| 0 <= i < |items| && items[i].0 == k;
            if i < |items| - 1 {
              assert items[..|items| - 1][i] == items[i];
            }
          }
          if Occurs(items[..|items| - 1], k) {
            var i :| 0 <= i < |items| - 1 && items[..|items| - 1][i].0 == k;
            assert items[i].0 == k;
          }
        }
      }
      Insert(prev, last.0, last.1)
  }

  /** Key `k` is carried by some item. */
  ghost predicate Occurs<K(!new), V>(items: seq<(K, V)>, k: K)
  {
    exists i :: 0 <= i < |items| && items[i].0 == k
  }

  /** Reference: the values of the items carrying key `k`, in item order. */
  function ValuesOf<K(==, !new), V>(items: seq<(K, V)>, k: K): seq<V>
  {
    if items == [] then []
    else (if items[0].0 == k then [items[0].1] else []) + ValuesOf(items[1..], k)
  }

  /** Reference: index of the first item carrying key `k`. */
  function FirstIndex<K(==, !new), V>(items: seq<(K, V)>, k: K): (i: nat)
    requires Occurs(items, k)
    ensures i < |items| && items[i].0 == k
    ensures forall j :: 0 <= j < i ==> items[j].0 != k
  {
    if items[0].0 == k then 0
    else
      assert Occurs(items[1..], k) by {
        var i :| 0 <= i < |items| && items[i].0 == k;
        assert items[1..][i - 1].0 == k;
      }
      1 + FirstIndex(items[1..], k)
  }

  /** Number of values held under the listed keys. */
  function TotalCount<K(==, !new), V>(order: seq<K>, data: map<K, seq<V>>): nat
    requires forall k :: k in order ==> k in data
  {
    if order == [] then 0 else |data[order[0]]| + TotalCount(order[1..], data)
  }

  lemma {:induction false} ValuesOfSnoc<K(!new), V>(items: seq<(K, V)>, x: (K, V), k: K)
    ensures ValuesOf(items + [x], k) == ValuesOf(items, k) + (if x.0 == k then [x.1] else [])
    decreases |items|
  {
    if items == [] {
      assert [x][1..] == [];
    } else {
      assert (items + [x])[1..] == items[1..] + [x];
      ValuesOfSnoc(items[1..], x, k);
    }
  }

  /** Each key's list holds the values of the items with that key, in item order. */
  lemma {:induction false} GroupAllValues<K(!new), V>(items: seq<(K, V)>)
    ensures forall k :: k in GroupAll(items).data ==> GroupAll(items).data[k] == ValuesOf(items, k)
    decreases |items|
  {
    if items != [] {
      var init := items[..|items| - 1];
      var last := items[|items| - 1];
      assert init + [last] == items;
      GroupAllValues(init);
      forall k ensures ValuesOf(items, k) == ValuesOf(init, k) + (if last.0 == k then [last.1] else []) {
        ValuesOfSnoc(init, last, k);
      }
      forall k | k !in GroupAll(init).data ensures ValuesOf(init, k) == [] {
        ValuesOfAbsent(init, k);
      }
    }
  }

  lemma {:induction false} ValuesOfAbsent<K(!new), V>(items: seq<(K, V)>, k: K)
    requires !Occurs(items, k)
    ensures ValuesOf(items, k) == []
    decreases |items|
  {
    if items != [] {
      assert items[0].0 != k;
      forall j | 0 <= j < |items[1..]| ensures items[1..][j].0 != k {
        assert items[1..][j] == items[j + 1];
      }
      ValuesOfAbsent(items[1..], k);
    }
  }

  lemma FirstIndexUnique<K(!new), V>(items: seq<(K, V)>, k: K, i: nat)
    requires i < |items| && items[i].0 == k
    requires forall j :: 0 <= j < i ==> items[j].0 != k
    ensures FirstIndex(items, k) == i
  {
  }

  lemma FirstIndexSnoc<K(!new), V>(items: seq<(K, V)>, x: (K, V), k: K)
    requires Occurs(items, k)
    ensures Occurs(items + [x], k) && FirstIndex(items + [x], k) == FirstIndex(items, k)
  {
    var i := FirstIndex(items, k);
    assert (items + [x])[i] == items[i];
    forall j | 0 <= j < i ensures (items + [x])[j].0 != k {
      assert (items + [x])[j] == items[j];
    }
    FirstIndexUnique(items + [x], k, i);
  }

  lemma FirstIndexNew<K(!new), V>(items: seq<(K, V)>, x: (K, V))
    requires !Occurs(items, x.0)
    ensures Occurs(items + [x], x.0) && FirstIndex(items + [x], x.0) == |items|
  {
    assert (items + [x])[|items|] == x;
    forall j | 0 <= j < |items| ensures (items + [x])[j].0 != x.0 {
      assert (items + [x])[j] == items[j];
    }
    FirstIndexUnique(items + [x], x.0, |items|);
  }

  /** Listed keys all occur, and are listed in order of their first item. */
  ghost predicate FirstAppearanceOrder<K(!new), V>(items: seq<(K, V)>, order: seq<K>)
  {
    && (forall k :: k in order ==> Occurs(items, k))
    && (forall i, j :: 0 <= i < j < |order| ==> FirstIndex(items, order[i]) < FirstIndex(items, order[j]))
  }

  /** The key order is the order of first appearance among the items. */
  lemma {:induction false} GroupAllOrder<K(!new), V>(items: seq<(K, V)>)
    ensures FirstAppearanceOrder(items, GroupAll(items).order)
    decreases |items|
  {
    if items != [] {
      var init := items[..|items| - 1];
      var last := items[|items| - 1];
      assert init + [last] == items;
      GroupAllOrder(init);
      GroupAllOrderStep(init, last);
    }
  }

  lemma GroupAllOrderStep<K(!new), V>(init: seq<(K, V)>, last: (K, V))
    requires FirstAppearanceOrder(init, GroupAll(init).order)
    ensures FirstAppearanceOrder(init + [last], GroupAll(init + [last]).order)
  {
    var items := init + [last];
    assert items[..|items| - 1] == init;
    var prev := GroupAll(init);
    var g := Insert(prev, last.0, last.1);
    assert GroupAll(items) == g;
    forall k | k in prev.order ensures Occurs(items, k) && FirstIndex(items, k) == FirstIndex(init, k) {
      FirstIndexSnoc(init, last, k);
    }
    if last.0 in prev.data {
      assert g.order == prev.order;
    } else {
      assert g.order == prev.order + [last.0];
      FirstIndexNew(init, last);
      forall k | k in g.order ensures Occurs(items, k) {
      }
      forall i, j | 0 <= i < j < |g.order|
        ensures FirstIndex(items, g.order[i]) < FirstIndex(items, g.order[j])
      {
        assert g.order[i] == prev.order[i];
        assert FirstIndex(init, prev.order[i]) < |init|;
        if j < |prev.order| {
          assert g.order[j] == prev.order[j];
        }
      }
    }
  }

  lemma {:induction false} TotalCountAbsent<K(!new), V>(order: seq<K>, data: map<K, seq<V>>, k: K, vs: seq<V>)
    requires forall x :: x in order ==> x in data
    requires k !in order
    ensures TotalCount(order, data[k := vs]) == TotalCount(order, data)
    decreases |order|
  {
    if order != [] {
      TotalCountAbsent(order[1..], data, k, vs);
    }
  }

  lemma {:induction false} TotalCountSnoc<K(!new), V>(order: seq<K>, data: map<K, seq<V>>, k: K)
    requires forall x :: x in order ==> x in data
    requires k in data
    ensures TotalCount(order + [k], data) == TotalCount(order, data) + |data[k]|
    decreases |order|
  {
    if order == [] {
      assert [k][1..] == [];
    } else {
      assert (order + [k])[1..] == order[1..] + [k];
      TotalCountSnoc(order[1..], data, k);
    }
  }

  lemma {:induction false} TotalCountGrow<K(!new), V>(order: seq<K>, data: map<K, seq<V>>, k: K, v: V)
    requires forall x :: x in order ==> x in data
    requires k in data
    requires forall i, j :: 0 <= i < j < |order| ==> order[i] != order[j]
    ensures TotalCount(order, data[k := data[k] + [v]])
         == TotalCount(order, data) + (if k in order then 1 else 0)
    decreases |order|
  {
    if order != [] {
      assert forall i, j :: 0 <= i < j < |order[1..]| ==> order[1..][i] != order[1..][j] by {
        forall i, j | 0 <= i < j < |order[1..]| ensures order[1..][i] != order[1..][j] {
          assert order[1..][i] == order[i + 1] && order[1..][j] == order[j + 1];
        }
      }
      if order[0] == k {
        forall j | 0 <= j < |order[1..]| ensures order[1..][j] != k {
          assert order[1..][j] == order[j + 1];
        }
        TotalCountAbsent(order[1..], data, k, data[k] + [v]);
      } else {
        assert k in order <==> k in order[1..];
        TotalCountGrow(order[1..], data, k, v);
      }
    }
  }

  /** The lists together hold one value per item. */
  lemma {:induction false} GroupAllTotal<K(!new), V>(items: seq<(K, V)>)
    ensures TotalCount(GroupAll(items).order, GroupAll(items).data) == |items|
    decreases |items|
  {
    if items != [] {
      var init := items[..|items| - 1];
      var last := items[|items| - 1];
      var prev := GroupAll(init);
      GroupAllTotal(init);
      if last.0 in prev.data {
        TotalCountGrow(prev.order, prev.data, last.0, last.1);
      } else {
        TotalCountAbsent(prev.order, prev.data, last.0, [last.1]);
        TotalCountSnoc(prev.order, prev.data[last.0 := [last.1]], last.0);
      }
    }
  }

  /** With pairwise distinct keys, every key's list is the singleton of its own item. */
  lemma {:induction false} DistinctKeysSingletons<K(!new), V>(items: seq<(K, V)>, i: nat)
    requires forall a, b :: 0 <= a < b < |items| ==> items[a].0 != items[b].0
    requires i < |items|
    ensures ValuesOf(items, items[i].0) == [items[i].1]
    decreases |items|
  {
    var k := items[i].0;
    if i == 0 {
      forall j | 0 <= j < |items[1..]| ensures items[1..][j].0 != k {
        assert items[1..][j] == items[j + 1];
      }
      ValuesOfAbsent(items[1..], k);
    } else {
      assert items[0].0 != k;
      assert items[1..][i - 1] == items[i];
      DistinctKeysSingletons(items[1..], i - 1);
    }
  }

  lemma {:induction false} DistinctCard<K(!new)>(s: seq<K>)
    requires forall i, j :: 0 <= i < j < |s| ==> s[i] != s[j]
    ensures |set x | x in s| == |s|
    decreases |s|
  {
    if s != [] {
      var init := s[..|s| - 1];
      DistinctCard(init);
      assert (set x | x in s) == (set x | x in init) + {s[|s| - 1]};
      assert s[|s| - 1] !in init;
    }
  }

  /** A valid dict has as many entries as listed keys. */
  lemma CardOfValid<K(!new), V>(g: Groups<K, V>)
    requires Valid(g)
    ensures |g.data| == |g.order|
  {
    DistinctCard(g.order);
    assert g.data.Keys == set x | x in g.order;
  }

  /** Each value paired with its own index. */
  function Indexed<V>(vals: seq<V>): seq<(int, V)>
  {
    seq(|vals|, i requires 0 <= i < |vals| => (i, vals[i]))
  }

  /** Grouping by index: the keys are exactly 0..|vals|-1 and each holds its own value alone. */
  lemma IndexedGroups<V>(vals: seq<V>)
    ensures var g := GroupAll(Indexed(vals));
      && (forall k :: k in g.data <==> 0 <= k < |vals|)
      && (forall i :: 0 <= i < |vals| ==> g.data[i] == [vals[i]])
      && |g.data| == |vals|
  {
    IndexedKeys(vals);
    IndexedValues(vals);
    IndexedCard(vals);
  }

  lemma IndexedKeys<V>(vals: seq<V>)
    ensures forall k :: k in GroupAll(Indexed(vals)).data <==> 0 <= k < |vals|
  {
    var items := Indexed(vals);
    forall k ensures Occurs(items, k) <==> 0 <= k < |vals| {
      if 0 <= k < |vals| {
        assert items[k].0 == k;
      }
    }
  }

  lemma IndexedValues<V>(vals: seq<V>)
    ensures forall i :: 0 <= i < |vals| ==> i in GroupAll(Indexed(vals)).data && GroupAll(Indexed(vals)).data[i] == [vals[i]]
  {
    var items := Indexed(vals);
    IndexedKeys(vals);
    GroupAllValues(items);
    forall i | 0 <= i < |vals| ensures ValuesOf(items, i) == [vals[i]] {
      DistinctKeysSingletons(items, i);
    }
  }

  lemma IndexedCard<V>(vals: seq<V>)
    ensures |GroupAll(Indexed(vals)).data| == |vals|
  {
    var g := GroupAll(Indexed(vals));
    IndexedKeys(vals);
    CardOfValid(g);
    var indices := seq(|vals|, i requires 0 <= i < |vals| => i);
    forall k | 0 <= k < |vals| ensures k in indices {
      assert indices[k] == k;
    }
    assert (set k | k in indices) == (set k | k in g.order);
    DistinctCard(indices);
    DistinctCard(g.order);
  }
}
