/** An ordered map's entries in the order it iterates them. */
module SortedKeys {
  import opened Bytes

  predicate IsMin(x: u64, s: set<u64>) {
    x in s && forall y :: y in s ==> x <= y
  }

  lemma MinExists(s: set<u64>)
    requires s != {}
    ensures exists x :: IsMin(x, s)
  {
    var x :| x in s;
    if s != {x} {
      MinExists(s - {x});
      var z :| IsMin(z, s - {x});
      assert forall y :: y in s ==> y == x || y in s - {x};
      assert IsMin(if z < x then z else x, s);
    } else {
      assert IsMin(x, s);
    }
  }

  function Min(s: set<u64>): (x: u64)
    requires s != {}
    ensures IsMin(x, s)
  {
    MinExists(s);
    var x: u64 :| IsMin(x, s);
    x
  }

  predicate Ascending<V>(items: seq<(u64, V)>) {
    forall i, j :: 0 <= i < j < |items| ==> items[i].0 < items[j].0
  }

  /** The entries of `m`, ascending by key. */
  function Items<V>(m: map<u64, V>): (items: seq<(u64, V)>)
    ensures |items| == |m|
    ensures Ascending(items)
    ensures forall i :: 0 <= i < |items| ==> items[i].0 in m && items[i].1 == m[items[i].0]
    decreases |m|
  {
    if m == map[] then []
    else
      assert m.Keys != {};
      var k := Min(m.Keys);
      assert (m - {k}).Keys == m.Keys - {k};
      [(k, m[k])] + Items(m - {k})
  }

  /** The map a sequence of entries builds, later entries replacing earlier ones. */
  function FromItems<V>(items: seq<(u64, V)>): map<u64, V> {
    if items == [] then map[]
    else FromItems(items[..|items| - 1])[items[|items| - 1].0 := items[|items| - 1].1]
  }

  lemma {:induction false} FromItemsHas<V>(items: seq<(u64, V)>)
    requires Ascending(items)
    ensures forall k :: k in FromItems(items) <==> exists i :: 0 <= i < |items| && items[i].0 == k
    ensures forall i :: 0 <= i < |items| ==>
            items[i].0 in FromItems(items) && FromItems(items)[items[i].0] == items[i].1
    decreases |items|
  {
    if items != [] {
      var last := |items| - 1;
      var before := items[..last];
      FromItemsHas(before);
      var m := FromItems(items);
      forall i | 0 <= i < |items|
        ensures items[i].0 in m && m[items[i].0] == items[i].1
      {
        if i < last {
          assert before[i] == items[i];
          assert items[i].0 < items[last].0;
        }
      }
      forall k | k in m
        ensures exists i :: 0 <= i < |items| && items[i].0 == k
      {
        if k == items[last].0 {
        } else {
          assert k in FromItems(before);
          var i :| 0 <= i < last && before[i].0 == k;
          assert items[i].0 == k;
        }
      }
    }
  }

  lemma {:induction false} ItemsHaveAll<V>(m: map<u64, V>, k: u64)
    requires k in m
    ensures exists i :: 0 <= i < |m| && Items(m)[i].0 == k
    decreases |m|
  {
    var least := Min(m.Keys);
    assert (m - {least}).Keys == m.Keys - {least};
    if k == least {
      assert Items(m)[0].0 == k;
    } else {
      ItemsHaveAll(m - {least}, k);
      var i :| 0 <= i < |m - {least}| && Items(m - {least})[i].0 == k;
      assert Items(m)[i + 1] == Items(m - {least})[i];
    }
  }

  /** Building a map from its own entries gives it back. */
  lemma FromItemsOfItems<V>(m: map<u64, V>)
    ensures FromItems(Items(m)) == m
  {
    var items := Items(m);
    FromItemsHas(items);
    hide Items, FromItems;
    forall k | k in m
      ensures k in FromItems(items) && FromItems(items)[k] == m[k]
    {
      ItemsHaveAll(m, k);
      var i :| 0 <= i < |m| && items[i].0 == k;
      assert items[i].0 in FromItems(items);
    }
    forall k | k in FromItems(items)
      ensures k in m
    {
      var i :| 0 <= i < |items| && items[i].0 == k;
    }
  }
}
