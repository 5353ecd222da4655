/**
 * Enumeration of a hash-based collection, whose order the runtime does not
 * promise, and the `AddRange` dictionary extension.
 */
module Enumeration {

  /** No element occurs twice. */
  predicate Distinct<K(==)>(order: seq<K>) {
    forall i, j | 0 <= i < j < |order| :: order[i] != order[j]
  }

  /** `order` lists every element of `keys` exactly once, in some order. */
  predicate IsEnumeration<K(==)>(order: seq<K>, keys: set<K>) {
    && Distinct(order)
    && (forall i | 0 <= i < |order| :: order[i] in keys)
    && (forall k | k in keys :: k in order)
  }

  /**
   * Some enumeration order of `keys`. Which one is unspecified, just as
   * `Dictionary` and `HashSet` do not promise an order; callers may rely on
   * nothing but `IsEnumeration`.
   */
  method Enumerate<K(==)>(keys: set<K>) returns (order: seq<K>)
    ensures IsEnumeration(order, keys)
    ensures |order| == |keys|
  {
    order := [];
    var rest := keys;
    while rest != {}
      invariant Distinct(order)
      invariant forall i | 0 <= i < |order| :: order[i] in keys && order[i] !in rest
      invariant forall k | k in keys && k !in rest :: k in order
      invariant rest <= keys
      invariant |order| + |rest| == |keys|
      decreases |rest|
    {
      var k :| k in rest;
      order := order + [k];
      rest := rest - {k};
    }
  }

  /** An enumeration has exactly as many entries as the collection it lists. */
  lemma {:induction false} EnumerationSize<K>(order: seq<K>, keys: set<K>)
    requires IsEnumeration(order, keys)
    ensures |order| == |keys|
    decreases |order|
  {
    if |order| > 0 {
      var last := order[|order| - 1];
      var prefix := order[..|order| - 1];
      forall k | k in keys - {last} ensures k in prefix {
        var i :| 0 <= i < |order| && order[i] == k;
        assert prefix[i] == k;
      }
      assert forall i | 0 <= i < |prefix| :: prefix[i] != last;
      EnumerationSize(prefix, keys - {last});
    }
  }
}

/** `DictionaryExtensions.AddRange`: assigns every pair in order, so later pairs win. */
module Dictionaries {
  import opened Enumeration

  /** The keys of a pair sequence. */
  function KeysOf<K, V>(items: seq<(K, V)>): (ks: set<K>)
    ensures forall i | 0 <= i < |items| :: items[i].0 in ks
    ensures forall k | k in ks :: exists i | 0 <= i < |items| :: items[i].0 == k
  {
    set i | 0 <= i < |items| :: items[i].0
  }

  function AddRange<K, V>(d: map<K, V>, items: seq<(K, V)>): (r: map<K, V>)
    ensures r.Keys == d.Keys + KeysOf(items)
    ensures forall k | k in d && k !in KeysOf(items) :: r[k] == d[k]
    ensures |items| == 0 ==> r == d
    decreases |items|
  {
    if |items| == 0 then d
    else
      var r := AddRange(d[items[0].0 := items[0].1], items[1..]);
      assert KeysOf(items) == {items[0].0} + KeysOf(items[1..]) by {
        forall k | k in KeysOf(items) ensures k in {items[0].0} + KeysOf(items[1..]) {
          var i :| 0 <= i < |items| && items[i].0 == k;
          if i > 0 { assert items[1..][i - 1].0 == k; }
        }
      }
      r
  }

  /** The value a repeated key ends with is the one of its last occurrence. */
  lemma {:induction false} AddRangeLastWins<K, V>(d: map<K, V>, items: seq<(K, V)>, i: nat)
    requires i < |items|
    requires forall j | i < j < |items| :: items[j].0 != items[i].0
    ensures items[i].0 in AddRange(d, items) && AddRange(d, items)[items[i].0] == items[i].1
    decreases |items|
  {
    var d' := d[items[0].0 := items[0].1];
    if i == 0 {
      forall j | 0 <= j < |items[1..]| ensures items[1..][j].0 != items[0].0 {
        assert items[1..][j] == items[j + 1];
      }
    } else {
      forall j | i - 1 < j < |items[1..]| ensures items[1..][j].0 != items[1..][i - 1].0 {
        assert items[1..][j] == items[j + 1];
      }
      AddRangeLastWins(d', items[1..], i - 1);
    }
  }

  /** The pairs of `m` in the given key order. */
  function Pairs<K, V>(m: map<K, V>, order: seq<K>): (items: seq<(K, V)>)
    requires forall i | 0 <= i < |order| :: order[i] in m
    ensures |items| == |order|
    ensures forall i | 0 <= i < |order| :: items[i] == (order[i], m[order[i]])
  {
    seq(|order|, i requires 0 <= i < |order| => (order[i], m[order[i]]))
  }

  /**
   * Copying every entry of `m` into `d`, in any enumeration order, gives
   * `m` over `d`: the copied keys take `m`'s values and the rest keep theirs.
   */
  lemma CopyAll<K, V>(d: map<K, V>, m: map<K, V>, order: seq<K>)
    requires IsEnumeration(order, m.Keys)
    ensures AddRange(d, Pairs(m, order)) == d + m
  {
    PairsKeys(m, order);
    CopyValues(d, m, order);
  }

  lemma CopyValues<K, V>(d: map<K, V>, m: map<K, V>, order: seq<K>)
    requires IsEnumeration(order, m.Keys)
    ensures forall k | k in m :: k in AddRange(d, Pairs(m, order)) && AddRange(d, Pairs(m, order))[k] == m[k]
  {
    forall k | k in m ensures k in AddRange(d, Pairs(m, order)) && AddRange(d, Pairs(m, order))[k] == m[k] {
      CopyOne(d, m, order, k);
    }
  }

  /** A key of `m` ends with `m`'s value. */
  lemma CopyOne<K, V>(d: map<K, V>, m: map<K, V>, order: seq<K>, k: K)
    requires IsEnumeration(order, m.Keys) && k in m
    ensures k in AddRange(d, Pairs(m, order)) && AddRange(d, Pairs(m, order))[k] == m[k]
  {
    var i :| 0 <= i < |order| && order[i] == k;
    AddRangeLastWins(d, Pairs(m, order), i);
  }

  /** The keys of an enumeration's pairs are the map's keys. */
  lemma PairsKeys<K, V>(m: map<K, V>, order: seq<K>)
    requires IsEnumeration(order, m.Keys)
    ensures KeysOf(Pairs(m, order)) == m.Keys
  {
    var items := Pairs(m, order);
    forall k | k in m.Keys ensures k in KeysOf(items) {
      var i :| 0 <= i < |order| && order[i] == k;
      assert items[i].0 == k;
    }
  }

  /** Copying every entry of `m` into an empty map rebuilds `m`. */
  lemma CopyAllIntoEmpty<K, V>(m: map<K, V>, order: seq<K>)
    requires IsEnumeration(order, m.Keys)
    ensures AddRange(map[], Pairs(m, order)) == m
  {
    CopyAll(map[], m, order);
    assert map[] + m == m;
  }
}
