/** Insertion-ordered dictionaries: a lookup table with the order of its keys.
    Assigning to a known key leaves it where it is, assigning to a new one puts it last,
    and a key can be moved to the end or the first one popped.  A dictionary is well
    formed when its order lists each key of its table once. */
module OrderedDicts {
  datatype OrderedDict<K(==), V> = OrderedDict(order: seq<K>, table: map<K, V>)

  ghost predicate Distinct<T>(xs: seq<T>) {
    forall i, j :: 0 <= i < j < |xs| ==> xs[i] != xs[j]
  }

  ghost predicate Valid<K, V>(d: OrderedDict<K, V>) {
    Distinct(d.order) && d.table.Keys == set k | k in d.order
  }

  function Empty<K(==), V>(): OrderedDict<K, V> {
    OrderedDict([], map[])
  }

  function Without<K(==)>(order: seq<K>, key: K): (rest: seq<K>)
    ensures forall k :: k in rest ==> k in order && k != key
    ensures forall k :: k in order && k != key ==> k in rest
  {
    if order == [] then []
    else if order[0] == key then Without(order[1..], key)
    else [order[0]] + Without(order[1..], key)
  }

  function Delete<K(==), V>(d: OrderedDict<K, V>, key: K): OrderedDict<K, V> {
    OrderedDict(Without(d.order, key), d.table - {key})
  }

  /** Assigning to a present key keeps its place; a new key goes to the end. */
  function Assign<K(==), V>(d: OrderedDict<K, V>, key: K, value: V): OrderedDict<K, V> {
    OrderedDict(if key in d.table then d.order else d.order + [key], d.table[key := value])
  }

  function MoveToEnd<K(==), V>(d: OrderedDict<K, V>, key: K): OrderedDict<K, V>
    requires key in d.table
  {
    OrderedDict(Without(d.order, key) + [key], d.table)
  }

  function PopFirst<K(==), V>(d: OrderedDict<K, V>): OrderedDict<K, V>
    requires d.order != []
  {
    OrderedDict(d.order[1..], d.table - {d.order[0]})
  }

  /** Pop from the front until at most max entries are left. */
  function Trim<K(==), V>(d: OrderedDict<K, V>, max: nat): OrderedDict<K, V>
    decreases |d.order|
  {
    if |d.order| > max then Trim(PopFirst(d), max) else d
  }

  /** The last max keys, or all of them when there are no more than that. */
  function LastKeys<K>(order: seq<K>, max: nat): seq<K> {
    if |order| > max then order[|order| - max..] else order
  }

  lemma {:induction false} WithoutDistinct<K>(order: seq<K>, key: K)
    requires Distinct(order)
    ensures Distinct(Without(order, key))
    ensures |Without(order, key)| == |order| - if key in order then 1 else 0
  {
    if order != [] {
      assert order[0] !in order[1..];
      WithoutDistinct(order[1..], key);
    }
  }

  /** Removing a key keeps the relative order of the others. */
  lemma {:induction false} WithoutKeepsOrder<K>(order: seq<K>, key: K, i: nat, j: nat) returns (p: nat, q: nat)
    requires i < j < |Without(order, key)|
    ensures p < q < |order| && order[p] == Without(order, key)[i] && order[q] == Without(order, key)[j]
  {
    if order[0] == key {
      p, q := WithoutKeepsOrder(order[1..], key, i, j);
      p, q := p + 1, q + 1;
    } else if i == 0 {
      assert Without(order, key)[j] in order[1..];
      var at: nat :| at < |order[1..]| && order[1..][at] == Without(order, key)[j];
      p, q := 0, at + 1;
    } else {
      p, q := WithoutKeepsOrder(order[1..], key, i - 1, j - 1);
      p, q := p + 1, q + 1;
    }
  }

  lemma DeleteValid<K, V>(d: OrderedDict<K, V>, key: K)
    requires Valid(d)
    ensures Valid(Delete(d, key))
  {
    WithoutDistinct(d.order, key);
  }

  lemma AssignValid<K, V>(d: OrderedDict<K, V>, key: K, value: V)
    requires Valid(d)
    ensures Valid(Assign(d, key, value))
  {
  }

  lemma MoveToEndValid<K, V>(d: OrderedDict<K, V>, key: K)
    requires Valid(d) && key in d.table
    ensures Valid(MoveToEnd(d, key))
    ensures |MoveToEnd(d, key).order| == |d.order|
  {
    WithoutDistinct(d.order, key);
  }

  lemma {:induction false} WithoutAbsent<K>(order: seq<K>, key: K)
    requires key !in order
    ensures Without(order, key) == order
  {
    if order != [] {
      WithoutAbsent(order[1..], key);
    }
  }

  lemma {:induction false} WithoutAppended<K>(order: seq<K>, key: K)
    ensures Without(order + [key], key) == Without(order, key)
  {
    if order == [] {
      assert ([key])[1..] == [];
    } else {
      assert (order + [key])[1..] == order[1..] + [key];
      WithoutAppended(order[1..], key);
    }
  }

  /** Storing a key and moving it to the end leaves the others in order before it. */
  lemma StoreLast<K, V>(d: OrderedDict<K, V>, key: K, value: V)
    requires Valid(d)
    ensures Valid(MoveToEnd(Assign(d, key, value), key))
    ensures MoveToEnd(Assign(d, key, value), key) == OrderedDict(Without(d.order, key) + [key], d.table[key := value])
    ensures |Without(d.order, key)| == |d.order| - if key in d.order then 1 else 0
  {
    AssignValid(d, key, value);
    MoveToEndValid(Assign(d, key, value), key);
    WithoutDistinct(d.order, key);
    if key !in d.table {
      WithoutAppended(d.order, key);
    }
  }

  /** Trimming drops exactly a prefix of the order. */
  lemma {:induction false} TrimDropsPrefix<K, V>(d: OrderedDict<K, V>, max: nat)
    requires Valid(d)
    ensures Valid(Trim(d, max))
    ensures Trim(d, max).order == LastKeys(d.order, max)
    ensures forall k :: k in Trim(d, max).table ==> k in d.table && Trim(d, max).table[k] == d.table[k]
    decreases |d.order|
  {
    if |d.order| > max {
      TrimDropsPrefix(PopFirst(d), max);
    }
  }

  lemma StoreAndTrim<K, V>(d: OrderedDict<K, V>, key: K, value: V, max: nat)
    requires Valid(d)
    ensures Trim(MoveToEnd(Assign(d, key, value), key), max).order == LastKeys(Without(d.order, key) + [key], max)
  {
    StoreLast(d, key, value);
    TrimDropsPrefix(MoveToEnd(Assign(d, key, value), key), max);
  }

  /** After storing and trimming, the stored key holds its value and no other changed. */
  lemma StoreAndTrimTable<K, V>(d: OrderedDict<K, V>, key: K, value: V, max: nat)
    requires Valid(d) && max >= 1
    ensures var after := Trim(MoveToEnd(Assign(d, key, value), key), max);
      && Valid(after)
      && key in after.table && after.table[key] == value
      && forall k :: k in after.table && k != key ==> k in d.table && after.table[k] == d.table[k]
  {
    StoreLast(d, key, value);
    var moved := OrderedDict(Without(d.order, key) + [key], d.table[key := value]);
    TrimDropsPrefix(moved, max);
    var order := Trim(moved, max).order;
    assert order[|order| - 1] == key;
  }

  lemma {:induction false} DistinctCardinality<K>(order: seq<K>)
    requires Distinct(order)
    ensures |set k | k in order| == |order|
  {
    if order == [] {
      assert (set k | k in order) == {};
    } else {
      DistinctCardinality(order[1..]);
      assert (set k | k in order) == (set k | k in order[1..]) + {order[0]};
    }
  }
}
