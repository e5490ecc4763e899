/** What any run of gets and sets makes of the cache, stated over the calls alone. */
module CacheHistory {
  import opened Results
  import opened OrderedDicts
  import opened TtlCache

  datatype Call<K, V> =
    | GetCall(key: K, now: real)
    | SetCall(key: K, value: Option<V>, now: real)

  function Step<K(==), V>(settings: Settings, entries: Entries<K, V>, call: Call<K, V>): Entries<K, V>
    requires ValidSettings(settings)
  {
    match call
    case GetCall(key, now) => GetEntry(entries, key, now).0
    case SetCall(key, value, now) => SetEntry(settings, entries, key, value, now)
  }

  /** The cache after a run of calls on an empty cache. */
  function Replay<K(==), V>(settings: Settings, calls: seq<Call<K, V>>): Entries<K, V>
    requires ValidSettings(settings)
  {
    if calls == [] then Empty()
    else Step(settings, Replay(settings, calls[..|calls| - 1]), calls[|calls| - 1])
  }

  /** The position of the last set of a key. */
  function LastSet<K(==), V>(calls: seq<Call<K, V>>, key: K): Option<nat> {
    if calls == [] then None
    else
      var last := |calls| - 1;
      if calls[last].SetCall? && calls[last].key == key then Some(last) else LastSet(calls[..last], key)
  }

  function Expiry<K, V>(settings: Settings, call: Call<K, V>): real
    requires call.SetCall?
  {
    call.now + Lifetime(settings, call.value)
  }

  /** A call touches its key when it is a set or a get that hits. */
  predicate Touches<K(==), V>(settings: Settings, before: seq<Call<K, V>>, call: Call<K, V>)
    requires ValidSettings(settings)
  {
    call.SetCall? || GetEntry(Replay(settings, before), call.key, call.now).1.hit
  }

  /** The position of the last touch of a key. */
  function LastTouch<K(==), V>(settings: Settings, calls: seq<Call<K, V>>, key: K): Option<nat>
    requires ValidSettings(settings)
  {
    if calls == [] then None
    else
      var before, last := calls[..|calls| - 1], calls[|calls| - 1];
      if last.key == key && Touches(settings, before, last) then Some(|before|)
      else LastTouch(settings, before, key)
  }

  /** The other keys touched after the last touch of a key. */
  function TouchedSince<K(==), V>(settings: Settings, calls: seq<Call<K, V>>, key: K): set<K>
    requires ValidSettings(settings)
  {
    if calls == [] then {}
    else
      var before, last := calls[..|calls| - 1], calls[|calls| - 1];
      if !Touches(settings, before, last) then TouchedSince(settings, before, key)
      else if last.key == key then {}
      else TouchedSince(settings, before, key) + {last.key}
  }

  ghost predicate Monotone<K, V>(calls: seq<Call<K, V>>) {
    forall i, j :: 0 <= i < j < |calls| ==> calls[i].now <= calls[j].now
  }

  // ----- Invariants of a run -----

  ghost predicate Bounded<K, V>(settings: Settings, entries: Entries<K, V>) {
    OrderedDicts.Valid(entries) && |entries.order| <= settings.maxEntries
  }

  ghost predicate HoldsLastSets<K, V>(settings: Settings, calls: seq<Call<K, V>>, entries: Entries<K, V>) {
    forall k :: k in entries.table ==>
      && LastSet(calls, k).Some?
      && LastSet(calls, k).value < |calls|
      && calls[LastSet(calls, k).value].SetCall?
      && entries.table[k] == Entry(calls[LastSet(calls, k).value].value,
                                   Expiry(settings, calls[LastSet(calls, k).value]))
  }

  ghost predicate FollowersWereTouched<K, V>(settings: Settings, calls: seq<Call<K, V>>, order: seq<K>)
    requires ValidSettings(settings)
  {
    forall i, j :: 0 <= i < j < |order| ==> order[j] in TouchedSince(settings, calls, order[i])
  }

  ghost predicate OrderedByTouch<K, V>(settings: Settings, calls: seq<Call<K, V>>, order: seq<K>)
    requires ValidSettings(settings)
  {
    && (forall i :: 0 <= i < |order| ==>
          LastTouch(settings, calls, order[i]).Some? && LastTouch(settings, calls, order[i]).value < |calls|)
    && forall i, j :: 0 <= i < j < |order| ==>
         LastTouch(settings, calls, order[i]).value < LastTouch(settings, calls, order[j]).value
  }

  /** A set key that is no longer stored has either been outlived or pushed out. */
  ghost predicate GoneForAReason<K(!new), V>(settings: Settings, calls: seq<Call<K, V>>, entries: Entries<K, V>)
    requires ValidSettings(settings)
  {
    forall k :: k !in entries.table && LastSet(calls, k).Some? && LastSet(calls, k).value < |calls|
                && calls[LastSet(calls, k).value].SetCall? ==>
      || |TouchedSince(settings, calls, k)| >= settings.maxEntries
      || Expiry(settings, calls[LastSet(calls, k).value]) <= calls[|calls| - 1].now
  }

  lemma LastSetIsASet<K, V>(calls: seq<Call<K, V>>, key: K)
    ensures LastSet(calls, key).Some? ==>
      var i := LastSet(calls, key).value; i < |calls| && calls[i].SetCall? && calls[i].key == key
    ensures LastSet(calls, key).Some? ==>
      forall j :: LastSet(calls, key).value < j < |calls| ==> !(calls[j].SetCall? && calls[j].key == key)
    ensures LastSet(calls, key).None? ==>
      forall j :: 0 <= j < |calls| ==> !(calls[j].SetCall? && calls[j].key == key)
  {
    if calls != [] {
      LastSetIsASet(calls[..|calls| - 1], key);
    }
  }

  lemma {:induction false} ReplayBounded<K, V>(settings: Settings, calls: seq<Call<K, V>>)
    requires ValidSettings(settings)
    ensures Bounded(settings, Replay(settings, calls))
  {
    if calls != [] {
      var before, last := calls[..|calls| - 1], calls[|calls| - 1];
      ReplayBounded(settings, before);
      match last
      case GetCall(key, now) => GetKeepsBounds(settings, Replay(settings, before), key, now);
      case SetCall(key, value, now) => SetKeepsBounds(settings, Replay(settings, before), key, value, now);
    }
  }

  lemma {:induction false} ReplayHoldsLastSets<K, V>(settings: Settings, calls: seq<Call<K, V>>)
    requires ValidSettings(settings)
    ensures HoldsLastSets(settings, calls, Replay(settings, calls))
  {
    if calls != [] {
      var before, last := calls[..|calls| - 1], calls[|calls| - 1];
      var was, now := Replay(settings, before), Replay(settings, calls);
      ReplayBounded(settings, before);
      ReplayHoldsLastSets(settings, before);
      match last {
        case GetCall(key, at) => GetTable(was, key, at);
        case SetCall(key, value, at) => SetTable(settings, was, key, value, at);
      }
      forall k | k in now.table
        ensures LastSet(calls, k).Some?
        ensures LastSet(calls, k).value < |calls|
        ensures calls[LastSet(calls, k).value].SetCall?
        ensures now.table[k] == Entry(calls[LastSet(calls, k).value].value,
                                      Expiry(settings, calls[LastSet(calls, k).value]))
      {
      }
    }
  }

  /** The order after one call, before anything is trimmed: the touched key moves last. */
  function TouchedOrder<K(==)>(order: seq<K>, key: K): seq<K> {
    Without(order, key) + [key]
  }

  /** A get that hits moves its key last; one that misses drops it, if it was there. */
  lemma OrderAfterGet<K, V>(entries: Entries<K, V>, key: K, now: real)
    ensures !GetEntry(entries, key, now).1.hit ==>
      (GetEntry(entries, key, now).0.order
       == if key in entries.table then Without(entries.order, key) else entries.order)
    ensures GetEntry(entries, key, now).1.hit ==>
      GetEntry(entries, key, now).0.order == TouchedOrder(entries.order, key)
  {
  }

  lemma OrderAfterTrim<K, V>(settings: Settings, entries: Entries<K, V>, key: K, value: Option<V>, now: real)
    requires ValidSettings(settings) && OrderedDicts.Valid(entries)
    ensures SetEntry(settings, entries, key, value, now).order
         == LastKeys(TouchedOrder(entries.order, key), settings.maxEntries)
  {
    StoreAndTrim(entries, key, Entry(value, now + Lifetime(settings, value)), settings.maxEntries);
  }

  /** A set moves its key last and then pops at most one key off the front. */
  lemma OrderAfterSet<K, V>(settings: Settings, entries: Entries<K, V>, key: K, value: Option<V>, now: real)
    requires ValidSettings(settings) && Bounded(settings, entries)
    ensures |TouchedOrder(entries.order, key)| <= settings.maxEntries + 1
    ensures SetEntry(settings, entries, key, value, now).order
         == if |TouchedOrder(entries.order, key)| > settings.maxEntries
            then TouchedOrder(entries.order, key)[1..] else TouchedOrder(entries.order, key)
  {
    WithoutDistinct(entries.order, key);
    OrderAfterTrim(settings, entries, key, value, now);
  }

  /** The keys that stay keep their places relative to one another. */
  lemma OrderAfterCall<K, V>(settings: Settings, entries: Entries<K, V>, call: Call<K, V>)
    requires ValidSettings(settings) && Bounded(settings, entries)
    ensures call.GetCall? && !GetEntry(entries, call.key, call.now).1.hit ==>
      Step(settings, entries, call).order == Without(entries.order, call.key)
    ensures call.GetCall? && GetEntry(entries, call.key, call.now).1.hit ==>
      Step(settings, entries, call).order == TouchedOrder(entries.order, call.key)
    ensures call.SetCall? ==>
      var touched := TouchedOrder(entries.order, call.key);
      && |touched| <= settings.maxEntries + 1
      && Step(settings, entries, call).order
         == if |touched| > settings.maxEntries then touched[1..] else touched
  {
    match call
    case GetCall(key, now) =>
      OrderAfterGet(entries, key, now);
      if key !in entries.table {
        WithoutAbsent(entries.order, key);
      }
    case SetCall(key, value, now) => OrderAfterSet(settings, entries, key, value, now);
  }

  lemma TouchedOrderFollowers<K, V>(settings: Settings, calls: seq<Call<K, V>>, order: seq<K>)
    requires ValidSettings(settings) && calls != []
    requires var before, last := calls[..|calls| - 1], calls[|calls| - 1];
      Touches(settings, before, last) && FollowersWereTouched(settings, before, order) && Distinct(order)
    ensures FollowersWereTouched(settings, calls, TouchedOrder(order, calls[|calls| - 1].key))
  {
    var before, last := calls[..|calls| - 1], calls[|calls| - 1];
    var rest := Without(order, last.key);
    var touched := TouchedOrder(order, last.key);
    forall i, j | 0 <= i < j < |touched|
      ensures touched[j] in TouchedSince(settings, calls, touched[i])
    {
      assert touched[i] in rest;
      if j < |rest| {
        var p, q := WithoutKeepsOrder(order, last.key, i, j);
      }
    }
  }

  lemma {:induction false} ReplayFollowers<K, V>(settings: Settings, calls: seq<Call<K, V>>)
    requires ValidSettings(settings)
    ensures FollowersWereTouched(settings, calls, Replay(settings, calls).order)
  {
    if calls != [] {
      var before, last := calls[..|calls| - 1], calls[|calls| - 1];
      var was := Replay(settings, before);
      ReplayBounded(settings, before);
      ReplayFollowers(settings, before);
      OrderAfterCall(settings, was, last);
      if Touches(settings, before, last) {
        TouchedOrderFollowers(settings, calls, was.order);
      } else {
        var order := Without(was.order, last.key);
        forall i, j | 0 <= i < j < |order|
          ensures order[j] in TouchedSince(settings, calls, order[i])
        {
          var p, q := WithoutKeepsOrder(was.order, last.key, i, j);
        }
      }
    }
  }

  lemma RestOrdered<K, V>(settings: Settings, calls: seq<Call<K, V>>, order: seq<K>)
    requires ValidSettings(settings) && calls != []
    requires OrderedByTouch(settings, calls[..|calls| - 1], order)
    ensures OrderedByTouch(settings, calls, Without(order, calls[|calls| - 1].key))
    ensures forall k :: k in Without(order, calls[|calls| - 1].key) ==>
      LastTouch(settings, calls, k).Some? && LastTouch(settings, calls, k).value < |calls| - 1
  {
    var before, last := calls[..|calls| - 1], calls[|calls| - 1];
    var rest := Without(order, last.key);
    forall i | 0 <= i < |rest|
      ensures LastTouch(settings, calls, rest[i]) == LastTouch(settings, before, rest[i])
      ensures LastTouch(settings, before, rest[i]).Some? && LastTouch(settings, before, rest[i]).value < |before|
    {
      assert rest[i] in order;
    }
    forall i, j | 0 <= i < j < |rest|
      ensures LastTouch(settings, calls, rest[i]).Some? && LastTouch(settings, calls, rest[j]).Some?
      ensures LastTouch(settings, calls, rest[i]).value < LastTouch(settings, calls, rest[j]).value
    {
      var p, q := WithoutKeepsOrder(order, last.key, i, j);
      assert LastTouch(settings, calls, rest[i]) == LastTouch(settings, before, order[p]);
      assert LastTouch(settings, calls, rest[j]) == LastTouch(settings, before, order[q]);
    }
  }

  lemma {:induction false} ReplayOrdered<K, V>(settings: Settings, calls: seq<Call<K, V>>)
    requires ValidSettings(settings)
    ensures OrderedByTouch(settings, calls, Replay(settings, calls).order)
  {
    if calls != [] {
      var before, last := calls[..|calls| - 1], calls[|calls| - 1];
      var was := Replay(settings, before);
      ReplayBounded(settings, before);
      ReplayOrdered(settings, before);
      OrderAfterCall(settings, was, last);
      RestOrdered(settings, calls, was.order);
      if Touches(settings, before, last) {
        assert OrderedByTouch(settings, calls, TouchedOrder(was.order, last.key));
      }
    }
  }

  /** The key pushed out by a set leaves maxEntries others behind it. */
  lemma EvictedBehindMany<K, V>(settings: Settings, calls: seq<Call<K, V>>, order: seq<K>)
    requires ValidSettings(settings)
    requires |order| == settings.maxEntries + 1 && Distinct(order)
    requires FollowersWereTouched(settings, calls, order)
    ensures |TouchedSince(settings, calls, order[0])| >= settings.maxEntries
  {
    var rest := order[1..];
    DistinctCardinality(rest);
    var others := set k | k in rest;
    assert others <= TouchedSince(settings, calls, order[0]);
    SubsetCardinality(others, TouchedSince(settings, calls, order[0]));
  }

  lemma {:induction false} SubsetCardinality<K>(small: set<K>, large: set<K>)
    requires small <= large
    ensures |small| <= |large|
  {
    if small != {} {
      var k :| k in small;
      SubsetCardinality(small - {k}, large - {k});
    }
  }

  lemma TouchedSinceGrows<K, V>(settings: Settings, calls: seq<Call<K, V>>, key: K)
    requires ValidSettings(settings) && calls != []
    requires var before, last := calls[..|calls| - 1], calls[|calls| - 1];
      last.key != key || !Touches(settings, before, last)
    ensures |TouchedSince(settings, calls, key)| >= |TouchedSince(settings, calls[..|calls| - 1], key)|
  {
    SubsetCardinality(TouchedSince(settings, calls[..|calls| - 1], key), TouchedSince(settings, calls, key));
  }

  lemma {:induction false} ReplayGoneForAReason<K(!new), V>(settings: Settings, calls: seq<Call<K, V>>)
    requires ValidSettings(settings) && Monotone(calls)
    ensures GoneForAReason(settings, calls, Replay(settings, calls))
  {
    if calls != [] {
      var before, last := calls[..|calls| - 1], calls[|calls| - 1];
      var was, after := Replay(settings, before), Replay(settings, calls);
      ReplayBounded(settings, before);
      ReplayBounded(settings, calls);
      ReplayGoneForAReason(settings, before);
      forall k | k !in after.table && LastSet(calls, k).Some? && LastSet(calls, k).value < |calls|
                 && calls[LastSet(calls, k).value].SetCall?
        ensures |TouchedSince(settings, calls, k)| >= settings.maxEntries
          || Expiry(settings, calls[LastSet(calls, k).value]) <= last.now
      {
        GoneStep(settings, calls, k);
      }
    }
  }

  /** A key that a set of another key drops has been pushed out. */
  lemma PushedOut<K, V>(settings: Settings, calls: seq<Call<K, V>>, k: K)
    requires ValidSettings(settings) && calls != [] && calls[|calls| - 1].SetCall? && calls[|calls| - 1].key != k
    requires k in Replay(settings, calls[..|calls| - 1]).table && k !in Replay(settings, calls).table
    ensures |TouchedSince(settings, calls, k)| >= settings.maxEntries
  {
    var before, last := calls[..|calls| - 1], calls[|calls| - 1];
    var was := Replay(settings, before);
    var touched := TouchedOrder(was.order, last.key);
    ReplayBounded(settings, before);
    ReplayBounded(settings, calls);
    ReplayFollowers(settings, before);
    OrderAfterSet(settings, was, last.key, last.value, last.now);
    WithoutDistinct(was.order, last.key);
    TouchedOrderFollowers(settings, calls, was.order);
    assert k in touched && k !in Replay(settings, calls).order;
    EvictedBehindMany(settings, calls, touched);
  }

  lemma GoneStep<K(!new), V>(settings: Settings, calls: seq<Call<K, V>>, k: K)
    requires ValidSettings(settings) && Monotone(calls) && calls != []
    requires GoneForAReason(settings, calls[..|calls| - 1], Replay(settings, calls[..|calls| - 1]))
    requires k !in Replay(settings, calls).table && LastSet(calls, k).Some?
    ensures LastSet(calls, k).value < |calls| && calls[LastSet(calls, k).value].SetCall?
    ensures |TouchedSince(settings, calls, k)| >= settings.maxEntries
      || Expiry(settings, calls[LastSet(calls, k).value]) <= calls[|calls| - 1].now
  {
    var before, last := calls[..|calls| - 1], calls[|calls| - 1];
    var was := Replay(settings, before);
    LastSetIsASet(calls, k);
    LastSetIsASet(before, k);
    ReplayBounded(settings, before);
    if last.SetCall? {
      SetTable(settings, was, last.key, last.value, last.now);
    }
    assert LastSet(calls, k) == LastSet(before, k);
    if k !in was.table {
      TouchedSinceGrows(settings, calls, k);
    } else if last.SetCall? {
      PushedOut(settings, calls, k);
    } else {
      ReplayHoldsLastSets(settings, before);
    }
  }

  // ----- Main results -----

  ghost predicate IsLatestSet<K, V>(calls: seq<Call<K, V>>, i: nat, key: K) {
    && i < |calls| && calls[i].SetCall? && calls[i].key == key
    && forall j :: i < j < |calls| ==> !(calls[j].SetCall? && calls[j].key == key)
  }

  predicate IsAlive<K, V>(settings: Settings, call: Call<K, V>, now: real)
    requires call.SetCall?
  {
    now < call.now + if call.value.Some? then settings.ttl else settings.negativeTtl
  }

  /** A hit returns the value of the latest set of the key, within its lifetime. */
  lemma HitIsTheLatestSet<K, V>(settings: Settings, calls: seq<Call<K, V>>, key: K, now: real)
    requires ValidSettings(settings)
    requires GetEntry(Replay(settings, calls), key, now).1.hit
    ensures exists i: nat :: IsLatestSet(calls, i, key) && IsAlive(settings, calls[i], now)
                             && GetEntry(Replay(settings, calls), key, now).1.value == calls[i].value
  {
    ReplayHoldsLastSets(settings, calls);
    LastSetIsASet(calls, key);
    var i := LastSet(calls, key).value;
    assert IsLatestSet(calls, i, key);
  }

  /** With a monotone clock, a key whose latest set is still alive hits unless at
      least maxEntries other keys were touched since its own last touch. */
  lemma AliveKeysAreRetained<K(!new), V>(settings: Settings, calls: seq<Call<K, V>>, key: K, now: real, i: nat)
    requires ValidSettings(settings)
    requires Monotone(calls + [GetCall(key, now)])
    requires IsLatestSet(calls, i, key) && IsAlive(settings, calls[i], now)
    requires |TouchedSince(settings, calls, key)| < settings.maxEntries
    ensures GetEntry(Replay(settings, calls), key, now).1 == Lookup(true, calls[i].value)
  {
    var all := calls + [GetCall(key, now)];
    MonotonePrefix(calls, GetCall(key, now));
    LastSetIsASet(calls, key);
    assert LastSet(calls, key) == Some(i);
    ReplayGoneForAReason(settings, calls);
    ReplayHoldsLastSets(settings, calls);
  }

  lemma MonotonePrefix<K, V>(calls: seq<Call<K, V>>, next: Call<K, V>)
    requires Monotone(calls + [next])
    ensures Monotone(calls)
    ensures forall i :: 0 <= i < |calls| ==> calls[i].now <= next.now
  {
    var all := calls + [next];
    assert all[|calls|] == next;
    assert forall i :: 0 <= i < |calls| ==> all[i] == calls[i];
    assert forall i :: 0 <= i < |calls| ==> all[i].now <= all[|calls|].now;
  }

  /** The cache never outgrows its bound and lists its keys by last touch. */
  lemma OrderIsByLastTouch<K, V>(settings: Settings, calls: seq<Call<K, V>>)
    requires ValidSettings(settings)
    ensures |Replay(settings, calls).order| <= settings.maxEntries
    ensures OrderedByTouch(settings, calls, Replay(settings, calls).order)
  {
    ReplayBounded(settings, calls);
    ReplayOrdered(settings, calls);
  }
}
