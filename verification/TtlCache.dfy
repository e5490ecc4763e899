/** The bounded least-recently-used cache with one lifetime for values and a
    shorter one for remembered absences. */
module TtlCache {
  import opened Results
  import opened OrderedDicts

  datatype Settings = Settings(maxEntries: int, ttl: real, negativeTtl: real)

  predicate ValidSettings(settings: Settings) {
    1 <= settings.maxEntries && 0.0 < settings.ttl && 0.0 < settings.negativeTtl
  }

  datatype Entry<V> = Entry(value: Option<V>, expiresAt: real)

  type Entries<K(==), V> = OrderedDict<K, Entry<V>>

  datatype Lookup<V> = Lookup(hit: bool, value: Option<V>)

  function Lifetime<V>(settings: Settings, value: Option<V>): real {
    if value.Some? then settings.ttl else settings.negativeTtl
  }

  function GetEntry<K(==), V>(entries: Entries<K, V>, key: K, now: real): (Entries<K, V>, Lookup<V>) {
    if key !in entries.table then (entries, Lookup(false, None))
    else if entries.table[key].expiresAt <= now then (Delete(entries, key), Lookup(false, None))
    else (MoveToEnd(entries, key), Lookup(true, entries.table[key].value))
  }

  function SetEntry<K(==), V>(settings: Settings, entries: Entries<K, V>, key: K, value: Option<V>, now: real)
    : Entries<K, V>
    requires ValidSettings(settings)
  {
    var entry := Entry(value, now + Lifetime(settings, value));
    Trim(MoveToEnd(Assign(entries, key, entry), key), settings.maxEntries)
  }

  class BoundedTTLCache<K(==), V> {
    const settings: Settings
    var entries: Entries<K, V>

    ghost predicate Valid()
      reads this
    {
      ValidSettings(settings) && OrderedDicts.Valid(entries) && |entries.order| <= settings.maxEntries
    }

    constructor (settings: Settings)
      requires ValidSettings(settings)
      ensures this.settings == settings && entries == Empty() && Valid()
    {
      this.settings := settings;
      this.entries := Empty();
    }

    static method Create(settings: Settings) returns (cache: Option<BoundedTTLCache<K, V>>)
      ensures cache.Some? <==> ValidSettings(settings)
      ensures cache.Some? ==> fresh(cache.value) && cache.value.settings == settings && cache.value.Valid()
      ensures cache.Some? ==> cache.value.entries == Empty()
    {
      if settings.maxEntries < 1 || settings.ttl <= 0.0 || settings.negativeTtl <= 0.0 {
        return None;
      }
      var created := new BoundedTTLCache<K, V>(settings);
      return Some(created);
    }

    /** now is the reading the source's clock would give during the call. */
    method Get(key: K, now: real) returns (lookup: Lookup<V>)
      requires Valid()
      modifies this
      ensures Valid()
      ensures (entries, lookup) == GetEntry(old(entries), key, now)
    {
      GetKeepsBounds(settings, entries, key, now);
      if key !in entries.table {
        return Lookup(false, None);
      }
      var entry := entries.table[key];
      if entry.expiresAt <= now {
        entries := Delete(entries, key);
        return Lookup(false, None);
      }
      entries := MoveToEnd(entries, key);
      return Lookup(true, entry.value);
    }

    method Set(key: K, value: Option<V>, now: real)
      requires Valid()
      modifies this
      ensures Valid()
      ensures entries == SetEntry(settings, old(entries), key, value, now)
    {
      SetKeepsBounds(settings, entries, key, value, now);
      var lifetime := if value.Some? then settings.ttl else settings.negativeTtl;
      entries := Assign(entries, key, Entry(value, now + lifetime));
      entries := MoveToEnd(entries, key);
      while |entries.order| > settings.maxEntries
        invariant Trim(entries, settings.maxEntries) == SetEntry(settings, old(entries), key, value, now)
        decreases |entries.order|
      {
        entries := PopFirst(entries);
      }
    }
  }

  lemma GetKeepsBounds<K, V>(settings: Settings, entries: Entries<K, V>, key: K, now: real)
    requires OrderedDicts.Valid(entries) && |entries.order| <= settings.maxEntries
    ensures OrderedDicts.Valid(GetEntry(entries, key, now).0)
    ensures |GetEntry(entries, key, now).0.order| <= settings.maxEntries
  {
    if key in entries.table {
      WithoutDistinct(entries.order, key);
      DeleteValid(entries, key);
      MoveToEndValid(entries, key);
    }
  }

  lemma SetKeepsBounds<K, V>(settings: Settings, entries: Entries<K, V>, key: K, value: Option<V>, now: real)
    requires ValidSettings(settings) && OrderedDicts.Valid(entries)
    ensures OrderedDicts.Valid(SetEntry(settings, entries, key, value, now))
    ensures |SetEntry(settings, entries, key, value, now).order| <= settings.maxEntries
  {
    var entry := Entry(value, now + Lifetime(settings, value));
    StoreLast(entries, key, entry);
    TrimDropsPrefix(MoveToEnd(Assign(entries, key, entry), key), settings.maxEntries);
  }

  /** What a set leaves in the table: the new entry, and old entries unchanged or gone. */
  lemma SetTable<K, V>(settings: Settings, entries: Entries<K, V>, key: K, value: Option<V>, now: real)
    requires ValidSettings(settings) && OrderedDicts.Valid(entries)
    ensures key in SetEntry(settings, entries, key, value, now).table
    ensures SetEntry(settings, entries, key, value, now).table[key] == Entry(value, now + Lifetime(settings, value))
    ensures forall k :: k in SetEntry(settings, entries, key, value, now).table && k != key ==>
      k in entries.table && SetEntry(settings, entries, key, value, now).table[k] == entries.table[k]
  {
    StoreAndTrimTable(entries, key, Entry(value, now + Lifetime(settings, value)), settings.maxEntries);
  }

  lemma GetTable<K, V>(entries: Entries<K, V>, key: K, now: real)
    ensures forall k :: k in GetEntry(entries, key, now).0.table ==>
      k in entries.table && GetEntry(entries, key, now).0.table[k] == entries.table[k]
  {
  }
}
