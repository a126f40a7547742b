/** The expiring keyed cache (`GenericCache<TKey, TItem>`): a dictionary from key to
    an entry holding an item and an expiration marker, read lazily through a
    loader, revoked entry by entry or all at once, and wiped whole when it grows
    past its maximum size.

    Time is a number of ticks handed in as `now`; the loader (`LoadItemImpl`) and
    the expiration policy (`GetExpiration`) are function parameters, the loader
    returning `Failure` where the C# class's loader throws. Every operation is
    atomic: the reader/writer lock of the C# class is not modelled. */
module Cache {
  import opened DotNet

  /** `MaxCacheSize` starts at `int.MaxValue`. */
  const DefaultMaxCacheSize: int32 := Int32MaxValue

  /** When an entry stops being fresh: at a deadline, or as soon as it is revoked.
      Once `expiredManually` is set nothing clears it; only a new entry does. */
  datatype ExpirationInformation = ExpirationInformation(expirationDate: int, expiredManually: bool)
  {
    /** Expired when revoked, or when the deadline lies strictly before `now`:
        an entry whose deadline is `now` itself is still fresh. */
    function IsExpired(now: int): (r: bool)
      ensures expiredManually ==> r
      ensures !expiredManually ==> (r <==> expirationDate < now)
    {
      expiredManually || expirationDate < now
    }

    /** The marker after a revocation. */
    function SetToExpire(): (r: ExpirationInformation)
      ensures r.expiredManually && r.expirationDate == expirationDate
    {
      this.(expiredManually := true)
    }
  }

  /** The constructor of `ExpirationInformation`: a deadline, not revoked. */
  function NewExpirationInformation(expiration: int): (r: ExpirationInformation)
    ensures r.expirationDate == expiration && !r.expiredManually
  {
    ExpirationInformation(expiration, false)
  }

  /** One entry: the cached item (a reference that may be null) and its marker. */
  datatype CacheInformation<I> = CacheInformation(item: Nullable<I>, expirationInfo: ExpirationInformation)

  /** The contents of the cache's dictionary. */
  type Store<K(==), I> = map<K, CacheInformation<I>>

  /** The read phase of `GetItem`: the stored item when `key` is present with a
      non-null item that has not expired at `now`, and `Null` otherwise. */
  function FreshItem<K, I>(cache: Store<K, I>, key: K, now: int): Nullable<I>
  {
    if key in cache && cache[key].item.NonNull? && !cache[key].expirationInfo.IsExpired(now)
    then cache[key].item
    else Null
  }

  /** The dictionary after `SetItem(key, item, expiration)`: the key is bound to a
      new entry, and if that makes the count exceed `maxCacheSize` the dictionary
      is cleared and only the new entry put back. */
  function Stored<K, I>(cache: Store<K, I>, key: K, item: Nullable<I>, expiration: int, maxCacheSize: int): Store<K, I>
  {
    var info := CacheInformation(item, NewExpirationInformation(expiration));
    var added := cache[key := info];
    if |added| > maxCacheSize then map[key := info] else added
  }

  /** The dictionary after `RevokeItem(key)`: the key's marker is flagged expired. */
  function Revoked<K, I>(cache: Store<K, I>, key: K): Store<K, I>
  {
    if key in cache
    then cache[key := cache[key].(expirationInfo := cache[key].expirationInfo.SetToExpire())]
    else cache
  }

  /** What one `GetItem` does: its result, the dictionary afterwards, and whether
      it called the loader. */
  datatype Fetch<K(==), I, E> = Fetch(result: Result<Nullable<I>, E>, cache: Store<K, I>, loaded: bool)

  /** `GetItem(key)` at time `now`: a fresh hit returns the stored item and changes
      nothing; otherwise the loader runs, and only when it succeeds is the
      expiration policy consulted and the loaded item stored. */
  function Fetched<K, I, E>(cache: Store<K, I>, key: K, now: int,
                            loadItemImpl: K -> Result<Nullable<I>, E>, getExpiration: K -> int,
                            maxCacheSize: int): Fetch<K, I, E>
  {
    var hit := FreshItem(cache, key, now);
    if hit.NonNull? then Fetch(Success(hit), cache, false)
    else match loadItemImpl(key)
      case Failure(e) => Fetch(Failure(e), cache, true)
      case Success(item) => Fetch(Success(item), Stored(cache, key, item, getExpiration(key), maxCacheSize), true)
  }

  // ---------------------------------------------------------------------------
  // Expiration marker

  /** A freshly built marker is fresh up to and including its deadline and
      expired from the next tick on. */
  lemma NewMarkerExpiresAfterDeadline(expiration: int, now: int)
    ensures !NewExpirationInformation(expiration).expiredManually
    ensures NewExpirationInformation(expiration).IsExpired(now) <==> expiration < now
    ensures !NewExpirationInformation(expiration).IsExpired(expiration)
  {
  }

  /** A revoked marker is expired at every time, keeps its deadline, and revoking
      it again changes nothing. */
  lemma RevokedMarkerIsExpired(e: ExpirationInformation, now: int)
    ensures e.SetToExpire().IsExpired(now)
    ensures e.SetToExpire().expirationDate == e.expirationDate
    ensures e.SetToExpire().SetToExpire() == e.SetToExpire()
  {
  }

  /** Expiry is one-way in time: a marker expired at `now` stays expired at
      every later time. */
  lemma ExpiryIsMonotone(e: ExpirationInformation, now: int, later: int)
    requires now <= later
    ensures e.IsExpired(now) ==> e.IsExpired(later)
  {
  }

  // ---------------------------------------------------------------------------
  // SetItem

  /** After `SetItem` the key is bound to the new, unrevoked entry. */
  lemma StoredBindsKey<K, I>(cache: Store<K, I>, key: K, item: Nullable<I>, expiration: int, maxCacheSize: int)
    ensures var r := Stored(cache, key, item, expiration, maxCacheSize);
      key in r && r[key] == CacheInformation(item, ExpirationInformation(expiration, false))
  {
  }

  /** Within capacity, `SetItem` binds the key and every other entry stays as it was. */
  lemma StoredWithinCapacity<K, I>(cache: Store<K, I>, key: K, item: Nullable<I>, expiration: int, maxCacheSize: int)
    requires |cache[key := CacheInformation(item, NewExpirationInformation(expiration))]| <= maxCacheSize
    ensures var r := Stored(cache, key, item, expiration, maxCacheSize);
      r.Keys == cache.Keys + {key} &&
      forall k :: k in cache && k != key ==> r[k] == cache[k]
  {
  }

  /** Past capacity, `SetItem` leaves exactly the new entry. */
  lemma StoredPastCapacity<K, I>(cache: Store<K, I>, key: K, item: Nullable<I>, expiration: int, maxCacheSize: int)
    requires |cache[key := CacheInformation(item, NewExpirationInformation(expiration))]| > maxCacheSize
    ensures Stored(cache, key, item, expiration, maxCacheSize)
         == map[key := CacheInformation(item, ExpirationInformation(expiration, false))]
  {
  }

  /** After any `SetItem` the dictionary is within `maxCacheSize`, or it is the
      single new entry; with a maximum of at least one it is always within. */
  lemma StoredIsBounded<K, I>(cache: Store<K, I>, key: K, item: Nullable<I>, expiration: int, maxCacheSize: int)
    ensures var r := Stored(cache, key, item, expiration, maxCacheSize);
      (|r| <= maxCacheSize || r == map[key := CacheInformation(item, NewExpirationInformation(expiration))]) &&
      (maxCacheSize >= 1 ==> |r| <= maxCacheSize)
  {
    var info := CacheInformation(item, NewExpirationInformation(expiration));
    assert map[key := info].Keys == {key};
  }

  /** A full dictionary (exactly `maxCacheSize` entries) and one more new key:
      the breach wipes every earlier key and leaves only the new one. */
  lemma BreachKeepsOnlyNewKey<K, I>(cache: Store<K, I>, key: K, item: Nullable<I>, expiration: int, maxCacheSize: int)
    requires |cache| == maxCacheSize && key !in cache
    ensures Stored(cache, key, item, expiration, maxCacheSize).Keys == {key}
  {
    var info := CacheInformation(item, NewExpirationInformation(expiration));
    assert cache[key := info].Keys == cache.Keys + {key};
  }

  // ---------------------------------------------------------------------------
  // RevokeItem

  /** Revoking a present key flags its marker and keeps its item and deadline;
      every other entry, and the set of keys, stay as they were. */
  lemma RevokedFlagsOnlyKey<K, I>(cache: Store<K, I>, key: K)
    requires key in cache
    ensures var r := Revoked(cache, key);
      r.Keys == cache.Keys &&
      r[key].item == cache[key].item &&
      r[key].expirationInfo == ExpirationInformation(cache[key].expirationInfo.expirationDate, true) &&
      forall k :: k in cache && k != key ==> r[k] == cache[k]
  {
  }

  /** Revoking an absent key changes nothing; revoking twice is revoking once. */
  lemma RevokeAbsentAndTwice<K, I>(cache: Store<K, I>, key: K)
    ensures key !in cache ==> Revoked(cache, key) == cache
    ensures Revoked(Revoked(cache, key), key) == Revoked(cache, key)
  {
  }

  // ---------------------------------------------------------------------------
  // GetItem

  /** A fresh, non-null entry is returned as it is stored, without calling the
      loader and without changing the dictionary. */
  lemma FetchedHit<K, I, E>(cache: Store<K, I>, key: K, now: int,
                            loadItemImpl: K -> Result<Nullable<I>, E>, getExpiration: K -> int, maxCacheSize: int)
    requires key in cache && cache[key].item.NonNull? && !cache[key].expirationInfo.IsExpired(now)
    ensures Fetched(cache, key, now, loadItemImpl, getExpiration, maxCacheSize)
         == Fetch(Success(cache[key].item), cache, false)
  {
  }

  /** A missing, null, expired or revoked entry makes `GetItem` return what the
      loader returns. When the loader fails the dictionary is untouched; when it
      succeeds the key is bound to the loaded item, with the policy's deadline and
      a cleared revocation flag. */
  lemma FetchedMiss<K, I, E>(cache: Store<K, I>, key: K, now: int,
                             loadItemImpl: K -> Result<Nullable<I>, E>, getExpiration: K -> int, maxCacheSize: int)
    requires key !in cache || cache[key].item.Null? || cache[key].expirationInfo.IsExpired(now)
    ensures var f := Fetched(cache, key, now, loadItemImpl, getExpiration, maxCacheSize);
      f.loaded && f.result == loadItemImpl(key) &&
      (f.result.Failure? ==> f.cache == cache) &&
      (f.result.Success? ==>
         key in f.cache &&
         f.cache[key] == CacheInformation(f.result.value, ExpirationInformation(getExpiration(key), false)))
  {
  }

  /** `GetItem` keeps the capacity bound: a dictionary within a maximum of at
      least one stays within it. */
  lemma FetchedKeepsBound<K, I, E>(cache: Store<K, I>, key: K, now: int,
                                   loadItemImpl: K -> Result<Nullable<I>, E>, getExpiration: K -> int, maxCacheSize: int)
    requires 1 <= maxCacheSize && |cache| <= maxCacheSize
    ensures |Fetched(cache, key, now, loadItemImpl, getExpiration, maxCacheSize).cache| <= maxCacheSize
  {
    var hit := FreshItem(cache, key, now);
    if hit.Null? && loadItemImpl(key).Success? {
      StoredIsBounded(cache, key, loadItemImpl(key).value, getExpiration(key), maxCacheSize);
    }
  }

  // ---------------------------------------------------------------------------
  // Scenarios

  /** A non-null item stored with a deadline not before `now` is a hit. */
  lemma HitAfterSet<K, I, E>(cache: Store<K, I>, key: K, item: I, expiration: int, maxCacheSize: int, now: int,
                             loadItemImpl: K -> Result<Nullable<I>, E>, getExpiration: K -> int)
    requires now <= expiration
    ensures var s := Stored(cache, key, NonNull(item), expiration, maxCacheSize);
      Fetched(s, key, now, loadItemImpl, getExpiration, maxCacheSize) == Fetch(Success(NonNull(item)), s, false)
  {
    StoredBindsKey(cache, key, NonNull(item), expiration, maxCacheSize);
  }

  /** An item stored with a deadline already past is reloaded; the reloaded
      item, when non-null, is then a hit until the policy's new deadline. */
  lemma ReloadAfterExpiry<K, I, E>(cache: Store<K, I>, key: K, old1: Nullable<I>, expiration: int, maxCacheSize: int,
                                   now: int, later: int,
                                   loadItemImpl: K -> Result<Nullable<I>, E>, getExpiration: K -> int)
    requires expiration < now
    requires loadItemImpl(key).Success? && loadItemImpl(key).value.NonNull?
    requires later <= getExpiration(key)
    ensures var s := Stored(cache, key, old1, expiration, maxCacheSize);
      var f := Fetched(s, key, now, loadItemImpl, getExpiration, maxCacheSize);
      f.loaded && f.result == loadItemImpl(key) &&
      Fetched(f.cache, key, later, loadItemImpl, getExpiration, maxCacheSize) == Fetch(f.result, f.cache, false)
  {
    var s := Stored(cache, key, old1, expiration, maxCacheSize);
    StoredBindsKey(cache, key, old1, expiration, maxCacheSize);
    StoredBindsKey(s, key, loadItemImpl(key).value, getExpiration(key), maxCacheSize);
  }

  /** A revoked entry is reloaded even though its deadline has not passed. */
  lemma ReloadAfterRevoke<K, I, E>(cache: Store<K, I>, key: K, item: Nullable<I>, expiration: int, maxCacheSize: int,
                                   now: int, loadItemImpl: K -> Result<Nullable<I>, E>, getExpiration: K -> int)
    requires now <= expiration
    ensures var s := Revoked(Stored(cache, key, item, expiration, maxCacheSize), key);
      var f := Fetched(s, key, now, loadItemImpl, getExpiration, maxCacheSize);
      f.loaded && f.result == loadItemImpl(key)
  {
    StoredBindsKey(cache, key, item, expiration, maxCacheSize);
  }

  /** Revoking a key leaves every other key's `GetItem` as it was. */
  lemma RevokeLeavesOtherKeys<K, I, E>(cache: Store<K, I>, key: K, other: K, now: int,
                                       loadItemImpl: K -> Result<Nullable<I>, E>, getExpiration: K -> int, maxCacheSize: int)
    requires other != key
    ensures Fetched(Revoked(cache, key), other, now, loadItemImpl, getExpiration, maxCacheSize).result
         == Fetched(cache, other, now, loadItemImpl, getExpiration, maxCacheSize).result
    ensures Fetched(Revoked(cache, key), other, now, loadItemImpl, getExpiration, maxCacheSize).loaded
         == Fetched(cache, other, now, loadItemImpl, getExpiration, maxCacheSize).loaded
  {
  }

  /** After a capacity breach every key other than the new one is reloaded. */
  lemma ReloadAfterBreach<K, I, E>(cache: Store<K, I>, key: K, item: Nullable<I>, expiration: int, maxCacheSize: int,
                                   other: K, now: int,
                                   loadItemImpl: K -> Result<Nullable<I>, E>, getExpiration: K -> int)
    requires |cache| == maxCacheSize && key !in cache && other != key
    ensures Fetched(Stored(cache, key, item, expiration, maxCacheSize), other, now,
                    loadItemImpl, getExpiration, maxCacheSize).loaded
  {
    BreachKeepsOnlyNewKey(cache, key, item, expiration, maxCacheSize);
  }

  // ---------------------------------------------------------------------------
  // The cache object

  class GenericCache<K(==), I> {
    /** The dictionary `_cache`. */
    var cache: Store<K, I>
    /** `MaxCacheSize`. */
    var maxCacheSize: int32
    /** The keys the loader has been called with, in order. */
    ghost var loads: seq<K>

    /** An empty cache with the default maximum size. */
    constructor ()
      ensures cache == map[] && maxCacheSize == DefaultMaxCacheSize && loads == []
    {
      cache := map[];
      maxCacheSize := DefaultMaxCacheSize;
      loads := [];
    }

    /** The getter of `MaxCacheSize`. */
    function MaxCacheSize(): (r: int32)
      reads this
      ensures r == maxCacheSize
    {
      maxCacheSize
    }

    /** The setter of `MaxCacheSize`: the dictionary is not trimmed until the next `SetItem`. */
    method SetMaxCacheSize(value: int32)
      modifies this`maxCacheSize
      ensures maxCacheSize == value
    {
      maxCacheSize := value;
    }

    /** `GetItem(key)` at time `now`. */
    method GetItem<E>(key: K, now: int, loadItemImpl: K -> Result<Nullable<I>, E>, getExpiration: K -> int)
      returns (r: Result<Nullable<I>, E>)
      modifies this`cache, this`loads
      ensures var f := Fetched(old(cache), key, now, loadItemImpl, getExpiration, maxCacheSize);
        r == f.result && cache == f.cache && loads == (if f.loaded then old(loads) + [key] else old(loads))
      ensures FreshItem(old(cache), key, now).NonNull? ==>
        r == Success(old(cache)[key].item) && cache == old(cache) && loads == old(loads)
      ensures FreshItem(old(cache), key, now).Null? ==>
        r == loadItemImpl(key) && loads == old(loads) + [key] &&
        (r.Failure? ==> cache == old(cache)) &&
        (r.Success? ==> cache == Stored(old(cache), key, r.value, getExpiration(key), maxCacheSize))
    {
      if key in cache {
        var info := cache[key];
        if info.item.NonNull? && !info.expirationInfo.IsExpired(now) {
          return Success(info.item);
        }
      }
      loads := loads + [key];
      r := loadItemImpl(key);
      if r.Failure? {
        return;
      }
      var expiration := getExpiration(key);
      SetItem(key, r.value, expiration);
    }

    /** `SetItem(key, item, expiration)`. */
    method SetItem(key: K, item: Nullable<I>, expiration: int)
      modifies this`cache
      ensures cache == Stored(old(cache), key, item, expiration, maxCacheSize)
      ensures key in cache && cache[key] == CacheInformation(item, ExpirationInformation(expiration, false))
      ensures |cache| <= maxCacheSize || cache.Keys == {key}
      ensures |old(cache)| <= maxCacheSize && 1 <= maxCacheSize ==> |cache| <= maxCacheSize
    {
      var info := CacheInformation(item, NewExpirationInformation(expiration));
      cache := cache[key := info];
      if |cache| > maxCacheSize {
        cache := map[];
        cache := cache[key := info];
      }
      assert map[key := info].Keys == {key};
    }

    /** `RevokeItem(key)`. */
    method RevokeItem(key: K)
      modifies this`cache
      ensures cache == Revoked(old(cache), key)
      ensures cache.Keys == old(cache).Keys
      ensures key in cache ==> cache[key].expirationInfo.expiredManually && cache[key].item == old(cache)[key].item
      ensures forall k :: k in cache && k != key ==> cache[k] == old(cache)[k]
    {
      if key in cache {
        var info := cache[key];
        cache := cache[key := info.(expirationInfo := info.expirationInfo.SetToExpire())];
      }
    }

    /** `RevokeAll()`. */
    method RevokeAll()
      modifies this`cache
      ensures cache == map[]
    {
      cache := map[];
    }
  }

  /** The capacity scenario: with a maximum of two, storing a third key wipes the
      first two, so reading them calls the loader again while the third is a hit. */
  method CapacityScenario<I, E>(a: I, b: I, c: I, future: int, now: int,
                                loadItemImpl: int -> Result<Nullable<I>, E>, getExpiration: int -> int)
    requires now <= future
  {
    var cache := new GenericCache<int, I>();
    cache.SetMaxCacheSize(2);
    cache.SetItem(1, NonNull(a), future);
    cache.SetItem(2, NonNull(b), future);
    assert cache.cache.Keys == {1, 2};
    cache.SetItem(3, NonNull(c), future);
    assert cache.cache.Keys == {3};
    var r3 := cache.GetItem(3, now, loadItemImpl, getExpiration);
    assert r3 == Success(NonNull(c)) && cache.loads == [];
    var r1 := cache.GetItem(1, now, loadItemImpl, getExpiration);
    assert cache.loads == [1];
  }

  /** A first read loads; any number of reads after it, before the deadline the
      policy gave, are hits: the loader runs exactly once. */
  method RepeatedReads<K(==), I, E>(key: K, now: int, count: nat,
                                   loadItemImpl: K -> Result<Nullable<I>, E>, getExpiration: K -> int)
    requires loadItemImpl(key).Success? && loadItemImpl(key).value.NonNull?
    requires now <= getExpiration(key)
  {
    var cache := new GenericCache<K, I>();
    var first := cache.GetItem(key, now, loadItemImpl, getExpiration);
    assert cache.loads == [key];
    var i := 0;
    while i < count
      invariant cache.loads == [key]
      invariant key in cache.cache && cache.cache[key] == CacheInformation(first.value, ExpirationInformation(getExpiration(key), false))
    {
      var r := cache.GetItem(key, now, loadItemImpl, getExpiration);
      assert r == first;
      i := i + 1;
    }
  }
}
