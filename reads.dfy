/**
 * What the read operations promise on a store in the invariant shape: a
 * stored value reads back until it expires or one of its tags is
 * invalidated, a stale item is removed by the read that finds it, and reads
 * by tag return exactly the current values among the matching items.
 */
module ReadProperties {
  import opened Wrappers
  import opened CacheItems
  import opened Stores
  import opened Internals
  import opened Operations
  import opened Common
  import opened Invariant

  /** A present item the cast admits and whose snapshot is current. */
  ghost predicate ValidAt<V>(s: Store<V>, k: string, access: Access, now: int) {
    && Get(s, k, now).Some? && Get(s, k, now).value.Item?
    && Admits(access, s[k].content.item.typeTag)
    && SnapshotCurrent(s, s[k].content.item.tags, now)
  }

  /** A present item the cast admits but whose snapshot is out of date. */
  ghost predicate StaleAt<V>(s: Store<V>, k: string, access: Access, now: int) {
    && Get(s, k, now).Some? && Get(s, k, now).value.Item?
    && Admits(access, s[k].content.item.typeTag)
    && !SnapshotCurrent(s, s[k].content.item.tags, now)
  }

  /** Tag versions never expire, so a current snapshot stays current as time passes. */
  lemma SnapshotTimeless<V>(s: Store<V>, cacheName: string, d: TagDict, now: int, later: int)
    requires Inv(s, cacheName)
    requires SnapshotCurrent(s, d, now)
    ensures SnapshotCurrent(s, d, later)
  {
    forall i | 0 <= i < |d|
      ensures Get(s, GetKeyForTag(Some(d[i].0)), later) == Some(TagItem(d[i].1))
    {
      TagKeyRoundTrip(d[i].0);
    }
  }

  /**
   * The shared lookup: a cast failure exactly when something other than an
   * admitted item is stored, the item exactly when it is valid, and a stale
   * item is removed.
   */
  lemma LookupValidSpec<V>(s: Store<V>, cacheName: string, k: string, access: Access, now: int)
    requires Inv(s, cacheName)
    ensures var (s', r) := LookupValid(s, k, access, now);
      && Inv(s', cacheName)
      && (r.Fail? <==> Get(s, k, now).Some? && !(Get(s, k, now).value.Item? && Admits(access, Get(s, k, now).value.item.typeTag)))
      && (r.Fail? ==> r.error == CastFailure)
      && (r.Ok? && r.value.Some? <==> ValidAt(s, k, access, now))
      && (r.Ok? && r.value.Some? ==> r.value.value == s[k].content.item)
      && s' == if StaleAt(s, k, access, now) then s - {k} else s
  {
    var c := Get(s, k, now);
    if c.Some? && c.value.Item? && Admits(access, c.value.item.typeTag) {
      assert !IsTagKey(k);
      InvResolvable(s, cacheName, k, now);
      IsCacheItemValidatedSpec(s, c.value.item, now);
      RemovePreservesInv(s, cacheName, {k});
    }
  }

  /**
   * GetFromCache: the value exactly when the item is valid; otherwise a null
   * key, a failed cast or KeyNotFoundException, and a stale item is removed.
   */
  lemma GetFromCacheSpec<V>(s: Store<V>, cacheName: string, key: Option<string>, access: Access, now: int)
    requires Inv(s, cacheName)
    ensures var (s', r) := GetFromCache(s, key, access, now);
      && Inv(s', cacheName)
      && (key.None? ==> s' == s && r == Fail(ArgNull("key")))
      && (key.Some? ==> (r.Ok? <==> ValidAt(s, key.value, access, now)))
      && (r.Ok? ==> r.value == s[key.value].content.item.value)
      && (key.Some? && r.Fail? ==> r.error == CastFailure || r.error == KeyNotFound(key.value))
      && (key.Some? ==> s' == if StaleAt(s, key.value, access, now) then s - {key.value} else s)
  {
    if key.Some? {
      LookupValidSpec(s, cacheName, key.value, access, now);
    }
  }

  /**
   * GetTagsForItem: the tag names of a present, castable and current item;
   * otherwise ArgumentNullException for a null key, InvalidCastException for a
   * version entry, and KeyNotFoundException for an absent or stale item, which
   * is removed.
   */
  lemma GetTagsForItemSpec<V>(s: Store<V>, cacheName: string, key: Option<string>, now: int)
    requires Inv(s, cacheName)
    ensures var (s', r) := GetTagsForItem(s, key, now);
      && Inv(s', cacheName)
      && (key.None? ==> s' == s && r == Fail(ArgNull("key")))
      && (key.Some? ==> (r.Ok? <==> ValidAt(s, key.value, AsObject, now)))
      && (r.Ok? ==> r.value == Names(s[key.value].content.item.tags))
      && (key.Some? && r.Fail? ==>
            if Get(s, key.value, now).Some? && Get(s, key.value, now).value.TagItem?
            then r.error == CastFailure else r.error == KeyNotFound(key.value))
      && (key.Some? ==> s' == if StaleAt(s, key.value, AsObject, now) then s - {key.value} else s)
  {
    if key.Some? {
      LookupValidSpec(s, cacheName, key.value, AsObject, now);
    }
  }

  /**
   * A stored value reads back, through any cast that admits it, until it
   * expires; a cast that does not admit it fails; GetTagsForItem returns the
   * tags it was stored with, in order.
   */
  lemma SetThenGet<V>(s: Store<V>, cacheName: string, key: string, value: V, expirationTime: int, tags: TagList,
                      typeTag: TypeTag, access: Access, now: int, later: int, default: V)
    requires Inv(s, cacheName) && !IsTagKey(key)
    requires SetToCache(s, cacheName, Some(key), value, expirationTime, tags, typeTag, now).1.Ok?
    requires expirationTime == 0 || later < now + expirationTime
    ensures var s' := SetToCache(s, cacheName, Some(key), value, expirationTime, tags, typeTag, now).0;
      && GetFromCache(s', Some(key), access, later) == (s', if Admits(access, typeTag) then Ok(value) else Fail(CastFailure))
      && TryGetFromCache(s', Some(key), access, default, later)
           == (s', if Admits(access, typeTag) then (true, value) else (false, default))
      && GetTagsForItem(s', Some(key), later).0 == s'
      && GetTagsForItem(s', Some(key), later).1.Ok?
      && Lift(GetTagsForItem(s', Some(key), later).1.value) == tags.GetOr([])
  {
    var s' := SetToCache(s, cacheName, Some(key), value, expirationTime, tags, typeTag, now).0;
    SetToCacheKeepsOthers(s, cacheName, Some(key), value, expirationTime, tags, typeTag, now);
    SetToCacheStores(s, cacheName, Some(key), value, expirationTime, tags, typeTag, now);
    var d := SnapshotOf(s, tags, now);
    SnapshotTimeless(s', cacheName, d, now, later);
    LookupValidSpec(s', cacheName, key, access, later);
    LookupValidSpec(s', cacheName, key, AsObject, later);
    assert Lift(Names(d)) == tags.GetOr([]);
  }

  /** Once its expiration time has passed, an item is not found any more. */
  lemma GetAfterExpiry<V>(s: Store<V>, cacheName: string, key: string, value: V, expirationTime: int, tags: TagList,
                          typeTag: TypeTag, access: Access, now: int, later: int)
    requires Inv(s, cacheName) && !IsTagKey(key)
    requires SetToCache(s, cacheName, Some(key), value, expirationTime, tags, typeTag, now).1.Ok?
    requires expirationTime > 0 && later >= now + expirationTime
    ensures var s' := SetToCache(s, cacheName, Some(key), value, expirationTime, tags, typeTag, now).0;
      GetFromCache(s', Some(key), access, later) == (s', Fail(KeyNotFound(key)))
  {
    SetToCacheStores(s, cacheName, Some(key), value, expirationTime, tags, typeTag, now);
  }

  /** The matched items whose snapshot is current, in the order they were matched. */
  function CurrentItems<V>(s: Store<V>, items: seq<CacheItem<V>>, now: int): seq<CacheItem<V>>
    decreases |items|
  {
    if items == [] then []
    else (if SnapshotCurrent(s, items[0].tags, now) then [items[0]] else []) + CurrentItems(s, items[1..], now)
  }

  /** Each current item is kept as often as it occurs, and no other item is. */
  lemma {:induction false} CurrentItemsSpec<V>(s: Store<V>, items: seq<CacheItem<V>>, now: int)
    ensures forall it :: multiset(CurrentItems(s, items, now))[it] ==
                           if SnapshotCurrent(s, it.tags, now) then multiset(items)[it] else 0
    decreases |items|
  {
    if items != [] {
      CurrentItemsSpec(s, items[1..], now);
      assert items == [items[0]] + items[1..];
    }
  }

  /** The split of GetFromCacheByTags: every item goes to exactly the side its snapshot says. */
  lemma {:induction false} PartitionSpec<V>(s: Store<V>, items: seq<CacheItem<V>>, now: int)
    requires forall i :: 0 <= i < |items| ==> Resolvable(s, items[i].tags, now)
    ensures Partition(s, items, now).Ok?
    ensures var split := Partition(s, items, now).value;
      && |split.0| + |split.1| == |items|
      && split.0 == CurrentItems(s, items, now)
      && (forall it :: it in split.0 <==> it in items && SnapshotCurrent(s, it.tags, now))
      && (forall it :: it in split.1 <==> it in items && !SnapshotCurrent(s, it.tags, now))
    decreases |items|
  {
    if items != [] {
      CheckTagsSpec(s, items[0].tags, now);
      PartitionSpec(s, items[1..], now);
      assert items == [items[0]] + items[1..];
    }
  }

  /** Every item GetCacheItemsByTags returns is stored under its own, non-reserved key. */
  lemma MatchedItemsStored<V>(s: Store<V>, cacheName: string, tags: seq<Option<string>>, order: seq<string>, now: int)
    requires Inv(s, cacheName)
    ensures var items := GetCacheItemsByTags(s, Some(tags), order, now).value;
      forall i :: 0 <= i < |items| ==>
        && items[i].key in s && !IsTagKey(items[i].key)
        && Get(s, items[i].key, now) == Some(Item(items[i]))
        && Resolvable(s, items[i].tags, now)
  {
    var items := GetCacheItemsByTags(s, Some(tags), order, now).value;
    forall i | 0 <= i < |items|
      ensures items[i].key in s && !IsTagKey(items[i].key)
      ensures Get(s, items[i].key, now) == Some(Item(items[i]))
      ensures Resolvable(s, items[i].tags, now)
    {
      var k := MatchKeys(s, tags, order, now)[i];
      assert !IsTagKey(k);
      InvResolvable(s, cacheName, k, now);
    }
  }

  lemma CurrentValues<V>(s: Store<V>, items: seq<CacheItem<V>>, current: seq<CacheItem<V>>, now: int)
    requires forall it :: it in current <==> it in items && SnapshotCurrent(s, it.tags, now)
    ensures forall x :: x in Values(current) <==> exists it :: it in items && SnapshotCurrent(s, it.tags, now) && it.value == x
  {
    forall x ensures x in Values(current) <==> exists it :: it in items && SnapshotCurrent(s, it.tags, now) && it.value == x {
      if x in Values(current) {
        var j :| 0 <= j < |current| && Values(current)[j] == x;
        assert current[j] in items;
      }
      if exists it :: it in items && SnapshotCurrent(s, it.tags, now) && it.value == x {
        var it :| it in items && SnapshotCurrent(s, it.tags, now) && it.value == x;
        var j :| 0 <= j < |current| && current[j] == it;
        assert Values(current)[j] == x;
      }
    }
  }

  lemma StaleKeys<V>(s: Store<V>, items: seq<CacheItem<V>>, stale: seq<CacheItem<V>>, now: int)
    requires forall it :: it in stale <==> it in items && !SnapshotCurrent(s, it.tags, now)
    ensures KeysOf(stale) == set it | it in items && !SnapshotCurrent(s, it.tags, now) :: it.key
  {
    forall k | k in KeysOf(stale) ensures k in set it | it in items && !SnapshotCurrent(s, it.tags, now) :: it.key {
      var j :| 0 <= j < |stale| && stale[j].key == k;
      assert stale[j] in stale;
    }
    forall k | k in set it | it in items && !SnapshotCurrent(s, it.tags, now) :: it.key ensures k in KeysOf(stale) {
      var it :| it in items && !SnapshotCurrent(s, it.tags, now) && it.key == k;
      var j :| 0 <= j < |stale| && stale[j] == it;
    }
  }

  /**
   * The outcome of GetFromCacheByTags: a null list is rejected, a cast that
   * does not admit some matching item fails before anything is removed, and
   * otherwise it succeeds.
   */
  lemma GetFromCacheByTagsOutcome<V>(s: Store<V>, cacheName: string, tags: TagList, access: Access, order: seq<string>, now: int)
    requires Inv(s, cacheName)
    ensures var (s', r) := GetFromCacheByTags(s, tags, access, order, now);
      && Inv(s', cacheName)
      && (tags.None? ==> s' == s && r == Fail(ArgNull("tags")))
      && (tags.Some? ==>
            var items := GetCacheItemsByTags(s, tags, order, now).value;
            && (r.Ok? <==> forall i :: 0 <= i < |items| ==> Admits(access, items[i].typeTag))
            && (r.Fail? ==> r == Fail(CastFailure) && s' == s))
  {
    if tags.Some? {
      var items := GetCacheItemsByTags(s, tags, order, now).value;
      MatchedItemsStored(s, cacheName, tags.value, order, now);
      PartitionSpec(s, items, now);
      var split := Partition(s, items, now).value;
      RemovePreservesInv(s, cacheName, KeysOf(split.1));
    }
  }

  /**
   * GetFromCacheByTags when it succeeds: the values of exactly the matching
   * items whose snapshot is current, and every matching stale item removed.
   */
  lemma GetFromCacheByTagsResult<V>(s: Store<V>, cacheName: string, tags: TagList, access: Access, order: seq<string>, now: int)
    requires Inv(s, cacheName)
    requires GetFromCacheByTags(s, tags, access, order, now).1.Ok?
    ensures tags.Some?
    ensures var (s', r) := GetFromCacheByTags(s, tags, access, order, now);
      var items := GetCacheItemsByTags(s, tags, order, now).value;
      && (forall x :: x in r.value <==> exists it :: it in items && SnapshotCurrent(s, it.tags, now) && it.value == x)
      && r.value == Values(CurrentItems(s, items, now))
      && s' == s - (set it | it in items && !SnapshotCurrent(s, it.tags, now) :: it.key)
  {
    var items := GetCacheItemsByTags(s, tags, order, now).value;
    MatchedItemsStored(s, cacheName, tags.value, order, now);
    PartitionSpec(s, items, now);
    var split := Partition(s, items, now).value;
    CurrentValues(s, items, split.0, now);
    StaleKeys(s, items, split.1, now);
  }

  /**
   * TryGetFromCache never fails: true and the value exactly when the item is
   * valid, false and the default otherwise, a null key included.
   */
  lemma TryGetFromCacheSpec<V>(s: Store<V>, cacheName: string, key: Option<string>, access: Access, default: V, now: int)
    requires Inv(s, cacheName)
    ensures var (s', (found, v)) := TryGetFromCache(s, key, access, default, now);
      && Inv(s', cacheName)
      && (found <==> key.Some? && ValidAt(s, key.value, access, now))
      && v == (if found then s[key.value].content.item.value else default)
      && s' == if key.Some? && StaleAt(s, key.value, access, now) then s - {key.value} else s
  {
    GetFromCacheSpec(s, cacheName, key, access, now);
  }

  /**
   * TryGetFromCacheByTags never fails: false with an empty list for a null
   * list or a failed cast, and true with no values when no live item carries
   * any of the tags.
   */
  lemma TryGetFromCacheByTagsSpec<V>(s: Store<V>, cacheName: string, tags: TagList, access: Access, order: seq<string>, now: int)
    requires Inv(s, cacheName)
    ensures var (s', (found, vs)) := TryGetFromCacheByTags(s, tags, access, order, now);
      && Inv(s', cacheName)
      && (found <==> (tags.Some? &&
            forall i :: 0 <= i < |GetCacheItemsByTags(s, tags, order, now).value| ==>
              Admits(access, GetCacheItemsByTags(s, tags, order, now).value[i].typeTag)))
      && (!found ==> s' == s && vs == [])
      && (tags.Some? && (forall k :: !Matches(s, k, tags.value, now)) ==> s' == s && found && vs == [])
      && (found ==> (s', Ok(vs)) == GetFromCacheByTags(s, tags, access, order, now))
      && (found ==>
            var items := GetCacheItemsByTags(s, tags, order, now).value;
            && vs == Values(CurrentItems(s, items, now))
            && s' == s - (set it | it in items && !SnapshotCurrent(s, it.tags, now) :: it.key))
  {
    GetFromCacheByTagsOutcome(s, cacheName, tags, access, order, now);
    if GetFromCacheByTags(s, tags, access, order, now).1.Ok? {
      GetFromCacheByTagsResult(s, cacheName, tags, access, order, now);
    }
    if tags.Some? && forall k :: !Matches(s, k, tags.value, now) {
      var m := MatchKeys(s, tags.value, order, now);
      MatchKeysSpec(s, tags.value, order, now);
      assert Partition(s, [], now) == Ok(([], []));
    }
  }
}
