/**
 * MemoryCacheService as an object: the store of its MemoryCache is a field
 * that the methods update in place, step by step as the C# code does. Each
 * method is proved to leave the store and return the outcome that the
 * corresponding function of Operations or Common describes, so the lemmas
 * proved about those functions hold for the methods.
 */
module Service {
  import opened Wrappers
  import opened Text
  import opened CacheItems
  import opened Stores
  import opened Internals
  import opened Operations
  import opened Common
  import opened Invariant
  import DeleteProperties
  import UpdateProperties
  import ReadProperties

  /**
   * The name of the MemoryCache the service wraps: MemoryCache.Default for a
   * null or empty name, otherwise a new MemoryCache, whose constructor throws
   * ArgumentException("name") for the name reserved by the default instance,
   * in any letter case. So only the default instance ever carries that name.
   */
  function CacheNameFor(name: Option<string>): (r: Result<string>)
    ensures IsNullOrEmpty(name) ==> r == Ok("Default")
    ensures !IsNullOrEmpty(name) ==> (r.Fail? <==> EqualsIgnoreCase(name, Some("default")))
    ensures r.Fail? ==> r.error == ArgInvalid("name")
    ensures r.Ok? && !IsNullOrEmpty(name) ==> r.value == name.value
    ensures r.Ok? ==> (EqualsIgnoreCase(Some(r.value), Some("default")) <==> IsNullOrEmpty(name))
  {
    if IsNullOrEmpty(name) then
      assert Upper("Default") == Upper("default");
      Ok("Default")
    else if EqualsIgnoreCase(name, Some("default")) then Fail(ArgInvalid("name"))
    else Ok(name.value)
  }

  /**
   * `new MemoryCacheService(cacheName, defaultExpirationTime)`: the reserved
   * name fails, and otherwise the service starts with an empty, valid cache.
   */
  method Create<V>(name: Option<string>, defaultExpirationTime: int) returns (r: Result<MemoryCacheService<V>>)
    ensures r.Fail? <==> CacheNameFor(name).Fail?
    ensures r.Fail? ==> r.error == ArgInvalid("name")
    ensures r.Ok? ==> && fresh(r.value)
                      && r.value.cacheName == CacheNameFor(name).value
                      && r.value.defaultExpirationTime == defaultExpirationTime
                      && r.value.store == map[]
                      && r.value.Valid()
  {
    var resolved := CacheNameFor(name);
    if resolved.Fail? {
      return Fail(resolved.error);
    }
    var service := new MemoryCacheService(name, defaultExpirationTime);
    return Ok(service);
  }

  class MemoryCacheService<V> {
    /** The name of the underlying MemoryCache, used to address signals. */
    const cacheName: string
    /** Seconds used by the setters that take no expiration time. */
    var defaultExpirationTime: int
    /** The entries of the underlying MemoryCache. */
    var store: Store<V>

    ghost predicate Valid()
      reads this
    {
      Inv(store, cacheName)
    }

    /**
     * A null or empty name selects MemoryCache.Default, whose name is "Default";
     * the reserved name itself is the failure Create reports.
     */
    constructor(name: Option<string>, defaultExpirationTime: int)
      requires CacheNameFor(name).Ok?
      ensures cacheName == CacheNameFor(name).value
      ensures cacheName == if IsNullOrEmpty(name) then "Default" else name.value
      ensures this.defaultExpirationTime == defaultExpirationTime
      ensures store == map[]
      ensures Valid()
    {
      cacheName := CacheNameFor(name).value;
      this.defaultExpirationTime := defaultExpirationTime;
      store := map[];
    }

    function GetCount(now: int): nat
      reads this
    {
      Common.GetCount(store, now)
    }

    function GetTagsCount(now: int): nat
      reads this
    {
      Common.GetTagsCount(store, now)
    }

    /**
     * SetToCache and SetToCache<T> (typeTag Untyped or Typed(T)): the tag loop
     * creates or reads each version entry and fills the dictionary, then the
     * item is built and stored.
     */
    method SetToCache(key: Option<string>, value: V, expirationTime: int, tags: TagList, typeTag: TypeTag, now: int)
      returns (r: Result<bool>)
      modifies this`store
      ensures (store, r) == Operations.SetToCache(old(store), cacheName, key, value, expirationTime, tags, typeTag, now)
      ensures old(Valid()) && (key.Some? ==> !IsTagKey(key.value)) ==> Valid()
    {
      if Inv(store, cacheName) && (key.Some? ==> !IsTagKey(key.value)) {
        SetToCacheInv(store, cacheName, key, value, expirationTime, tags, typeTag, now);
      }
      if expirationTime < 0 {
        return Fail(ArgInvalid("expirationTime"));
      }
      var dict: Option<TagDict> := None;
      if tags.Some? && |tags.value| > 0 {
        var ts := tags.value;
        var d: TagDict := [];
        var i := 0;
        while i < |ts|
          invariant 0 <= i <= |ts|
          invariant ResolveTags(old(store), cacheName, ts, [], now) == ResolveTags(store, cacheName, ts[i..], d, now)
        {
          assert ts[i..][1..] == ts[i + 1..];
          var tag := ts[i];
          var tk := GetKeyForTag(tag);
          var version: Int32 := 1;
          var found := Get(store, tk, now);
          if found.None? {
            store := store[tk := NewTagEntry(cacheName)];
          } else if found.value.Item? {
            return Fail(CastFailure);
          } else {
            version := found.value.version;
          }
          if tag.None? {
            return Fail(ArgNull("key"));
          }
          if tag.value in Names(d) {
            return Fail(DuplicateTag(tag.value));
          }
          d := d + [(tag.value, version)];
          i := i + 1;
        }
        dict := Some(d);
      }
      var built := NewCacheItem(key.GetOr(""), value, dict, typeTag);
      if built.Fail? {
        return Fail(built.error);
      }
      if key.None? {
        return Fail(ArgNull("key"));
      }
      store := store[key.value := Entry(Item(built.value), GetPolicy(expirationTime, tags, cacheName, now))];
      return Ok(true);
    }

    /** The setters without an expiration time use the default one. */
    method SetToCacheWithDefaultExpiration(key: Option<string>, value: V, tags: TagList, typeTag: TypeTag, now: int)
      returns (r: Result<bool>)
      modifies this`store
      ensures (store, r) == Operations.SetToCache(old(store), cacheName, key, value, defaultExpirationTime, tags, typeTag, now)
      ensures old(Valid()) && (key.Some? ==> !IsTagKey(key.value)) ==> Valid()
    {
      r := SetToCache(key, value, defaultExpirationTime, tags, typeTag, now);
    }

    /** IsCacheItemValidated: a stale item is removed and reported false. */
    method IsCacheItemValidated(item: CacheItem<V>, now: int) returns (r: Result<bool>)
      modifies this`store
      ensures (store, r) == Internals.IsCacheItemValidated(old(store), item, now)
      ensures old(Valid()) && !IsTagKey(item.key) ==> Valid()
    {
      if Inv(store, cacheName) && !IsTagKey(item.key) {
        RemovePreservesInv(store, cacheName, {item.key});
      }
      r := CheckTags(store, item.tags, now);
      if r == Ok(false) {
        store := store - {item.key};
      }
    }

    /** The get-cast-validate sequence that GetFromCache, GetTagsForItem and UpdateInCache share. */
    method LookupValid(key: string, access: Access, now: int) returns (r: Result<Option<CacheItem<V>>>)
      modifies this`store
      ensures (store, r) == Operations.LookupValid(old(store), key, access, now)
      ensures old(Valid()) ==> Valid()
    {
      if Inv(store, cacheName) {
        ReadProperties.LookupValidSpec(store, cacheName, key, access, now);
      }
      var cast := CastContent(Get(store, key, now), access);
      if cast.Fail? {
        return Fail(cast.error);
      }
      if cast.value.None? {
        return Ok(None);
      }
      var validated := IsCacheItemValidated(cast.value.value, now);
      if validated.Fail? {
        return Fail(validated.error);
      }
      return if validated.value then cast else Ok(None);
    }

    /** GetFromCache and GetFromCache<T> (access AsObject or AsType(T)). */
    method GetFromCache(key: Option<string>, access: Access, now: int) returns (r: Result<V>)
      modifies this`store
      ensures (store, r) == Operations.GetFromCache(old(store), key, access, now)
      ensures old(Valid()) ==> Valid()
    {
      if key.None? {
        return Fail(ArgNull("key"));
      }
      var found := LookupValid(key.value, access, now);
      if found.Fail? {
        return Fail(found.error);
      }
      if found.value.None? {
        return Fail(KeyNotFound(key.value));
      }
      return Ok(found.value.value.value);
    }

    /**
     * GetFromCacheByTags and GetFromCacheByTags<T>, in the store's enumeration
     * order `order`: filter, then remove every stale item in a loop.
     */
    method GetFromCacheByTags(tags: TagList, access: Access, order: seq<string>, now: int) returns (r: Result<seq<V>>)
      modifies this`store
      ensures (store, r) == Operations.GetFromCacheByTags(old(store), tags, access, order, now)
      ensures old(Valid()) ==> Valid()
    {
      if Inv(store, cacheName) {
        ReadProperties.GetFromCacheByTagsOutcome(store, cacheName, tags, access, order, now);
      }
      if tags.None? {
        return Fail(ArgNull("tags"));
      }
      var items := GetCacheItemsByTags(store, tags, order, now).value;
      if exists i :: 0 <= i < |items| && !Admits(access, items[i].typeTag) {
        return Fail(CastFailure);
      }
      var split := Partition(store, items, now);
      if split.Fail? {
        return Fail(split.error);
      }
      var stale := split.value.1;
      var i := 0;
      while i < |stale|
        invariant 0 <= i <= |stale|
        invariant store == old(store) - KeysOf(stale[..i])
      {
        assert KeysOf(stale[..i + 1]) == KeysOf(stale[..i]) + {stale[i].key} by {
          assert forall j :: 0 <= j < i ==> stale[..i + 1][j] == stale[..i][j];
        }
        store := store - {stale[i].key};
        i := i + 1;
      }
      assert stale[..i] == stale;
      return Ok(Values(split.value.0));
    }

    /** GetFromCacheByTag: the single-tag list, or null. */
    method GetFromCacheByTag(tag: Option<string>, access: Access, order: seq<string>, now: int) returns (r: Result<seq<V>>)
      modifies this`store
      ensures (store, r) == Operations.GetFromCacheByTags(old(store), SingleTag(tag), access, order, now)
      ensures old(Valid()) ==> Valid()
    {
      r := GetFromCacheByTags(SingleTag(tag), access, order, now);
    }

    /** TryGetFromCache and TryGetFromCache<T>: never fails; `default` is null or default(T). */
    method TryGetFromCache(key: Option<string>, access: Access, default: V, now: int) returns (found: bool, result: V)
      modifies this`store
      ensures (store, (found, result)) == Operations.TryGetFromCache(old(store), key, access, default, now)
      ensures old(Valid()) ==> Valid()
    {
      var r := GetFromCache(key, access, now);
      if r.Ok? {
        return true, r.value;
      }
      return false, default;
    }

    /** TryGetFromCacheByTags and TryGetFromCacheByTag (with SingleTag): never fails. */
    method TryGetFromCacheByTags(tags: TagList, access: Access, order: seq<string>, now: int) returns (found: bool, result: seq<V>)
      modifies this`store
      ensures (store, (found, result)) == Operations.TryGetFromCacheByTags(old(store), tags, access, order, now)
      ensures old(Valid()) ==> Valid()
    {
      var r := GetFromCacheByTags(tags, access, order, now);
      if r.Ok? {
        return true, r.value;
      }
      return false, [];
    }

    /** GetTagsForItem: the tag names of a present and valid item. */
    method GetTagsForItem(key: Option<string>, now: int) returns (r: Result<seq<string>>)
      modifies this`store
      ensures (store, r) == Common.GetTagsForItem(old(store), key, now)
      ensures old(Valid()) ==> Valid()
    {
      if key.None? {
        return Fail(ArgNull("key"));
      }
      var found := LookupValid(key.value, AsObject, now);
      if found.Fail? {
        return Fail(found.error);
      }
      if found.value.None? {
        return Fail(KeyNotFound(key.value));
      }
      return Ok(Names(found.value.value.tags));
    }

    /**
     * UpdateInCache and UpdateInCache<T>: the new tag list is the valid item's
     * tags (read back through GetTagsForItem) followed by the additional ones.
     */
    method UpdateInCache(key: Option<string>, value: V, expirationTime: int, tags: TagList, access: Access, now: int)
      returns (r: Result<bool>)
      modifies this`store
      ensures (store, r) == Operations.UpdateInCache(old(store), cacheName, key, value, expirationTime, tags, access, now)
      ensures old(Valid()) && (key.Some? ==> !IsTagKey(key.value)) ==> Valid()
    {
      if key.None? {
        return Fail(ArgNull("key"));
      }
      var found := LookupValid(key.value, access, now);
      if found.Fail? {
        return Fail(found.error);
      }
      ghost var s1 := store;
      var newTags: seq<Option<string>> := [];
      if found.value.Some? {
        UpdateProperties.TagsOfValidItem(old(store), key.value, access, now);
        var oldTags := GetTagsForItem(key, now);
        assert store == s1 && oldTags == Ok(Names(found.value.value.tags));
        newTags := newTags + Lift(oldTags.value);
      }
      if tags.Some? {
        newTags := newTags + tags.value;
      }
      assert newTags == Lift(if found.value.Some? then Names(found.value.value.tags) else []) + tags.GetOr([]);
      r := SetToCache(key, value, expirationTime, Some(newTags), StoredAs(access), now);
    }

    /** DeleteFromCache: true iff something was removed. */
    method DeleteFromCache(key: Option<string>, now: int) returns (r: Result<bool>)
      modifies this`store
      ensures (store, r) == Common.DeleteFromCache(old(store), key, now)
      ensures old(Valid()) && (key.Some? ==> !IsTagKey(key.value)) ==> Valid()
    {
      if Inv(store, cacheName) && (key.Some? ==> !IsTagKey(key.value)) {
        DeleteProperties.DeleteFromCacheSpec(store, cacheName, key, now);
      }
      if key.None? {
        return Fail(ArgNull("key"));
      }
      r := Ok(Contains(store, key.value, now));
      store := store - {key.value};
    }

    /** DeleteFromCacheByTag: store the next version, then raise the tag's signal. */
    method DeleteFromCacheByTag(tag: Option<string>, now: int) returns (r: Result<bool>)
      modifies this`store
      ensures (store, r) == Common.DeleteFromCacheByTag(old(store), cacheName, tag, now)
      ensures old(Valid()) ==> Valid()
    {
      ghost var s0 := store;
      if tag.None? {
        return Fail(ArgNull("tag"));
      }
      var tk := GetKeyForTag(tag);
      var found := Get(store, tk, now);
      if found.None? {
        return Ok(false);
      }
      if found.value.Item? {
        return Fail(CastFailure);
      }
      store := store[tk := Entry(TagItem(Bump(found.value.version)), Policy(None, []))];
      store := Signal(store, cacheName, tag);
      r := Ok(true);
      if Inv(s0, cacheName) {
        DeleteProperties.DeleteFromCacheByTagSpec(s0, cacheName, tag, now);
      }
    }

    /** DeleteFromCacheByTags: every tag in turn, or-ing the answers. */
    method DeleteFromCacheByTags(tags: TagList, now: int) returns (r: Result<bool>)
      modifies this`store
      ensures (store, r) == Common.DeleteFromCacheByTags(old(store), cacheName, tags, now)
      ensures old(Valid()) ==> Valid()
    {
      if tags.None? {
        return Fail(ArgNull("tags"));
      }
      var ts := tags.value;
      var deleted := false;
      var i := 0;
      while i < |ts|
        invariant 0 <= i <= |ts|
        invariant DeleteTags(old(store), cacheName, ts, false, now) == DeleteTags(store, cacheName, ts[i..], deleted, now)
        invariant old(Valid()) ==> Valid()
      {
        assert ts[i..][1..] == ts[i + 1..];
        var one := DeleteFromCacheByTag(ts[i], now);
        if one.Fail? {
          return one;
        }
        if one.value {
          deleted := true;
        }
        i := i + 1;
      }
      return Ok(deleted);
    }

    /** ClearCache: the cache-wide signal. */
    method ClearCache()
      modifies this`store
      ensures store == Common.ClearCache(old(store), cacheName)
      ensures old(Valid()) ==> Valid()
    {
      ghost var s0 := store;
      store := Signal(store, cacheName, None);
      if Inv(s0, cacheName) {
        SignalPreservesInv(s0, cacheName, None);
      }
    }

    /** Exists: TryGetFromCache succeeds and the key is still there. */
    method Exists(key: Option<string>, now: int) returns (b: bool)
      modifies this`store
      ensures (store, b) == Common.Exists(old(store), key, now)
      ensures old(Valid()) ==> Valid()
    {
      var r := GetFromCache(key, AsObject, now);
      b := r.Ok? && Contains(store, key.value, now);
    }

    /** ExistsByTag: Exists on every matching item, without stopping at the first hit. */
    method ExistsByTag(tag: Option<string>, order: seq<string>, now: int) returns (b: bool)
      modifies this`store
      ensures (store, b) == Common.ExistsByTag(old(store), tag, order, now)
      ensures old(Valid()) ==> Valid()
    {
      var items := GetCacheItemsByTags(store, Some(if tag.None? then [] else [tag]), order, now).value;
      if |items| == 0 {
        return false;
      }
      b := false;
      var i := 0;
      while i < |items|
        invariant 0 <= i <= |items|
        invariant ExistsEach(old(store), items, false, now) == ExistsEach(store, items[i..], b, now)
        invariant old(Valid()) ==> Valid()
      {
        assert items[i..][1..] == items[i + 1..];
        var e := Exists(Some(items[i].key), now);
        if e {
          b := true;
        }
        i := i + 1;
      }
    }
  }
}
