/**
 * The read and write operations of MemoryCacheService and of its generic
 * counterparts, as functions from the store before the call to the store
 * after it and the outcome. Untyped and typed variants differ only in the
 * item class they store (TypeTag) and the cast they apply (Access).
 */
module Operations {
  import opened Wrappers
  import opened CacheItems
  import opened Monitors
  import opened Stores
  import opened Internals

  /** An IList<string> argument: null, or a list whose elements may be null. */
  type TagList = Option<seq<Option<string>>>

  /** The list `new List<string> { tag }` built by the single-tag overloads, or null. */
  function SingleTag(tag: Option<string>): TagList {
    if tag.None? then None else Some([tag])
  }

  function Lift(names: seq<string>): (r: seq<Option<string>>)
    ensures |r| == |names|
    ensures forall i :: 0 <= i < |names| ==> r[i] == Some(names[i])
  {
    seq(|names|, i requires 0 <= i < |names| => Some(names[i]))
  }

  /** The tag entry SetToCache creates: version 1, never expires, one cache-wide monitor. */
  function NewTagEntry<V>(cacheName: string): Entry<V> {
    Entry(TagItem(1), Policy(None, [Monitor(cacheName, None)]))
  }

  /**
   * One pass of the tag loop of SetToCache: create the version entry at 1 if it
   * is missing, or read its version, then add the pair to the dictionary.
   */
  function ResolveTag<V>(s: Store<V>, cacheName: string, tag: Option<string>, acc: TagDict, now: int)
    : (Store<V>, Result<TagDict>)
  {
    var tk := GetKeyForTag(tag);
    var found := Get(s, tk, now);
    if found.Some? && found.value.Item? then (s, Fail(CastFailure))
    else
      var s1 := if found.None? then s[tk := NewTagEntry(cacheName)] else s;
      var version: Int32 := if found.None? then 1 else found.value.version;
      if tag.None? then (s1, Fail(ArgNull("key")))
      else if tag.value in Names(acc) then (s1, Fail(DuplicateTag(tag.value)))
      else (s1, Ok(acc + [(tag.value, version)]))
  }

  /** The whole tag loop; an exception leaves the entries created so far in place. */
  function ResolveTags<V>(s: Store<V>, cacheName: string, tags: seq<Option<string>>, acc: TagDict, now: int)
    : (Store<V>, Result<TagDict>)
    decreases |tags|
  {
    if tags == [] then (s, Ok(acc))
    else
      var step := ResolveTag(s, cacheName, tags[0], acc, now);
      if step.1.Fail? then step else ResolveTags(step.0, cacheName, tags[1..], step.1.value, now)
  }

  /**
   * SetToCache(key, value, expirationTime, tags) and SetToCache<T>: the item is
   * built (its constructor checks the tag names) before `_cache.Set` rejects a
   * null key; the item built for a null key is never stored, so "" stands in.
   */
  function SetToCache<V>(s: Store<V>, cacheName: string, key: Option<string>, value: V, expirationTime: int,
                         tags: TagList, typeTag: TypeTag, now: int): (Store<V>, Result<bool>)
  {
    if expirationTime < 0 then (s, Fail(ArgInvalid("expirationTime")))
    else
      var resolved := if tags.Some? && |tags.value| > 0 then ResolveTags(s, cacheName, tags.value, [], now) else (s, Ok([]));
      var s1 := resolved.0;
      if resolved.1.Fail? then (s1, Fail(resolved.1.error))
      else
        var dict := if tags.Some? && |tags.value| > 0 then Some(resolved.1.value) else None;
        var built := MakeCacheItem(key.GetOr(""), value, dict, typeTag);
        if built.Fail? then (s1, Fail(built.error))
        else if key.None? then (s1, Fail(ArgNull("key")))
        else (s1[key.value := Entry(Item(built.value), GetPolicy(expirationTime, tags, cacheName, now))], Ok(true))
  }

  /**
   * Get, cast and validate the item under a non-null key, as GetFromCache,
   * GetTagsForItem and UpdateInCache do: Ok(None) when it is absent or stale
   * (a stale item is removed), Ok(Some(item)) when it is valid.
   */
  function LookupValid<V>(s: Store<V>, key: string, access: Access, now: int): (Store<V>, Result<Option<CacheItem<V>>>) {
    var cast := CastContent(Get(s, key, now), access);
    if cast.Fail? then (s, Fail(cast.error))
    else if cast.value.None? then (s, Ok(None))
    else
      var validated := IsCacheItemValidated(s, cast.value.value, now);
      if validated.1.Fail? then (validated.0, Fail(validated.1.error))
      else if validated.1.value then (validated.0, Ok(cast.value))
      else (validated.0, Ok(None))
  }

  /** GetFromCache(key) and GetFromCache<T>(key). */
  function GetFromCache<V>(s: Store<V>, key: Option<string>, access: Access, now: int): (Store<V>, Result<V>) {
    if key.None? then (s, Fail(ArgNull("key")))
    else
      var found := LookupValid(s, key.value, access, now);
      if found.1.Fail? then (found.0, Fail(found.1.error))
      else if found.1.value.None? then (found.0, Fail(KeyNotFound(key.value)))
      else (found.0, Ok(found.1.value.value.value))
  }

  /** The Where/Except split of GetFromCacheByTags: current items and stale items, in order. */
  function Partition<V>(s: Store<V>, items: seq<CacheItem<V>>, now: int): Result<(seq<CacheItem<V>>, seq<CacheItem<V>>)> {
    if items == [] then Ok(([], []))
    else
      var current :- CheckTags(s, items[0].tags, now);
      var rest :- Partition(s, items[1..], now);
      if current then Ok(([items[0]] + rest.0, rest.1)) else Ok((rest.0, [items[0]] + rest.1))
  }

  function KeysOf<V>(items: seq<CacheItem<V>>): set<string> {
    set i | 0 <= i < |items| :: items[i].key
  }

  function Values<V>(items: seq<CacheItem<V>>): (r: seq<V>)
    ensures |r| == |items|
    ensures forall i :: 0 <= i < |items| ==> r[i] == items[i].value
  {
    seq(|items|, i requires 0 <= i < |items| => items[i].value)
  }

  /**
   * GetFromCacheByTags and GetFromCacheByTags<T>: the typed variant casts every
   * matched item while materialising the list, before any validation.
   */
  function GetFromCacheByTags<V>(s: Store<V>, tags: TagList, access: Access, order: seq<string>, now: int)
    : (Store<V>, Result<seq<V>>)
  {
    if tags.None? then (s, Fail(ArgNull("tags")))
    else
      var items := GetCacheItemsByTags(s, tags, order, now).value;
      if exists i :: 0 <= i < |items| && !Admits(access, items[i].typeTag) then (s, Fail(CastFailure))
      else
        var split := Partition(s, items, now);
        if split.Fail? then (s, Fail(split.error))
        else (s - KeysOf(split.value.1), Ok(Values(split.value.0)))
  }

  /** TryGetFromCache and TryGetFromCache<T>: any exception becomes (false, null or default(T)). */
  function TryGetFromCache<V>(s: Store<V>, key: Option<string>, access: Access, default: V, now: int): (Store<V>, (bool, V)) {
    var got := GetFromCache(s, key, access, now);
    if got.1.Ok? then (got.0, (true, got.1.value)) else (got.0, (false, default))
  }

  /** TryGetFromCacheByTags and TryGetFromCacheByTags<T>: any exception becomes (false, empty list). */
  function TryGetFromCacheByTags<V>(s: Store<V>, tags: TagList, access: Access, order: seq<string>, now: int)
    : (Store<V>, (bool, seq<V>))
  {
    var got := GetFromCacheByTags(s, tags, access, order, now);
    if got.1.Ok? then (got.0, (true, got.1.value)) else (got.0, (false, []))
  }

  /**
   * UpdateInCache and UpdateInCache<T>: the tags of the current item (if it is
   * present and valid) followed by the additional tags, then a plain set.
   */
  function UpdateInCache<V>(s: Store<V>, cacheName: string, key: Option<string>, value: V, expirationTime: int,
                            tags: TagList, access: Access, now: int): (Store<V>, Result<bool>)
  {
    if key.None? then (s, Fail(ArgNull("key")))
    else
      var found := LookupValid(s, key.value, access, now);
      if found.1.Fail? then (found.0, Fail(found.1.error))
      else
        var oldTags := if found.1.value.Some? then Names(found.1.value.value.tags) else [];
        var extra := if tags.Some? then tags.value else [];
        SetToCache(found.0, cacheName, key, value, expirationTime, Some(Lift(oldTags) + extra), StoredAs(access), now)
  }
}
