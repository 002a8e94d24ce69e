/**
 * The counting, deleting and existence operations of MemoryCacheService
 * (its Common part), as functions from the store before the call to the
 * store after it and the outcome.
 */
module Common {
  import opened Wrappers
  import opened CacheItems
  import opened Monitors
  import opened Stores
  import opened Internals
  import opened Operations

  /** GetCount: every live entry, tag entries included. */
  function GetCount<V>(s: Store<V>, now: int): nat {
    |LiveKeys(s, now)|
  }

  /** GetTagsCount: the live entries holding a tag version. */
  function GetTagsCount<V>(s: Store<V>, now: int): nat {
    |LiveTagKeys(s, now)|
  }

  /** GetTagsForItem: the tag names of a present and valid item, in insertion order. */
  function GetTagsForItem<V>(s: Store<V>, key: Option<string>, now: int): (Store<V>, Result<seq<string>>) {
    if key.None? then (s, Fail(ArgNull("key")))
    else
      var found := LookupValid(s, key.value, AsObject, now);
      if found.1.Fail? then (found.0, Fail(found.1.error))
      else if found.1.value.None? then (found.0, Fail(KeyNotFound(key.value)))
      else (found.0, Ok(Names(found.1.value.value.tags)))
  }

  /** DeleteFromCache: remove the entry; true iff something was there. */
  function DeleteFromCache<V>(s: Store<V>, key: Option<string>, now: int): (Store<V>, Result<bool>) {
    if key.None? then (s, Fail(ArgNull("key")))
    else (s - {key.value}, Ok(Contains(s, key.value, now)))
  }

  const MinInt32: Int32 := -0x8000_0000
  const MaxInt32: Int32 := 0x7fff_ffff

  /** `currentTagVersion + 1` in unchecked C# int arithmetic. */
  function Bump(v: Int32): (r: Int32)
    ensures r != v
    ensures v < MaxInt32 ==> r == v + 1
    ensures v == MaxInt32 ==> r == MinInt32
  {
    if v == MaxInt32 then MinInt32 else v + 1
  }

  /**
   * DeleteFromCacheByTag: if the tag has a version entry, store the next version
   * (never expiring, with no monitor) and signal the tag; true iff it had one.
   */
  function DeleteFromCacheByTag<V>(s: Store<V>, cacheName: string, tag: Option<string>, now: int): (Store<V>, Result<bool>) {
    if tag.None? then (s, Fail(ArgNull("tag")))
    else
      var tk := GetKeyForTag(tag);
      var found := Get(s, tk, now);
      if found.None? then (s, Ok(false))
      else if found.value.Item? then (s, Fail(CastFailure))
      else
        var bumped := s[tk := Entry(TagItem(Bump(found.value.version)), Policy(None, []))];
        (Signal(bumped, cacheName, tag), Ok(true))
  }

  /** The loop of DeleteFromCacheByTags, from the first remaining tag on. */
  function DeleteTags<V>(s: Store<V>, cacheName: string, tags: seq<Option<string>>, deleted: bool, now: int)
    : (Store<V>, Result<bool>)
    decreases |tags|
  {
    if tags == [] then (s, Ok(deleted))
    else
      var step := DeleteFromCacheByTag(s, cacheName, tags[0], now);
      if step.1.Fail? then step else DeleteTags(step.0, cacheName, tags[1..], deleted || step.1.value, now)
  }

  /** DeleteFromCacheByTags: true iff some tag of the list had a version entry. */
  function DeleteFromCacheByTags<V>(s: Store<V>, cacheName: string, tags: TagList, now: int): (Store<V>, Result<bool>) {
    if tags.None? then (s, Fail(ArgNull("tags")))
    else DeleteTags(s, cacheName, tags.value, false, now)
  }

  /** ClearCache: the cache-wide signal of this cache. */
  function ClearCache<V>(s: Store<V>, cacheName: string): Store<V> {
    Signal(s, cacheName, None)
  }

  /** Exists: the untyped TryGetFromCache succeeds and the key is still present. */
  function Exists<V>(s: Store<V>, key: Option<string>, now: int): (Store<V>, bool) {
    var got := GetFromCache(s, key, AsObject, now);
    (got.0, got.1.Ok? && Contains(got.0, key.value, now))
  }

  /** The loop of ExistsByTag: Exists on every matched key, in order, without stopping early. */
  function ExistsEach<V>(s: Store<V>, items: seq<CacheItem<V>>, found: bool, now: int): (Store<V>, bool)
    decreases |items|
  {
    if items == [] then (s, found)
    else
      var step := Exists(s, Some(items[0].key), now);
      ExistsEach(step.0, items[1..], found || step.1, now)
  }

  /** ExistsByTag: some live item carrying the tag exists and is valid; a null tag matches nothing. */
  function ExistsByTag<V>(s: Store<V>, tag: Option<string>, order: seq<string>, now: int): (Store<V>, bool) {
    var items := GetCacheItemsByTags(s, Some(if tag.None? then [] else [tag]), order, now).value;
    if |items| == 0 then (s, false) else ExistsEach(s, items, false, now)
  }
}
