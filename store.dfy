/**
 * The underlying System.Runtime.Caching.MemoryCache of one cache name, as a
 * map from key to entry. Each entry holds a TagItem or a CacheItem and the
 * CacheItemPolicy it was stored with: an absolute deadline and the change
 * monitors whose signal removes it.
 */
module Stores {
  import opened Wrappers
  import opened CacheItems
  import opened Monitors

  /** What an entry holds: a TagItem (tag version) or a CacheItem. */
  datatype Content<V> = TagItem(version: Int32) | Item(item: CacheItem<V>)

  /** CacheItemPolicy: `expiresAt` None is InfiniteAbsoluteExpiration. */
  datatype Policy = Policy(expiresAt: Option<int>, monitors: seq<Monitor>)

  datatype Entry<V> = Entry(content: Content<V>, policy: Policy)

  type Store<V> = map<string, Entry<V>>

  /** An entry is visible until its deadline. */
  predicate Unexpired<V>(e: Entry<V>, now: int) {
    e.policy.expiresAt.None? || now < e.policy.expiresAt.value
  }

  /** MemoryCache.Get for a non-null key: an expired entry reads as absent. */
  function Get<V>(s: Store<V>, key: string, now: int): Option<Content<V>> {
    if key in s && Unexpired(s[key], now) then Some(s[key].content) else None
  }

  /** MemoryCache.Contains for a non-null key. */
  predicate Contains<V>(s: Store<V>, key: string, now: int) {
    Get(s, key, now).Some?
  }

  /**
   * A signal (cacheName, name) raised through the subscriber list: every entry
   * holding a reacting monitor is removed, and every other entry stays as it was.
   */
  function Signal<V>(s: Store<V>, cacheName: string, name: Option<string>): (r: Store<V>)
    ensures forall k :: k in r <==> k in s && !AnyReacts(s[k].policy.monitors, cacheName, name)
    ensures forall k :: k in r ==> r[k] == s[k]
  {
    map k | k in s && !AnyReacts(s[k].policy.monitors, cacheName, name) :: s[k]
  }

  /** The keys MemoryCache enumerates: expired entries are skipped. */
  function LiveKeys<V>(s: Store<V>, now: int): set<string> {
    set k | k in s && Unexpired(s[k], now)
  }

  function LiveTagKeys<V>(s: Store<V>, now: int): set<string> {
    set k | k in s && Unexpired(s[k], now) && s[k].content.TagItem?
  }

  function LiveItemKeys<V>(s: Store<V>, now: int): set<string> {
    set k | k in s && Unexpired(s[k], now) && s[k].content.Item?
  }

  /** Every live entry is a tag entry or an item entry, never both. */
  lemma {:induction false} LiveKeysSplit<V>(s: Store<V>, now: int)
    ensures LiveKeys(s, now) == LiveTagKeys(s, now) + LiveItemKeys(s, now)
    ensures LiveTagKeys(s, now) !! LiveItemKeys(s, now)
    ensures |LiveKeys(s, now)| == |LiveTagKeys(s, now)| + |LiveItemKeys(s, now)|
  {
    assert LiveKeys(s, now) == LiveTagKeys(s, now) + LiveItemKeys(s, now);
  }

  /** `order` is the sequence in which the store enumerates its keys. */
  predicate Enumerates<V>(order: seq<string>, s: Store<V>) {
    && (forall k :: k in order ==> k in s)
    && (forall k :: k in s ==> k in order)
    && (forall i, j :: 0 <= i < j < |order| ==> order[i] != order[j])
  }

  /**
   * The cast `(CacheItem)` or `(CacheItem<T>)` of what Get returned: null stays
   * null, a matching item passes, anything else is an InvalidCastException.
   */
  function CastContent<V>(c: Option<Content<V>>, a: Access): (r: Result<Option<CacheItem<V>>>)
    ensures r.Ok? <==> c.None? || (c.value.Item? && Admits(a, c.value.item.typeTag))
    ensures r.Fail? ==> r.error == CastFailure
    ensures r.Ok? && c.Some? ==> r.value == Some(c.value.item)
    ensures c.None? ==> r == Ok(None)
  {
    match c
    case None => Ok(None)
    case Some(TagItem(_)) => Fail(CastFailure)
    case Some(Item(item)) => if Admits(a, item.typeTag) then Ok(Some(item)) else Fail(CastFailure)
  }

  /** An untyped getter accepts whatever a typed getter accepts. */
  lemma TypedCastImpliesUntyped<V>(c: Option<Content<V>>, t: string)
    ensures CastContent(c, AsType(t)).Ok? ==> CastContent(c, AsObject) == CastContent(c, AsType(t))
  {
  }
}
