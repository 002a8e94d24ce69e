# MemoryCacheService: tag-versioned invalidation, in Dafny

This project models the in-memory cache service of NewPlatform.Flexberry.Caching and proves properties of it. The service wraps a .NET `MemoryCache`:

- Every stored value is wrapped in a `CacheItem`. The item carries its key, its value and a snapshot of the tags it was stored with: a dictionary from tag name to the tag's version at the time of storing.
- A tag's current version lives in the same cache, as a `TagItem` under the reserved key `"_tags/" + name`. The first time a tag is used it is created at version 1, and it never expires.
- A read validates the item. Every tag in the snapshot must still have the version recorded there. A stale item is removed and reported as missing.
- `DeleteFromCacheByTag` does two things:
  - it increments the tag's version, with C# `int` wrap-around, which invalidates every snapshot holding the old version;
  - it raises a signal. Every entry whose change monitor reacts is evicted at once.
- Change monitors are matched by cache name and tag name, both compared ignoring case (ordinal comparison; the model folds ASCII letters only). A blank tag name, null or made only of white space, is a cache-wide signal. `ClearCache` raises the cache-wide signal.

## Layout

- **Layer 1: the store.** `Stores` holds the `MemoryCache` entries as a `map<string, Entry<V>>`. An entry pairs:
  - a content: a tag version or a `CacheItem`;
  - a policy: an optional absolute expiration and a list of monitors.
- **Time is a parameter.** Every operation takes `now`. `Get` treats an entry whose deadline has passed as absent, as `MemoryCache.Get` does.
- **Layer 2: one spec function per operation** (`Operations`, `Common`, `Internals`). Each takes the store and returns the new store with a `Result`. An exception the source lets escape becomes a `Fail` naming its .NET type (`Wrappers.Error`). A C# `null` is `Option.None`.
- **Layer 3: the class.** `Service.MemoryCacheService` mirrors the C# class:
  - fields: `cacheName`, `defaultExpirationTime` and `store`;
  - methods: they update `store` in place, with the source's loops (the tag loop of `SetToCache`, the removal loop of `GetFromCacheByTags`, the loops of `DeleteFromCacheByTags` and `ExistsByTag`);
  - contracts: every method is proved equal to its spec function.
- **Properties.** They are proved about the spec functions, under the store invariant `Invariant.Inv`:
  - every tag key holds a version entry that never expires and whose monitors, if it has any, are all the cache-wide monitor of the cache;
  - every other key holds a `CacheItem` with:
    - its own key;
    - distinct, non-empty tag names;
    - a version entry for every tag;
    - exactly the monitors `GetPolicy` gives it.

  The property lemmas are grouped by operation in `ReadProperties`, `UpdateProperties`, `DeleteProperties` and `ExistsProperties`.
- **Casts.** Typed and untyped access is one code path with an `Access` parameter:
  - `AsObject` is the non-generic overloads, cast to `CacheItem`;
  - `AsType(T)` is the generic overloads, cast to `CacheItem<T>`.

  Every item records the class it was built as (`TypeTag`), so a generic getter fails with `InvalidCastException` exactly when the source's cast would.
- **Enumeration order.** The order in which `MemoryCache` enumerates its keys is a parameter `order`, constrained by `Stores.Enumerates`.
- **Monitors.** `Monitors` models the subscriber list of the static `Signaled` event, and the matching test of `OnSignalRaised`.
- **Reserved keys.** `ReservedKeys` shows why user keys must not start with `"_tags/"`.

## Model

| member | source | states |
|---|---|---|
| Wrappers.NotFoundMessage | NewPlatform.Flexberry.Caching/MemoryCacheService/MemoryCacheService.cs:116 | the KeyNotFoundException message embeds the key after `Key "` and has the fixed text around it |
| Text.UpperAt | NewPlatform.Flexberry.Caching/MemoryCacheService/SignaledChangeMonitor.cs:92-94 | ordinal upper-casing keeps the length and works character by character |
| Text.EqualsIgnoreCaseCharwise | NewPlatform.Flexberry.Caching/MemoryCacheService/SignaledChangeMonitor.cs:92-94 | two names match ignoring case iff they have equal length and agree at every position after folding |
| Text.EqualsIgnoreCaseIsEquivalence | NewPlatform.Flexberry.Caching/MemoryCacheService/SignaledChangeMonitor.cs:92-94 | the case-insensitive comparison used for signals is reflexive, symmetric and transitive |
| Text.CaseDiffersFromKeyEquality | NewPlatform.Flexberry.Caching/MemoryCacheService/SignaledChangeMonitor.cs:92-94 | signal matching is strictly coarser than key equality: "Tag" and "tag" match but are different keys |
| Text.NullOrEmptyIsBlank | NewPlatform.Flexberry.Caching/MemoryCacheService/SignaledChangeMonitor.cs:92 | a null or empty name is blank, so it acts as the cache-wide signal |
| Monitors.ReactsCases | NewPlatform.Flexberry.Caching/MemoryCacheService/SignaledChangeMonitor.cs:90-101 | a monitor reacts to a blank signal of its cache, never to another cache's signal, and to a tag signal only when it watches that tag (ignoring case) |
| Monitors.FiredSpec | NewPlatform.Flexberry.Caching/MemoryCacheService/SignaledChangeMonitor.cs:78-82 | a raised signal reaches exactly the subscribers that react to it |
| Monitors.RemoveLastSpec | NewPlatform.Flexberry.Caching/MemoryCacheService/SignaledChangeMonitor.cs:85-88 | unsubscribing removes exactly one occurrence of the handler (as a multiset) |
| Monitors.SubscribeDisposeRoundTrip | NewPlatform.Flexberry.Caching/MemoryCacheService/SignaledChangeMonitor.cs:62-88 | subscribing a monitor and then disposing it restores the subscriber list |
| Monitors.SignalHub.constructor | NewPlatform.Flexberry.Caching/MemoryCacheService/SignaledChangeMonitor.cs:41 | the event starts with no subscribers |
| Monitors.SignalHub.Subscribe | NewPlatform.Flexberry.Caching/MemoryCacheService/SignaledChangeMonitor.cs:62-71 | the new monitor is appended to the invocation list |
| Monitors.SignalHub.Unsubscribe | NewPlatform.Flexberry.Caching/MemoryCacheService/SignaledChangeMonitor.cs:85-88 | the last occurrence of the monitor is dropped and nothing else changes |
| Monitors.KeptSpec | NewPlatform.Flexberry.Caching/MemoryCacheService/SignaledChangeMonitor.cs:85-101 | the subscriptions left after a signal are exactly those whose monitor does not react |
| Monitors.SignalSplitsSubscribers | NewPlatform.Flexberry.Caching/MemoryCacheService/SignaledChangeMonitor.cs:85-101 | every subscription either fires or is kept, none lost and none duplicated |
| Monitors.SignalHub.Signal | NewPlatform.Flexberry.Caching/MemoryCacheService/SignaledChangeMonitor.cs:78-101 | returns, in subscription order, exactly the subscribers that react; their monitors are disposed and unsubscribe, so the list keeps exactly the ones that do not react |
| CacheItems.Names | NewPlatform.Flexberry.Caching/CacheItem.cs:24 | the tag names of a snapshot, in its enumeration order |
| CacheItems.CopyTagsSpec | NewPlatform.Flexberry.Caching/CacheItem.cs:40-53 | copying succeeds iff every name is non-empty and not already present, and then appends the pairs unchanged; an empty name is ArgumentException("tags") |
| CacheItems.MakeCacheItemSpec | NewPlatform.Flexberry.Caching/CacheItem.cs:36-54 | the constructor keeps key, value and class, copies the tags (empty for null), and fails with ArgumentException exactly on an empty tag name |
| CacheItems.NewCacheItem | NewPlatform.Flexberry.Caching/CacheItem.cs:36-83 | the constructor's loop builds the item MakeCacheItem describes |
| Stores.Signal | NewPlatform.Flexberry.Caching/MemoryCacheService/SignaledChangeMonitor.cs:90-101 | a signal removes exactly the entries with a reacting monitor and leaves every other entry as it was |
| Stores.LiveKeysSplit | NewPlatform.Flexberry.Caching/MemoryCacheService/MemoryCacheService.Common.cs:18-31 | the entries GetCount counts are partitioned into tag entries and item entries |
| Stores.CastContent | NewPlatform.Flexberry.Caching/MemoryCacheService/MemoryCacheService.Generic.cs:70 | the `as`/cast of what was read succeeds on absence or on an item of an admitted class, and fails with InvalidCastException otherwise |
| Stores.TypedCastImpliesUntyped | NewPlatform.Flexberry.Caching/CacheItem.cs:61 | what the generic getter admits, the untyped getter admits too, with the same item |
| Internals.TagKeyRoundTrip | NewPlatform.Flexberry.Caching/MemoryCacheService/MemoryCacheService.Internals.cs:27-30 | a tag's key starts with the reserved prefix and the tag name can be read back from it |
| Internals.TagKeyInjective | NewPlatform.Flexberry.Caching/MemoryCacheService/MemoryCacheService.Internals.cs:27-30 | distinct tag names have distinct keys; a null tag shares the key of "" |
| Internals.CheckTagsSpec | NewPlatform.Flexberry.Caching/MemoryCacheService/MemoryCacheService.Internals.cs:38-46 | `All(IsTagValidated)` is true iff every snapshot version equals the stored one, and never throws when every tag has an entry |
| Internals.IsCacheItemValidatedSpec | NewPlatform.Flexberry.Caching/MemoryCacheService/MemoryCacheService.Internals.cs:105-116 | returns whether the snapshot is current; a stale item's key, and only it, is removed |
| Internals.MatchKeysSpec | NewPlatform.Flexberry.Caching/MemoryCacheService/MemoryCacheService.Internals.cs:53-65 | the filter keeps exactly the enumerated live items carrying one of the tags, without duplicates |
| Internals.GetCacheItemsByTags | NewPlatform.Flexberry.Caching/MemoryCacheService/MemoryCacheService.Internals.cs:53-65 | null tags is ArgumentNullException("tags"); otherwise the items of exactly the matching keys, in enumeration order |
| Internals.GetPolicy | NewPlatform.Flexberry.Caching/MemoryCacheService/MemoryCacheService.Internals.cs:73-98 | expiration 0 means no expiration, otherwise the deadline is now plus the given seconds |
| Internals.TagMonitorsReact | NewPlatform.Flexberry.Caching/MemoryCacheService/MemoryCacheService.Internals.cs:85-95 | an entry stored with tags reacts to a blank signal of its cache and to a tag signal iff it carries that tag (ignoring case) |
| Common.Bump | NewPlatform.Flexberry.Caching/MemoryCacheService/MemoryCacheService.Common.cs:63-65 | the new version always differs from the old one: +1, wrapping from int.MaxValue to int.MinValue |
| Invariant.EmptyInv | NewPlatform.Flexberry.Caching/MemoryCacheService/MemoryCacheService.cs:28-53 | a fresh cache satisfies the store invariant |
| Invariant.TagKeyRead | NewPlatform.Flexberry.Caching/MemoryCacheService/MemoryCacheService.Internals.cs:38-46 | reading a tag key yields the version entry when there is one and nothing otherwise |
| Invariant.InvResolvable | NewPlatform.Flexberry.Caching/MemoryCacheService/MemoryCacheService.Internals.cs:38-46 | under the invariant, validating a stored item never throws: every tag of its snapshot has a version entry |
| Invariant.RemovePreservesInv | NewPlatform.Flexberry.Caching/MemoryCacheService/MemoryCacheService.Common.cs:46-49 | removing non-reserved keys keeps the invariant |
| Invariant.PutItemPreservesInv | NewPlatform.Flexberry.Caching/MemoryCacheService/MemoryCacheService.cs:106-107 | storing a well-formed item whose tags all have version entries keeps the invariant |
| Invariant.PutTagPreservesInv | NewPlatform.Flexberry.Caching/MemoryCacheService/MemoryCacheService.Common.cs:63-65 | writing a version entry keeps the invariant |
| Invariant.SignalPreservesInv | NewPlatform.Flexberry.Caching/MemoryCacheService/SignaledChangeMonitor.cs:90-101 | a signal keeps the invariant: a version entry goes only with a cache-wide signal, which evicts every item too |
| Invariant.FreshTagsCons | NewPlatform.Flexberry.Caching/MemoryCacheService/MemoryCacheService.cs:82-104 | a tag list is fresh iff its head is non-null and unseen and its tail is fresh after adding the head |
| Invariant.ResolveTagStep | NewPlatform.Flexberry.Caching/MemoryCacheService/MemoryCacheService.cs:84-103 | one pass of the tag loop: creates the version entry at 1 if missing, succeeds iff the tag is non-null and new, and appends (tag, current version); a null tag is ArgumentNullException("key") from the dictionary, a repeated one ArgumentException for that tag |
| Invariant.AddsTagEntriesTransitive | NewPlatform.Flexberry.Caching/MemoryCacheService/MemoryCacheService.cs:82-104 | successive passes only add fresh version entries |
| Invariant.ResolveTagsInv | NewPlatform.Flexberry.Caching/MemoryCacheService/MemoryCacheService.cs:82-104 | the tag loop keeps the invariant and only adds version-1 entries, even when it throws; it throws only ArgumentNullException("key") or the duplicate-tag ArgumentException |
| Invariant.ResolveTagsOk | NewPlatform.Flexberry.Caching/MemoryCacheService/MemoryCacheService.cs:82-104 | the tag loop succeeds iff every tag is non-null and none repeats |
| Invariant.ResolveTagsValue | NewPlatform.Flexberry.Caching/MemoryCacheService/MemoryCacheService.cs:95-102 | the dictionary records, for each tag in order, the version it had before the call (1 if new), which is then stored |
| Invariant.LaterTagUnaffected | NewPlatform.Flexberry.Caching/MemoryCacheService/MemoryCacheService.cs:95 | creating one tag's entry does not change the version read for another tag |
| Invariant.SnapshotOf | NewPlatform.Flexberry.Caching/MemoryCacheService/MemoryCacheService.cs:82-104 | the snapshot SetToCache takes: each tag paired with its current version, or 1 |
| Invariant.ResolvedSnapshot | NewPlatform.Flexberry.Caching/MemoryCacheService/MemoryCacheService.cs:82-104 | a successful loop yields SnapshotOf, with distinct names in list order, and the versions are stored |
| Invariant.SetToCacheOutcome | NewPlatform.Flexberry.Caching/MemoryCacheService/MemoryCacheService.cs:74-108 | SetToCache returns true iff the expiration is non-negative, the key non-null and the tags non-null, distinct and non-empty; every failure names its parameter: a negative expiration is ArgumentException("expirationTime"), a null key with acceptable tags is ArgumentNullException("key"), an empty tag name in an otherwise fresh list is ArgumentException("tags"), and a null first tag is ArgumentNullException("key") |
| Invariant.SetToCacheInv | NewPlatform.Flexberry.Caching/MemoryCacheService/MemoryCacheService.cs:74-108 | SetToCache under a non-reserved key keeps the invariant, whether it succeeds or throws |
| Invariant.SetToCacheKeepsOthers | NewPlatform.Flexberry.Caching/ICacheService.cs:40 | SetToCache changes no other key: apart from the key, it only adds version entries, and with a negative expiration it changes nothing |
| Invariant.SetToCacheStores | NewPlatform.Flexberry.Caching/MemoryCacheService/MemoryCacheService.cs:74-108 | a successful SetToCache replaces the entry with the item holding the current tag versions, and that snapshot is current |
| Invariant.PutKeepsSnapshot | NewPlatform.Flexberry.Caching/MemoryCacheService/MemoryCacheService.cs:106-107 | storing an item leaves every tag version as it was |
| ReadProperties.SnapshotTimeless | NewPlatform.Flexberry.Caching/MemoryCacheService/MemoryCacheService.cs:95 | tag versions never expire, so a current snapshot stays current as time passes |
| ReadProperties.LookupValidSpec | NewPlatform.Flexberry.Caching/MemoryCacheService/MemoryCacheService.cs:111-120 | the get-cast-validate step finds the item iff it is present, admitted and current; fails only on a bad cast; removes only a stale item |
| ReadProperties.GetFromCacheSpec | NewPlatform.Flexberry.Caching/MemoryCacheService/MemoryCacheService.Generic.cs:68-77 | GetFromCache returns the value iff the item is present, admitted and current; otherwise ArgumentNullException, InvalidCastException or KeyNotFoundException; a stale item is removed |
| ReadProperties.GetTagsForItemSpec | NewPlatform.Flexberry.Caching/MemoryCacheService/MemoryCacheService.Common.cs:34-43 | GetTagsForItem returns the tag names iff the item is present and current; a null key is ArgumentNullException, a version entry under the key is InvalidCastException, and an absent or stale item is KeyNotFoundException; a stale item is removed |
| ReadProperties.SetThenGet | NewPlatform.Flexberry.Caching/ICacheService.cs:155-156 | after a successful set and before its expiry, Get and TryGet return the value for an admitted class, and GetTagsForItem returns the given tags |
| ReadProperties.GetAfterExpiry | NewPlatform.Flexberry.Caching/MemoryCacheService/MemoryCacheService.Internals.cs:75-77 | once the expiration time has passed, GetFromCache throws KeyNotFoundException |
| ReadProperties.PartitionSpec | NewPlatform.Flexberry.Caching/MemoryCacheService/MemoryCacheService.cs:138-148 | the Where/Except split puts each item on exactly the side its snapshot says, losing none, and the current side is the matched items filtered in their order |
| ReadProperties.MatchedItemsStored | NewPlatform.Flexberry.Caching/MemoryCacheService/MemoryCacheService.Internals.cs:53-65 | every matched item is live under its own non-reserved key, and can be validated |
| ReadProperties.CurrentItemsSpec | NewPlatform.Flexberry.Caching/MemoryCacheService/MemoryCacheService.cs:139-145 | the current items are kept, each as often as it was matched, and no other item is |
| ReadProperties.StaleKeys | NewPlatform.Flexberry.Caching/MemoryCacheService/MemoryCacheService.cs:148-152 | the keys removed are exactly those of the stale items |
| ReadProperties.GetFromCacheByTagsOutcome | NewPlatform.Flexberry.Caching/MemoryCacheService/MemoryCacheService.Generic.cs:86-112 | null tags is ArgumentNullException; otherwise it succeeds iff every matched item is admitted, and a failed cast changes nothing |
| ReadProperties.GetFromCacheByTagsResult | NewPlatform.Flexberry.Caching/MemoryCacheService/MemoryCacheService.cs:129-155 | the result is the values of the current matching items, one per item, in enumeration order; exactly the stale matching items are removed |
| ReadProperties.TryGetFromCacheSpec | NewPlatform.Flexberry.Caching/MemoryCacheService/MemoryCacheService.Generic.cs:115-127 | TryGet reports found iff the item is present, admitted and current, and returns its value or the default |
| ReadProperties.TryGetFromCacheByTagsSpec | NewPlatform.Flexberry.Caching/MemoryCacheService/MemoryCacheService.cs:179-191 | TryGetByTags succeeds iff the tags are non-null and every match is admitted; on success it returns what GetFromCacheByTags returns, the values of the current matches with the stale ones removed; on failure nothing changes and the list is empty; with no matches it returns true and an empty list |
| UpdateProperties.UpdateIsSet | NewPlatform.Flexberry.Caching/MemoryCacheService/MemoryCacheService.cs:194-215 | UpdateInCache is SetToCache in every case that stores: on an absent key with the additional tags; on a valid item with the old tags followed by the additional ones; on a stale item, which is removed first, with the additional tags alone. A null key is ArgumentNullException and an entry the cast does not admit is InvalidCastException, both with the store unchanged |
| UpdateProperties.ResolveTagsAppend | NewPlatform.Flexberry.Caching/MemoryCacheService/MemoryCacheService.cs:82-104 | the tag loop over `a + b` is the loop over `a`, then, if that succeeded, the loop over `b` |
| UpdateProperties.StoredTagsAcceptable | NewPlatform.Flexberry.Caching/MemoryCacheService/MemoryCacheService.cs:201-206 | the tags of a stored item, read back as a list, are acceptable to SetToCache |
| UpdateProperties.ResolveFreshTags | NewPlatform.Flexberry.Caching/MemoryCacheService/MemoryCacheService.cs:82-104 | the tag loop over non-null, unrepeated tags succeeds and records every one of them |
| UpdateProperties.ResolveRepeatedTag | NewPlatform.Flexberry.Caching/MemoryCacheService/MemoryCacheService.cs:102 | a tag already in the dictionary makes Dictionary.Add throw ArgumentException |
| UpdateProperties.UpdateRepeatedTagFails | NewPlatform.Flexberry.Caching/MemoryCacheService/MemoryCacheService.cs:199-214 | passing a tag the item already has makes UpdateInCache throw ArgumentException |
| UpdateProperties.UpdateMergesTags | NewPlatform.Flexberry.Caching/ICacheService.cs:286 | an update of a valid item with acceptable extra tags returns true, stores the new value, and its tags become the old ones followed by the new ones |
| UpdateProperties.TagsOfValidItem | NewPlatform.Flexberry.Caching/MemoryCacheService/MemoryCacheService.Common.cs:34-43 | once an item is found valid, GetTagsForItem returns its tag names and changes nothing |
| UpdateProperties.UpdateWithoutTagsKeepsTags | NewPlatform.Flexberry.Caching/MemoryCacheService/MemoryCacheService.cs:194-215 | an update without new tags returns true and keeps the item's tags |
| DeleteProperties.DeleteFromCacheSpec | NewPlatform.Flexberry.Caching/MemoryCacheService/MemoryCacheService.Common.cs:46-49 | the key is gone, the answer says whether it was there, nothing else changes, and a later Get throws KeyNotFoundException |
| DeleteProperties.DeleteFromCacheByTagSpec | NewPlatform.Flexberry.Caching/MemoryCacheService/MemoryCacheService.Common.cs:52-74 | null is ArgumentNullException; the answer says whether the tag had a version entry; that entry is bumped; nothing is added; a non-blank tag removes no version entry |
| DeleteProperties.DeleteByTagInvalidates | NewPlatform.Flexberry.Caching/ICacheService.cs:318 | every snapshot holding the tag's current version is stale after the delete, at any later time |
| DeleteProperties.ItemReacts | NewPlatform.Flexberry.Caching/MemoryCacheService/MemoryCacheService.Internals.cs:85-95 | a stored item is evicted by a signal iff it is blank or names one of the item's tags (ignoring case) |
| DeleteProperties.DeleteByTagEvicts | NewPlatform.Flexberry.Caching/MemoryCacheService/MemoryCacheService.Common.cs:68 | an item survives DeleteFromCacheByTag iff the tag is not blank and matches none of its tags; survivors are unchanged |
| DeleteProperties.DeleteByTagKeepsTagCount | NewPlatform.Flexberry.Caching/MemoryCacheService/MemoryCacheService.Common.cs:28-31 | deleting by a non-blank tag keeps the number of tag versions |
| DeleteProperties.WhitespaceTagClearsItems | NewPlatform.Flexberry.Caching/MemoryCacheService/MemoryCacheService.Common.cs:68 | a known blank tag acts as the cache-wide signal: only version entries remain |
| DeleteProperties.OnlyTagsCount | NewPlatform.Flexberry.Caching/MemoryCacheService/MemoryCacheService.Common.cs:18-31 | when only version entries are left, GetCount equals GetTagsCount |
| DeleteProperties.ClearCacheSpec | NewPlatform.Flexberry.Caching/MemoryCacheService/MemoryCacheService.Common.cs:97-101 | ClearCache removes every item and exactly the version entries that carry a monitor, leaving only version entries |
| DeleteProperties.DeleteTagsSpec | NewPlatform.Flexberry.Caching/MemoryCacheService/MemoryCacheService.Common.cs:84-93 | the loop throws ArgumentNullException iff some tag is null; otherwise it answers whether any tag had a version entry, and keeps the version entries |
| DeleteProperties.DeleteTagsEvicts | NewPlatform.Flexberry.Caching/MemoryCacheService/MemoryCacheService.Common.cs:84-93 | over non-null, non-blank tags the loop adds no entry, and an item survives iff none of its tags matches, ignoring case, a listed tag that had a version entry; survivors are unchanged |
| DeleteProperties.HitByTagsStep | NewPlatform.Flexberry.Caching/MemoryCacheService/MemoryCacheService.Common.cs:86-92 | an item is hit by the list iff it is hit by the first tag, or by the rest looked up after the first deletion |
| DeleteProperties.DeleteTagsKeepTagCount | NewPlatform.Flexberry.Caching/MemoryCacheService/MemoryCacheService.Common.cs:84-93 | deleting by non-blank tags keeps the number of tag versions |
| DeleteProperties.DeleteFromCacheByTagsSpec | NewPlatform.Flexberry.Caching/MemoryCacheService/MemoryCacheService.Common.cs:77-94 | null is ArgumentNullException("tags"); it succeeds iff no tag is null, and then answers whether any tag had a version entry; on success an item survives iff none of its tags matches, ignoring case, a listed tag that had a version entry, survivors are unchanged, nothing is added, and the number of tag versions is kept |
| ExistsProperties.ExistsSpec | NewPlatform.Flexberry.Caching/MemoryCacheService/MemoryCacheService.Common.cs:104-108 | Exists is true iff the item is present and current; a null key is false; a stale item is removed |
| ExistsProperties.RemoveKeepsSnapshot | NewPlatform.Flexberry.Caching/MemoryCacheService/MemoryCacheService.Common.cs:111-131 | removing an item does not change whether a snapshot is current |
| ExistsProperties.ExistsStep | NewPlatform.Flexberry.Caching/MemoryCacheService/MemoryCacheService.Common.cs:121-128 | one pass of the loop answers whether that item is current and leaves the other matched items in place and as current as they were |
| ExistsProperties.ExistsEachSpec | NewPlatform.Flexberry.Caching/MemoryCacheService/MemoryCacheService.Common.cs:121-128 | the loop is true iff some matched item is current, although it removes the stale ones as it goes, and it keeps the invariant |
| ExistsProperties.ExistsEachRemovesStale | NewPlatform.Flexberry.Caching/MemoryCacheService/MemoryCacheService.Common.cs:121-128 | the loop leaves the store with exactly the stale matched items removed |
| ExistsProperties.MatchedItemKeys | NewPlatform.Flexberry.Caching/MemoryCacheService/MemoryCacheService.Internals.cs:53-65 | the matched items sit under their own distinct keys |
| ExistsProperties.MatchedCurrent | NewPlatform.Flexberry.Caching/MemoryCacheService/MemoryCacheService.Common.cs:111-131 | some matched item is current iff some matching key holds a current item |
| ExistsProperties.ExistsByTagSpec | NewPlatform.Flexberry.Caching/ICacheService.cs:352 | ExistsByTag is true iff some live item carrying exactly that tag name (compared with ordinal equality, unlike the signals) is current; every stale matching item is removed; a null tag is false and changes nothing |
| ExistsProperties.MatchedStaleSub | NewPlatform.Flexberry.Caching/MemoryCacheService/MemoryCacheService.Internals.cs:53-65 | every stale matched item is a stale live item carrying one of the tags |
| ExistsProperties.MatchedStaleSup | NewPlatform.Flexberry.Caching/MemoryCacheService/MemoryCacheService.Internals.cs:53-65 | every stale live item carrying one of the tags is among the matched items |
| ExistsProperties.ExistsByTagRemovesStale | NewPlatform.Flexberry.Caching/MemoryCacheService/MemoryCacheService.Common.cs:111-131 | ExistsByTag removes exactly the stale live items carrying the tag, and nothing for a null tag |
| ExistsProperties.ExistsByEmptyTag | NewPlatform.Flexberry.Caching/CacheItem.cs:45-49 | no item carries an empty tag name, so ExistsByTag("") is false and changes nothing |
| ExistsProperties.DeleteByTagThenNotExists | NewPlatform.Flexberry.Caching/MemoryCacheService/MemoryCacheService.Common.cs:52-74 | after a successful delete by tag, no item carries the tag and ExistsByTag is false |
| ExistsProperties.DeleteByTagsThenNotExists | NewPlatform.Flexberry.Caching/ICacheService.cs:321-327 | after a successful delete by non-blank tags, ExistsByTag is false for every listed tag that had a version entry |
| ReservedKeys.DeletingReservedKeyBreaksReads | NewPlatform.Flexberry.Caching/MemoryCacheService/MemoryCacheService.Internals.cs:41 | deleting a tag's reserved key makes a later read of a tagged item throw NullReferenceException |
| ReservedKeys.ItemUnderReservedKeyBreaksSets | NewPlatform.Flexberry.Caching/MemoryCacheService/MemoryCacheService.cs:99 | an item stored under a tag's reserved key makes a later SetToCache with that tag throw InvalidCastException |
| Service.CacheNameFor | NewPlatform.Flexberry.Caching/MemoryCacheService/MemoryCacheService.cs:49-53 | a null or empty name selects the cache named "Default"; any other name is used as given, except the reserved name "default" in any letter case, which MemoryCache rejects with ArgumentException("name"); so only the default instance carries that name |
| Service.Create | NewPlatform.Flexberry.Caching/MemoryCacheService/MemoryCacheService.cs:28-53 | constructing the service fails exactly on the reserved name; otherwise the cache has the resolved name, the default expiration is kept, and the cache starts empty and valid |
| Service.MemoryCacheService.constructor | NewPlatform.Flexberry.Caching/MemoryCacheService/MemoryCacheService.cs:28-53 | for a name that is not reserved: a null or empty name selects the cache named "Default"; the default expiration is kept; the cache starts empty and valid |
| Service.MemoryCacheService.SetToCache | NewPlatform.Flexberry.Caching/MemoryCacheService/MemoryCacheService.Generic.cs:31-65 | the tag loop and the store behave as the spec function SetToCache; keeps the invariant under a non-reserved key |
| Service.MemoryCacheService.SetToCacheWithDefaultExpiration | NewPlatform.Flexberry.Caching/MemoryCacheService/MemoryCacheService.cs:56-71 | the overloads without an expiration use the default one; keeps the invariant under a non-reserved key |
| Service.MemoryCacheService.IsCacheItemValidated | NewPlatform.Flexberry.Caching/MemoryCacheService/MemoryCacheService.Internals.cs:105-116 | as the spec function IsCacheItemValidated; keeps the invariant for an item under a non-reserved key |
| Service.MemoryCacheService.LookupValid | NewPlatform.Flexberry.Caching/MemoryCacheService/MemoryCacheService.cs:113-116 | as the spec function LookupValid; keeps the invariant |
| Service.MemoryCacheService.GetFromCache | NewPlatform.Flexberry.Caching/MemoryCacheService/MemoryCacheService.cs:111-120 | as the spec function GetFromCache, for both the typed and the untyped overloads; keeps the invariant |
| Service.MemoryCacheService.GetFromCacheByTags | NewPlatform.Flexberry.Caching/MemoryCacheService/MemoryCacheService.cs:129-155 | the removal loop and the result behave as the spec function GetFromCacheByTags; keeps the invariant |
| Service.MemoryCacheService.GetFromCacheByTag | NewPlatform.Flexberry.Caching/MemoryCacheService/MemoryCacheService.cs:123-126 | is GetFromCacheByTags on the single-tag list; keeps the invariant |
| Service.MemoryCacheService.TryGetFromCache | NewPlatform.Flexberry.Caching/MemoryCacheService/MemoryCacheService.cs:158-170 | as the spec function TryGetFromCache; keeps the invariant |
| Service.MemoryCacheService.TryGetFromCacheByTags | NewPlatform.Flexberry.Caching/MemoryCacheService/MemoryCacheService.cs:173-191 | as the spec function TryGetFromCacheByTags; keeps the invariant |
| Service.MemoryCacheService.GetTagsForItem | NewPlatform.Flexberry.Caching/MemoryCacheService/MemoryCacheService.Common.cs:34-43 | as the spec function GetTagsForItem; keeps the invariant |
| Service.MemoryCacheService.UpdateInCache | NewPlatform.Flexberry.Caching/MemoryCacheService/MemoryCacheService.Generic.cs:151-172 | builds the merged tag list and stores as the spec function UpdateInCache; keeps the invariant under a non-reserved key |
| Service.MemoryCacheService.DeleteFromCache | NewPlatform.Flexberry.Caching/MemoryCacheService/MemoryCacheService.Common.cs:46-49 | as the spec function DeleteFromCache; keeps the invariant for a non-reserved key |
| Service.MemoryCacheService.DeleteFromCacheByTag | NewPlatform.Flexberry.Caching/MemoryCacheService/MemoryCacheService.Common.cs:52-74 | as the spec function DeleteFromCacheByTag, and keeps the invariant |
| Service.MemoryCacheService.DeleteFromCacheByTags | NewPlatform.Flexberry.Caching/MemoryCacheService/MemoryCacheService.Common.cs:77-94 | the loop behaves as the spec function DeleteFromCacheByTags; keeps the invariant |
| Service.MemoryCacheService.ClearCache | NewPlatform.Flexberry.Caching/MemoryCacheService/MemoryCacheService.Common.cs:97-101 | the store becomes the cache-wide signal's result, and the invariant is kept |
| Service.MemoryCacheService.Exists | NewPlatform.Flexberry.Caching/MemoryCacheService/MemoryCacheService.Common.cs:104-108 | as the spec function Exists; keeps the invariant |
| Service.MemoryCacheService.ExistsByTag | NewPlatform.Flexberry.Caching/MemoryCacheService/MemoryCacheService.Common.cs:111-131 | the loop behaves as the spec function ExistsByTag; keeps the invariant |

## Left out

- **Eviction and memory:**
  - The `MemoryCache` background sweep and its physical reclamation are not modelled. An expired entry stays in the map, and `Get` treats it as absent.
  - Memory limits, polling intervals and configuration are not modelled.
  - `Trim` is not part of this model: it only delegates to `MemoryCache.Trim`, whose eviction choice is not specified.
- **Sharing and concurrency:**
  - Sharing `MemoryCache.Default` between instances is left out: each service owns one store. Signals from other caches whose names match ignoring case are therefore not modelled, although `Monitors.Reacts` states the matching rule.
  - Concurrency, thread safety and the process-wide static event are left out: operations are atomic steps.
  - `Monitors.SignalHub` models the subscriber list on its own. The store applies signals through `Stores.Signal`, which is stated over the monitors each entry holds. The two are not linked by a proof.
- **Resources, time and order:**
  - Dispose, ChangeMonitor disposal, garbage collection and the memory-leak behaviour are left out: these are resource management, not observable cache contents.
  - When `SetToCache` throws on a null key after `GetPolicy`, the created monitors stay subscribed. This leak is not modelled.
  - Wall-clock time is the parameter `now`.
  - The `MemoryCache` enumeration order is the parameter `order`.
- **Types:**
  - `TagItem.cs` is modelled as the `TagItem` content of an entry.
  - The `new T Value` of `CacheItem<T>` and the base `Value` are one field, because the constructor sets both from the same argument.
  - `ICacheService` is not a separate interface in the model. Its contracts are stated on the class methods and the lemmas.
- **Reserved keys:** the property lemmas require user keys not to start with `"_tags/"`. The source does not check this. `ReservedKeys` proves what breaks otherwise.
- DeleteFromCache: the answer is whether a live entry was present. .NET's `Remove` may also return an entry that has expired but has not yet been swept.
- GetCount: counts live entries only, with the same caveat about expired entries that have not been swept.
- DeleteTagsSpec: stated only for lists whose non-null tags are not blank. A blank tag raises the cache-wide signal, which also removes version entries (see `WhitespaceTagClearsItems`).
- DeleteTagsEvicts: stated only for lists without a null tag; with a null tag the tags before it have already been deleted when the exception is thrown, and the model states only the exception for that case.
- DeleteFromCacheByTagsSpec: has the same restriction to non-blank tags as `DeleteTagsSpec`. `Service.MemoryCacheService.DeleteFromCacheByTags` keeps the invariant for any tags.
- Service.MemoryCacheService.constructor: a Dafny constructor cannot fail, so it requires a name that is not reserved. `Service.Create` models `new MemoryCacheService(...)` with the ArgumentException for the reserved name. The null and empty names that `new MemoryCache` also rejects cannot reach it, because the service maps them to `MemoryCache.Default`. The `config` collection is not modelled.
- Monitors.SignalHub.Signal: disposes only the monitors that react. In the source, evicting an entry also disposes its other monitors, which then unsubscribe as well. The hub does not know which monitors share an entry.
- Monitors.SignalHub.Unsubscribe: removes the last subscription equal to the monitor by value. .NET removes a delegate by its target instance, so two distinct monitors with the same cache and signal name are one in the model.
- Text.EqualsIgnoreCase: .NET's ordinal case-insensitive comparison folds every Unicode letter with a simple upper-case mapping. The model folds only the ASCII letters, so names that differ in a non-ASCII letter's case (for example "é" and "É") match in the source but not in the model. Signal and cache-name matching inherit this.
- Wrappers.NotFoundMessage: the `KeyNotFound` error carries the key, and the message is a function of the key. The message is not stored in the error value.
- DeleteFromCacheByTag: the model follows the code, not the interface documentation at `ICacheService.cs:318`. It returns true whenever the tag has a version entry, whether or not any item carried it.
- The test projects are not modelled as code. The properties they check are stated as lemmas (`SetThenGet`, `DeleteByTagEvicts`, `ExistsByTagSpec`, and others).
