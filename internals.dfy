/**
 * MemoryCacheService.Internals: the reserved key of a tag's version, the
 * validation of an item's tag snapshot (which removes a stale item), the
 * scan for items carrying some tag, and the policy an entry is stored with.
 */
module Internals {
  import opened Wrappers
  import opened Text
  import opened CacheItems
  import opened Monitors
  import opened Stores

  const TagPrefix: string := "_tags/"

  /** The key under which the version of a tag is stored; C# turns a null tag into "". */
  function GetKeyForTag(tagName: Option<string>): string {
    TagPrefix + tagName.GetOr("")
  }

  predicate IsTagKey(k: string) {
    |k| >= |TagPrefix| && k[..|TagPrefix|] == TagPrefix
  }

  /** A tag's version lives at exactly "_tags/" + name, and the name can be read back from the key. */
  lemma TagKeyRoundTrip(t: string)
    ensures IsTagKey(GetKeyForTag(Some(t)))
    ensures GetKeyForTag(Some(t))[|TagPrefix|..] == t
  {
    assert GetKeyForTag(Some(t))[..|TagPrefix|] == TagPrefix;
  }

  /** Distinct tag names have distinct version keys; a null tag shares the key of "". */
  lemma TagKeyInjective(a: string, b: string)
    ensures GetKeyForTag(Some(a)) == GetKeyForTag(Some(b)) ==> a == b
    ensures GetKeyForTag(None) == GetKeyForTag(Some(""))
  {
    TagKeyRoundTrip(a);
    TagKeyRoundTrip(b);
  }

  /**
   * IsTagValidated: the stored version of the tag is dereferenced without a
   * check, so a missing entry is a NullReferenceException and a non-TagItem an
   * InvalidCastException.
   */
  function IsTagValidated<V>(s: Store<V>, tagName: string, tagVersion: int, now: int): Result<bool> {
    match Get(s, GetKeyForTag(Some(tagName)), now)
    case None => Fail(NullReference)
    case Some(TagItem(v)) => Ok(tagVersion == v)
    case Some(Item(_)) => Fail(CastFailure)
  }

  /** `tags.All(IsTagValidated)`, left to right, stopping at the first false or exception. */
  function CheckTags<V>(s: Store<V>, d: TagDict, now: int): Result<bool>
    decreases |d|
  {
    if d == [] then Ok(true)
    else
      var ok :- IsTagValidated(s, d[0].0, d[0].1, now);
      if !ok then Ok(false) else CheckTags(s, d[1..], now)
  }

  /** Every tag of the snapshot has a version entry to compare against. */
  predicate Resolvable<V>(s: Store<V>, d: TagDict, now: int) {
    forall i :: 0 <= i < |d| ==>
      var c := Get(s, GetKeyForTag(Some(d[i].0)), now); c.Some? && c.value.TagItem?
  }

  /** Every snapshot pair (t, v) agrees with the stored version of t. */
  predicate SnapshotCurrent<V>(s: Store<V>, d: TagDict, now: int) {
    forall i :: 0 <= i < |d| ==> Get(s, GetKeyForTag(Some(d[i].0)), now) == Some(TagItem(d[i].1))
  }

  /**
   * A snapshot is validated iff every pair matches the stored version (so an
   * empty snapshot always is); when every tag has its entry nothing is thrown.
   */
  lemma {:induction false} CheckTagsSpec<V>(s: Store<V>, d: TagDict, now: int)
    ensures CheckTags(s, d, now) == Ok(true) <==> SnapshotCurrent(s, d, now)
    ensures Resolvable(s, d, now) ==> CheckTags(s, d, now) == Ok(SnapshotCurrent(s, d, now))
    decreases |d|
  {
    if d != [] {
      CheckTagsSpec(s, d[1..], now);
      assert forall i :: 1 <= i < |d| ==> d[i] == d[1..][i - 1];
    }
  }

  /** IsCacheItemValidated: a stale item is removed from the store and reported false. */
  function IsCacheItemValidated<V>(s: Store<V>, item: CacheItem<V>, now: int): (Store<V>, Result<bool>) {
    var r := CheckTags(s, item.tags, now);
    if r == Ok(false) then (s - {item.key}, r) else (s, r)
  }

  /**
   * Validation changes nothing when the item is current, and otherwise removes
   * exactly the item's key and returns false.
   */
  lemma IsCacheItemValidatedSpec<V>(s: Store<V>, item: CacheItem<V>, now: int)
    requires Resolvable(s, item.tags, now)
    ensures var (s', r) := IsCacheItemValidated(s, item, now);
      && r == Ok(SnapshotCurrent(s, item.tags, now))
      && s' == if r.value then s else s - {item.key}
  {
    CheckTagsSpec(s, item.tags, now);
  }

  /** The predicate of the LINQ filter: a live CacheItem with some tag in the list. */
  predicate Matches<V>(s: Store<V>, k: string, tags: seq<Option<string>>, now: int) {
    && k in s && Unexpired(s[k], now) && s[k].content.Item?
    && exists i :: 0 <= i < |s[k].content.item.tags| && Some(s[k].content.item.tags[i].0) in tags
  }

  /** The keys the filter keeps, in enumeration order. */
  function MatchKeys<V>(s: Store<V>, tags: seq<Option<string>>, order: seq<string>, now: int): seq<string> {
    if order == [] then []
    else (if Matches(s, order[0], tags, now) then [order[0]] else []) + MatchKeys(s, tags, order[1..], now)
  }

  lemma {:induction false} MatchKeysSpec<V>(s: Store<V>, tags: seq<Option<string>>, order: seq<string>, now: int)
    ensures forall k :: k in MatchKeys(s, tags, order, now) <==> k in order && Matches(s, k, tags, now)
    ensures (forall i, j :: 0 <= i < j < |order| ==> order[i] != order[j]) ==>
              forall i, j :: 0 <= i < j < |MatchKeys(s, tags, order, now)| ==>
                MatchKeys(s, tags, order, now)[i] != MatchKeys(s, tags, order, now)[j]
  {
    if order != [] {
      MatchKeysSpec(s, tags, order[1..], now);
      var rest := MatchKeys(s, tags, order[1..], now);
      if (forall i, j :: 0 <= i < j < |order| ==> order[i] != order[j]) {
        assert order[0] !in order[1..];
        assert order[0] !in rest;
      }
    }
  }

  function ItemsAt<V>(s: Store<V>, keys: seq<string>): seq<CacheItem<V>>
    requires forall k :: k in keys ==> k in s && s[k].content.Item?
  {
    seq(|keys|, i requires 0 <= i < |keys| => s[keys[i]].content.item)
  }

  /**
   * GetCacheItemsByTags: the live items carrying at least one listed tag, in
   * enumeration order; tag entries are never returned; a null list throws.
   */
  function GetCacheItemsByTags<V>(s: Store<V>, tags: Option<seq<Option<string>>>, order: seq<string>, now: int)
    : (r: Result<seq<CacheItem<V>>>)
    ensures r.Fail? <==> tags.None?
    ensures r.Fail? ==> r.error == ArgNull("tags")
    ensures r.Ok? ==> |r.value| == |MatchKeys(s, tags.value, order, now)|
    ensures r.Ok? ==> forall i :: 0 <= i < |r.value| ==>
      var k := MatchKeys(s, tags.value, order, now)[i];
      k in order && Matches(s, k, tags.value, now) && r.value[i] == s[k].content.item
  {
    if tags.None? then Fail(ArgNull("tags"))
    else
      var keys := MatchKeys(s, tags.value, order, now);
      MatchKeysSpec(s, tags.value, order, now);
      Ok(ItemsAt(s, keys))
  }

  /** The monitors an entry is given for a tag list: one cache-wide monitor, or one per tag. */
  function TagMonitors(cacheName: string, tags: Option<seq<Option<string>>>): seq<Monitor> {
    if tags.None? || |tags.value| == 0 then [Monitor(cacheName, None)]
    else seq(|tags.value|, i requires 0 <= i < |tags.value| => Monitor(cacheName, tags.value[i]))
  }

  /** GetPolicy: zero is no expiration, otherwise `now` plus the given seconds. */
  function GetPolicy(expirationTime: int, tags: Option<seq<Option<string>>>, cacheName: string, now: int): (p: Policy)
    ensures expirationTime == 0 <==> p.expiresAt.None?
    ensures p.expiresAt.Some? ==> p.expiresAt.value == now + expirationTime
  {
    Policy(if expirationTime == 0 then None else Some(now + expirationTime), TagMonitors(cacheName, tags))
  }

  /**
   * What the monitors of GetPolicy react to: a cache-wide signal of this
   * cache always; a tag signal only when the entry was stored with that tag
   * (ignoring case), and never when it was stored without tags.
   */
  lemma {:induction false} TagMonitorsReact(cacheName: string, tags: seq<string>, c: string, n: Option<string>)
    ensures var ms := TagMonitors(cacheName, Some(seq(|tags|, i requires 0 <= i < |tags| => Some(tags[i]))));
      && (IsNullOrWhiteSpace(n) ==> (AnyReacts(ms, c, n) <==> EqualsIgnoreCase(Some(c), Some(cacheName))))
      && (!IsNullOrWhiteSpace(n) ==>
            (AnyReacts(ms, c, n) <==>
               EqualsIgnoreCase(Some(c), Some(cacheName)) && exists i :: 0 <= i < |tags| && EqualsIgnoreCase(n, Some(tags[i]))))
  {
    var lifted := seq(|tags|, i requires 0 <= i < |tags| => Some(tags[i]));
    var ms := TagMonitors(cacheName, Some(lifted));
    if |tags| == 0 {
      assert Reacts(ms[0], c, n) <==> IsNullOrWhiteSpace(n) && EqualsIgnoreCase(Some(c), Some(cacheName));
    } else {
      assert Reacts(ms[0], c, None) <==> EqualsIgnoreCase(Some(c), Some(cacheName));
      if !IsNullOrWhiteSpace(n) && EqualsIgnoreCase(Some(c), Some(cacheName)) && exists i :: 0 <= i < |tags| && EqualsIgnoreCase(n, Some(tags[i])) {
        var i :| 0 <= i < |tags| && EqualsIgnoreCase(n, Some(tags[i]));
        assert Reacts(ms[i], c, n);
      }
    }
  }
}
