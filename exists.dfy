/**
 * What Exists and ExistsByTag promise on a store in the invariant shape:
 * they answer whether a valid item is there, and remove the stale items they
 * look at on the way.
 */
module ExistsProperties {
  import opened Wrappers
  import opened Text
  import opened CacheItems
  import opened Stores
  import opened Internals
  import opened Operations
  import opened Common
  import opened Invariant
  import opened ReadProperties
  import opened DeleteProperties

  /** Live items stored under their own, distinct, non-reserved keys. */
  ghost predicate StoredItems<V>(s: Store<V>, items: seq<CacheItem<V>>, now: int) {
    && (forall i :: 0 <= i < |items| ==>
          items[i].key in s && !IsTagKey(items[i].key) && Get(s, items[i].key, now) == Some(Item(items[i])))
    && (forall i, j :: 0 <= i < j < |items| ==> items[i].key != items[j].key)
  }

  /** Every item's snapshot is current in `s1` exactly when it is in `s`. */
  ghost predicate SameStaleness<V>(s: Store<V>, s1: Store<V>, items: seq<CacheItem<V>>, now: int) {
    forall i :: 0 <= i < |items| ==> (SnapshotCurrent(s1, items[i].tags, now) <==> SnapshotCurrent(s, items[i].tags, now))
  }

  /** Exists: true exactly for a present item with a current snapshot; a stale one is removed. */
  lemma ExistsSpec<V>(s: Store<V>, cacheName: string, key: Option<string>, now: int)
    requires Inv(s, cacheName)
    ensures var (s', b) := Exists(s, key, now);
      && Inv(s', cacheName)
      && (key.None? ==> s' == s && !b)
      && (key.Some? ==> (b <==> ValidAt(s, key.value, AsObject, now)))
      && (key.Some? ==> s' == if StaleAt(s, key.value, AsObject, now) then s - {key.value} else s)
  {
    GetFromCacheSpec(s, cacheName, key, AsObject, now);
  }

  /** Removing an item key changes no tag version. */
  lemma RemoveKeepsSnapshot<V>(s: Store<V>, k: string, d: TagDict, now: int)
    requires !IsTagKey(k)
    ensures SnapshotCurrent(s - {k}, d, now) <==> SnapshotCurrent(s, d, now)
  {
    forall i | 0 <= i < |d| ensures GetKeyForTag(Some(d[i].0)) != k {
      TagKeyRoundTrip(d[i].0);
    }
  }

  /**
   * One step of the loop of ExistsByTag answers for the first item and removes
   * at most its key, so the later items stay stored and keep their snapshot
   * status.
   */
  lemma ExistsStep<V>(s: Store<V>, cacheName: string, items: seq<CacheItem<V>>, now: int)
    requires Inv(s, cacheName)
    requires |items| > 0
    requires StoredItems(s, items, now)
    ensures var (s1, b1) := Exists(s, Some(items[0].key), now);
      && Inv(s1, cacheName)
      && (b1 <==> SnapshotCurrent(s, items[0].tags, now))
      && s1 == (if SnapshotCurrent(s, items[0].tags, now) then s else s - {items[0].key})
      && StoredItems(s1, items[1..], now)
      && SameStaleness(s, s1, items[1..], now)
  {
    ExistsSpec(s, cacheName, Some(items[0].key), now);
    var s1 := Exists(s, Some(items[0].key), now).0;
    forall i | 0 <= i < |items[1..]|
      ensures items[1..][i].key in s1 && !IsTagKey(items[1..][i].key)
      ensures Get(s1, items[1..][i].key, now) == Some(Item(items[1..][i]))
      ensures SnapshotCurrent(s1, items[1..][i].tags, now) <==> SnapshotCurrent(s, items[1..][i].tags, now)
    {
      assert items[1..][i] == items[i + 1];
      RemoveKeepsSnapshot(s, items[0].key, items[i + 1].tags, now);
    }
  }

  /**
   * The loop of ExistsByTag over stored items with distinct keys: true exactly
   * when it started true or some item has a current snapshot, and it removes
   * exactly the items whose snapshot is out of date.
   */
  lemma {:induction false} ExistsEachSpec<V>(s: Store<V>, cacheName: string, items: seq<CacheItem<V>>, found: bool, now: int)
    requires Inv(s, cacheName)
    requires StoredItems(s, items, now)
    ensures var (s', b) := ExistsEach(s, items, found, now);
      && Inv(s', cacheName)
      && (b <==> found || exists i :: 0 <= i < |items| && SnapshotCurrent(s, items[i].tags, now))
    decreases |items|
  {
    if items != [] {
      var rest := items[1..];
      var e := Exists(s, Some(items[0].key), now);
      var s1, b1 := e.0, e.1;
      ExistsStep(s, cacheName, items, now);
      ExistsEachSpec(s1, cacheName, rest, found || b1, now);
      assert ExistsEach(s, items, found, now) == ExistsEach(s1, rest, found || b1, now);
      assert (exists i :: 0 <= i < |rest| && SnapshotCurrent(s1, rest[i].tags, now)) <==>
             (exists i :: 0 <= i < |rest| && SnapshotCurrent(s, rest[i].tags, now));
      if exists i :: 0 <= i < |items| && SnapshotCurrent(s, items[i].tags, now) {
        var i :| 0 <= i < |items| && SnapshotCurrent(s, items[i].tags, now);
        if i > 0 {
          assert rest[i - 1] == items[i];
        }
      }
    }
  }

  /** The same loop removes exactly the items whose snapshot is out of date. */
  lemma {:induction false} ExistsEachRemovesStale<V>(s: Store<V>, cacheName: string, items: seq<CacheItem<V>>, found: bool, now: int)
    requires Inv(s, cacheName)
    requires StoredItems(s, items, now)
    ensures ExistsEach(s, items, found, now).0
      == s - StaleKeysOf(s, items, now)
    decreases |items|
  {
    if items != [] {
      var rest := items[1..];
      var e := Exists(s, Some(items[0].key), now);
      ExistsStep(s, cacheName, items, now);
      ExistsEachRemovesStale(e.0, cacheName, rest, found || e.1, now);
      StaleOfRest(s, e.0, items, now);
      assert ExistsEach(s, items, found, now) == ExistsEach(e.0, rest, found || e.1, now);
      RemoveInTwoSteps(s, e.0, StaleKeysOf(e.0, rest, now), items[0].key, !SnapshotCurrent(s, items[0].tags, now));
    }
  }

  /** Removing a key, then a set of keys, is removing both at once. */
  lemma RemoveInTwoSteps<V>(s: Store<V>, s1: Store<V>, r: set<string>, k: string, stale: bool)
    requires s1 == if stale then s - {k} else s
    ensures s1 - r == s - (r + if stale then {k} else {})
  {
  }

  /** The stale keys of a non-empty list: those of its tail, plus its head's if that is stale. */
  lemma StaleOfRest<V>(s: Store<V>, s1: Store<V>, items: seq<CacheItem<V>>, now: int)
    requires |items| > 0
    requires SameStaleness(s, s1, items[1..], now)
    ensures StaleKeysOf(s, items, now)
      == StaleKeysOf(s1, items[1..], now) + (if SnapshotCurrent(s, items[0].tags, now) then {} else {items[0].key})
  {
    var rest := items[1..];
    var r := StaleKeysOf(s1, rest, now);
    var all := StaleKeysOf(s, items, now);
    var head: set<string> := if SnapshotCurrent(s, items[0].tags, now) then {} else {items[0].key};
    forall x | x in all ensures x in r + head {
      var i :| 0 <= i < |items| && !SnapshotCurrent(s, items[i].tags, now) && items[i].key == x;
      if i > 0 {
        assert rest[i - 1] == items[i];
      }
    }
    forall x | x in r ensures x in all {
      var i :| 0 <= i < |rest| && !SnapshotCurrent(s1, rest[i].tags, now) && rest[i].key == x;
      assert items[i + 1] == rest[i];
    }
  }

  /** The items GetCacheItemsByTags returns are stored under their own, distinct keys. */
  lemma MatchedItemKeys<V>(s: Store<V>, cacheName: string, ts: seq<Option<string>>, order: seq<string>, now: int)
    requires Inv(s, cacheName) && Enumerates(order, s)
    ensures StoredItems(s, GetCacheItemsByTags(s, Some(ts), order, now).value, now)
  {
    var items := GetCacheItemsByTags(s, Some(ts), order, now).value;
    var keys := MatchKeys(s, ts, order, now);
    MatchKeysSpec(s, ts, order, now);
    MatchedItemsStored(s, cacheName, ts, order, now);
    forall i | 0 <= i < |items| ensures items[i].key == keys[i] {
      assert !IsTagKey(keys[i]);
    }
  }

  /** One of the matched items has a current snapshot exactly when some matching key does. */
  lemma MatchedCurrent<V>(s: Store<V>, ts: seq<Option<string>>, order: seq<string>, now: int)
    requires Enumerates(order, s)
    ensures var items := GetCacheItemsByTags(s, Some(ts), order, now).value;
      (exists i :: 0 <= i < |items| && SnapshotCurrent(s, items[i].tags, now)) <==>
        exists k :: Matches(s, k, ts, now) && SnapshotCurrent(s, s[k].content.item.tags, now)
  {
    var items := GetCacheItemsByTags(s, Some(ts), order, now).value;
    var keys := MatchKeys(s, ts, order, now);
    if exists k :: Matches(s, k, ts, now) && SnapshotCurrent(s, s[k].content.item.tags, now) {
      var k :| Matches(s, k, ts, now) && SnapshotCurrent(s, s[k].content.item.tags, now);
      MatchKeysSpec(s, ts, order, now);
      var i :| 0 <= i < |keys| && keys[i] == k;
      assert SnapshotCurrent(s, items[i].tags, now);
    }
  }

  /** The keys of the items whose snapshot is out of date. */
  ghost function StaleKeysOf<V>(s: Store<V>, items: seq<CacheItem<V>>, now: int): set<string> {
    set i | 0 <= i < |items| && !SnapshotCurrent(s, items[i].tags, now) :: items[i].key
  }

  /** The live items carrying one of the tags whose snapshot is out of date. */
  ghost function StaleMatches<V>(s: Store<V>, ts: seq<Option<string>>, now: int): set<string> {
    set k | k in s && Matches(s, k, ts, now) && !SnapshotCurrent(s, s[k].content.item.tags, now)
  }

  /** Each matched item sits under the matching key at the same position. */
  lemma MatchedAt<V>(s: Store<V>, cacheName: string, ts: seq<Option<string>>, order: seq<string>, now: int)
    requires Inv(s, cacheName)
    ensures var items := GetCacheItemsByTags(s, Some(ts), order, now).value;
      var keys := MatchKeys(s, ts, order, now);
      forall i :: 0 <= i < |items| ==> items[i].key == keys[i] && items[i] == s[keys[i]].content.item
  {
    var items := GetCacheItemsByTags(s, Some(ts), order, now).value;
    var keys := MatchKeys(s, ts, order, now);
    forall i | 0 <= i < |items| ensures items[i].key == keys[i] {
      assert !IsTagKey(keys[i]);
    }
  }

  /** Every stale matched item is a matching key whose item is out of date. */
  lemma MatchedStaleSub<V>(s: Store<V>, cacheName: string, ts: seq<Option<string>>, order: seq<string>, now: int)
    requires Inv(s, cacheName)
    ensures StaleKeysOf(s, GetCacheItemsByTags(s, Some(ts), order, now).value, now) <= StaleMatches(s, ts, now)
  {
    var items := GetCacheItemsByTags(s, Some(ts), order, now).value;
    MatchedAt(s, cacheName, ts, order, now);
    forall x | x in StaleKeysOf(s, items, now) ensures x in StaleMatches(s, ts, now) {
      var i :| 0 <= i < |items| && !SnapshotCurrent(s, items[i].tags, now) && items[i].key == x;
    }
  }

  /** Every matching key whose item is out of date is among the stale matched items. */
  lemma MatchedStaleSup<V>(s: Store<V>, cacheName: string, ts: seq<Option<string>>, order: seq<string>, now: int)
    requires Inv(s, cacheName) && Enumerates(order, s)
    ensures StaleMatches(s, ts, now) <= StaleKeysOf(s, GetCacheItemsByTags(s, Some(ts), order, now).value, now)
  {
    var items := GetCacheItemsByTags(s, Some(ts), order, now).value;
    var keys := MatchKeys(s, ts, order, now);
    MatchKeysSpec(s, ts, order, now);
    MatchedAt(s, cacheName, ts, order, now);
    forall x | x in StaleMatches(s, ts, now) ensures x in StaleKeysOf(s, items, now) {
      var i :| 0 <= i < |keys| && keys[i] == x;
      assert items[i].key == x;
    }
  }

  /**
   * ExistsByTag: true exactly when some live item carrying the tag (compared
   * exactly) has a current snapshot; a null tag matches nothing. The stale
   * items carrying the tag are removed on the way.
   */
  lemma ExistsByTagSpec<V>(s: Store<V>, cacheName: string, tag: Option<string>, order: seq<string>, now: int)
    requires Inv(s, cacheName) && Enumerates(order, s)
    ensures var (s', b) := ExistsByTag(s, tag, order, now);
      && Inv(s', cacheName)
      && (tag.None? ==> s' == s && !b)
      && (b <==> tag.Some? && exists k :: Matches(s, k, [tag], now) && SnapshotCurrent(s, s[k].content.item.tags, now))
      && s' == s - StaleMatches(s, [tag], now)
  {
    var ts := if tag.None? then [] else [tag];
    var items := GetCacheItemsByTags(s, Some(ts), order, now).value;
    MatchedItemKeys(s, cacheName, ts, order, now);
    MatchedCurrent(s, ts, order, now);
    ExistsByTagRemovesStale(s, cacheName, tag, order, now);
    if |items| > 0 {
      ExistsEachSpec(s, cacheName, items, false, now);
    }
    if tag.None? {
      assert forall k :: !Matches(s, k, ts, now);
    }
  }

  /** ExistsByTag removes exactly the live items carrying the tag whose snapshot is out of date. */
  lemma ExistsByTagRemovesStale<V>(s: Store<V>, cacheName: string, tag: Option<string>, order: seq<string>, now: int)
    requires Inv(s, cacheName) && Enumerates(order, s)
    ensures ExistsByTag(s, tag, order, now).0
      == s - StaleMatches(s, [tag], now)
  {
    var ts := if tag.None? then [] else [tag];
    var items := GetCacheItemsByTags(s, Some(ts), order, now).value;
    MatchedItemKeys(s, cacheName, ts, order, now);
    MatchedStaleSub(s, cacheName, ts, order, now);
    MatchedStaleSup(s, cacheName, ts, order, now);
    if |items| > 0 {
      ExistsEachRemovesStale(s, cacheName, items, false, now);
    }
    if tag.None? {
      assert StaleMatches(s, ts, now) == {};
      assert StaleMatches(s, [tag], now) == {};
    }
  }

  /** No stored item has an empty tag name, so ExistsByTag("") is false and changes nothing. */
  lemma ExistsByEmptyTag<V>(s: Store<V>, cacheName: string, order: seq<string>, now: int)
    requires Inv(s, cacheName) && Enumerates(order, s)
    ensures ExistsByTag(s, Some(""), order, now) == (s, false)
  {
    forall k | k in s && s[k].content.Item?
      ensures !Matches(s, k, [Some("")], now)
    {
      assert !IsTagKey(k);
    }
    var m := MatchKeys(s, [Some("")], order, now);
    MatchKeysSpec(s, [Some("")], order, now);
  }

  /**
   * After DeleteFromCacheByTag(t) has found t's version entry it returns true,
   * no live item carrying t is left, and ExistsByTag(t) is false.
   */
  lemma DeleteByTagThenNotExists<V>(s: Store<V>, cacheName: string, t: string, order: seq<string>, now: int)
    requires Inv(s, cacheName)
    requires GetKeyForTag(Some(t)) in s
    requires Enumerates(order, DeleteFromCacheByTag(s, cacheName, Some(t), now).0)
    ensures DeleteFromCacheByTag(s, cacheName, Some(t), now).1 == Ok(true)
    ensures forall k :: !Matches(DeleteFromCacheByTag(s, cacheName, Some(t), now).0, k, [Some(t)], now)
    ensures !ExistsByTag(DeleteFromCacheByTag(s, cacheName, Some(t), now).0, Some(t), order, now).1
  {
    var s' := DeleteFromCacheByTag(s, cacheName, Some(t), now).0;
    DeleteFromCacheByTagSpec(s, cacheName, Some(t), now);
    DeleteByTagEvicts(s, cacheName, t, now);
    EqualsIgnoreCaseIsEquivalence(Some(t), Some(t), Some(t));
    forall k | k in s' && s'[k].content.Item?
      ensures forall j :: 0 <= j < |s'[k].content.item.tags| ==> s'[k].content.item.tags[j].0 != t
    {
      assert !IsTagKey(k) && k in s;
    }
    assert !ExistsByTag(s', Some(t), order, now).1 by {
      ExistsByTagSpec(s', cacheName, Some(t), order, now);
    }
  }

  /**
   * After DeleteFromCacheByTags over tags that are neither null nor blank, no
   * live item carries any listed tag that had a version entry, so ExistsByTag
   * is false for each of them.
   */
  lemma DeleteByTagsThenNotExists<V>(s: Store<V>, cacheName: string, ts: seq<Option<string>>, order: seq<string>, now: int)
    requires Inv(s, cacheName)
    requires forall i :: 0 <= i < |ts| ==> ts[i].Some? && !IsNullOrWhiteSpace(ts[i])
    requires Enumerates(order, DeleteFromCacheByTags(s, cacheName, Some(ts), now).0)
    ensures DeleteFromCacheByTags(s, cacheName, Some(ts), now).1.Ok?
    ensures forall i :: 0 <= i < |ts| && GetKeyForTag(ts[i]) in s ==>
              !ExistsByTag(DeleteFromCacheByTags(s, cacheName, Some(ts), now).0, ts[i], order, now).1
  {
    var s' := DeleteFromCacheByTags(s, cacheName, Some(ts), now).0;
    DeleteFromCacheByTagsSpec(s, cacheName, Some(ts), now);
    forall i | 0 <= i < |ts| && GetKeyForTag(ts[i]) in s
      ensures !ExistsByTag(s', ts[i], order, now).1
    {
      forall k | k in s' && s'[k].content.Item?
        ensures forall j :: 0 <= j < |s'[k].content.item.tags| ==> s'[k].content.item.tags[j].0 != ts[i].value
      {
        assert !IsTagKey(k) && k in s && s'[k] == s[k];
        forall j | 0 <= j < |s'[k].content.item.tags|
          ensures s'[k].content.item.tags[j].0 != ts[i].value
        {
          EqualsIgnoreCaseIsEquivalence(ts[i], ts[i], ts[i]);
          assert !HitByTags(s, k, ts);
        }
      }
      ExistsByTagSpec(s', cacheName, ts[i], order, now);
    }
  }
}
