/**
 * What the removing operations promise on a store in the invariant shape:
 * DeleteFromCache removes one key, DeleteFromCacheByTag moves a tag to a new
 * version (so no snapshot of the old one validates again) and evicts the
 * items whose monitors react, and ClearCache evicts every item.
 */
module DeleteProperties {
  import opened Wrappers
  import opened Text
  import opened CacheItems
  import opened Monitors
  import opened Stores
  import opened Internals
  import opened Operations
  import opened Common
  import opened Invariant

  /** DeleteFromCache: the key is gone, the answer says whether it was there, and nothing else changes. */
  lemma DeleteFromCacheSpec<V>(s: Store<V>, cacheName: string, key: Option<string>, now: int)
    requires Inv(s, cacheName)
    requires key.Some? ==> !IsTagKey(key.value)
    ensures var (s', r) := DeleteFromCache(s, key, now);
      && Inv(s', cacheName)
      && (key.None? ==> s' == s && r == Fail(ArgNull("key")))
      && (key.Some? ==> r == Ok(Contains(s, key.value, now)))
      && (key.Some? ==> key.value !in s' && forall k :: k in s && k != key.value ==> k in s' && s'[k] == s[k])
      && (key.Some? ==> GetFromCache(s', key, AsObject, now).1 == Fail(KeyNotFound(key.value)))
  {
    if key.Some? {
      RemovePreservesInv(s, cacheName, {key.value});
    }
  }

  /** The version entry DeleteFromCacheByTag writes. */
  function BumpedEntry<V>(s: Store<V>, tk: string): Entry<V>
    requires tk in s && s[tk].content.TagItem?
  {
    Entry(TagItem(Bump(s[tk].content.version)), Policy(None, []))
  }

  /**
   * DeleteFromCacheByTag: true exactly when the tag has a version entry (whether
   * or not any item still carries it), which then holds the next version and
   * no monitor; a tag that is not blank never removes a version entry.
   */
  lemma DeleteFromCacheByTagSpec<V>(s: Store<V>, cacheName: string, tag: Option<string>, now: int)
    requires Inv(s, cacheName)
    ensures var (s', r) := DeleteFromCacheByTag(s, cacheName, tag, now);
      && Inv(s', cacheName)
      && (tag.None? ==> s' == s && r == Fail(ArgNull("tag")))
      && (tag.Some? ==> r == Ok(GetKeyForTag(tag) in s))
      && (tag.Some? && GetKeyForTag(tag) !in s ==> s' == s)
      && (tag.Some? && GetKeyForTag(tag) in s ==>
            GetKeyForTag(tag) in s' && s'[GetKeyForTag(tag)] == BumpedEntry(s, GetKeyForTag(tag)))
      && (forall k :: k in s' ==> k in s)
      && (tag.Some? && !IsNullOrWhiteSpace(tag) ==> forall k :: IsTagKey(k) ==> (k in s' <==> k in s))
  {
    if tag.Some? {
      var tk := GetKeyForTag(tag);
      TagKeyRead(s, cacheName, tag, now);
      if tk in s {
        var bumped := s[tk := BumpedEntry(s, tk)];
        PutTagPreservesInv(s, cacheName, tk, BumpedEntry(s, tk));
        SignalPreservesInv(bumped, cacheName, tag);
        if !IsNullOrWhiteSpace(tag) {
          forall k | IsTagKey(k) && k in s
            ensures !AnyReacts(bumped[k].policy.monitors, cacheName, tag)
          {
            var ms := bumped[k].policy.monitors;
            forall j | 0 <= j < |ms| ensures !Reacts(ms[j], cacheName, tag) {
              ReactsCases(ms[j], cacheName, tag);
            }
          }
        }
      }
    }
  }

  /**
   * No resurrection: a snapshot that held the tag's version when the tag was
   * deleted never validates against the new store.
   */
  lemma DeleteByTagInvalidates<V>(s: Store<V>, cacheName: string, t: string, d: TagDict, i: int, now: int, later: int)
    requires Inv(s, cacheName)
    requires 0 <= i < |d| && d[i].0 == t
    requires Get(s, GetKeyForTag(Some(t)), now) == Some(TagItem(d[i].1))
    ensures !SnapshotCurrent(DeleteFromCacheByTag(s, cacheName, Some(t), now).0, d, later)
  {
    DeleteFromCacheByTagSpec(s, cacheName, Some(t), now);
  }

  /** What the monitors of a stored item react to, in terms of its tag names. */
  lemma ItemReacts<V>(s: Store<V>, cacheName: string, k: string, n: Option<string>)
    requires Inv(s, cacheName)
    requires k in s && !IsTagKey(k)
    ensures var tags := s[k].content.item.tags;
      AnyReacts(s[k].policy.monitors, cacheName, n) <==>
        IsNullOrWhiteSpace(n) || exists j :: 0 <= j < |tags| && EqualsIgnoreCase(n, Some(tags[j].0))
  {
    var names := Names(s[k].content.item.tags);
    assert Lift(names) == seq(|names|, i requires 0 <= i < |names| => Some(names[i]));
    TagMonitorsReact(cacheName, names, cacheName, n);
    EqualsIgnoreCaseIsEquivalence(Some(cacheName), Some(cacheName), Some(cacheName));
    if exists j :: 0 <= j < |names| && EqualsIgnoreCase(n, Some(names[j])) {
      var j :| 0 <= j < |names| && EqualsIgnoreCase(n, Some(names[j]));
      assert EqualsIgnoreCase(n, Some(s[k].content.item.tags[j].0));
    }
  }

  /**
   * DeleteFromCacheByTag evicts an item exactly when one of its tags equals the
   * deleted tag ignoring case, or every item when the tag is blank; the item
   * entries it keeps are unchanged.
   */
  lemma DeleteByTagEvicts<V>(s: Store<V>, cacheName: string, t: string, now: int)
    requires Inv(s, cacheName)
    requires GetKeyForTag(Some(t)) in s
    ensures var s' := DeleteFromCacheByTag(s, cacheName, Some(t), now).0;
      forall k :: k in s && !IsTagKey(k) ==>
        && (k in s' <==>
              (!IsNullOrWhiteSpace(Some(t)) &&
               forall j :: 0 <= j < |s[k].content.item.tags| ==> !EqualsIgnoreCase(Some(t), Some(s[k].content.item.tags[j].0))))
        && (k in s' ==> s'[k] == s[k])
  {
    var tk := GetKeyForTag(Some(t));
    TagKeyRead(s, cacheName, Some(t), now);
    forall k | k in s && !IsTagKey(k)
      ensures var s' := DeleteFromCacheByTag(s, cacheName, Some(t), now).0;
        && (k in s' <==>
              (!IsNullOrWhiteSpace(Some(t)) &&
               forall j :: 0 <= j < |s[k].content.item.tags| ==> !EqualsIgnoreCase(Some(t), Some(s[k].content.item.tags[j].0))))
        && (k in s' ==> s'[k] == s[k])
    {
      ItemReacts(s, cacheName, k, Some(t));
    }
  }

  /** A tag that is not blank leaves the number of tag versions as it was. */
  lemma DeleteByTagKeepsTagCount<V>(s: Store<V>, cacheName: string, t: string, now: int)
    requires Inv(s, cacheName)
    requires !IsNullOrWhiteSpace(Some(t))
    ensures GetTagsCount(DeleteFromCacheByTag(s, cacheName, Some(t), now).0, now) == GetTagsCount(s, now)
  {
    var s' := DeleteFromCacheByTag(s, cacheName, Some(t), now).0;
    DeleteFromCacheByTagSpec(s, cacheName, Some(t), now);
    assert LiveTagKeys(s', now) == LiveTagKeys(s, now) by {
      forall k ensures k in LiveTagKeys(s', now) <==> k in LiveTagKeys(s, now) {
        if k in s && IsTagKey(k) {
          assert k in s';
        }
      }
    }
  }

  /**
   * A blank tag (such as " ") that has a version entry acts as a cache-wide
   * signal: no item survives, so the count is the number of tag versions.
   */
  lemma WhitespaceTagClearsItems<V>(s: Store<V>, cacheName: string, t: string, now: int)
    requires Inv(s, cacheName)
    requires IsNullOrWhiteSpace(Some(t)) && GetKeyForTag(Some(t)) in s
    ensures var s' := DeleteFromCacheByTag(s, cacheName, Some(t), now).0;
      && (forall k :: k in s' ==> IsTagKey(k))
      && GetCount(s', now) == GetTagsCount(s', now)
  {
    var s' := DeleteFromCacheByTag(s, cacheName, Some(t), now).0;
    DeleteFromCacheByTagSpec(s, cacheName, Some(t), now);
    DeleteByTagEvicts(s, cacheName, t, now);
    OnlyTagsCount(s', cacheName, now);
  }

  /** In a store holding only version entries, every live entry is a tag. */
  lemma OnlyTagsCount<V>(s: Store<V>, cacheName: string, now: int)
    requires Inv(s, cacheName)
    requires forall k :: k in s ==> IsTagKey(k)
    ensures GetCount(s, now) == GetTagsCount(s, now)
  {
    assert LiveKeys(s, now) == LiveTagKeys(s, now);
  }

  /**
   * ClearCache evicts every item and every version entry that still carries
   * its cache-wide monitor; version entries rewritten by a delete by tag have
   * none and survive.
   */
  lemma ClearCacheSpec<V>(s: Store<V>, cacheName: string, now: int)
    requires Inv(s, cacheName)
    ensures var s' := ClearCache(s, cacheName);
      && Inv(s', cacheName)
      && (forall k :: k in s' ==> IsTagKey(k) && k in s && s'[k] == s[k])
      && (forall k :: k in s && IsTagKey(k) ==> (k in s' <==> s[k].policy.monitors == []))
      && GetCount(s', now) == GetTagsCount(s', now)
  {
    var s' := ClearCache(s, cacheName);
    SignalPreservesInv(s, cacheName, None);
    forall k | k in s
      ensures k in s' <==> IsTagKey(k) && s[k].policy.monitors == []
    {
      if IsTagKey(k) {
        if s[k].policy.monitors != [] {
          EqualsIgnoreCaseIsEquivalence(Some(cacheName), Some(cacheName), Some(cacheName));
          assert Reacts(s[k].policy.monitors[0], cacheName, None);
        }
      } else {
        ItemReacts(s, cacheName, k, None);
      }
    }
    OnlyTagsCount(s', cacheName, now);
  }

  /**
   * The loop of DeleteFromCacheByTags over tags that are not blank: it stops at
   * the first null tag, and otherwise reports whether some tag had a version
   * entry; the set of version entries does not change.
   */
  lemma {:induction false} DeleteTagsSpec<V>(s: Store<V>, cacheName: string, ts: seq<Option<string>>, deleted: bool, now: int)
    requires Inv(s, cacheName)
    requires forall i :: 0 <= i < |ts| && ts[i].Some? ==> !IsNullOrWhiteSpace(ts[i])
    ensures var (s', r) := DeleteTags(s, cacheName, ts, deleted, now);
      && Inv(s', cacheName)
      && (r.Ok? <==> forall i :: 0 <= i < |ts| ==> ts[i].Some?)
      && (r.Fail? ==> r.error == ArgNull("tag"))
      && (r.Ok? ==> r.value == (deleted || exists i :: 0 <= i < |ts| && GetKeyForTag(ts[i]) in s))
      && (forall k :: IsTagKey(k) ==> (k in s' <==> k in s))
    decreases |ts|
  {
    if ts != [] {
      var step := DeleteFromCacheByTag(s, cacheName, ts[0], now);
      DeleteFromCacheByTagSpec(s, cacheName, ts[0], now);
      if step.1.Ok? {
        DeleteTagsSpec(step.0, cacheName, ts[1..], deleted || step.1.value, now);
        var r := DeleteTags(step.0, cacheName, ts[1..], deleted || step.1.value, now).1;
        forall i | 1 <= i < |ts| ensures ts[i] == ts[1..][i - 1] { }
        forall i | 0 <= i < |ts| ensures IsTagKey(GetKeyForTag(ts[i])) {
          TagKeyRoundTrip(ts[i].GetOr(""));
        }
        if r.Ok? && (exists i :: 0 <= i < |ts| && GetKeyForTag(ts[i]) in s) {
          var i :| 0 <= i < |ts| && GetKeyForTag(ts[i]) in s;
          if i > 0 {
            assert GetKeyForTag(ts[1..][i - 1]) in step.0;
          }
        }
      }
    }
  }

  /** Whether a known tag of the list names one of the item's tags, ignoring case. */
  predicate HitByTags<V>(s: Store<V>, k: string, ts: seq<Option<string>>)
    requires k in s && s[k].content.Item?
  {
    exists i, j :: 0 <= i < |ts| && GetKeyForTag(ts[i]) in s && 0 <= j < |s[k].content.item.tags| &&
                   EqualsIgnoreCase(ts[i], Some(s[k].content.item.tags[j].0))
  }

  /**
   * The loop of DeleteFromCacheByTags, over tags that are neither null nor
   * blank, runs every tag: an item is evicted exactly when some tag of the list
   * that had a version entry names one of its tags, the items it keeps are
   * unchanged, and nothing is added.
   */
  lemma {:induction false} DeleteTagsEvicts<V>(s: Store<V>, cacheName: string, ts: seq<Option<string>>, deleted: bool, now: int)
    requires Inv(s, cacheName)
    requires forall i :: 0 <= i < |ts| ==> ts[i].Some? && !IsNullOrWhiteSpace(ts[i])
    ensures var s' := DeleteTags(s, cacheName, ts, deleted, now).0;
      && (forall k :: k in s' ==> k in s)
      && (forall k :: k in s && !IsTagKey(k) ==> (k in s' <==> !HitByTags(s, k, ts)) && (k in s' ==> s'[k] == s[k]))
    decreases |ts|
  {
    if ts != [] {
      var s1 := DeleteFromCacheByTag(s, cacheName, ts[0], now).0;
      DeleteFromCacheByTagSpec(s, cacheName, ts[0], now);
      DeleteTagsEvicts(s1, cacheName, ts[1..], deleted || GetKeyForTag(ts[0]) in s, now);
      var s' := DeleteTags(s, cacheName, ts, deleted, now).0;
      assert s' == DeleteTags(s1, cacheName, ts[1..], deleted || GetKeyForTag(ts[0]) in s, now).0;
      if GetKeyForTag(ts[0]) in s {
        DeleteByTagEvicts(s, cacheName, ts[0].value, now);
      }
      forall i | 0 <= i < |ts| ensures IsTagKey(GetKeyForTag(ts[i])) {
        TagKeyRoundTrip(ts[i].GetOr(""));
      }
      forall k | k in s && !IsTagKey(k)
        ensures (k in s' <==> !HitByTags(s, k, ts)) && (k in s' ==> s'[k] == s[k])
      {
        if k in s1 {
          assert s1[k] == s[k];
          HitByTagsStep(s, s1, k, ts);
        } else {
          assert HitByTags(s, k, ts) by {
            var j :| 0 <= j < |s[k].content.item.tags| && EqualsIgnoreCase(ts[0], Some(s[k].content.item.tags[j].0));
          }
        }
      }
    }
  }

  /** One step of HitByTags: a hit by the list is a hit by its head or by the rest, looked up after the head. */
  lemma HitByTagsStep<V>(s: Store<V>, s1: Store<V>, k: string, ts: seq<Option<string>>)
    requires |ts| > 0
    requires k in s && s[k].content.Item? && k in s1 && s1[k] == s[k]
    requires forall i :: 0 <= i < |ts| ==> IsTagKey(GetKeyForTag(ts[i]))
    requires forall tk :: IsTagKey(tk) ==> (tk in s1 <==> tk in s)
    requires forall j :: 0 <= j < |s[k].content.item.tags| && GetKeyForTag(ts[0]) in s ==>
               !EqualsIgnoreCase(ts[0], Some(s[k].content.item.tags[j].0))
    ensures HitByTags(s, k, ts) <==> HitByTags(s1, k, ts[1..])
  {
    if HitByTags(s, k, ts) {
      var i, j :| 0 <= i < |ts| && GetKeyForTag(ts[i]) in s && 0 <= j < |s[k].content.item.tags| &&
                  EqualsIgnoreCase(ts[i], Some(s[k].content.item.tags[j].0));
      assert ts[1..][i - 1] == ts[i];
    }
    if HitByTags(s1, k, ts[1..]) {
      var i, j :| 0 <= i < |ts[1..]| && GetKeyForTag(ts[1..][i]) in s1 && 0 <= j < |s1[k].content.item.tags| &&
                  EqualsIgnoreCase(ts[1..][i], Some(s1[k].content.item.tags[j].0));
      assert ts[i + 1] == ts[1..][i];
    }
  }

  /** The loop over tags that are not blank keeps the number of tag versions. */
  lemma {:induction false} DeleteTagsKeepTagCount<V>(s: Store<V>, cacheName: string, ts: seq<Option<string>>, deleted: bool, now: int)
    requires Inv(s, cacheName)
    requires forall i :: 0 <= i < |ts| ==> ts[i].Some? && !IsNullOrWhiteSpace(ts[i])
    ensures GetTagsCount(DeleteTags(s, cacheName, ts, deleted, now).0, now) == GetTagsCount(s, now)
    decreases |ts|
  {
    if ts != [] {
      var s1 := DeleteFromCacheByTag(s, cacheName, ts[0], now).0;
      DeleteFromCacheByTagSpec(s, cacheName, ts[0], now);
      DeleteByTagKeepsTagCount(s, cacheName, ts[0].value, now);
      DeleteTagsKeepTagCount(s1, cacheName, ts[1..], deleted || GetKeyForTag(ts[0]) in s, now);
    }
  }

  /** DeleteFromCacheByTags over tags that are not blank. */
  lemma DeleteFromCacheByTagsSpec<V>(s: Store<V>, cacheName: string, tags: TagList, now: int)
    requires Inv(s, cacheName)
    requires tags.Some? ==> forall i :: 0 <= i < |tags.value| && tags.value[i].Some? ==> !IsNullOrWhiteSpace(tags.value[i])
    ensures var (s', r) := DeleteFromCacheByTags(s, cacheName, tags, now);
      && Inv(s', cacheName)
      && (tags.None? ==> s' == s && r == Fail(ArgNull("tags")))
      && (tags.Some? ==> (r.Ok? <==> forall i :: 0 <= i < |tags.value| ==> tags.value[i].Some?))
      && (tags.Some? && r.Fail? ==> r.error == ArgNull("tag"))
      && (r.Ok? ==> r.value == exists i :: 0 <= i < |tags.value| && GetKeyForTag(tags.value[i]) in s)
      && (r.Ok? ==> && (forall k :: k in s' ==> k in s)
                    && (forall k :: k in s && !IsTagKey(k) ==>
                          (k in s' <==> !HitByTags(s, k, tags.value)) && (k in s' ==> s'[k] == s[k]))
                    && GetTagsCount(s', now) == GetTagsCount(s, now))
  {
    if tags.Some? {
      DeleteTagsSpec(s, cacheName, tags.value, false, now);
      if forall i :: 0 <= i < |tags.value| ==> tags.value[i].Some? {
        DeleteTagsEvicts(s, cacheName, tags.value, false, now);
        DeleteTagsKeepTagCount(s, cacheName, tags.value, false, now);
      }
    }
  }
}
