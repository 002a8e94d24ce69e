/**
 * The shape of a store that only this service writes to: tag keys hold
 * never-expiring version entries, every other key holds the item stored
 * under it, whose snapshot names tags that have a version entry and whose
 * monitors are the ones SetToCache gives it. Every operation keeps this
 * shape as long as callers do not use reserved "_tags/" keys themselves.
 */
module Invariant {
  import opened Wrappers
  import opened Text
  import opened CacheItems
  import opened Monitors
  import opened Stores
  import opened Internals
  import opened Operations
  import opened Common

  /** The monitors SetToCache gives an item whose snapshot is `d`. */
  function ItemMonitors(cacheName: string, d: TagDict): seq<Monitor> {
    TagMonitors(cacheName, Some(Lift(Names(d))))
  }

  predicate HasTagEntry<V>(s: Store<V>, t: string) {
    GetKeyForTag(Some(t)) in s
  }

  /** A version entry never expires and is reached by cache-wide signals at most. */
  predicate TagEntryOk<V>(e: Entry<V>, cacheName: string) {
    && e.content.TagItem?
    && e.policy.expiresAt.None?
    && forall j :: 0 <= j < |e.policy.monitors| ==> e.policy.monitors[j] == Monitor(cacheName, None)
  }

  predicate ItemEntryOk<V>(s: Store<V>, k: string, cacheName: string)
    requires k in s
  {
    && s[k].content.Item?
    && s[k].content.item.key == k
    && DistinctNames(s[k].content.item.tags)
    && NoEmptyName(s[k].content.item.tags)
    && (forall i :: 0 <= i < |s[k].content.item.tags| ==> HasTagEntry(s, s[k].content.item.tags[i].0))
    && s[k].policy.monitors == ItemMonitors(cacheName, s[k].content.item.tags)
  }

  predicate Inv<V>(s: Store<V>, cacheName: string) {
    forall k :: k in s ==> if IsTagKey(k) then TagEntryOk(s[k], cacheName) else ItemEntryOk(s, k, cacheName)
  }

  lemma EmptyInv<V>(s: Store<V>, cacheName: string)
    requires s == map[]
    ensures Inv(s, cacheName)
  {
  }

  /** Reading a tag key: the version entry if there is one, else nothing. */
  lemma TagKeyRead<V>(s: Store<V>, cacheName: string, tag: Option<string>, now: int)
    requires Inv(s, cacheName)
    ensures IsTagKey(GetKeyForTag(tag))
    ensures GetKeyForTag(tag) in s ==> Get(s, GetKeyForTag(tag), now) == Some(s[GetKeyForTag(tag)].content)
    ensures GetKeyForTag(tag) in s ==> s[GetKeyForTag(tag)].content.TagItem?
    ensures GetKeyForTag(tag) !in s ==> Get(s, GetKeyForTag(tag), now) == None
  {
    TagKeyRoundTrip(tag.GetOr(""));
  }

  /** Every stored item can be validated without an exception. */
  lemma InvResolvable<V>(s: Store<V>, cacheName: string, k: string, now: int)
    requires Inv(s, cacheName)
    requires k in s && !IsTagKey(k)
    ensures s[k].content.Item?
    ensures Resolvable(s, s[k].content.item.tags, now)
  {
    var d := s[k].content.item.tags;
    forall i | 0 <= i < |d|
      ensures var c := Get(s, GetKeyForTag(Some(d[i].0)), now); c.Some? && c.value.TagItem?
    {
      TagKeyRead(s, cacheName, Some(d[i].0), now);
    }
  }

  /** Removing item keys keeps the shape. */
  lemma RemovePreservesInv<V>(s: Store<V>, cacheName: string, ks: set<string>)
    requires Inv(s, cacheName)
    requires forall k :: k in ks ==> !IsTagKey(k)
    ensures Inv(s - ks, cacheName)
  {
    var r := s - ks;
    forall k | k in r && !IsTagKey(k)
      ensures ItemEntryOk(r, k, cacheName)
    {
      var d := s[k].content.item.tags;
      forall i | 0 <= i < |d|
        ensures HasTagEntry(r, d[i].0)
      {
        TagKeyRoundTrip(d[i].0);
      }
    }
  }

  /** Storing a well-formed item under a non-reserved key keeps the shape. */
  lemma PutItemPreservesInv<V>(s: Store<V>, cacheName: string, k: string, e: Entry<V>)
    requires Inv(s, cacheName)
    requires !IsTagKey(k)
    requires e.content.Item? && e.content.item.key == k
    requires DistinctNames(e.content.item.tags) && NoEmptyName(e.content.item.tags)
    requires forall i :: 0 <= i < |e.content.item.tags| ==> HasTagEntry(s, e.content.item.tags[i].0)
    requires e.policy.monitors == ItemMonitors(cacheName, e.content.item.tags)
    ensures Inv(s[k := e], cacheName)
  {
  }

  /** Storing a well-formed version entry under a reserved key keeps the shape. */
  lemma PutTagPreservesInv<V>(s: Store<V>, cacheName: string, k: string, e: Entry<V>)
    requires Inv(s, cacheName)
    requires IsTagKey(k) && TagEntryOk(e, cacheName)
    ensures Inv(s[k := e], cacheName)
  {
    var r := s[k := e];
    forall j | j in r && !IsTagKey(j)
      ensures ItemEntryOk(r, j, cacheName)
    {
      assert r[j] == s[j];
    }
  }

  /**
   * A signal keeps the shape: a version entry is removed only by a cache-wide
   * signal, and that signal removes every item as well.
   */
  lemma SignalPreservesInv<V>(s: Store<V>, cacheName: string, n: Option<string>)
    requires Inv(s, cacheName)
    ensures Inv(Signal(s, cacheName, n), cacheName)
  {
    var r := Signal(s, cacheName, n);
    EqualsIgnoreCaseIsEquivalence(Some(cacheName), Some(cacheName), Some(cacheName));
    forall k | k in r && !IsTagKey(k)
      ensures ItemEntryOk(r, k, cacheName)
    {
      var d := s[k].content.item.tags;
      var ms := ItemMonitors(cacheName, d);
      assert ms[0].cacheName == cacheName;
      assert !Reacts(ms[0], cacheName, n);
      forall i | 0 <= i < |d|
        ensures HasTagEntry(r, d[i].0)
      {
        var tk := GetKeyForTag(Some(d[i].0));
        TagKeyRoundTrip(d[i].0);
      }
    }
  }

  /** The version SetToCache snapshots for a tag: the stored one, or 1 for a new tag. */
  function VersionOf<V>(s: Store<V>, t: string, now: int): Int32 {
    var c := Get(s, GetKeyForTag(Some(t)), now);
    if c.Some? && c.value.TagItem? then c.value.version else 1
  }

  /** `s'` is `s` with some version entries added, each new at version 1. */
  ghost predicate AddsTagEntries<V>(s: Store<V>, s': Store<V>, cacheName: string) {
    && (forall k :: k in s ==> k in s' && s'[k] == s[k])
    && (forall k :: k in s' && k !in s ==> IsTagKey(k) && s'[k] == NewTagEntry(cacheName))
  }

  /** Every tag is non-null, not yet in `acc`, and not repeated. */
  predicate FreshTags(ts: seq<Option<string>>, acc: TagDict) {
    forall i :: 0 <= i < |ts| ==>
      && ts[i].Some?
      && ts[i].value !in Names(acc)
      && forall j :: 0 <= j < i ==> ts[j] != ts[i]
  }

  lemma FreshTagsCons(ts: seq<Option<string>>, acc: TagDict, v: Int32)
    requires |ts| > 0
    ensures FreshTags(ts, acc) <==>
      ts[0].Some? && ts[0].value !in Names(acc) && FreshTags(ts[1..], acc + [(ts[0].value, v)])
  {
    if ts[0].Some? {
      var acc' := acc + [(ts[0].value, v)];
      assert forall x :: x in Names(acc') <==> x in Names(acc) || x == ts[0].value by {
        forall x ensures x in Names(acc') <==> x in Names(acc) || x == ts[0].value {
          if x in Names(acc) {
            var j :| 0 <= j < |acc| && Names(acc)[j] == x;
            assert Names(acc')[j] == x;
          }
          if x == ts[0].value {
            assert Names(acc')[|acc|] == x;
          }
          if x in Names(acc') {
            var j :| 0 <= j < |acc'| && Names(acc')[j] == x;
            if j < |acc| { assert Names(acc)[j] == x; }
          }
        }
      }
      if FreshTags(ts[1..], acc') && ts[0].value !in Names(acc) {
        forall i | 0 <= i < |ts|
          ensures ts[i].Some? && ts[i].value !in Names(acc) && forall j :: 0 <= j < i ==> ts[j] != ts[i]
        {
          if i > 0 {
            assert ts[i] == ts[1..][i - 1];
            forall j | 0 <= j < i ensures ts[j] != ts[i] {
              if j > 0 { assert ts[j] == ts[1..][j - 1]; }
            }
          }
        }
      }
      if FreshTags(ts, acc) {
        forall i | 0 <= i < |ts| - 1
          ensures ts[1..][i].Some? && ts[1..][i].value !in Names(acc')
          ensures forall j :: 0 <= j < i ==> ts[1..][j] != ts[1..][i]
        {
          assert ts[1..][i] == ts[i + 1];
          assert ts[0] != ts[i + 1];
          forall j | 0 <= j < i ensures ts[1..][j] != ts[1..][i] {
            assert ts[1..][j] == ts[j + 1];
          }
        }
      }
    }
  }

  /** One pass of the tag loop under the invariant. */
  lemma ResolveTagStep<V>(s: Store<V>, cacheName: string, tag: Option<string>, acc: TagDict, now: int)
    requires Inv(s, cacheName)
    ensures var (s1, r) := ResolveTag(s, cacheName, tag, acc, now);
      && Inv(s1, cacheName)
      && AddsTagEntries(s, s1, cacheName)
      && (forall k :: k in s1 && k != GetKeyForTag(tag) ==> k in s)
      && (r.Ok? <==> tag.Some? && tag.value !in Names(acc))
      && (tag.None? ==> r == Fail(ArgNull("key")))
      && (tag.Some? && tag.value in Names(acc) ==> r == Fail(DuplicateTag(tag.value)))
      && (r.Ok? ==> r.value == acc + [(tag.value, VersionOf(s, tag.value, now))])
      && (tag.Some? ==> Get(s1, GetKeyForTag(tag), now) == Some(TagItem(VersionOf(s, tag.value, now))))
  {
    var tk := GetKeyForTag(tag);
    TagKeyRead(s, cacheName, tag, now);
    if tk !in s {
      PutTagPreservesInv(s, cacheName, tk, NewTagEntry(cacheName));
    }
  }

  lemma AddsTagEntriesTransitive<V>(s: Store<V>, s1: Store<V>, s2: Store<V>, cacheName: string)
    requires AddsTagEntries(s, s1, cacheName) && AddsTagEntries(s1, s2, cacheName)
    ensures AddsTagEntries(s, s2, cacheName)
  {
  }

  /** The tag loop of SetToCache keeps the shape and only adds version entries. */
  lemma {:induction false} ResolveTagsInv<V>(s: Store<V>, cacheName: string, ts: seq<Option<string>>, acc: TagDict, now: int)
    requires Inv(s, cacheName)
    ensures var (s', r) := ResolveTags(s, cacheName, ts, acc, now);
      && Inv(s', cacheName)
      && AddsTagEntries(s, s', cacheName)
      && (r.Fail? ==> r.error == ArgNull("key") || r.error.DuplicateTag?)
    decreases |ts|
  {
    if ts != [] {
      var step := ResolveTag(s, cacheName, ts[0], acc, now);
      ResolveTagStep(s, cacheName, ts[0], acc, now);
      if step.1.Ok? {
        ResolveTagsInv(step.0, cacheName, ts[1..], step.1.value, now);
        AddsTagEntriesTransitive(s, step.0, ResolveTags(step.0, cacheName, ts[1..], step.1.value, now).0, cacheName);
      }
    }
  }

  /** The tag loop of SetToCache succeeds exactly on non-null tags that are new and distinct. */
  lemma {:induction false} ResolveTagsOk<V>(s: Store<V>, cacheName: string, ts: seq<Option<string>>, acc: TagDict, now: int)
    requires Inv(s, cacheName)
    ensures ResolveTags(s, cacheName, ts, acc, now).1.Ok? <==> FreshTags(ts, acc)
    decreases |ts|
  {
    if ts != [] {
      var step := ResolveTag(s, cacheName, ts[0], acc, now);
      ResolveTagStep(s, cacheName, ts[0], acc, now);
      FreshTagsCons(ts, acc, VersionOf(s, ts[0].GetOr(""), now));
      if step.1.Ok? {
        ResolveTagsOk(step.0, cacheName, ts[1..], step.1.value, now);
      }
    }
  }

  /**
   * When the tag loop succeeds it snapshots, after `acc`, every tag with its
   * stored version, or 1 for a tag it has just created, and leaves the store
   * holding exactly those versions.
   */
  lemma {:induction false} ResolveTagsValue<V>(s: Store<V>, cacheName: string, ts: seq<Option<string>>, acc: TagDict, now: int)
    requires Inv(s, cacheName)
    requires ResolveTags(s, cacheName, ts, acc, now).1.Ok?
    ensures var (s', r) := ResolveTags(s, cacheName, ts, acc, now);
      && |r.value| == |acc| + |ts| && r.value[..|acc|] == acc
      && forall i :: 0 <= i < |ts| ==>
           && ts[i].Some?
           && r.value[|acc| + i] == (ts[i].value, VersionOf(s, ts[i].value, now))
           && Get(s', GetKeyForTag(ts[i]), now) == Some(TagItem(VersionOf(s, ts[i].value, now)))
    decreases |ts|
  {
    if ts != [] {
      var step := ResolveTag(s, cacheName, ts[0], acc, now);
      var s1 := step.0;
      ResolveTagStep(s, cacheName, ts[0], acc, now);
      var acc' := step.1.value;
      ResolveTagsValue(s1, cacheName, ts[1..], acc', now);
      ResolveTagsInv(s1, cacheName, ts[1..], acc', now);
      ResolveTagsOk(s, cacheName, ts, acc, now);
      var (s', r) := ResolveTags(s1, cacheName, ts[1..], acc', now);
      assert r.value[..|acc|] == acc by {
        assert r.value[..|acc'|] == acc';
        assert acc'[..|acc|] == acc;
      }
      forall i | 0 <= i < |ts|
        ensures ts[i].Some?
        ensures r.value[|acc| + i] == (ts[i].value, VersionOf(s, ts[i].value, now))
        ensures Get(s', GetKeyForTag(ts[i]), now) == Some(TagItem(VersionOf(s, ts[i].value, now)))
      {
        if i == 0 {
          assert r.value[|acc|] == r.value[..|acc'|][|acc|];
          assert GetKeyForTag(ts[0]) in s1;
        } else {
          assert ts[i] == ts[1..][i - 1];
          assert ts[0] != ts[i];
          TagKeyInjective(ts[0].value, ts[i].value);
          LaterTagUnaffected(s, s1, cacheName, GetKeyForTag(ts[0]), ts[i].value, now);
          assert |acc| + i == |acc'| + (i - 1);
        }
      }
    }
  }

  /** A tag other than the one just resolved reads the same version before and after. */
  lemma LaterTagUnaffected<V>(s: Store<V>, s1: Store<V>, cacheName: string, tk0: string, t: string, now: int)
    requires AddsTagEntries(s, s1, cacheName)
    requires forall k :: k in s1 && k != tk0 ==> k in s
    requires GetKeyForTag(Some(t)) != tk0
    ensures Get(s1, GetKeyForTag(Some(t)), now) == Get(s, GetKeyForTag(Some(t)), now)
  {
  }

  /** SetToCache accepts: non-null, non-empty, pairwise different tag names. */
  predicate AcceptableTags(tags: TagList) {
    tags.Some? ==> FreshTags(tags.value, []) && forall i :: 0 <= i < |tags.value| ==> tags.value[i] != Some("")
  }

  /** The snapshot SetToCache takes of a list without null tags. */
  function SnapshotOf<V>(s: Store<V>, tags: TagList, now: int): (d: TagDict)
    requires tags.Some? ==> forall i :: 0 <= i < |tags.value| ==> tags.value[i].Some?
    ensures tags.None? ==> d == []
    ensures tags.Some? ==> |d| == |tags.value|
    ensures tags.Some? ==> forall i :: 0 <= i < |d| ==> d[i] == (tags.value[i].value, VersionOf(s, tags.value[i].value, now))
  {
    if tags.None? then []
    else seq(|tags.value|, i requires 0 <= i < |tags.value| && tags.value[i].Some? =>
               (tags.value[i].value, VersionOf(s, tags.value[i].value, now)))
  }

  /** The dictionary the tag loop of SetToCache builds from a list of acceptable tags. */
  lemma ResolvedSnapshot<V>(s: Store<V>, cacheName: string, ts: seq<Option<string>>, now: int)
    requires Inv(s, cacheName)
    requires ResolveTags(s, cacheName, ts, [], now).1.Ok?
    ensures var (s1, rd) := ResolveTags(s, cacheName, ts, [], now);
      && Inv(s1, cacheName)
      && AddsTagEntries(s, s1, cacheName)
      && FreshTags(ts, [])
      && rd.value == SnapshotOf(s, Some(ts), now)
      && DistinctNames(rd.value)
      && Lift(Names(rd.value)) == ts
      && (NoEmptyName(rd.value) <==> forall i :: 0 <= i < |ts| ==> ts[i] != Some(""))
      && forall i :: 0 <= i < |rd.value| ==>
           && IsTagKey(GetKeyForTag(Some(rd.value[i].0)))
           && Get(s1, GetKeyForTag(Some(rd.value[i].0)), now) == Some(TagItem(rd.value[i].1))
  {
    ResolveTagsInv(s, cacheName, ts, [], now);
    ResolveTagsOk(s, cacheName, ts, [], now);
    ResolveTagsValue(s, cacheName, ts, [], now);
    var (s1, rd) := ResolveTags(s, cacheName, ts, [], now);
    var d := rd.value;
    assert d == SnapshotOf(s, Some(ts), now);
    assert Lift(Names(d)) == ts;
    forall i | 0 <= i < |d|
      ensures IsTagKey(GetKeyForTag(Some(d[i].0)))
      ensures Get(s1, GetKeyForTag(Some(d[i].0)), now) == Some(TagItem(d[i].1))
    {
      TagKeyRoundTrip(d[i].0);
      assert GetKeyForTag(Some(d[i].0)) == GetKeyForTag(ts[i]);
    }
  }

  /**
   * The outcome of SetToCache under the invariant, for a key that is not
   * reserved: it succeeds exactly when the expiration is not negative, the key
   * is not null and the tags are acceptable, and a failure is one of the
   * argument exceptions, never a cast or null-reference failure. Each names
   * its parameter: "expirationTime" for a negative expiration, "tags" for an
   * empty tag name (the CacheItem constructor), and "key" for a null key
   * (MemoryCache.Set) or a null tag (Dictionary.Add).
   */
  lemma SetToCacheOutcome<V>(s: Store<V>, cacheName: string, key: Option<string>, value: V, expirationTime: int,
                             tags: TagList, typeTag: TypeTag, now: int)
    requires Inv(s, cacheName)
    ensures var r := SetToCache(s, cacheName, key, value, expirationTime, tags, typeTag, now).1;
      && (r.Ok? <==> expirationTime >= 0 && key.Some? && AcceptableTags(tags))
      && (r.Ok? ==> r.value)
      && (expirationTime < 0 ==> r == Fail(ArgInvalid("expirationTime")))
      && (r.Fail? ==> || r.error == ArgInvalid("expirationTime") || r.error == ArgInvalid("tags")
                      || r.error == ArgNull("key") || r.error.DuplicateTag?)
      && (expirationTime >= 0 && key.None? && AcceptableTags(tags) ==> r == Fail(ArgNull("key")))
      && (expirationTime >= 0 && tags.Some? && FreshTags(tags.value, []) && Some("") in tags.value ==>
            r == Fail(ArgInvalid("tags")))
      && (expirationTime >= 0 && tags.Some? && |tags.value| > 0 && tags.value[0].None? ==> r == Fail(ArgNull("key")))
  {
    if expirationTime >= 0 {
      if tags.Some? && |tags.value| > 0 {
        var ts := tags.value;
        ResolveTagsInv(s, cacheName, ts, [], now);
        ResolveTagsOk(s, cacheName, ts, [], now);
        if ResolveTags(s, cacheName, ts, [], now).1.Ok? {
          ResolvedSnapshot(s, cacheName, ts, now);
          MakeCacheItemSpec(key.GetOr(""), value, Some(ResolveTags(s, cacheName, ts, [], now).1.value), typeTag);
        }
      } else {
        MakeCacheItemSpec(key.GetOr(""), value, None, typeTag);
      }
    }
  }

  /** SetToCache keeps the shape of the store, for a key that is not reserved. */
  lemma SetToCacheInv<V>(s: Store<V>, cacheName: string, key: Option<string>, value: V, expirationTime: int,
                         tags: TagList, typeTag: TypeTag, now: int)
    requires Inv(s, cacheName)
    requires key.Some? ==> !IsTagKey(key.value)
    ensures Inv(SetToCache(s, cacheName, key, value, expirationTime, tags, typeTag, now).0, cacheName)
  {
    if expirationTime >= 0 {
      if tags.Some? && |tags.value| > 0 {
        var ts := tags.value;
        ResolveTagsInv(s, cacheName, ts, [], now);
        var s1 := ResolveTags(s, cacheName, ts, [], now).0;
        var rd := ResolveTags(s, cacheName, ts, [], now).1;
        if rd.Ok? {
          ResolvedSnapshot(s, cacheName, ts, now);
          var d := rd.value;
          MakeCacheItemSpec(key.GetOr(""), value, Some(d), typeTag);
          if NoEmptyName(d) && key.Some? {
            var e := Entry(Item(CacheItem(key.value, value, d, typeTag)), GetPolicy(expirationTime, tags, cacheName, now));
            PutItemPreservesInv(s1, cacheName, key.value, e);
          }
        }
      } else {
        MakeCacheItemSpec(key.GetOr(""), value, None, typeTag);
        if key.Some? {
          var e := Entry(Item(CacheItem(key.value, value, [], typeTag)), GetPolicy(expirationTime, tags, cacheName, now));
          assert Lift(Names([])) == [];
          PutItemPreservesInv(s, cacheName, key.value, e);
        }
      }
    }
  }

  /**
   * What SetToCache leaves in the store, for a key that is not reserved: the
   * shape is kept, and no entry but the key's own changes, except that
   * version entries may be added.
   */
  lemma SetToCacheKeepsOthers<V>(s: Store<V>, cacheName: string, key: Option<string>, value: V, expirationTime: int,
                                 tags: TagList, typeTag: TypeTag, now: int)
    requires Inv(s, cacheName)
    requires key.Some? ==> !IsTagKey(key.value)
    ensures var s' := SetToCache(s, cacheName, key, value, expirationTime, tags, typeTag, now).0;
      && Inv(s', cacheName)
      && (expirationTime < 0 ==> s' == s)
      && (forall k :: k in s && (key.None? || k != key.value) ==> k in s' && s'[k] == s[k])
      && (forall k :: k in s' && k !in s && (key.None? || k != key.value) ==> IsTagKey(k))
  {
    SetToCacheInv(s, cacheName, key, value, expirationTime, tags, typeTag, now);
    if expirationTime >= 0 && tags.Some? && |tags.value| > 0 {
      ResolveTagsInv(s, cacheName, tags.value, [], now);
    }
  }

  /**
   * A successful SetToCache stores the item under its key with the version
   * each tag had (1 for a new tag), and those versions are the current ones.
   */
  lemma SetToCacheStores<V>(s: Store<V>, cacheName: string, key: Option<string>, value: V, expirationTime: int,
                            tags: TagList, typeTag: TypeTag, now: int)
    requires Inv(s, cacheName)
    requires key.Some? && !IsTagKey(key.value)
    requires SetToCache(s, cacheName, key, value, expirationTime, tags, typeTag, now).1.Ok?
    ensures AcceptableTags(tags)
    ensures var s' := SetToCache(s, cacheName, key, value, expirationTime, tags, typeTag, now).0;
      && s'[key.value] == Entry(Item(CacheItem(key.value, value, SnapshotOf(s, tags, now), typeTag)),
                                GetPolicy(expirationTime, tags, cacheName, now))
      && SnapshotCurrent(s', SnapshotOf(s, tags, now), now)
  {
    SetToCacheOutcome(s, cacheName, key, value, expirationTime, tags, typeTag, now);
    if tags.Some? && |tags.value| > 0 {
      var ts := tags.value;
      ResolvedSnapshot(s, cacheName, ts, now);
      var s1 := ResolveTags(s, cacheName, ts, [], now).0;
      var d := ResolveTags(s, cacheName, ts, [], now).1.value;
      MakeCacheItemSpec(key.value, value, Some(d), typeTag);
      var e := Entry(Item(CacheItem(key.value, value, d, typeTag)), GetPolicy(expirationTime, tags, cacheName, now));
      assert SetToCache(s, cacheName, key, value, expirationTime, tags, typeTag, now).0 == s1[key.value := e];
      PutKeepsSnapshot(s1, key.value, e, d, now);
    } else {
      MakeCacheItemSpec(key.value, value, None, typeTag);
    }
  }

  /** Storing under a non-reserved key leaves every tag version as it was. */
  lemma PutKeepsSnapshot<V>(s: Store<V>, k: string, e: Entry<V>, d: TagDict, now: int)
    requires !IsTagKey(k)
    requires forall i :: 0 <= i < |d| ==>
      IsTagKey(GetKeyForTag(Some(d[i].0))) && Get(s, GetKeyForTag(Some(d[i].0)), now) == Some(TagItem(d[i].1))
    ensures SnapshotCurrent(s[k := e], d, now)
  {
  }
}
