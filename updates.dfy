/**
 * What UpdateInCache promises on a store in the invariant shape: it is a
 * SetToCache whose tag list is the valid item's tags followed by the
 * additional ones, so a tag the item already has makes it fail.
 */
module UpdateProperties {
  import opened Wrappers
  import opened CacheItems
  import opened Stores
  import opened Internals
  import opened Operations
  import opened Common
  import opened Invariant
  import opened ReadProperties

  /**
   * UpdateInCache is a SetToCache in every case: on a key with no entry with
   * the additional tags, on a valid item with the item's tags in front of the
   * additional ones, and on a stale item, which the lookup removes, with the
   * additional tags alone. A null key and an entry the cast does not admit
   * fail before anything is stored.
   */
  lemma UpdateIsSet<V>(s: Store<V>, cacheName: string, key: string, value: V, expirationTime: int,
                       tags: TagList, access: Access, now: int)
    requires Inv(s, cacheName)
    ensures UpdateInCache(s, cacheName, None, value, expirationTime, tags, access, now) == (s, Fail(ArgNull("key")))
    ensures Get(s, key, now).None? ==>
      UpdateInCache(s, cacheName, Some(key), value, expirationTime, tags, access, now)
        == SetToCache(s, cacheName, Some(key), value, expirationTime, tags, StoredAs(access), now)
    ensures ValidAt(s, key, access, now) ==>
      UpdateInCache(s, cacheName, Some(key), value, expirationTime, tags, access, now)
        == SetToCache(s, cacheName, Some(key), value, expirationTime,
                      Some(Lift(Names(s[key].content.item.tags)) + tags.GetOr([])), StoredAs(access), now)
    ensures StaleAt(s, key, access, now) ==>
      UpdateInCache(s, cacheName, Some(key), value, expirationTime, tags, access, now)
        == SetToCache(s - {key}, cacheName, Some(key), value, expirationTime, Some(tags.GetOr([])), StoredAs(access), now)
    ensures Get(s, key, now).Some? && !(Get(s, key, now).value.Item? && Admits(access, Get(s, key, now).value.item.typeTag)) ==>
      UpdateInCache(s, cacheName, Some(key), value, expirationTime, tags, access, now) == (s, Fail(CastFailure))
  {
    LookupValidSpec(s, cacheName, key, access, now);
    assert Lift([]) + tags.GetOr([]) == tags.GetOr([]);
    if Get(s, key, now).None? {
      assert TagMonitors(cacheName, Some([])) == TagMonitors(cacheName, None);
    }
  }

  /** The tag loop over `a + b` is the loop over `a` followed, if it succeeded, by the loop over `b`. */
  lemma {:induction false} ResolveTagsAppend<V>(s: Store<V>, cacheName: string, a: seq<Option<string>>, b: seq<Option<string>>,
                                                acc: TagDict, now: int)
    ensures ResolveTags(s, cacheName, a + b, acc, now) ==
      var p := ResolveTags(s, cacheName, a, acc, now);
      if p.1.Fail? then p else ResolveTags(p.0, cacheName, b, p.1.value, now)
    decreases |a|
  {
    if a == [] {
      assert a + b == b;
    } else {
      assert (a + b)[0] == a[0];
      assert (a + b)[1..] == a[1..] + b;
      var step := ResolveTag(s, cacheName, a[0], acc, now);
      if step.1.Ok? {
        ResolveTagsAppend(step.0, cacheName, a[1..], b, step.1.value, now);
      }
    }
  }

  /** The tag names of a well-formed item, read back as a tag list, are acceptable to SetToCache. */
  lemma StoredTagsAcceptable(d: TagDict)
    requires DistinctNames(d) && NoEmptyName(d)
    ensures AcceptableTags(Some(Lift(Names(d))))
  {
  }

  /** The tag loop over fresh tags succeeds and snapshots every one of them. */
  lemma ResolveFreshTags<V>(s: Store<V>, cacheName: string, ts: seq<Option<string>>, now: int)
    requires Inv(s, cacheName)
    requires FreshTags(ts, [])
    ensures var r := ResolveTags(s, cacheName, ts, [], now).1;
      && r.Ok?
      && forall j :: 0 <= j < |ts| ==> ts[j].Some? && ts[j].value in Names(r.value)
  {
    ResolveTagsOk(s, cacheName, ts, [], now);
    ResolveTagsValue(s, cacheName, ts, [], now);
    var acc1 := ResolveTags(s, cacheName, ts, [], now).1.value;
    forall j | 0 <= j < |ts| ensures ts[j].value in Names(acc1) {
      assert Names(acc1)[0 + j] == ts[j].value;
    }
  }

  /** A tag already in the dictionary makes the tag loop fail on it, whatever the store. */
  lemma ResolveRepeatedTag<V>(s: Store<V>, cacheName: string, t: string, acc: TagDict, now: int)
    requires Inv(s, cacheName)
    requires t in Names(acc)
    ensures ResolveTags(s, cacheName, [Some(t)], acc, now).1 == Fail(DuplicateTag(t))
  {
    TagKeyRead(s, cacheName, Some(t), now);
  }

  /**
   * Updating a valid item with a tag it already carries throws the
   * Dictionary's duplicate-key exception for that tag.
   */
  lemma UpdateRepeatedTagFails<V>(s: Store<V>, cacheName: string, key: string, value: V, expirationTime: int,
                                  t: string, access: Access, now: int)
    requires Inv(s, cacheName)
    requires ValidAt(s, key, access, now)
    requires expirationTime >= 0
    requires t in Names(s[key].content.item.tags)
    ensures UpdateInCache(s, cacheName, Some(key), value, expirationTime, Some([Some(t)]), access, now).1 == Fail(DuplicateTag(t))
  {
    UpdateIsSet(s, cacheName, key, value, expirationTime, Some([Some(t)]), access, now);
    assert !IsTagKey(key);
    var names := Names(s[key].content.item.tags);
    var carried := Lift(names);
    assert FreshTags(carried, []);
    ResolveTagsAppend(s, cacheName, carried, [Some(t)], [], now);
    ResolveFreshTags(s, cacheName, carried, now);
    ResolveTagsInv(s, cacheName, carried, [], now);
    var (s1, acc1) := ResolveTags(s, cacheName, carried, [], now);
    assert t in Names(acc1.value) by {
      var j :| 0 <= j < |names| && names[j] == t;
      assert carried[j] == Some(t);
    }
    ResolveRepeatedTag(s1, cacheName, t, acc1.value, now);
  }

  /**
   * Updating a valid item with new acceptable tags keeps its old tags and
   * appends the new ones, as GetTagsForItem then reports.
   */
  lemma UpdateMergesTags<V>(s: Store<V>, cacheName: string, key: string, value: V, expirationTime: int,
                            tags: TagList, access: Access, now: int)
    requires Inv(s, cacheName)
    requires ValidAt(s, key, access, now)
    requires expirationTime >= 0
    requires AcceptableTags(Some(Lift(Names(s[key].content.item.tags)) + tags.GetOr([])))
    ensures var (s', r) := UpdateInCache(s, cacheName, Some(key), value, expirationTime, tags, access, now);
      && r == Ok(true)
      && GetTagsForItem(s', Some(key), now).1.Ok?
      && Lift(GetTagsForItem(s', Some(key), now).1.value) == Lift(Names(s[key].content.item.tags)) + tags.GetOr([])
      && GetFromCache(s', Some(key), access, now) == (s', Ok(value))
  {
    UpdateIsSet(s, cacheName, key, value, expirationTime, tags, access, now);
    assert !IsTagKey(key);
    var merged := Some(Lift(Names(s[key].content.item.tags)) + tags.GetOr([]));
    SetToCacheOutcome(s, cacheName, Some(key), value, expirationTime, merged, StoredAs(access), now);
    SetThenGet(s, cacheName, key, value, expirationTime, merged, StoredAs(access), access, now, now, value);
  }

  /**
   * GetTagsForItem, which UpdateInCache calls after its own lookup has found a
   * valid item, finds the same item again, whatever cast the first lookup
   * used, and reports its tag names without changing the store.
   */
  lemma TagsOfValidItem<V>(s: Store<V>, key: string, access: Access, now: int)
    requires LookupValid(s, key, access, now).1.Ok? && LookupValid(s, key, access, now).1.value.Some?
    ensures var (s1, r) := LookupValid(s, key, access, now);
      GetTagsForItem(s1, Some(key), now) == (s1, Ok(Names(r.value.value.tags)))
  {
    if access.AsType? {
      TypedCastImpliesUntyped(Get(s, key, now), access.typeName);
    }
  }

  /**
   * Updating a valid item with no additional tags, null or empty, succeeds and
   * leaves its tag names exactly as they were.
   */
  lemma UpdateWithoutTagsKeepsTags<V>(s: Store<V>, cacheName: string, key: string, value: V, expirationTime: int,
                                      tags: TagList, access: Access, now: int)
    requires Inv(s, cacheName)
    requires ValidAt(s, key, access, now)
    requires expirationTime >= 0
    requires tags.None? || tags == Some([])
    ensures var (s', r) := UpdateInCache(s, cacheName, Some(key), value, expirationTime, tags, access, now);
      && r == Ok(true)
      && GetTagsForItem(s', Some(key), now).1 == Ok(Names(s[key].content.item.tags))
  {
    var d := s[key].content.item.tags;
    var names := Names(d);
    assert !IsTagKey(key);
    assert Lift(names) + tags.GetOr([]) == Lift(names);
    StoredTagsAcceptable(d);
    UpdateMergesTags(s, cacheName, key, value, expirationTime, tags, access, now);
    var s' := UpdateInCache(s, cacheName, Some(key), value, expirationTime, tags, access, now).0;
    var got := GetTagsForItem(s', Some(key), now).1.value;
    assert |got| == |names|;
    forall i | 0 <= i < |got| ensures got[i] == names[i] {
      assert Lift(got)[i] == Lift(names)[i];
    }
    assert got == names;
  }
}
