/**
 * Keys under the reserved "_tags/" prefix share the namespace of user keys,
 * and nothing stops a caller from using them. The invariant every other
 * lemma assumes therefore needs callers to keep out of that prefix.
 */
module ReservedKeys {
  import opened Wrappers
  import opened CacheItems
  import opened Stores
  import opened Internals
  import opened Operations
  import opened Common

  /**
   * Deleting "_tags/t" directly drops the version an item snapshotted, and
   * reading that item then dereferences a missing entry.
   */
  lemma DeletingReservedKeyBreaksReads(empty: Store<int>)
    requires empty == map[]
    ensures var s1 := SetToCache(empty, "c", Some("k"), 7, 0, Some([Some("t")]), Untyped, 0).0;
      var s2 := DeleteFromCache(s1, Some("_tags/t"), 0).0;
      GetFromCache(s2, Some("k"), AsObject, 0).1 == Fail(NullReference)
  {
    var tk := GetKeyForTag(Some("t"));
    assert tk == "_tags/t";
    var s0 := empty[tk := NewTagEntry("c")];
    assert Get(empty, tk, 0) == None;
    assert "t" !in Names([]);
    assert ResolveTag(empty, "c", Some("t"), [], 0).0 == s0;
    assert ResolveTag(empty, "c", Some("t"), [], 0).1 == Ok([] + [("t", 1)]);
    assert [] + [("t", 1)] == [("t", 1)];
    assert ResolveTag(empty, "c", Some("t"), [], 0) == (s0, Ok([("t", 1)]));
    assert ResolveTags(empty, "c", [Some("t")], [], 0) == (s0, Ok([("t", 1)]));
    var item := CacheItem("k", 7, [("t", 1)], Untyped);
    assert MakeCacheItem("k", 7, Some([("t", 1)]), Untyped) == Ok(item);
    var s1 := s0["k" := Entry(Item(item), GetPolicy(0, Some([Some("t")]), "c", 0))];
    assert SetToCache(empty, "c", Some("k"), 7, 0, Some([Some("t")]), Untyped, 0).0 == s1;
    var s2 := s1 - {tk};
    assert Get(s2, "k", 0) == Some(Item(item));
    assert CheckTags(s2, item.tags, 0) == Fail(NullReference);
  }

  /**
   * Storing an item under "_tags/t" makes every later SetToCache with tag "t"
   * fail with a cast exception.
   */
  lemma ItemUnderReservedKeyBreaksSets(empty: Store<int>)
    requires empty == map[]
    ensures var s1 := SetToCache(empty, "c", Some("_tags/t"), 7, 0, None, Untyped, 0).0;
      SetToCache(s1, "c", Some("k"), 8, 0, Some([Some("t")]), Untyped, 0).1 == Fail(CastFailure)
  {
    assert GetKeyForTag(Some("t")) == "_tags/t";
  }
}
