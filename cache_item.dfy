/**
 * CacheItem and CacheItem<T>: a stored value with its key and the snapshot
 * of tag versions taken when it was written.
 */
module CacheItems {
  import opened Wrappers

  /** The runtime class of a stored item: CacheItem, or CacheItem<T> for the named T. */
  datatype TypeTag = Untyped | Typed(typeName: string)

  /** How a getter casts what it reads: to CacheItem, or to CacheItem<T>. */
  datatype Access = AsObject | AsType(typeName: string)

  /** The item class a setter with this access builds. */
  function StoredAs(a: Access): TypeTag {
    match a
    case AsObject => Untyped
    case AsType(t) => Typed(t)
  }

  /** Whether the cast of `a` accepts an item of class `t`; generic classes are invariant. */
  predicate Admits(a: Access, t: TypeTag) {
    a.AsObject? || t == Typed(a.typeName)
  }

  /** A C# int. */
  type Int32 = v: int | -0x8000_0000 <= v <= 0x7fff_ffff

  /** A Dictionary<string, int> of tag versions, in enumeration (insertion) order. */
  type TagDict = seq<(string, Int32)>

  /**
   * One stored item. `value` is read both by the base `Value` and by the
   * typed `Value` of CacheItem<T>, which the constructor sets to the same argument.
   */
  datatype CacheItem<V> = CacheItem(key: string, value: V, tags: TagDict, typeTag: TypeTag)

  function Names(d: TagDict): (r: seq<string>)
    ensures |r| == |d|
    ensures forall i :: 0 <= i < |d| ==> r[i] == d[i].0
  {
    if d == [] then [] else [d[0].0] + Names(d[1..])
  }

  predicate DistinctNames(d: TagDict) {
    forall i, j :: 0 <= i < j < |d| ==> d[i].0 != d[j].0
  }

  predicate NoEmptyName(d: TagDict) {
    forall i :: 0 <= i < |d| ==> d[i].0 != ""
  }

  /**
   * The foreach of the constructor: copies `rest` after `acc`, rejecting an
   * empty name (ArgumentException for "tags") and a repeated one (Tags.Add).
   */
  function CopyTags(rest: TagDict, acc: TagDict): Result<TagDict>
    decreases |rest|
  {
    if rest == [] then Ok(acc)
    else if rest[0].0 == "" then Fail(ArgInvalid("tags"))
    else if rest[0].0 in Names(acc) then Fail(DuplicateTag(rest[0].0))
    else CopyTags(rest[1..], acc + [rest[0]])
  }

  /** The constructor CacheItem(key, value, tags), or CacheItem<T> when typeTag is Typed(T). */
  function MakeCacheItem<V>(key: string, value: V, tags: Option<TagDict>, typeTag: TypeTag): Result<CacheItem<V>> {
    if tags.None? then Ok(CacheItem(key, value, [], typeTag))
    else
      var copied :- CopyTags(tags.value, []);
      Ok(CacheItem(key, value, copied, typeTag))
  }

  /** Copying succeeds exactly on valid names, and then appends the pairs unchanged. */
  lemma {:induction false} CopyTagsSpec(rest: TagDict, acc: TagDict)
    requires DistinctNames(acc)
    ensures CopyTags(rest, acc).Ok? <==> NoEmptyName(rest) && DistinctNames(acc + rest)
    ensures CopyTags(rest, acc).Ok? ==> CopyTags(rest, acc).value == acc + rest
    ensures DistinctNames(acc + rest) && !NoEmptyName(rest) ==> CopyTags(rest, acc) == Fail(ArgInvalid("tags"))
    decreases |rest|
  {
    if rest != [] {
      assert acc + rest == (acc + [rest[0]]) + rest[1..];
      if rest[0].0 != "" && rest[0].0 !in Names(acc) {
        CopyTagsSpec(rest[1..], acc + [rest[0]]);
      } else if rest[0].0 != "" {
        var j :| 0 <= j < |acc| && Names(acc)[j] == rest[0].0;
        assert (acc + rest)[j].0 == (acc + rest)[|acc|].0;
      }
    }
  }

  /**
   * The constructor keeps key and value, turns a null dictionary into an empty
   * one, copies a dictionary (distinct names) exactly, and fails with
   * ArgumentException("tags") when some name is empty.
   */
  lemma MakeCacheItemSpec<V>(key: string, value: V, tags: Option<TagDict>, typeTag: TypeTag)
    requires tags.Some? ==> DistinctNames(tags.value)
    ensures var r := MakeCacheItem(key, value, tags, typeTag);
      && (r.Ok? <==> tags.None? || NoEmptyName(tags.value))
      && (r.Fail? ==> r.error == ArgInvalid("tags"))
      && (r.Ok? ==> r.value.key == key && r.value.value == value && r.value.typeTag == typeTag)
      && (r.Ok? ==> r.value.tags == if tags.None? then [] else tags.value)
  {
    if tags.Some? {
      assert [] + tags.value == tags.value;
      CopyTagsSpec(tags.value, []);
    }
  }

  /**
   * The constructor as written: a fresh list filled by a loop. The result does
   * not share the argument, so later changes to the argument cannot reach it.
   */
  method NewCacheItem<V>(key: string, value: V, tags: Option<TagDict>, typeTag: TypeTag)
    returns (r: Result<CacheItem<V>>)
    ensures r == MakeCacheItem(key, value, tags, typeTag)
  {
    var copied: TagDict := [];
    if tags.Some? {
      var d := tags.value;
      var i := 0;
      while i < |d|
        invariant 0 <= i <= |d|
        invariant CopyTags(d, []) == CopyTags(d[i..], copied)
      {
        var name := d[i].0;
        if name == "" {
          return Fail(ArgInvalid("tags"));
        }
        if name in Names(copied) {
          return Fail(DuplicateTag(name));
        }
        assert d[i..][1..] == d[i + 1..];
        copied := copied + [d[i]];
        i := i + 1;
      }
    }
    r := Ok(CacheItem(key, value, copied, typeTag));
  }
}
