/**
 * The .NET string predicates the cache relies on: IsNullOrEmpty,
 * IsNullOrWhiteSpace and the ordinal case-insensitive comparison used to
 * match signals against monitors. Case folding covers ASCII letters only.
 */
module Text {
  import opened Wrappers

  /** string.IsNullOrEmpty */
  predicate IsNullOrEmpty(s: Option<string>) {
    s == None || s == Some("")
  }

  /** char.IsWhiteSpace: the Unicode space separators, the line and paragraph separators, and the control characters TAB to CR and NEL. */
  predicate IsWhiteSpace(c: char) {
    || c == ' ' || ('\t' <= c <= '\r') || c == '\U{85}' || c == '\U{A0}'
    || c == '\U{1680}' || ('\U{2000}' <= c <= '\U{200A}') || c == '\U{2028}' || c == '\U{2029}'
    || c == '\U{202F}' || c == '\U{205F}' || c == '\U{3000}'
  }

  /** string.IsNullOrWhiteSpace */
  predicate IsNullOrWhiteSpace(s: Option<string>) {
    s.None? || forall i :: 0 <= i < |s.value| ==> IsWhiteSpace(s.value[i])
  }

  /** Ordinal upper-casing of one character. */
  function UpperChar(c: char): char {
    if 'a' <= c <= 'z' then (c as int - 32) as char else c
  }

  function Upper(s: string): string {
    if s == [] then [] else [UpperChar(s[0])] + Upper(s[1..])
  }

  /** string.Compare(a, b, StringComparison.OrdinalIgnoreCase) == 0; null equals only null. */
  predicate EqualsIgnoreCase(a: Option<string>, b: Option<string>) {
    match (a, b)
    case (None, None) => true
    case (Some(x), Some(y)) => Upper(x) == Upper(y)
    case _ => false
  }

  /** Upper-casing works character by character. */
  lemma {:induction false} UpperAt(s: string)
    ensures |Upper(s)| == |s|
    ensures forall i :: 0 <= i < |s| ==> Upper(s)[i] == UpperChar(s[i])
  {
    if s != [] {
      UpperAt(s[1..]);
    }
  }

  /** Two strings are equal ignoring case iff they have the same length and agree character by character after folding. */
  lemma EqualsIgnoreCaseCharwise(x: string, y: string)
    ensures EqualsIgnoreCase(Some(x), Some(y)) <==>
              |x| == |y| && forall i :: 0 <= i < |x| ==> UpperChar(x[i]) == UpperChar(y[i])
  {
    UpperAt(x);
    UpperAt(y);
    if |x| == |y| && forall i :: 0 <= i < |x| ==> UpperChar(x[i]) == UpperChar(y[i]) {
      assert Upper(x) == Upper(y);
    }
  }

  /** The comparison is an equivalence, so it partitions names into case-classes. */
  lemma EqualsIgnoreCaseIsEquivalence(a: Option<string>, b: Option<string>, c: Option<string>)
    ensures EqualsIgnoreCase(a, a)
    ensures EqualsIgnoreCase(a, b) ==> EqualsIgnoreCase(b, a)
    ensures EqualsIgnoreCase(a, b) && EqualsIgnoreCase(b, c) ==> EqualsIgnoreCase(a, c)
  {
  }

  /** Ignoring case is strictly coarser than the ordinal key equality of the store. */
  lemma CaseDiffersFromKeyEquality()
    ensures EqualsIgnoreCase(Some("Tag"), Some("tag")) && "Tag" != "tag"
  {
    EqualsIgnoreCaseCharwise("Tag", "tag");
  }

  /** Every null or empty string is blank. */
  lemma NullOrEmptyIsBlank(s: Option<string>)
    ensures IsNullOrEmpty(s) ==> IsNullOrWhiteSpace(s)
  {
  }
}
