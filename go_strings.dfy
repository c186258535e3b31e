/** The few functions of Go's strings package that the attribute matchers
    call, stated as plain properties of byte sequences. */
module GoStrings {
  import opened Ascii

  /** strings.HasPrefix */
  predicate HasPrefix(s: Bytes, prefix: Bytes) {
    |prefix| <= |s| && s[..|prefix|] == prefix
  }

  /** strings.HasSuffix */
  predicate HasSuffix(s: Bytes, suffix: Bytes) {
    |suffix| <= |s| && s[|s| - |suffix|..] == suffix
  }

  /** sub occurs in s starting at offset i. */
  predicate OccursAt(s: Bytes, sub: Bytes, i: int) {
    0 <= i && i + |sub| <= |s| && s[i..i + |sub|] == sub
  }

  /** strings.Contains */
  predicate Contains(s: Bytes, sub: Bytes) {
    exists i | 0 <= i <= |s| - |sub| :: OccursAt(s, sub, i)
  }

  /** strings.IndexAny for a set of ASCII bytes: the index of the first byte
      of s that is one of chars, or -1 when there is none. */
  function IndexAny(s: Bytes, chars: Bytes): (i: int)
    ensures -1 <= i < |s|
    ensures i == -1 <==> forall k :: 0 <= k < |s| ==> s[k] !in chars
    ensures 0 <= i ==> s[i] in chars && forall k :: 0 <= k < i ==> s[k] !in chars
  {
    IndexAnyFrom(s, chars, 0)
  }

  /** The scan behind IndexAny, from index k on. */
  function IndexAnyFrom(s: Bytes, chars: Bytes, k: nat): (i: int)
    requires k <= |s|
    ensures -1 <= i < |s|
    ensures i == -1 <==> forall j :: k <= j < |s| ==> s[j] !in chars
    ensures 0 <= i ==> k <= i && s[i] in chars && forall j :: k <= j < i ==> s[j] !in chars
    decreases |s| - k
  {
    if k == |s| then -1
    else if s[k] in chars then k
    else IndexAnyFrom(s, chars, k + 1)
  }

  lemma HasPrefixMeaning(s: Bytes, prefix: Bytes)
    ensures HasPrefix(s, prefix) <==> exists rest :: s == prefix + rest
  {
    if HasPrefix(s, prefix) {
      assert s == prefix + s[|prefix|..];
    }
    forall rest | s == prefix + rest
      ensures HasPrefix(s, prefix)
    {
      assert s[..|prefix|] == prefix;
    }
  }

  lemma HasSuffixMeaning(s: Bytes, suffix: Bytes)
    ensures HasSuffix(s, suffix) <==> exists rest :: s == rest + suffix
  {
    if HasSuffix(s, suffix) {
      assert s == s[..|s| - |suffix|] + suffix;
    }
    forall rest | s == rest + suffix
      ensures HasSuffix(s, suffix)
    {
      assert s[|s| - |suffix|..] == suffix;
    }
  }

  lemma ContainsMeaning(s: Bytes, sub: Bytes)
    ensures Contains(s, sub) <==> exists u, v :: s == u + sub + v
  {
    if Contains(s, sub) {
      var i :| 0 <= i <= |s| - |sub| && OccursAt(s, sub, i);
      assert s == s[..i] + sub + s[i + |sub|..];
    }
    forall u, v | s == u + sub + v
      ensures Contains(s, sub)
    {
      assert OccursAt(s, sub, |u|);
    }
  }
}
