/** The value predicates that attributeSelector's variants apply to an
    attribute value. */
module AttributeValues {
  import opened Ascii
  import opened GoStrings

  /** The separators of a whitespace-separated list: space, tab, carriage
      return, line feed and form feed. */
  const Whitespace: Bytes := [32, 9, 13, 10, 12]

  const Hyphen: Byte := '-' as int

  predicate IsSpace(c: Byte) {
    c in Whitespace
  }

  /** The predicate on the value chosen by each attributeSelector variant. */
  datatype ValueTest =
    | AnyValue                  // attributeExistsSelector
    | EqualsValue(val: Bytes)     // attributeEqualsSelector
    | IncludesValue(val: Bytes)   // attributeIncludesSelector
    | DashmatchValue(val: Bytes)  // attributeDashmatchSelector
    | PrefixValue(val: Bytes)     // attributePrefixSelector
    | SuffixValue(val: Bytes)     // attributeSuffixSelector
    | SubstringValue(val: Bytes)  // attributeSubstringSelector

  function Accepts(test: ValueTest, s: Bytes): bool {
    match test
    case AnyValue => true
    case EqualsValue(val) => s == val
    case IncludesValue(val) => val in Fields(s)
    case DashmatchValue(val) => Dashmatch(s, val)
    case PrefixValue(val) => HasPrefix(s, val)
    case SuffixValue(val) => HasSuffix(s, val)
    case SubstringValue(val) => Contains(s, val)
  }

  /** The pieces of s that the includes loop compares with the wanted value:
      s is cut at every separator, and the empty piece after a final
      separator is not produced. */
  function Fields(s: Bytes): seq<Bytes>
    decreases |s|
  {
    if s == [] then []
    else
      var i := IndexAny(s, Whitespace);
      if i == -1 then [s] else [s[..i]] + Fields(s[i + 1..])
  }

  /** s[i..j] is a run without separators that is bounded on each side by a
      separator or an end of s, and does not start at the very end of s. */
  ghost predicate FieldAt(s: Bytes, i: int, j: int) {
    && 0 <= i <= j <= |s| && i < |s|
    && (i == 0 || IsSpace(s[i - 1]))
    && (j == |s| || IsSpace(s[j]))
    && forall k :: i <= k < j ==> !IsSpace(s[k])
  }

  /** val is one of the pieces of s between separators (or the ends of s).
      A piece may be empty, as between two adjacent separators, except for
      an empty piece at the very end of s. */
  ghost predicate ListsWord(s: Bytes, val: Bytes) {
    exists i, j :: FieldAt(s, i, j) && s[i..j] == val
  }

  /** The pieces produced by Fields are exactly the bounded runs FieldAt. */
  lemma {:induction false} FieldsMeaning(s: Bytes, val: Bytes)
    ensures val in Fields(s) <==> ListsWord(s, val)
    decreases |s|
  {
    if s != [] {
      var x := IndexAny(s, Whitespace);
      FieldsStep(s, val);
      if x == -1 {
        if val == s {
          assert FieldAt(s, 0, |s|) && s[0..|s|] == val;
        }
        forall i, j | FieldAt(s, i, j) && s[i..j] == val
          ensures val == s
        {
          FieldWithoutSeparator(s, i, j);
        }
      } else {
        var rest := s[x + 1..];
        FieldsMeaning(rest, val);
        if val == s[..x] {
          assert FieldAt(s, 0, x) && s[0..x] == val;
        }
        forall i, j | FieldAt(rest, i, j) && rest[i..j] == val
          ensures ListsWord(s, val)
        {
          FieldAfterSeparator(s, x, i, j);
        }
        forall i, j | FieldAt(s, i, j) && s[i..j] == val
          ensures val in Fields(s)
        {
          FieldAroundSeparator(s, x, i, j);
        }
      }
    }
  }

  lemma FieldWithoutSeparator(s: Bytes, i: int, j: int)
    requires forall k :: 0 <= k < |s| ==> !IsSpace(s[k])
    requires FieldAt(s, i, j)
    ensures i == 0 && j == |s|
  {
  }

  lemma FieldAfterSeparator(s: Bytes, x: nat, i: int, j: int)
    requires x < |s| && IsSpace(s[x]) && FieldAt(s[x + 1..], i, j)
    ensures FieldAt(s, i + x + 1, j + x + 1)
    ensures s[i + x + 1..j + x + 1] == s[x + 1..][i..j]
  {
    var rest := s[x + 1..];
    forall k | i + x + 1 <= k < j + x + 1
      ensures !IsSpace(s[k])
    {
      assert s[k] == rest[k - x - 1];
    }
  }

  /** A bounded run of s either is the piece before the first separator x or
      lies wholly after it. */
  lemma FieldAroundSeparator(s: Bytes, x: nat, i: int, j: int)
    requires x < |s| && IsSpace(s[x]) && forall k :: 0 <= k < x ==> !IsSpace(s[k])
    requires FieldAt(s, i, j)
    ensures i <= x ==> i == 0 && j == x
    ensures x < i ==> FieldAt(s[x + 1..], i - x - 1, j - x - 1) && s[x + 1..][i - x - 1..j - x - 1] == s[i..j]
  {
    var rest := s[x + 1..];
    if x < i {
      forall k | i - x - 1 <= k < j - x - 1
        ensures !IsSpace(rest[k])
      {
        assert rest[k] == s[k + x + 1];
      }
      assert i - x - 1 > 0 ==> rest[i - x - 2] == s[i - 1];
      assert j - x - 1 < |rest| ==> rest[j - x - 1] == s[j];
    }
  }

  /** One step of the includes loop: val is a piece of a non-empty s iff it
      is the whole of s (no separator), or the part before the first
      separator, or a piece of what follows it. */
  lemma FieldsStep(s: Bytes, val: Bytes)
    requires s != []
    ensures IndexAny(s, Whitespace) == -1 ==> (val in Fields(s) <==> s == val)
    ensures IndexAny(s, Whitespace) != -1 ==>
      (val in Fields(s) <==> s[..IndexAny(s, Whitespace)] == val || val in Fields(s[IndexAny(s, Whitespace) + 1..]))
  {
  }

  /** The attributeIncludesSelector predicate: walks the value, cutting off
      one piece per separator, and stops at the first piece equal to val. */
  method Includes(s: Bytes, val: Bytes) returns (r: bool)
    ensures r <==> val in Fields(s)
    ensures r <==> ListsWord(s, val)
  {
    FieldsMeaning(s, val);
    var rest := s;
    while rest != []
      invariant val in Fields(s) <==> val in Fields(rest)
      decreases |rest|
    {
      var i := IndexAny(rest, Whitespace);
      FieldsStep(rest, val);
      if i == -1 {
        return rest == val;
      }
      if rest[..i] == val {
        return true;
      }
      rest := rest[i + 1..];
    }
    return false;
  }

  /** An empty attribute value lists nothing. */
  lemma IncludesRejectsEmptyValue(val: Bytes)
    ensures !ListsWord([], val)
  {
    FieldsMeaning([], val);
  }

  /** A wanted value that contains a separator is never an item of a list. */
  lemma IncludesRejectsSpacedValue(s: Bytes, val: Bytes, k: nat)
    requires k < |val| && IsSpace(val[k])
    ensures !ListsWord(s, val)
  {
    forall i, j | FieldAt(s, i, j)
      ensures s[i..j] != val
    {
      if j - i == |val| {
        assert s[i..j][k] == s[i + k];
      }
    }
  }

  /** With the list "a b c", the item "b" is found and "ab" is not. */
  lemma IncludesExample()
    ensures [98] in Fields([97, 32, 98, 32, 99])
    ensures [97, 98] !in Fields([97, 32, 98, 32, 99])
  {
    var s: Bytes := [97, 32, 98, 32, 99];
    var s1: Bytes := [98, 32, 99];
    var s2: Bytes := [99];
    assert IndexAny(s2, Whitespace) == -1;
    assert Fields(s2) == [s2];
    assert IndexAny(s1, Whitespace) == 1;
    assert s1[..1] == [98] && s1[2..] == s2;
    assert Fields(s1) == [[98], [99]];
    assert IndexAny(s, Whitespace) == 1;
    assert s[..1] == [97] && s[2..] == s1;
    assert Fields(s) == [[97], [98], [99]];
  }

  /** As written, an empty wanted value is found in a list that has an empty
      piece before its last separator, such as " a". */
  lemma IncludesEmptyItem()
    ensures [] in Fields([32, 97])
  {
    assert IndexAny([32, 97], Whitespace) == 0;
    assert Fields([32, 97]) == [[]] + Fields([97]);
  }

  /** The attributeDashmatchSelector predicate. */
  function Dashmatch(s: Bytes, val: Bytes): bool {
    if s == val then true
    else if |s| <= |val| then false
    else s[..|val|] == val && s[|val|] == Hyphen
  }

  /** s is val, or val followed by a hyphen and anything. */
  lemma DashmatchMeaning(s: Bytes, val: Bytes)
    ensures Dashmatch(s, val) <==> s == val || exists rest :: s == val + [Hyphen] + rest
  {
    if s != val && Dashmatch(s, val) {
      assert s == val + [Hyphen] + s[|val| + 1..];
    }
    forall rest | s == val + [Hyphen] + rest
      ensures Dashmatch(s, val)
    {
      assert s[..|val|] == val;
    }
  }

  /** The predicate chosen by a variant, applied to one attribute value. */
  method ValueMatches(test: ValueTest, s: Bytes) returns (r: bool)
    ensures r == Accepts(test, s)
  {
    match test
    case AnyValue => r := true;
    case EqualsValue(val) => r := s == val;
    case IncludesValue(val) => r := Includes(s, val);
    case DashmatchValue(val) => r := Dashmatch(s, val);
    case PrefixValue(val) => r := HasPrefix(s, val);
    case SuffixValue(val) => r := HasSuffix(s, val);
    case SubstringValue(val) => r := Contains(s, val);
  }

  /** What each variant's predicate means for a value s. */
  lemma AcceptsMeaning(s: Bytes, val: Bytes)
    ensures Accepts(AnyValue, s)
    ensures Accepts(EqualsValue(val), s) <==> s == val
    ensures Accepts(IncludesValue(val), s) <==> ListsWord(s, val)
    ensures Accepts(DashmatchValue(val), s) <==> s == val || exists rest :: s == val + [Hyphen] + rest
    ensures Accepts(PrefixValue(val), s) <==> exists rest :: s == val + rest
    ensures Accepts(SuffixValue(val), s) <==> exists rest :: s == rest + val
    ensures Accepts(SubstringValue(val), s) <==> exists u, v :: s == u + val + v
  {
    FieldsMeaning(s, val);
    DashmatchMeaning(s, val);
    HasPrefixMeaning(s, val);
    HasSuffixMeaning(s, val);
    ContainsMeaning(s, val);
  }
}
