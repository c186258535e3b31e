/** Selectors: the matcher constructors of the library, the meaning of a
    selector on a node, and the matcher procedures that evaluate it. */
module Selectors {
  import opened Wrappers
  import opened Ascii
  import opened Html
  import opened AttributeValues
  import opened Structural
  import opened GoStrings

  /** A compiled selector. Each variant is one of the matcher constructors;
      tag names and attribute keys are stored already lower-cased, as the
      constructors fold them when the selector is built. */
  datatype Selector =
    | Tag(name: Bytes)                                // typeSelector
    | Attr(key: Bytes, test: ValueTest)               // attributeSelector and its variants
    | And(left: Selector, right: Selector)            // intersectionSelector
    | Not(operand: Selector)                          // negatedSelector
    | Nth(a: int, b: int, last: bool, ofType: bool)   // nthChildSelector
    | Only(ofType: bool)                              // onlyChildSelector

  function TypeSelector(tag: Bytes): Selector {
    Tag(LowerASCII(tag))
  }

  function AttributeSelector(key: Bytes, test: ValueTest): Selector {
    Attr(LowerASCII(key), test)
  }

  function AttributeExistsSelector(key: Bytes): Selector {
    AttributeSelector(key, AnyValue)
  }

  function AttributeEqualsSelector(key: Bytes, val: Bytes): Selector {
    AttributeSelector(key, EqualsValue(val))
  }

  function AttributeIncludesSelector(key: Bytes, val: Bytes): Selector {
    AttributeSelector(key, IncludesValue(val))
  }

  function AttributeDashmatchSelector(key: Bytes, val: Bytes): Selector {
    AttributeSelector(key, DashmatchValue(val))
  }

  function AttributePrefixSelector(key: Bytes, val: Bytes): Selector {
    AttributeSelector(key, PrefixValue(val))
  }

  function AttributeSuffixSelector(key: Bytes, val: Bytes): Selector {
    AttributeSelector(key, SuffixValue(val))
  }

  function AttributeSubstringSelector(key: Bytes, val: Bytes): Selector {
    AttributeSelector(key, SubstringValue(val))
  }

  /** Some attribute has the key and a value the test accepts. */
  predicate HasAttribute(attrs: seq<Attribute>, key: Bytes, test: ValueTest) {
    exists j | 0 <= j < |attrs| :: attrs[j].key == key && Accepts(test, attrs[j].val)
  }

  /** Whether selector s accepts node n of tree t. */
  function Matches(t: Tree, s: Selector, n: nat): bool
    requires Valid(t) && n < |t|
  {
    match s
    case Tag(name) => t[n].kind == ElementNode && t[n].data == name
    case Attr(key, test) => t[n].kind == ElementNode && HasAttribute(t[n].attr, key, test)
    case And(left, right) => Matches(t, left, n) && Matches(t, right, n)
    case Not(operand) => !Matches(t, operand, n)
    case Nth(a, b, last, ofType) => NthChildMatches(t, n, a, b, last, ofType)
    case Only(ofType) => OnlyChildMatches(t, n, ofType)
  }

  /** The attributeSelector matcher: rejects non-elements, then scans the
      attributes in order and stops at the first one with the key whose
      value passes the test. */
  method AttributeMatch(t: Tree, n: nat, key: Bytes, test: ValueTest) returns (r: bool)
    requires Valid(t) && n < |t|
    ensures r == Matches(t, Attr(key, test), n)
  {
    if t[n].kind != ElementNode {
      return false;
    }
    var attrs := t[n].attr;
    for j := 0 to |attrs|
      invariant forall i :: 0 <= i < j ==> !(attrs[i].key == key && Accepts(test, attrs[i].val))
    {
      if attrs[j].key == key {
        var ok := ValueMatches(test, attrs[j].val);
        if ok {
          return true;
        }
      }
    }
    return false;
  }

  /** Applies a selector to a node, as calling the Selector function does. */
  method Match(t: Tree, s: Selector, n: nat) returns (r: bool)
    requires Valid(t) && n < |t|
    ensures r == Matches(t, s, n)
    decreases s
  {
    match s
    case Tag(name) =>
      r := t[n].kind == ElementNode && t[n].data == name;
    case Attr(key, test) =>
      r := AttributeMatch(t, n, key, test);
    case And(left, right) =>
      r := Match(t, left, n);
      if r {
        r := Match(t, right, n);
      }
    case Not(operand) =>
      r := Match(t, operand, n);
      r := !r;
    case Nth(a, b, last, ofType) =>
      r := NthChild(t, n, a, b, last, ofType);
    case Only(ofType) =>
      r := OnlyChild(t, n, ofType);
  }

  /** typeSelector(tag) accepts exactly the elements whose Data is the
      lower-cased tag. */
  lemma TypeSelectorMatches(t: Tree, tag: Bytes, n: nat)
    requires Valid(t) && n < |t|
    ensures Matches(t, TypeSelector(tag), n) <==> t[n].kind == ElementNode && t[n].data == LowerASCII(tag)
  {
  }

  /** Tags that differ only in the case of ASCII letters give selectors that
      accept the same nodes. */
  lemma TypeSelectorCaseInsensitive(t: Tree, tag1: Bytes, tag2: Bytes, n: nat)
    requires Valid(t) && n < |t|
    requires |tag1| == |tag2| && forall i :: 0 <= i < |tag1| ==> LowerByte(tag1[i]) == LowerByte(tag2[i])
    ensures Matches(t, TypeSelector(tag1), n) <==> Matches(t, TypeSelector(tag2), n)
  {
    LowerASCIIEqualFold(tag1, tag2);
  }

  /** attributeSelector(key, f) accepts exactly the elements with an
      attribute whose key is the lower-cased key and whose value f accepts. */
  lemma AttributeSelectorMatches(t: Tree, key: Bytes, test: ValueTest, n: nat)
    requires Valid(t) && n < |t|
    ensures Matches(t, AttributeSelector(key, test), n) <==>
      && t[n].kind == ElementNode
      && exists j :: 0 <= j < |t[n].attr| && t[n].attr[j].key == LowerASCII(key) && Accepts(test, t[n].attr[j].val)
  {
  }

  /** The type, attribute and structural selectors never accept a node that
      is not an element. */
  lemma NonElementsNeverMatch(t: Tree, s: Selector, n: nat)
    requires Valid(t) && n < |t| && t[n].kind != ElementNode
    requires s.Tag? || s.Attr? || s.Nth? || s.Only?
    ensures !Matches(t, s, n)
  {
  }

  /** attributeExistsSelector(key) accepts the elements with an attribute
      whose key is the lower-cased key, whatever its value. */
  lemma AttributeExistsMatches(t: Tree, key: Bytes, n: nat)
    requires Valid(t) && n < |t|
    ensures Matches(t, AttributeExistsSelector(key), n) <==>
      && t[n].kind == ElementNode
      && exists j :: 0 <= j < |t[n].attr| && t[n].attr[j].key == LowerASCII(key)
  {
  }

  /** attributeEqualsSelector(key, val): some attribute with the key has
      exactly the value val. */
  lemma AttributeEqualsMatches(t: Tree, key: Bytes, val: Bytes, n: nat)
    requires Valid(t) && n < |t|
    ensures Matches(t, AttributeEqualsSelector(key, val), n) <==>
      && t[n].kind == ElementNode
      && exists j :: 0 <= j < |t[n].attr| && t[n].attr[j].key == LowerASCII(key) && t[n].attr[j].val == val
  {
  }

  /** attributeIncludesSelector(key, val): the value of some attribute with
      the key is a whitespace-separated list in which val is one of the
      pieces. */
  lemma AttributeIncludesMatches(t: Tree, key: Bytes, val: Bytes, n: nat)
    requires Valid(t) && n < |t|
    ensures Matches(t, AttributeIncludesSelector(key, val), n) <==>
      && t[n].kind == ElementNode
      && exists j :: 0 <= j < |t[n].attr| && t[n].attr[j].key == LowerASCII(key) && ListsWord(t[n].attr[j].val, val)
  {
    forall j | 0 <= j < |t[n].attr| {
      FieldsMeaning(t[n].attr[j].val, val);
    }
  }

  /** attributeDashmatchSelector(key, val): the value of some attribute with
      the key is val, or val followed by a hyphen and anything. */
  lemma AttributeDashmatchMatches(t: Tree, key: Bytes, val: Bytes, n: nat)
    requires Valid(t) && n < |t|
    ensures Matches(t, AttributeDashmatchSelector(key, val), n) <==>
      && t[n].kind == ElementNode
      && exists j :: 0 <= j < |t[n].attr| && t[n].attr[j].key == LowerASCII(key) &&
           (t[n].attr[j].val == val || exists rest :: t[n].attr[j].val == val + [Hyphen] + rest)
  {
    forall j | 0 <= j < |t[n].attr| {
      DashmatchMeaning(t[n].attr[j].val, val);
    }
  }

  /** attributePrefixSelector(key, val): the value of some attribute with
      the key starts with val. */
  lemma AttributePrefixMatches(t: Tree, key: Bytes, val: Bytes, n: nat)
    requires Valid(t) && n < |t|
    ensures Matches(t, AttributePrefixSelector(key, val), n) <==>
      && t[n].kind == ElementNode
      && exists j :: 0 <= j < |t[n].attr| && t[n].attr[j].key == LowerASCII(key) &&
           exists rest :: t[n].attr[j].val == val + rest
  {
    forall j | 0 <= j < |t[n].attr| {
      HasPrefixMeaning(t[n].attr[j].val, val);
    }
  }

  /** attributeSuffixSelector(key, val): the value of some attribute with
      the key ends with val. */
  lemma AttributeSuffixMatches(t: Tree, key: Bytes, val: Bytes, n: nat)
    requires Valid(t) && n < |t|
    ensures Matches(t, AttributeSuffixSelector(key, val), n) <==>
      && t[n].kind == ElementNode
      && exists j :: 0 <= j < |t[n].attr| && t[n].attr[j].key == LowerASCII(key) &&
           exists rest :: t[n].attr[j].val == rest + val
  {
    forall j | 0 <= j < |t[n].attr| {
      HasSuffixMeaning(t[n].attr[j].val, val);
    }
  }

  /** attributeSubstringSelector(key, val): the value of some attribute with
      the key contains val. */
  lemma AttributeSubstringMatches(t: Tree, key: Bytes, val: Bytes, n: nat)
    requires Valid(t) && n < |t|
    ensures Matches(t, AttributeSubstringSelector(key, val), n) <==>
      && t[n].kind == ElementNode
      && exists j :: 0 <= j < |t[n].attr| && t[n].attr[j].key == LowerASCII(key) &&
           exists u, v :: t[n].attr[j].val == u + val + v
  {
    forall j | 0 <= j < |t[n].attr| {
      ContainsMeaning(t[n].attr[j].val, val);
    }
  }

  /** intersectionSelector(a, b) accepts exactly the nodes both accept. */
  lemma IntersectionSelectorMatches(t: Tree, a: Selector, b: Selector, n: nat)
    requires Valid(t) && n < |t|
    ensures Matches(t, IntersectionSelector(a, b), n) <==> Matches(t, a, n) && Matches(t, b, n)
  {
  }

  /** negatedSelector(a) accepts exactly the nodes a rejects. */
  lemma NegatedSelectorMatches(t: Tree, a: Selector, n: nat)
    requires Valid(t) && n < |t|
    ensures Matches(t, NegatedSelector(a), n) <==> !Matches(t, a, n)
  {
  }

  /** Negating twice gives back the selector's own verdict. */
  lemma DoubleNegation(t: Tree, s: Selector, n: nat)
    requires Valid(t) && n < |t|
    ensures Matches(t, NegatedSelector(NegatedSelector(s)), n) == Matches(t, s, n)
  {
  }

  /** :only-child is :first-child and :last-child together (nth-child(1)
      and nth-last-child(1)), and :only-of-type likewise with the of-type
      variants. */
  lemma OnlyChildSelectorIsFirstAndLast(t: Tree, n: nat, ofType: bool)
    requires WellFormed(t) && n < |t|
    ensures Matches(t, OnlyChildSelector(ofType), n) <==>
      Matches(t, NthChildSelector(0, 1, false, ofType), n) && Matches(t, NthChildSelector(0, 1, true, ofType), n)
  {
    OnlyChildIsFirstAndLast(t, n, ofType);
  }

  /** Under a parent whose five children are all elements, 2n+1 accepts the
      first, third and fifth child counted from either end, and 0n+3 accepts
      the third child only. */
  lemma FiveChildrenExample(t: Tree, p: nat, j: nat)
    requires Valid(t) && p < |t| && |t[p].children| == 5 && j < 5
    requires t[t[p].children[j]].parent == Some(p)
    requires forall c :: c in t[p].children ==> t[c].kind == ElementNode
    ensures Matches(t, NthChildSelector(2, 1, false, false), t[p].children[j]) <==> j == 0 || j == 2 || j == 4
    ensures Matches(t, NthChildSelector(2, 1, true, false), t[p].children[j]) <==> j == 0 || j == 2 || j == 4
    ensures Matches(t, NthChildSelector(0, 3, false, false), t[p].children[j]) <==> j == 2
  {
    NthPositionAllElements(t, p, j);
    OddPositions(j + 1);
    OddPositions(5 - j);
  }

  function NthChildSelector(a: int, b: int, last: bool, ofType: bool): Selector {
    Nth(a, b, last, ofType)
  }

  function OnlyChildSelector(ofType: bool): Selector {
    Only(ofType)
  }

  function IntersectionSelector(a: Selector, b: Selector): Selector {
    And(a, b)
  }

  function NegatedSelector(a: Selector): Selector {
    Not(a)
  }
}
