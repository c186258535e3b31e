# cascadia selector matchers in Dafny

This project models the matching half of cascadia's `selector.go`:

- the `Selector` type, a predicate on HTML nodes;
- the constructors that build selectors;
- `MatchAll`, the pre-order walk that collects every node a selector accepts.

The constructors covered are:

- `typeSelector` (tag names);
- `attributeSelector` and its exists, equals, includes, dash-match, prefix, suffix and substring variants;
- `intersectionSelector` (AND) and `negatedSelector` (NOT);
- `nthChildSelector`, the CSS an+b family (`:nth-child`, `:nth-last-child`, `:nth-of-type`, `:nth-last-of-type`);
- `onlyChildSelector` (`:only-child`, `:only-of-type`).

`toLowerASCII`, the ASCII case folding applied to tag names and attribute keys, is modelled too. So is the leftover-input rule of `Compile`.

Modules, one per file:

- `Wrappers` (`wrappers.dfy`): `Option` and `Result`.
- `Ascii` (`ascii.dfy`):
  - Go strings as byte sequences (`Bytes`);
  - `LowerASCII`, the meaning of `toLowerASCII`;
  - `ToLowerASCII`, the lazily allocating loop.
- `GoStrings` (`go_strings.dfy`): `HasPrefix`, `HasSuffix`, `Contains` and `IndexAny`, stated as sequence predicates.
- `Html` (`html.dfy`): the node tree, a read-only arena.
  - A `Tree` is a sequence of `Node`s. Each node holds its kind, `Data`, `Attr`, the index of its parent and the indices of its children.
  - `Valid` says that every index is in range and no child is listed twice.
  - `WellFormed` adds that parent and child links agree and that every child has a larger index than its parent, so the tree has no cycles.
  - `PreOrder` and `Subtree` are the reference definitions of a pre-order walk and of a subtree.
- `AttributeValues` (`attribute_values.dfy`):
  - `ValueTest`, the value predicate each attribute variant passes to `attributeSelector`;
  - `Accepts`, its meaning;
  - the `Includes` loop and `Dashmatch`.
- `Structural` (`structural.dfy`):
  - the counting loops of `nthChildSelector` and `onlyChildSelector`;
  - Go's truncating `/` and `%` (`GoQuot`, `GoRem`);
  - the an+b rule.
- `Selectors` (`selectors.dfy`):
  - the `Selector` datatype, one variant per closure;
  - the constructor functions, which fold keys and tags when the selector is built, as Go does;
  - `Matches`, the meaning of applying a selector to a node;
  - the `Match` and `AttributeMatch` methods that evaluate it.
- `Search` (`search.dfy`):
  - `MatchAll`, proved equal to filtering `PreOrder` through `Matches`;
  - what that means at the level of node sets.
- `Compilation` (`compile.dfy`): `Compile`'s check that the parser consumed all of its input.

Where the code and its prose description differ, the model follows the code:

- The `includes` predicate with an empty wanted value is not always false. It is true for a value such as `" a"`, which has an empty piece before its last separator (`AttributeValues.IncludesEmptyItem`).
- Tag names are compared with the node's `Data` as stored. Only the selector's tag is folded, not `Data`.

## Model

| member | source | states |
|---|---|---|
| Ascii.LowerASCII | selector.go:53-70 | result has the input's length; each byte in 'A'..'Z' becomes the same letter plus ('a' - 'A'), every other byte is kept; the result has no capitals |
| Ascii.ToLowerASCII | selector.go:53-70 | the lazily allocated copy equals `LowerASCII(s)`, and when `s` has no capitals `s` itself is returned |
| Ascii.LowerASCIIFixedPoint | selector.go:65-67 | lower-casing returns its input unchanged exactly when the input has no capitals |
| Ascii.LowerASCIIIdempotent | selector.go:53-70 | applying toLowerASCII twice equals applying it once |
| Ascii.LowerASCIIEqualFold | selector.go:46 | two strings that differ only in letter case fold to the same string |
| GoStrings.IndexAny | selector.go:110 | -1 exactly when no byte of `s` is in the set, otherwise the index of the first byte that is |
| GoStrings.HasPrefixMeaning | selector.go:146 | HasPrefix(s, p) iff s == p + rest for some rest |
| GoStrings.HasSuffixMeaning | selector.go:155 | HasSuffix(s, p) iff s == rest + p for some rest |
| GoStrings.ContainsMeaning | selector.go:164 | Contains(s, sub) iff s == u + sub + v for some u, v |
| Html.PreOrderIsSubtree | selector.go:32-42 | the pre-order list of a node's subtree holds each node of that subtree exactly once, so its length is the subtree's size |
| Html.PreOrderSound | selector.go:32-42 | every node the pre-order walk from a lists is a descendant of a (or a itself) |
| Html.PreOrderComplete | selector.go:32-42 | every descendant of a is listed by the pre-order walk from a |
| Html.PreOrderDistinct | selector.go:32-42 | the pre-order walk never lists a node twice |
| Html.PreOrderAncestorsFirst | selector.go:32-42 | in the pre-order list of a subtree, a node comes no later than any of its descendants |
| AttributeValues.FieldsMeaning | selector.go:109-119 | the pieces the includes loop compares are exactly the separator-free runs bounded by separators or the ends of the value, leaving out an empty run at the very end |
| AttributeValues.Includes | selector.go:106-121 | the loop answers true iff `val` is one of those pieces, that is iff the whitespace-separated list `s` lists `val` |
| AttributeValues.IncludesRejectsEmptyValue | selector.go:109 | an empty attribute value lists nothing |
| AttributeValues.IncludesRejectsSpacedValue | selector.go:110-117 | a wanted value that contains a space, tab, CR, LF or form feed is never found |
| AttributeValues.IncludesExample | selector.go:106-121 | in "a b c" the item "b" is found and "ab" is not |
| AttributeValues.IncludesEmptyItem | selector.go:114 | as written, an empty wanted value is found in " a" (an empty piece before the last separator) |
| AttributeValues.DashmatchMeaning | selector.go:125-139 | the dash-match predicate holds iff s == val or s is val followed by '-' and anything |
| AttributeValues.ValueMatches | selector.go:91-166 | applying a variant's predicate to a value gives `Accepts(test, s)` |
| AttributeValues.AcceptsMeaning | selector.go:91-166 | exists accepts everything; equals is ==; includes lists the word; dash-match, prefix, suffix and substring have their sequence meanings |
| Structural.NthPosition | selector.go:188-219 | the counting loop returns -1 for non-elements, parentless nodes and nodes missing from their parent's children, else the node's 1-based position among the counted siblings, mirrored to count - i + 1 when `last` is set |
| Structural.NthChild | selector.go:186-228 | the matcher's verdict is that position tested against an+b with Go's truncating / and % |
| Structural.OnlyChild | selector.go:232-256 | the loop with its early `return false` once count > 1 gives the same answer as counting all counted siblings and comparing with 1 |
| Structural.NthChildPosition | selector.go:197-215 | in a well-formed tree an element with a parent is always found, so the -1 branch is unreachable and 1 <= i <= count, mirrored or not |
| Structural.OnlyChildSole | selector.go:232-256 | in a well-formed tree :only-child holds iff the node is an element with a parent whose counted children are the node alone |
| Structural.OnlyChildIsFirstAndLast | selector.go:232-256 | :only-child holds iff both :nth-child(1) and :nth-last-child(1) hold, and likewise for the of-type variants |
| Structural.TruncatedDivision | selector.go:226 | Go's truncated quotient and remainder satisfy x == y*q + r with abs(r) < abs(y), and a non-zero r has the sign of x |
| Structural.TruncationAgreesWhenExact | selector.go:226 | the truncated remainder is zero iff the Euclidean one is, and then the two quotients agree |
| Structural.AnPlusBMeaning | selector.go:221-226 | the an+b rule accepts position i iff i == a*k + b for some k >= 0 (for a == 0: iff i == b) |
| Structural.OddPositions | selector.go:221-226 | 2n+1 accepts exactly positions 1, 3 and 5 among 1..5 |
| Structural.PeersAllElements | selector.go:199-203 | when every child is an element, the nth-child count skips nothing: the counted siblings are the children themselves |
| Structural.NthPositionAllElements | selector.go:186-219 | when every child is an element, child j stands at position j + 1 from the front and at count - j from the back |
| Structural.PeersPrefix | selector.go:243-252 | counting more children never lowers the count and extends the list of counted siblings |
| Structural.PositionStable | selector.go:204-209 | once n has been counted, scanning further children does not change its position |
| Selectors.AttributeMatch | selector.go:74-87 | the attribute loop returns true iff the node is an element and some attribute has the key and a value the predicate accepts |
| Selectors.Match | selector.go:44-256 | evaluating any selector on a node gives `Matches`; an intersection short-circuits like `a(n) && b(n)` |
| Selectors.TypeSelectorMatches | selector.go:45-50 | typeSelector(tag) accepts exactly the elements whose Data is toLowerASCII(tag) |
| Selectors.TypeSelectorCaseInsensitive | selector.go:46 | tags differing only in ASCII letter case build selectors that accept the same nodes |
| Selectors.AttributeSelectorMatches | selector.go:74-87 | attributeSelector(key, f) accepts an element iff some attribute has Key == toLowerASCII(key) and f(Val) |
| Selectors.AttributeExistsMatches | selector.go:89-93 | attributeExistsSelector(key) accepts exactly the elements with an attribute whose Key is toLowerASCII(key), whatever its value |
| Selectors.AttributeEqualsMatches | selector.go:95-102 | attributeEqualsSelector(key, val) accepts exactly the elements with an attribute whose Key is toLowerASCII(key) and whose value is val |
| Selectors.AttributeIncludesMatches | selector.go:104-121 | attributeIncludesSelector(key, val) accepts exactly the elements with an attribute whose Key is toLowerASCII(key) and whose value, cut at whitespace, has val as one of its pieces |
| Selectors.AttributeDashmatchMatches | selector.go:123-139 | attributeDashmatchSelector(key, val) accepts exactly the elements with an attribute whose Key is toLowerASCII(key) and whose value is val or val followed by "-" and anything |
| Selectors.AttributePrefixMatches | selector.go:141-148 | attributePrefixSelector(key, val) accepts exactly the elements with an attribute whose Key is toLowerASCII(key) and whose value is val followed by anything |
| Selectors.AttributeSuffixMatches | selector.go:150-157 | attributeSuffixSelector(key, val) accepts exactly the elements with an attribute whose Key is toLowerASCII(key) and whose value is anything followed by val |
| Selectors.AttributeSubstringMatches | selector.go:159-166 | attributeSubstringSelector(key, val) accepts exactly the elements with an attribute whose Key is toLowerASCII(key) and whose value contains val |
| Selectors.IntersectionSelectorMatches | selector.go:168-174 | intersectionSelector(a, b) accepts a node iff both a and b accept it |
| Selectors.NegatedSelectorMatches | selector.go:176-181 | negatedSelector(a) accepts a node iff a rejects it |
| Selectors.NonElementsNeverMatch | selector.go:48 | type, attribute, nth-child and only-child selectors reject every node that is not an element (the element tests at selector.go:48, 77-79, 188-190 and 234-236) |
| Selectors.DoubleNegation | selector.go:176-181 | applying negatedSelector twice gives back the selector's own verdict |
| Selectors.OnlyChildSelectorIsFirstAndLast | selector.go:230-256 | onlyChildSelector(ofType) accepts a node iff nthChildSelector(0, 1, false, ofType) and nthChildSelector(0, 1, true, ofType) both accept it |
| Selectors.FiveChildrenExample | selector.go:186-228 | under any parent whose five children are all elements, nth-child(2n+1) and nth-last-child(2n+1) accept the first, third and fifth child, and nth-child(3) accepts the third only |
| Search.MatchAll | selector.go:32-42 | the recursion that tests the root and then appends each child's results returns exactly the subtree's pre-order (document-order) list filtered by the selector |
| Search.SelectMembers | selector.go:32-42 | helper for Search.MatchAll: filtering keeps exactly the entries the selector accepts |
| Search.SelectConcat | selector.go:32-42 | helper for Search.MatchAll: filtering distributes over concatenation, so appending the children's results equals filtering the concatenated lists |
| Search.SelectDistinct | selector.go:32-42 | helper for Search.MatchAll: filtering a list without repetitions gives a list without repetitions |
| Search.SelectRoot | selector.go:32-42 | helper for Search.MatchAll: filtering a subtree's pre-order list gives the root when it matches, followed by the filtered lists of the children's subtrees |
| Search.SelectUpToStep | selector.go:32-42 | helper for Search.MatchAll: one more loop iteration appends child k's filtered subtree to what the root and the first k children gave |
| Search.MatchAllMembers | selector.go:32-42 | a node is in MatchAll's result iff it is in the subtree and the selector accepts it |
| Search.MatchAllNoRepeats | selector.go:32-42 | no node appears twice, so the result is no longer than the subtree |
| Search.MatchAllRootFirst | selector.go:33-35 | the root comes first when it matches and is absent otherwise |
| Search.SelectOrder | selector.go:32-42 | helper for Search.MatchAll: filtering keeps the relative order of the entries it keeps |
| Search.MatchAllAncestorsFirst | selector.go:32-42 | MatchAll lists a node before every descendant of it that it also lists |
| Search.MatchAllIntersection | selector.go:170-174 | MatchAll of an intersection holds exactly the nodes in both selectors' results |
| Search.MatchAllNegation | selector.go:177-181 | a selector's and its negation's results are disjoint and together make up the whole subtree |
| Search.DivSpanDivPreOrder | selector.go:32-42 | in any tree shaped as a div with a span child and then a div child, the pre-order list is the root, then the span, then the inner div |
| Search.DivSpanDivExample | selector.go:32-42 | in any tree shaped as a div with children span and div, the selector for "DIV" collects the root and then the second child, in that order |
| Compilation.Compile | selector.go:16-28 | compiling succeeds iff the parser succeeds and stops at the end of the input; a parser error is passed on; a parse that stops before the end gives the leftover error carrying the input and `len(sel) - offset`, the number of bytes left, which is positive |
| Compilation.TrailingInputRejected | selector.go:23-25 | a selector followed by further input is rejected with a leftover count equal to the length of that input, while the selector alone compiles |

## Left out

- The selector parser (`parser`, `parseSimpleSelectorSequence`) is not part of this model. `Compile` takes the parser's outcome as an input: a selector and the offset the parser stopped at, or an error. The selector grammar, the an+b syntax and bracket parsing are therefore not modelled.
- The error message text of `Compile`. The leftover error carries the input and the byte count instead of a formatted string.
- The `html` package. The tree is an arena of nodes with index links. Only the node fields the matchers read are kept: kind, `Data`, `Attr`, parent and children. Namespaces and the parsing of HTML are not modelled. Node identity (`c == n`) becomes index equality.
- The internals of Go's `strings` package. `HasPrefix`, `HasSuffix` and `Contains` are stated as sequence predicates.
- GoStrings.IndexAny: scans bytes, while Go scans runes. The two agree here because every separator is a single ASCII byte, which never occurs inside a multi-byte rune.
- Structural.NthChild: Go's `int` is 64 bits wide and `i - b` could in principle overflow for extreme `b`. The model uses unbounded integers.
- Sharing selectors across goroutines is not modelled. The matchers hold no mutable state.
- Selectors.Match: a `Selector` in Go is a closure. Here it is a datatype interpreted by `Matches`. Closures built outside the listed constructors cannot be expressed.
