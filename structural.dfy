/** The structural pseudo-classes: the an+b family (:nth-child,
    :nth-last-child, :nth-of-type, :nth-last-of-type) and :only-child /
    :only-of-type. */
module Structural {
  import opened Wrappers
  import opened Html

  /** c is counted among the siblings of n: it is an element and, for the
      of-type variants, it has the same Data as n. */
  predicate IsPeer(t: Tree, c: nat, n: nat, ofType: bool)
    requires c < |t| && n < |t|
  {
    t[c].kind == ElementNode && (!ofType || t[c].data == t[n].data)
  }

  /** The counted siblings among the first k children of p, in document order. */
  function Peers(t: Tree, p: nat, k: nat, n: nat, ofType: bool): (r: seq<nat>)
    requires Valid(t) && p < |t| && n < |t| && k <= |t[p].children|
    ensures |r| <= k
  {
    if k == 0 then []
    else
      var c := t[p].children[k - 1];
      Peers(t, p, k - 1, n, ofType) + (if IsPeer(t, c, n, ofType) then [c] else [])
  }

  /** Looking at one more child adds one to the count exactly when that
      child is counted. */
  lemma PeersCount(t: Tree, p: nat, k: nat, n: nat, ofType: bool)
    requires Valid(t) && p < |t| && n < |t| && k < |t[p].children|
    ensures |Peers(t, p, k + 1, n, ofType)| ==
            |Peers(t, p, k, n, ofType)| + (if IsPeer(t, t[p].children[k], n, ofType) then 1 else 0)
  {
  }

  /** Peers lists exactly the counted children among the first k. */
  lemma {:induction false} PeersMembers(t: Tree, p: nat, k: nat, n: nat, ofType: bool)
    requires Valid(t) && p < |t| && n < |t| && k <= |t[p].children|
    ensures forall c :: c in Peers(t, p, k, n, ofType) ==> exists j :: 0 <= j < k && t[p].children[j] == c
    ensures forall j :: 0 <= j < k && IsPeer(t, t[p].children[j], n, ofType) ==> t[p].children[j] in Peers(t, p, k, n, ofType)
  {
    if k > 0 {
      PeersMembers(t, p, k - 1, n, ofType);
    }
  }

  /** The index of the first occurrence of x in xs. */
  function Position(xs: seq<nat>, x: nat): (i: nat)
    requires x in xs
    ensures i < |xs| && xs[i] == x && x !in xs[..i]
  {
    if xs[0] == x then 0 else 1 + Position(xs[1..], x)
  }

  lemma {:induction false} PeersPrefix(t: Tree, p: nat, k1: nat, k2: nat, n: nat, ofType: bool)
    requires Valid(t) && p < |t| && n < |t| && k1 <= k2 <= |t[p].children|
    ensures |Peers(t, p, k1, n, ofType)| <= |Peers(t, p, k2, n, ofType)|
    ensures Peers(t, p, k2, n, ofType)[..|Peers(t, p, k1, n, ofType)|] == Peers(t, p, k1, n, ofType)
    decreases k2
  {
    if k1 < k2 {
      PeersPrefix(t, p, k1, k2 - 1, n, ofType);
    }
  }

  lemma {:induction false} PositionInPrefix(xs: seq<nat>, ys: seq<nat>, x: nat)
    requires x in xs
    ensures Position(xs + ys, x) == Position(xs, x)
  {
    if xs[0] != x {
      assert (xs + ys)[1..] == xs[1..] + ys;
      PositionInPrefix(xs[1..], ys, x);
    }
  }

  /** Once n has been counted among the first k children, counting further
      children does not change its position. */
  lemma PositionStable(t: Tree, p: nat, k: nat, n: nat, ofType: bool)
    requires Valid(t) && p < |t| && n < |t| && k <= |t[p].children|
    requires n in Peers(t, p, k, n, ofType)
    ensures n in Peers(t, p, |t[p].children|, n, ofType)
    ensures Position(Peers(t, p, |t[p].children|, n, ofType), n) == Position(Peers(t, p, k, n, ofType), n)
  {
    var front, all := Peers(t, p, k, n, ofType), Peers(t, p, |t[p].children|, n, ofType);
    PeersPrefix(t, p, k, |t[p].children|, n, ofType);
    assert all == front + all[|front|..];
    PositionInPrefix(front, all[|front|..], n);
  }

  /** Appending c to a sequence keeps the position of an element already
      present, and puts c itself at the end when it was absent. */
  lemma PositionAppend(xs: seq<nat>, c: nat, x: nat)
    ensures x in xs ==> Position(xs + [c], x) == Position(xs, x)
    ensures x !in xs && c == x ==> Position(xs + [c], x) == |xs|
  {
    if x in xs {
      PositionInPrefix(xs, [c], x);
    }
  }

  function Abs(x: int): nat {
    if x < 0 then -x else x
  }

  /** Go's integer division, which truncates toward zero. */
  function GoQuot(x: int, y: int): int
    requires y != 0
  {
    var q := Abs(x) / Abs(y);
    if (x < 0) == (y < 0) then q else -q
  }

  /** Go's remainder, whose sign is that of the dividend. */
  function GoRem(x: int, y: int): int
    requires y != 0
  {
    x - y * GoQuot(x, y)
  }

  /** Multiplying by a negative number flips the sign of a product. */
  lemma ProductSign(a: int, b: int)
    ensures a * b == (if a < 0 then -(Abs(a) * b) else Abs(a) * b)
    ensures b != 0 && a != 0 ==> (a * b < 0 <==> (a < 0) != (b < 0))
  {
    if a < 0 {
      assert a * b == -((-a) * b);
    }
  }

  /** Go's remainder is the remainder of the magnitudes, with the sign of the
      dividend. */
  lemma GoRemOfMagnitudes(x: int, y: int)
    requires y != 0
    ensures GoRem(x, y) == (if x < 0 then -(Abs(x) % Abs(y)) else Abs(x) % Abs(y))
  {
    var ay: int, q: int := Abs(y), Abs(x) / Abs(y);
    NegatedFactors(ay, q);
    if y < 0 {
      assert y == -ay;
    }
  }

  lemma NegatedFactors(a: int, b: int)
    ensures (-a) * b == -(a * b) && a * (-b) == -(a * b) && (-a) * (-b) == a * b
  {
  }

  /** Go's / and % satisfy the truncated-division identity: the remainder is
      smaller than the divisor in magnitude and takes the sign of the dividend. */
  lemma TruncatedDivision(x: int, y: int)
    requires y != 0
    ensures x == y * GoQuot(x, y) + GoRem(x, y)
    ensures Abs(GoRem(x, y)) < Abs(y)
    ensures GoRem(x, y) != 0 ==> (GoRem(x, y) < 0 <==> x < 0)
  {
    GoRemOfMagnitudes(x, y);
  }

  /** The an+b rule with Go's arithmetic: j = i - b must be 0 when a is 0,
      and otherwise a multiple of a with a non-negative quotient. */
  function AnPlusB(a: int, b: int, i: int): bool {
    var j := i - b;
    if a == 0 then j == 0 else GoRem(j, a) == 0 && GoQuot(j, a) >= 0
  }

  /** i is a*k + b for some k >= 0. */
  ghost predicate InProgression(a: int, b: int, i: int) {
    exists k: nat :: i == a * k + b
  }

  /** A positive factor d does not make m smaller. */
  lemma {:induction false} MulAtLeast(m: nat, d: nat)
    requires d >= 1
    ensures m * d >= m
  {
    if d > 1 {
      MulAtLeast(m, d - 1);
      assert m * d == m * (d - 1) + m;
    }
  }

  lemma MulAbs(a: int, e: int)
    ensures Abs(a * e) == Abs(a) * Abs(e)
  {
    if a < 0 && e < 0 {
      assert a * e == (-a) * (-e);
    } else if a < 0 {
      assert -(a * e) == (-a) * e;
    } else if e < 0 {
      assert -(a * e) == a * (-e);
    }
  }

  /** A non-zero factor does not make the magnitude smaller. */
  lemma MulBound(a: int, e: int)
    ensures e != 0 ==> Abs(a * e) >= Abs(a)
  {
    if e != 0 {
      MulAbs(a, e);
      MulAtLeast(Abs(a), Abs(e));
    }
  }

  /** Euclidean division of a multiple of a by a is exact. */
  lemma EuclideanOfMultiple(a: int, q: int)
    requires a != 0
    ensures (a * q) % a == 0 && (a * q) / a == q
  {
    var d, r := (a * q) / a, (a * q) % a;
    assert a * q == a * d + r && 0 <= r < Abs(a);
    assert a * (q - d) == r;
    MulBound(a, q - d);
  }

  /** Truncated division of a multiple of a by a gives back the factor. */
  lemma MultipleQuotient(a: int, k: int)
    requires a != 0
    ensures GoQuot(a * k, a) == k
  {
    MulAbs(a, k);
    EuclideanOfMultiple(Abs(a), Abs(k));
    ProductSign(a, k);
  }

  /** Selectors Level 3, section 6.6.5.2: the position i matches an+b exactly
      when i = a*k + b for some k >= 0 (for a = 0, when i = b). */
  lemma AnPlusBMeaning(a: int, b: int, i: int)
    ensures AnPlusB(a, b, i) <==> InProgression(a, b, i)
  {
    var j := i - b;
    if a == 0 {
      if i == b {
        assert i == a * 0 + b;
      }
    } else {
      if AnPlusB(a, b, i) {
        var k: nat := GoQuot(j, a);
        assert i == a * k + b;
      }
      forall k: nat | i == a * k + b
        ensures AnPlusB(a, b, i)
      {
        assert j == a * k;
        MultipleQuotient(a, k);
      }
    }
  }

  /** When the remainder is zero, Go's truncating / and % agree with Dafny's
      Euclidean ones, so the rule can be read either way. */
  lemma TruncationAgreesWhenExact(j: int, a: int)
    requires a != 0
    ensures GoRem(j, a) == 0 <==> j % a == 0
    ensures GoRem(j, a) == 0 ==> GoQuot(j, a) == j / a
  {
    if j % a == 0 {
      assert j == a * (j / a);
      MultipleQuotient(a, j / a);
    }
    if GoRem(j, a) == 0 {
      var q := GoQuot(j, a);
      assert j == a * q;
      EuclideanOfMultiple(a, q);
    }
  }

  /** 2n+1 selects the odd positions: among five, exactly 1, 3 and 5. */
  lemma OddPositions(i: int)
    requires 1 <= i <= 5
    ensures AnPlusB(2, 1, i) <==> i == 1 || i == 3 || i == 5
  {
  }

  /** The position that nthChildSelector tests against an+b: the 1-based
      position of n among its parent's counted children, mirrored
      (count - i + 1) for the last variants; -1 when n is not an element, has
      no parent or is not among its parent's children. */
  function NthPositionOf(t: Tree, n: nat, last: bool, ofType: bool): int
    requires Valid(t) && n < |t|
  {
    if t[n].kind != ElementNode || t[n].parent.None? then -1
    else
      var p := t[n].parent.value;
      var peers := Peers(t, p, |t[p].children|, n, ofType);
      if n !in peers then -1
      else
        var i := Position(peers, n) + 1;
        if last then |peers| - i + 1 else i
  }

  /** When every child of p is an element, :nth-child counts every child:
      the counted siblings among the first k children are those children. */
  lemma {:induction false} PeersAllElements(t: Tree, p: nat, k: nat, n: nat)
    requires Valid(t) && p < |t| && n < |t| && k <= |t[p].children|
    requires forall c :: c in t[p].children ==> t[c].kind == ElementNode
    ensures Peers(t, p, k, n, false) == t[p].children[..k]
    decreases k
  {
    if k > 0 {
      PeersAllElements(t, p, k - 1, n);
      assert t[p].children[..k] == t[p].children[..k - 1] + [t[p].children[k - 1]];
    }
  }

  /** Among children that are all elements, child j stands at position j + 1
      from the front and at |children| - j from the back. */
  lemma NthPositionAllElements(t: Tree, p: nat, j: nat)
    requires Valid(t) && p < |t| && j < |t[p].children|
    requires t[t[p].children[j]].parent == Some(p)
    requires forall c :: c in t[p].children ==> t[c].kind == ElementNode
    ensures NthPositionOf(t, t[p].children[j], false, false) == j + 1
    ensures NthPositionOf(t, t[p].children[j], true, false) == |t[p].children| - j
  {
    var children := t[p].children;
    var n := children[j];
    PeersAllElements(t, p, |children|, n);
    assert children[..|children|] == children;
    assert Position(children, n) == j;
  }

  /** :nth-child(an+b) and its variants. */
  function NthChildMatches(t: Tree, n: nat, a: int, b: int, last: bool, ofType: bool): bool
    requires Valid(t) && n < |t|
  {
    var i := NthPositionOf(t, n, last, ofType);
    i != -1 && AnPlusB(a, b, i)
  }

  /** :only-child and :only-of-type: n is an element with a parent that has
      exactly one counted child. */
  function OnlyChildMatches(t: Tree, n: nat, ofType: bool): bool
    requires Valid(t) && n < |t|
  {
    && t[n].kind == ElementNode
    && t[n].parent.Some?
    && |Peers(t, t[n].parent.value, |t[t[n].parent.value].children|, n, ofType)| == 1
  }

  /** The counting loop of nthChildSelector: walks the parent's children,
      counting the counted ones and noting the count at n; stops at n unless
      the position is to be mirrored. */
  method NthPosition(t: Tree, n: nat, last: bool, ofType: bool) returns (i: int)
    requires Valid(t) && n < |t|
    ensures i == NthPositionOf(t, n, last, ofType)
  {
    if t[n].kind != ElementNode {
      return -1;
    }
    if t[n].parent.None? {
      return -1;
    }
    var parent := t[n].parent.value;
    var children := t[parent].children;
    i := -1;
    var count := 0;
    ghost var seen: seq<nat> := [];
    var k := 0;
    while k < |children|
      invariant k <= |children|
      invariant seen == Peers(t, parent, k, n, ofType)
      invariant count == |seen|
      invariant i == -1 <==> n !in seen
      invariant i != -1 ==> i == Position(seen, n) + 1
      invariant !last ==> i == -1
    {
      var c := children[k];
      if t[c].kind != ElementNode || (ofType && t[c].data != t[n].data) {
        k := k + 1;
        continue;
      }
      assert Peers(t, parent, k + 1, n, ofType) == seen + [c];
      count := count + 1;
      if c == n {
        assert n !in seen by {
          PeersMembers(t, parent, k, n, ofType);
        }
        assert Position(seen + [c], n) == |seen| by {
          PositionAppend(seen, c, n);
        }
        seen := seen + [c];
        i := count;
        if !last {
          PositionStable(t, parent, k + 1, n, ofType);
          return;
        }
      } else {
        assert n in seen ==> Position(seen + [c], n) == Position(seen, n) by {
          PositionAppend(seen, c, n);
        }
        seen := seen + [c];
      }
      k := k + 1;
    }
    if i != -1 && last {
      i := count - i + 1;
    }
  }

  /** The nthChildSelector matcher: the position found by the counting loop
      (-1 stands for the early returns and the not-found case) is tested
      against the an+b rule with Go's / and %. */
  method NthChild(t: Tree, n: nat, a: int, b: int, last: bool, ofType: bool) returns (r: bool)
    requires Valid(t) && n < |t|
    ensures r == NthChildMatches(t, n, a, b, last, ofType)
  {
    var i := NthPosition(t, n, last, ofType);
    if i == -1 {
      return false;
    }
    i := i - b;
    if a == 0 {
      return i == 0;
    }
    return GoRem(i, a) == 0 && GoQuot(i, a) >= 0;
  }

  /** The onlyChildSelector matcher: counts the parent's counted children and
      gives up as soon as there is a second one. */
  method OnlyChild(t: Tree, n: nat, ofType: bool) returns (r: bool)
    requires Valid(t) && n < |t|
    ensures r == OnlyChildMatches(t, n, ofType)
  {
    if t[n].kind != ElementNode {
      return false;
    }
    if t[n].parent.None? {
      return false;
    }
    var parent := t[n].parent.value;
    var children := t[parent].children;
    var count := 0;
    for k := 0 to |children|
      invariant count == |Peers(t, parent, k, n, ofType)| && count <= 1
    {
      var c := children[k];
      if t[c].kind != ElementNode || (ofType && t[c].data != t[n].data) {
        assert |Peers(t, parent, k + 1, n, ofType)| == count by { PeersCount(t, parent, k, n, ofType); }
        continue;
      }
      assert |Peers(t, parent, k + 1, n, ofType)| == count + 1 by { PeersCount(t, parent, k, n, ofType); }
      count := count + 1;
      if count > 1 {
        assert |Peers(t, parent, |children|, n, ofType)| > 1 by {
          PeersPrefix(t, parent, k + 1, |children|, n, ofType);
        }
        return false;
      }
    }
    return count == 1;
  }

  /** In a well-formed tree an element with a parent is always found among
      its parent's counted children, so the -1 case never arises there: the
      position i satisfies 1 <= i <= count, and so does the mirrored one. */
  lemma NthChildPosition(t: Tree, n: nat, last: bool, ofType: bool)
    requires WellFormed(t) && n < |t| && t[n].kind == ElementNode && t[n].parent.Some?
    ensures var p := t[n].parent.value;
            1 <= NthPositionOf(t, n, last, ofType) <= |Peers(t, p, |t[p].children|, n, ofType)|
  {
    var p := t[n].parent.value;
    var j :| 0 <= j < |t[p].children| && t[p].children[j] == n;
    assert IsPeer(t, t[p].children[j], n, ofType);
    PeersMembers(t, p, |t[p].children|, n, ofType);
  }

  /** In a well-formed tree, :only-child holds exactly when the node's counted
      siblings are the node alone. */
  lemma OnlyChildSole(t: Tree, n: nat, ofType: bool)
    requires WellFormed(t) && n < |t|
    ensures OnlyChildMatches(t, n, ofType) <==>
      && t[n].kind == ElementNode && t[n].parent.Some?
      && Peers(t, t[n].parent.value, |t[t[n].parent.value].children|, n, ofType) == [n]
  {
    if t[n].kind == ElementNode && t[n].parent.Some? {
      NthChildPosition(t, n, false, ofType);
    }
  }

  /** :only-child is :first-child together with :last-child (an+b with
      a = 0, b = 1, counted from either end), and likewise for the of-type
      variants. */
  lemma OnlyChildIsFirstAndLast(t: Tree, n: nat, ofType: bool)
    requires WellFormed(t) && n < |t|
    ensures OnlyChildMatches(t, n, ofType) <==>
      NthChildMatches(t, n, 0, 1, false, ofType) && NthChildMatches(t, n, 0, 1, true, ofType)
  {
    if t[n].kind == ElementNode && t[n].parent.Some? {
      NthChildPosition(t, n, false, ofType);
      var p := t[n].parent.value;
      var peers := Peers(t, p, |t[p].children|, n, ofType);
      var i := Position(peers, n);
      if i == 0 && |peers| == 1 {
        assert NthChildMatches(t, n, 0, 1, false, ofType);
      }
    }
  }
}
