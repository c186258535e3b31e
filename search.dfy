/** Search: MatchAll, the pre-order collection of every node of a subtree
    that a selector accepts. */
module Search {
  import opened Wrappers
  import opened Ascii
  import opened Html
  import opened Selectors

  /** The entries of xs that name nodes of t and that s accepts, in the
      order of xs. */
  function Select(t: Tree, s: Selector, xs: seq<nat>): (r: seq<nat>)
    requires Valid(t)
    ensures |r| <= |xs|
  {
    if xs == [] then []
    else
      var x := xs[|xs| - 1];
      Select(t, s, xs[..|xs| - 1]) + (if x < |t| && Matches(t, s, x) then [x] else [])
  }

  /** Select keeps exactly the entries of xs that s accepts. */
  lemma {:induction false} SelectMembers(t: Tree, s: Selector, xs: seq<nat>)
    requires Valid(t)
    ensures forall x :: x in Select(t, s, xs) <==> x in xs && x < |t| && Matches(t, s, x)
    decreases |xs|
  {
    if xs != [] {
      var init, x := xs[..|xs| - 1], xs[|xs| - 1];
      SelectMembers(t, s, init);
      assert xs == init + [x];
    }
  }

  /** Filtering distributes over concatenation. */
  lemma {:induction false} SelectConcat(t: Tree, s: Selector, xs: seq<nat>, ys: seq<nat>)
    requires Valid(t)
    ensures Select(t, s, xs + ys) == Select(t, s, xs) + Select(t, s, ys)
    decreases |ys|
  {
    if ys != [] {
      var init := ys[..|ys| - 1];
      assert (xs + ys)[..|xs + ys| - 1] == xs + init;
      SelectConcat(t, s, xs, init);
    } else {
      assert xs + ys == xs;
    }
  }

  /** Filtering keeps a list free of repetitions. */
  lemma {:induction false} SelectDistinct(t: Tree, s: Selector, xs: seq<nat>)
    requires Valid(t) && Distinct(xs)
    ensures Distinct(Select(t, s, xs))
    decreases |xs|
  {
    if xs != [] {
      var init, x := xs[..|xs| - 1], xs[|xs| - 1];
      SelectDistinct(t, s, init);
      SelectMembers(t, s, init);
      assert x !in init;
      DistinctConcat(Select(t, s, init), if x < |t| && Matches(t, s, x) then [x] else []);
    }
  }

  /** Selecting from a single entry keeps it exactly when it names a node
      that s accepts. */
  lemma SelectSingle(t: Tree, s: Selector, x: nat)
    requires Valid(t)
    ensures Select(t, s, [x]) == if x < |t| && Matches(t, s, x) then [x] else []
  {
    assert [x][..0] == [];
  }

  /** Selecting from a subtree: the root if it matches, then the selection
      from its children's subtrees. */
  lemma SelectRoot(t: Tree, s: Selector, n: nat)
    requires WellFormed(t) && n < |t|
    ensures Select(t, s, PreOrder(t, n)) ==
            (if Matches(t, s, n) then [n] else []) + Select(t, s, ChildrenPreOrder(t, n, |t[n].children|))
  {
    SelectConcat(t, s, [n], ChildrenPreOrder(t, n, |t[n].children|));
    SelectSingle(t, s, n);
  }

  /** Selecting from n and the subtrees of its first k + 1 children extends
      the selection for k children with that of child k's subtree. */
  lemma SelectUpToStep(t: Tree, s: Selector, n: nat, k: nat)
    requires WellFormed(t) && n < |t| && k < |t[n].children|
    ensures Select(t, s, [n] + ChildrenPreOrder(t, n, k + 1)) ==
            Select(t, s, [n] + ChildrenPreOrder(t, n, k)) + Select(t, s, PreOrder(t, t[n].children[k]))
  {
    var c := t[n].children[k];
    var front := ChildrenPreOrder(t, n, k);
    assert ChildrenPreOrder(t, n, k + 1) == front + PreOrder(t, c);
    ConcatAssociative([n], front, PreOrder(t, c));
    SelectConcat(t, s, [n] + front, PreOrder(t, c));
  }

  /** Sequence concatenation is associative. */
  lemma ConcatAssociative(a: seq<nat>, b: seq<nat>, c: seq<nat>)
    ensures (a + b) + c == a + (b + c)
  {
  }

  /** Selecting from n alone gives n when it matches and nothing otherwise. */
  lemma SelectUpToStart(t: Tree, s: Selector, n: nat)
    requires WellFormed(t) && n < |t|
    ensures Select(t, s, [n] + ChildrenPreOrder(t, n, 0)) == if Matches(t, s, n) then [n] else []
  {
    assert [n] + ChildrenPreOrder(t, n, 0) == [n];
    SelectSingle(t, s, n);
  }

  /** MatchAll: tests n, then appends what each child's subtree yields, in
      child order, so the nodes come out in pre-order. */
  method MatchAll(t: Tree, s: Selector, n: nat) returns (result: seq<nat>)
    requires WellFormed(t) && n < |t|
    ensures result == Select(t, s, PreOrder(t, n))
    decreases |t| - n
  {
    result := [];
    var m := Match(t, s, n);
    if m {
      result := [n];
    }
    SelectUpToStart(t, s, n);
    var children := t[n].children;
    for k := 0 to |children|
      invariant result == Select(t, s, [n] + ChildrenPreOrder(t, n, k))
    {
      assert n < children[k];
      var sub := MatchAll(t, s, children[k]);
      SelectUpToStep(t, s, n, k);
      result := result + sub;
    }
  }

  /** MatchAll returns exactly the nodes of n's subtree that s accepts. */
  lemma MatchAllMembers(t: Tree, s: Selector, n: nat)
    requires WellFormed(t) && n < |t|
    ensures forall x :: x in Select(t, s, PreOrder(t, n)) <==> x < |t| && x in Subtree(t, n) && Matches(t, s, x)
  {
    PreOrderIsSubtree(t, n);
    SelectMembers(t, s, PreOrder(t, n));
    assert forall x :: x in PreOrder(t, n) <==> x in Elements(PreOrder(t, n));
  }

  /** MatchAll returns each node at most once, so no more nodes than the
      subtree holds. */
  lemma MatchAllNoRepeats(t: Tree, s: Selector, n: nat)
    requires WellFormed(t) && n < |t|
    ensures Distinct(Select(t, s, PreOrder(t, n)))
    ensures |Select(t, s, PreOrder(t, n))| <= |Subtree(t, n)|
  {
    PreOrderIsSubtree(t, n);
    SelectDistinct(t, s, PreOrder(t, n));
  }

  /** The subtree's root comes first when it matches, and not at all
      otherwise. */
  lemma MatchAllRootFirst(t: Tree, s: Selector, n: nat)
    requires WellFormed(t) && n < |t|
    ensures Matches(t, s, n) ==> |Select(t, s, PreOrder(t, n))| > 0 && Select(t, s, PreOrder(t, n))[0] == n
    ensures !Matches(t, s, n) ==> n !in Select(t, s, PreOrder(t, n))
  {
    SelectRoot(t, s, n);
    SelectMembers(t, s, PreOrder(t, n));
  }

  /** Filtering keeps the order of xs: two entries of the result appear in
      the same order in xs. */
  lemma {:induction false} SelectOrder(t: Tree, s: Selector, xs: seq<nat>, i: nat, j: nat) returns (a: nat, b: nat)
    requires Valid(t) && i < j < |Select(t, s, xs)|
    ensures a < b < |xs| && xs[a] == Select(t, s, xs)[i] && xs[b] == Select(t, s, xs)[j]
    decreases |xs|
  {
    var init, x := xs[..|xs| - 1], xs[|xs| - 1];
    var front := Select(t, s, init);
    var r := Select(t, s, xs);
    assert r == front + (if x < |t| && Matches(t, s, x) then [x] else []);
    if j < |front| {
      assert r[i] == front[i] && r[j] == front[j];
      a, b := SelectOrder(t, s, init, i, j);
      assert xs[a] == init[a] && xs[b] == init[b];
    } else {
      assert r[i] == front[i] && r[i] in front && r[j] == x;
      SelectMembers(t, s, init);
      a :| a < |init| && init[a] == r[i];
      b := |xs| - 1;
    }
  }

  /** MatchAll lists a node x before every descendant y of x that it also
      lists: if x is at index i and y at index j, then i <= j. */
  lemma MatchAllAncestorsFirst(t: Tree, s: Selector, n: nat, x: nat, y: nat, i: nat, j: nat)
    requires WellFormed(t) && n < |t| && y < |t| && AncestorOrSelf(t, x, y)
    requires i < |Select(t, s, PreOrder(t, n))| && Select(t, s, PreOrder(t, n))[i] == x
    requires j < |Select(t, s, PreOrder(t, n))| && Select(t, s, PreOrder(t, n))[j] == y
    ensures i <= j
  {
    if j < i {
      var a, b := SelectOrder(t, s, PreOrder(t, n), j, i);
      PreOrderAncestorsFirst(t, n, b, a);
    }
  }

  /** Intersecting two selectors intersects what MatchAll returns for them. */
  lemma MatchAllIntersection(t: Tree, a: Selector, b: Selector, n: nat)
    requires WellFormed(t) && n < |t|
    ensures Elements(Select(t, IntersectionSelector(a, b), PreOrder(t, n))) ==
            Elements(Select(t, a, PreOrder(t, n))) * Elements(Select(t, b, PreOrder(t, n)))
  {
    SelectMembers(t, IntersectionSelector(a, b), PreOrder(t, n));
    SelectMembers(t, a, PreOrder(t, n));
    SelectMembers(t, b, PreOrder(t, n));
  }

  /** A selector and its negation split the subtree between them. */
  lemma MatchAllNegation(t: Tree, a: Selector, n: nat)
    requires WellFormed(t) && n < |t|
    ensures Elements(Select(t, NegatedSelector(a), PreOrder(t, n))) * Elements(Select(t, a, PreOrder(t, n))) == {}
    ensures Elements(Select(t, NegatedSelector(a), PreOrder(t, n))) + Elements(Select(t, a, PreOrder(t, n))) == Subtree(t, n)
  {
    MatchAllMembers(t, NegatedSelector(a), n);
    MatchAllMembers(t, a, n);
  }

  /** A tree of three elements: a div (node 0) whose children are a span
      (node 1) and a div (node 2). */
  predicate DivSpanDivShape(t: Tree) {
    && WellFormed(t) && |t| == 3
    && t[0].children == [1, 2] && t[1].children == [] && t[2].children == []
    && t[0].kind == ElementNode && t[1].kind == ElementNode && t[2].kind == ElementNode
    && t[0].data == [100, 105, 118] && t[1].data == [115, 112, 97, 110] && t[2].data == [100, 105, 118]
  }

  /** Such a tree exists. */
  function DivSpanDiv(): (t: Tree)
    ensures DivSpanDivShape(t)
  {
    var div: Bytes := [100, 105, 118];
    [ Node(ElementNode, div, [], None, [1, 2]),
      Node(ElementNode, [115, 112, 97, 110], [], Some(0), []),
      Node(ElementNode, div, [], Some(0), []) ]
  }

  /** Its pre-order is the root, the span, then the inner div. */
  lemma DivSpanDivPreOrder(t: Tree)
    requires DivSpanDivShape(t)
    ensures PreOrder(t, 0) == [0, 1, 2]
  {
    assert PreOrder(t, 1) == [1];
    assert PreOrder(t, 2) == [2];
    assert ChildrenPreOrder(t, 0, 1) == [1];
  }

  /** Building the selector for "DIV" folds the tag to "div". */
  lemma DivSelector()
    ensures TypeSelector([68, 73, 86]) == Tag([100, 105, 118])
  {
    assert LowerASCII([68, 73, 86]) == [100, 105, 118];
  }

  /** The selector for "DIV" collects the root and then its second child. */
  lemma DivSpanDivExample(t: Tree)
    requires DivSpanDivShape(t)
    ensures Select(t, TypeSelector([68, 73, 86]), PreOrder(t, 0)) == [0, 2]
  {
    var s := TypeSelector([68, 73, 86]);
    DivSelector();
    DivSpanDivPreOrder(t);
    assert Matches(t, s, 0) && !Matches(t, s, 1) && Matches(t, s, 2);
    assert Select(t, s, [0]) == [0] by { SelectSingle(t, s, 0); }
    assert Select(t, s, [0, 1]) == [0] by { assert [0, 1][..1] == [0]; }
    assert Select(t, s, [0, 1, 2]) == [0, 2] by { assert [0, 1, 2][..2] == [0, 1]; }
  }
}
