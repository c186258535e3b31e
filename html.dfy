/** The read-only document tree the selectors are applied to, as an arena:
    a node refers to its parent and its children by their index in the tree. */
module Html {
  import opened Wrappers
  import opened Ascii

  datatype NodeType = ErrorNode | TextNode | DocumentNode | ElementNode | CommentNode | DoctypeNode

  datatype Attribute = Attribute(key: Bytes, val: Bytes)

  /** A node: its kind, its Data (the tag name of an element), its attributes
      in document order, its parent (None for a root) and its children in
      document order. */
  datatype Node = Node(kind: NodeType, data: Bytes, attr: seq<Attribute>, parent: Option<nat>, children: seq<nat>)

  type Tree = seq<Node>

  predicate Distinct(xs: seq<nat>) {
    forall i, j :: 0 <= i < j < |xs| ==> xs[i] != xs[j]
  }

  /** Every parent and child reference names a node of the tree, and no node
      lists the same child twice. */
  predicate Valid(t: Tree) {
    && (forall n :: 0 <= n < |t| && t[n].parent.Some? ==> t[n].parent.value < |t|)
    && (forall n, k :: 0 <= n < |t| && 0 <= k < |t[n].children| ==> t[n].children[k] < |t|)
    && (forall n :: 0 <= n < |t| ==> Distinct(t[n].children))
  }

  /** A tree in the usual sense: parent and child references agree, and the
      nodes are numbered so that every child comes after its parent (which
      rules out cycles). */
  predicate WellFormed(t: Tree) {
    && Valid(t)
    && (forall n, k :: 0 <= n < |t| && 0 <= k < |t[n].children| ==>
          n < t[n].children[k] && t[t[n].children[k]].parent == Some(n))
    && (forall n :: 0 <= n < |t| && t[n].parent.Some? ==> n in t[t[n].parent.value].children)
  }

  /** a is x or one of its ancestors, following parent references. */
  predicate AncestorOrSelf(t: Tree, a: nat, x: nat)
    requires Valid(t) && x < |t|
    decreases x
  {
    x == a || (t[x].parent.Some? && t[x].parent.value < x && AncestorOrSelf(t, a, t[x].parent.value))
  }

  /** The nodes of the subtree rooted at n. */
  ghost function Subtree(t: Tree, n: nat): set<nat>
    requires Valid(t)
  {
    set x | 0 <= x < |t| && AncestorOrSelf(t, n, x)
  }

  /** The nodes of the subtree rooted at n in pre-order: n, then the subtree of
      each child in child order. */
  ghost function PreOrder(t: Tree, n: nat): (r: seq<nat>)
    requires WellFormed(t) && n < |t|
    ensures |r| > 0 && r[0] == n
    ensures forall i :: 0 <= i < |r| ==> r[i] < |t|
    decreases |t| - n, |t[n].children| + 1
  {
    [n] + ChildrenPreOrder(t, n, |t[n].children|)
  }

  /** The pre-orders of the first k children of n, one after the other. */
  ghost function ChildrenPreOrder(t: Tree, n: nat, k: nat): (r: seq<nat>)
    requires WellFormed(t) && n < |t| && k <= |t[n].children|
    ensures forall i :: 0 <= i < |r| ==> r[i] < |t|
    decreases |t| - n, k
  {
    if k == 0 then [] else ChildrenPreOrder(t, n, k - 1) + PreOrder(t, t[n].children[k - 1])
  }

  lemma {:induction false} AncestorBelow(t: Tree, a: nat, x: nat)
    requires Valid(t) && x < |t| && AncestorOrSelf(t, a, x)
    ensures a <= x
    decreases x
  {
    if x != a {
      AncestorBelow(t, a, t[x].parent.value);
    }
  }

  /** Two ancestors of the same node lie on one another's ancestor chain. */
  lemma {:induction false} AncestorsComparable(t: Tree, a: nat, b: nat, x: nat)
    requires Valid(t) && x < |t| && b < |t|
    requires AncestorOrSelf(t, a, x) && AncestorOrSelf(t, b, x) && a <= b
    ensures AncestorOrSelf(t, a, b)
    decreases x
  {
    if x != b {
      if x == a {
        AncestorBelow(t, b, t[x].parent.value);
      } else {
        AncestorsComparable(t, a, b, t[x].parent.value);
      }
    }
  }

  /** Distinct children of one node have disjoint subtrees. */
  lemma SiblingsDisjoint(t: Tree, n: nat, j: nat, k: nat, x: nat)
    requires WellFormed(t) && n < |t| && j < |t[n].children| && k < |t[n].children| && j != k && x < |t|
    ensures !(AncestorOrSelf(t, t[n].children[j], x) && AncestorOrSelf(t, t[n].children[k], x))
  {
    var cj, ck := t[n].children[j], t[n].children[k];
    if AncestorOrSelf(t, cj, x) && AncestorOrSelf(t, ck, x) {
      assert cj != ck;
      if cj <= ck {
        AncestorsComparable(t, cj, ck, x);
        AncestorBelow(t, cj, n);
      } else {
        AncestorsComparable(t, ck, cj, x);
        AncestorBelow(t, ck, n);
      }
    }
  }

  lemma {:induction false} ChildrenPreOrderMember(t: Tree, n: nat, k: nat, x: nat) returns (j: nat)
    requires WellFormed(t) && n < |t| && k <= |t[n].children|
    requires x in ChildrenPreOrder(t, n, k)
    ensures j < k && x in PreOrder(t, t[n].children[j])
  {
    if x in ChildrenPreOrder(t, n, k - 1) {
      j := ChildrenPreOrderMember(t, n, k - 1, x);
    } else {
      j := k - 1;
    }
  }

  /** Every node listed by PreOrder(t, a) lies in the subtree of a. */
  lemma {:induction false} PreOrderSound(t: Tree, a: nat, x: nat)
    requires WellFormed(t) && a < |t| && x in PreOrder(t, a)
    ensures x < |t| && AncestorOrSelf(t, a, x)
    decreases |t| - a
  {
    if x != a {
      var j := ChildrenPreOrderMember(t, a, |t[a].children|, x);
      var c := t[a].children[j];
      PreOrderSound(t, c, x);
      ChildAncestor(t, a, c, x);
    }
  }

  lemma {:induction false} ChildAncestor(t: Tree, p: nat, c: nat, x: nat)
    requires WellFormed(t) && p < |t| && c < |t| && x < |t|
    requires t[c].parent == Some(p) && AncestorOrSelf(t, c, x)
    ensures AncestorOrSelf(t, p, x)
    decreases x
  {
    if x == c {
      assert c in t[p].children;
    } else {
      ChildAncestor(t, p, c, t[x].parent.value);
    }
  }

  lemma {:induction false} ChildPreOrderIncluded(t: Tree, n: nat, j: nat, k: nat, x: nat)
    requires WellFormed(t) && n < |t| && j < k <= |t[n].children|
    requires x in PreOrder(t, t[n].children[j])
    ensures x in ChildrenPreOrder(t, n, k)
  {
    if j < k - 1 {
      ChildPreOrderIncluded(t, n, j, k - 1, x);
    }
  }

  lemma {:induction false} ChildInPreOrder(t: Tree, a: nat, p: nat, c: nat)
    requires WellFormed(t) && a < |t| && p in PreOrder(t, a) && c in t[p].children
    ensures c in PreOrder(t, a)
    decreases |t| - a
  {
    var k :| 0 <= k < |t[p].children| && t[p].children[k] == c;
    if p == a {
      ChildPreOrderIncluded(t, a, k, |t[a].children|, c);
    } else {
      var j := ChildrenPreOrderMember(t, a, |t[a].children|, p);
      ChildInPreOrder(t, t[a].children[j], p, c);
      ChildPreOrderIncluded(t, a, j, |t[a].children|, c);
    }
  }

  /** Every node of the subtree of a is listed by PreOrder(t, a). */
  lemma {:induction false} PreOrderComplete(t: Tree, a: nat, x: nat)
    requires WellFormed(t) && a < |t| && x < |t| && AncestorOrSelf(t, a, x)
    ensures x in PreOrder(t, a)
    decreases x
  {
    if x != a {
      var p := t[x].parent.value;
      PreOrderComplete(t, a, p);
      ChildInPreOrder(t, a, p, x);
    }
  }

  lemma DistinctConcat(xs: seq<nat>, ys: seq<nat>)
    requires Distinct(xs) && Distinct(ys)
    requires forall x :: x in xs ==> x !in ys
    ensures Distinct(xs + ys)
  {
    forall i, j | 0 <= i < j < |xs + ys|
      ensures (xs + ys)[i] != (xs + ys)[j]
    {
      if i < |xs| && j >= |xs| {
        assert (xs + ys)[i] in xs && (xs + ys)[j] in ys;
      }
    }
  }

  /** A pre-order lists no node twice. */
  lemma {:induction false} PreOrderDistinct(t: Tree, n: nat)
    requires WellFormed(t) && n < |t|
    ensures Distinct(PreOrder(t, n))
    decreases |t| - n, |t[n].children| + 1
  {
    var rest := ChildrenPreOrder(t, n, |t[n].children|);
    ChildrenPreOrderDistinct(t, n, |t[n].children|);
    forall x | x in rest
      ensures x != n
    {
      var j := ChildrenPreOrderMember(t, n, |t[n].children|, x);
      PreOrderSound(t, t[n].children[j], x);
      if x == n {
        AncestorBelow(t, t[n].children[j], n);
      }
    }
    DistinctConcat([n], rest);
  }

  lemma {:induction false} ChildrenPreOrderDistinct(t: Tree, n: nat, k: nat)
    requires WellFormed(t) && n < |t| && k <= |t[n].children|
    ensures Distinct(ChildrenPreOrder(t, n, k))
    decreases |t| - n, k
  {
    if k > 0 {
      var front := ChildrenPreOrder(t, n, k - 1);
      var last := PreOrder(t, t[n].children[k - 1]);
      ChildrenPreOrderDistinct(t, n, k - 1);
      PreOrderDistinct(t, t[n].children[k - 1]);
      forall x | x in front
        ensures x !in last
      {
        var j := ChildrenPreOrderMember(t, n, k - 1, x);
        PreOrderSound(t, t[n].children[j], x);
        if x in last {
          PreOrderSound(t, t[n].children[k - 1], x);
          SiblingsDisjoint(t, n, j, k - 1, x);
        }
      }
      DistinctConcat(front, last);
    }
  }

  /** The ancestor relation is transitive. */
  lemma {:induction false} AncestorTransitive(t: Tree, a: nat, b: nat, x: nat)
    requires Valid(t) && b < |t| && x < |t|
    requires AncestorOrSelf(t, a, b) && AncestorOrSelf(t, b, x)
    ensures AncestorOrSelf(t, a, x)
    decreases x
  {
    if x != b {
      AncestorTransitive(t, a, b, t[x].parent.value);
    }
  }

  /** In a pre-order a node comes no later than any of its descendants: if
      the entry at i is an ancestor of (or equal to) the entry at j, then
      i <= j. */
  lemma {:induction false} PreOrderAncestorsFirst(t: Tree, n: nat, i: nat, j: nat)
    requires WellFormed(t) && n < |t|
    requires i < |PreOrder(t, n)| && j < |PreOrder(t, n)|
    requires AncestorOrSelf(t, PreOrder(t, n)[i], PreOrder(t, n)[j])
    ensures i <= j
    decreases |t| - n, |t[n].children| + 1
  {
    var p := PreOrder(t, n);
    var rest := ChildrenPreOrder(t, n, |t[n].children|);
    assert p == [n] + rest;
    if 0 < i && j == 0 {
      assert p[i] in p;
      PreOrderSound(t, n, p[i]);
      AncestorBelow(t, n, p[i]);
      AncestorBelow(t, p[i], n);
      PreOrderDistinct(t, n);
    } else if 0 < i && 0 < j {
      assert p[i] == rest[i - 1] && p[j] == rest[j - 1];
      ChildrenAncestorsFirst(t, n, |t[n].children|, i - 1, j - 1);
    }
  }

  /** The same ordering for the pre-orders of the first k children. */
  lemma {:induction false} ChildrenAncestorsFirst(t: Tree, n: nat, k: nat, i: nat, j: nat)
    requires WellFormed(t) && n < |t| && k <= |t[n].children|
    requires i < |ChildrenPreOrder(t, n, k)| && j < |ChildrenPreOrder(t, n, k)|
    requires AncestorOrSelf(t, ChildrenPreOrder(t, n, k)[i], ChildrenPreOrder(t, n, k)[j])
    ensures i <= j
    decreases |t| - n, k
  {
    var cs := ChildrenPreOrder(t, n, k);
    var c := t[n].children[k - 1];
    var front, last := ChildrenPreOrder(t, n, k - 1), PreOrder(t, c);
    assert cs == front + last;
    var m := |front|;
    if i < m && j < m {
      assert cs[i] == front[i] && cs[j] == front[j];
      ChildrenAncestorsFirst(t, n, k - 1, i, j);
    } else if m <= i && m <= j {
      assert cs[i] == last[i - m] && cs[j] == last[j - m];
      PreOrderAncestorsFirst(t, c, i - m, j - m);
    } else if m <= i {
      assert cs[i] in last && cs[j] in front;
      LaterSiblingNotAncestor(t, n, k, cs[i], cs[j]);
    }
  }

  /** No node in the subtree of child k - 1 is an ancestor of a node in the
      subtrees of the earlier children. */
  lemma LaterSiblingNotAncestor(t: Tree, n: nat, k: nat, x: nat, y: nat)
    requires WellFormed(t) && n < |t| && 0 < k <= |t[n].children|
    requires x in PreOrder(t, t[n].children[k - 1]) && y in ChildrenPreOrder(t, n, k - 1)
    ensures !AncestorOrSelf(t, x, y)
  {
    var c := t[n].children[k - 1];
    var jj := ChildrenPreOrderMember(t, n, k - 1, y);
    PreOrderSound(t, c, x);
    PreOrderSound(t, t[n].children[jj], y);
    if AncestorOrSelf(t, x, y) {
      AncestorTransitive(t, c, x, y);
      SiblingsDisjoint(t, n, jj, k - 1, y);
    }
  }

  /** The set of nodes a sequence lists. */
  ghost function Elements(xs: seq<nat>): set<nat> {
    set x | x in xs
  }

  lemma {:induction false} DistinctCardinality(xs: seq<nat>)
    requires Distinct(xs)
    ensures |Elements(xs)| == |xs|
  {
    if xs != [] {
      var init, last := xs[..|xs| - 1], xs[|xs| - 1];
      DistinctCardinality(init);
      assert last !in init;
      assert Elements(xs) == Elements(init) + {last};
    } else {
      assert Elements(xs) == {};
    }
  }

  /** PreOrder(t, n) lists exactly the subtree of n, each node once, so its
      length is the size of the subtree. */
  lemma PreOrderIsSubtree(t: Tree, n: nat)
    requires WellFormed(t) && n < |t|
    ensures Distinct(PreOrder(t, n))
    ensures Elements(PreOrder(t, n)) == Subtree(t, n)
    ensures |PreOrder(t, n)| == |Subtree(t, n)|
  {
    PreOrderDistinct(t, n);
    DistinctCardinality(PreOrder(t, n));
    forall x | x in PreOrder(t, n)
      ensures x in Subtree(t, n)
    {
      PreOrderSound(t, n, x);
    }
    forall x | x in Subtree(t, n)
      ensures x in PreOrder(t, n)
    {
      PreOrderComplete(t, n, x);
    }
  }
}
