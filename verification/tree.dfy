/** The container tree as an immutable arena: every container is a record
    addressed by a stable id, holding its variant, its parent, its ordered
    children and its `ChildFocusOrder` (most recently focused child first).
    A container's sibling index is its position in its parent's children, as
    `Container.Index` is in the window manager. */
module Tree {
  import opened Wrappers
  import opened Seqs

  type NodeId = nat

  /** The container variants. A workspace is a split container. */
  datatype Kind = RootContainer | Monitor | Workspace | SplitContainer | Window

  /** Only split containers accept children by insertion at an index. */
  predicate IsSplitContainer(k: Kind) {
    k == Workspace || k == SplitContainer
  }

  datatype Node = Node(
    kind: Kind,
    parent: Option<NodeId>,
    children: seq<NodeId>,
    focusOrder: seq<NodeId>)

  type Arena = map<NodeId, Node>

  // ---------------------------------------------------------------------
  // Well-formedness
  // ---------------------------------------------------------------------

  /** Every child of `p` exists and points back to `p`. */
  predicate ChildLinked(a: Arena, p: NodeId)
    requires p in a
  {
    forall c :: c in a[p].children ==> c in a && a[c].parent == Some(p)
  }

  /** The parent of `c`, if any, exists and lists `c` among its children. */
  predicate ParentLinked(a: Arena, c: NodeId)
    requires c in a
  {
    a[c].parent.Some? ==> a[c].parent.value in a && c in a[a[c].parent.value].children
  }

  /** The focus order is a duplicate-free permutation of the (duplicate-free)
      children. */
  predicate FocusOrderIsPermutation(n: Node) {
    && Distinct(n.children)
    && Distinct(n.focusOrder)
    && multiset(n.focusOrder) == multiset(n.children)
  }

  /** Every container's links and focus order are consistent. The triggers
      keep the solver from chasing links from container to container. */
  predicate WellFormed(a: Arena) {
    forall x {:trigger ChildLinked(a, x)} {:trigger ParentLinked(a, x)} {:trigger FocusOrderIsPermutation(a[x])} ::
      x in a ==> ChildLinked(a, x) && ParentLinked(a, x) && FocusOrderIsPermutation(a[x])
  }

  /** `Container.Index`: the position of `x` among its parent's children. */
  function Index(a: Arena, x: NodeId): int
    requires x in a && a[x].parent.Some? && a[x].parent.value in a
  {
    IndexOf(a[a[x].parent.value].children, x)
  }

  /** Sibling indices are exactly 0..n-1 in child order, for every parent. */
  predicate SiblingIndicesContiguous(a: Arena) {
    forall p, i :: p in a && 0 <= i < |a[p].children| ==>
      var c := a[p].children[i];
      c in a && a[c].parent == Some(p) && Index(a, c) == i
  }

  lemma WellFormedIndicesContiguous(a: Arena)
    requires WellFormed(a)
    ensures SiblingIndicesContiguous(a)
  {
    forall p, i | p in a && 0 <= i < |a[p].children|
      ensures var c := a[p].children[i]; c in a && a[c].parent == Some(p) && Index(a, c) == i
    {
      assert ChildLinked(a, p);
      IndexOfDistinct(a[p].children, i);
    }
  }

  /** `x` is the first entry of its parent's focus order. */
  predicate IsMostRecent(a: Arena, x: NodeId) {
    && x in a
    && a[x].parent.Some?
    && a[x].parent.value in a
    && |a[a[x].parent.value].focusOrder| > 0
    && a[a[x].parent.value].focusOrder[0] == x
  }

  predicate IsLeaf(a: Arena, x: NodeId)
    requires x in a
  {
    |a[x].children| == 0
  }

  // ---------------------------------------------------------------------
  // Ancestor chains
  // ---------------------------------------------------------------------

  /** Follows parent links from `x`, stopping at a parentless node, at a
      missing id or at an id already visited. */
  function Walk(a: Arena, x: NodeId, seen: set<NodeId>): (c: seq<NodeId>)
    ensures forall i :: 0 <= i < |c| ==> c[i] in a && c[i] !in seen
    ensures forall z :: z in c ==> z in a
    ensures Distinct(c)
    ensures |c| > 0 <==> x in a && x !in seen
    ensures |c| > 0 ==> c[0] == x
    ensures forall i, j :: 0 <= i && j == i + 1 && j < |c| ==> a[c[i]].parent == Some(c[j])
    decreases a.Keys - seen
  {
    if x !in a || x in seen then []
    else
      match a[x].parent
      case None => [x]
      case Some(p) => [x] + Walk(a, p, seen + {x})
  }

  /** `Container.SelfAndAncestors`: `x`, its parent, its grandparent, ... */
  function SelfAndAncestors(a: Arena, x: NodeId): seq<NodeId> {
    Walk(a, x, {})
  }

  /** The chain of `x` ends at a parentless container (no cycle). */
  predicate Rooted(a: Arena, x: NodeId) {
    var c := SelfAndAncestors(a, x);
    |c| > 0 && a[c[|c| - 1]].parent.None?
  }

  /** A well-formed arena in which every chain reaches a root. */
  predicate Forest(a: Arena) {
    WellFormed(a) && forall x {:trigger Rooted(a, x)} :: x in a ==> Rooted(a, x)
  }

  /** Walking with more ids marked as visited changes nothing as long as the
      walk never meets one of them. */
  lemma {:induction false} WalkSeenMono(a: Arena, x: NodeId, small: set<NodeId>, large: set<NodeId>)
    requires small <= large
    requires forall z :: z in Walk(a, x, small) ==> z !in large
    ensures Walk(a, x, large) == Walk(a, x, small)
    decreases a.Keys - small
  {
    if x in a && x !in small {
      assert x in Walk(a, x, small);
      match a[x].parent
      case None =>
      case Some(p) =>
        var rest := Walk(a, p, small + {x});
        assert Walk(a, x, small) == [x] + rest;
        forall z | z in rest
          ensures z !in large + {x}
        {
          assert z in Walk(a, x, small);
        }
        WalkSeenMono(a, p, small + {x}, large + {x});
    }
  }

  /** A walk that reaches a root is the same for any smaller visited set. */
  lemma {:induction false} WalkRootedShrink(a: Arena, x: NodeId, large: set<NodeId>, small: set<NodeId>)
    requires small <= large
    requires var c := Walk(a, x, large); |c| > 0 && a[c[|c| - 1]].parent.None?
    ensures Walk(a, x, small) == Walk(a, x, large)
    decreases a.Keys - small
  {
    match a[x].parent
    case None =>
    case Some(p) =>
      var rest := Walk(a, p, large + {x});
      assert Walk(a, x, large) == [x] + rest;
      WalkRootedShrink(a, p, large + {x}, small + {x});
  }

  /** Every suffix of a walk is the walk from its first element, with the
      dropped prefix added to the visited set. */
  lemma {:induction false} WalkSuffix(a: Arena, x: NodeId, seen: set<NodeId>, i: nat)
    requires i < |Walk(a, x, seen)|
    ensures var c := Walk(a, x, seen); c[i..] == Walk(a, c[i], seen + Elems(c[..i]))
    decreases i
  {
    var c := Walk(a, x, seen);
    if i > 0 {
      match a[x].parent
      case None =>
        assert false;
      case Some(p) =>
        var rest := Walk(a, p, seen + {x});
        assert c == [x] + rest;
        WalkSuffix(a, p, seen + {x}, i - 1);
        assert c[i..] == rest[i - 1..];
        assert c[i] == rest[i - 1];
        assert c[..i] == [x] + rest[..i - 1];
        assert seen + {x} + Elems(rest[..i - 1]) == seen + Elems(c[..i]);
    } else {
      assert seen + Elems(c[..0]) == seen;
      assert c[0] == x && c[0..] == c;
    }
  }

  /** In a rooted chain, the chain of any member is the rest of the chain
      from that member on. */
  lemma ChainSuffix(a: Arena, x: NodeId, i: nat)
    requires Rooted(a, x)
    requires i < |SelfAndAncestors(a, x)|
    ensures SelfAndAncestors(a, SelfAndAncestors(a, x)[i]) == SelfAndAncestors(a, x)[i..]
  {
    var c := SelfAndAncestors(a, x);
    WalkSuffix(a, x, {}, i);
    assert {} + Elems(c[..i]) == Elems(c[..i]);
    var d := Walk(a, c[i], Elems(c[..i]));
    assert d == c[i..];
    assert d[|d| - 1] == c[|c| - 1];
    WalkRootedShrink(a, c[i], Elems(c[..i]), {});
  }

  /** The chain of a child is the child followed by its parent's chain. */
  lemma ChainOfChild(a: Arena, y: NodeId)
    requires Forest(a) && y in a && a[y].parent.Some?
    ensures SelfAndAncestors(a, y) == [y] + SelfAndAncestors(a, a[y].parent.value)
  {
    var c := SelfAndAncestors(a, y);
    assert Rooted(a, y);
    assert |c| > 1;
    ChainSuffix(a, y, 1);
    assert c == [y] + c[1..];
  }

  /** No container is its own strict ancestor. */
  lemma AncestorAntisymmetric(a: Arena, x: NodeId, y: NodeId)
    requires Forest(a) && x in a && y in a
    requires x in SelfAndAncestors(a, y) && y in SelfAndAncestors(a, x)
    ensures x == y
  {
    var cy := SelfAndAncestors(a, y);
    var i := IndexOf(cy, x);
    assert Rooted(a, y);
    ChainSuffix(a, y, i);
    assert y in cy[i..];
    var j :| i <= j < |cy| && cy[j] == y;
    assert cy[0] == y;
  }

  /** The parent of a container never lies in that container's own chain
      beyond itself, so in particular no container is its own parent. */
  lemma ParentIsNotSelf(a: Arena, x: NodeId)
    requires Forest(a) && x in a && a[x].parent.Some?
    ensures a[x].parent.value != x
    ensures x !in SelfAndAncestors(a, a[x].parent.value)
  {
    ChainOfChild(a, x);
    var c := SelfAndAncestors(a, x);
    assert c[1..] == SelfAndAncestors(a, a[x].parent.value);
    assert forall j :: 1 <= j < |c| ==> c[j] != c[0];
  }

  /** Two arenas with the same ids and parents have the same chains. */
  lemma {:induction false} WalkFrame(a: Arena, b: Arena, x: NodeId, seen: set<NodeId>)
    requires a.Keys == b.Keys
    requires forall z :: z in Walk(a, x, seen) ==> b[z].parent == a[z].parent
    ensures Walk(b, x, seen) == Walk(a, x, seen)
    decreases a.Keys - seen
  {
    if x in a && x !in seen {
      assert x in Walk(a, x, seen);
      match a[x].parent
      case None =>
      case Some(p) =>
        var rest := Walk(a, p, seen + {x});
        assert Walk(a, x, seen) == [x] + rest;
        forall z | z in rest
          ensures b[z].parent == a[z].parent
        {
          assert z in Walk(a, x, seen);
        }
        WalkFrame(a, b, p, seen + {x});
    }
  }

  /** Re-parenting `n` under `t`, where `n` is not an ancestor-or-self of
      `t`, makes `n`'s chain `n` followed by `t`'s unchanged chain. */
  lemma ChainOfReparented(a: Arena, b: Arena, n: NodeId, t: NodeId)
    requires a.Keys == b.Keys && n in a && t in a
    requires n !in SelfAndAncestors(a, t)
    requires b[n].parent == Some(t)
    requires forall x :: x in a && x != n ==> b[x].parent == a[x].parent
    ensures SelfAndAncestors(b, t) == SelfAndAncestors(a, t)
    ensures SelfAndAncestors(b, n) == [n] + SelfAndAncestors(a, t)
  {
    WalkFrame(a, b, t, {});
    WalkSeenMono(b, t, {}, {n});
    assert {} + {n} == {n};
    assert SelfAndAncestors(b, n) == [n] + Walk(b, t, {} + {n});
  }

  /** A container whose parent's chain does not contain it has that chain
      above it. */
  lemma ChainStep(b: Arena, x: NodeId, p: NodeId)
    requires x in b && b[x].parent == Some(p)
    requires x !in SelfAndAncestors(b, p)
    ensures SelfAndAncestors(b, x) == [x] + SelfAndAncestors(b, p)
  {
    WalkSeenMono(b, p, {}, {x});
    assert {} + {x} == {x};
  }

  /** A container whose subtree holds `n` is not an ancestor-or-self of a
      container outside `n`'s subtree. */
  lemma OutsideSubtree(a: Arena, n: NodeId, t: NodeId, x: NodeId)
    requires Forest(a) && t in a
    requires n in SelfAndAncestors(a, x) && n !in SelfAndAncestors(a, t)
    ensures x !in SelfAndAncestors(a, t)
  {
    var ct := SelfAndAncestors(a, t);
    if x in ct {
      // `x`'s own chain would be a suffix of `ct` and so would hold `n`.
      assert Rooted(a, t);
      ChainSuffix(a, t, IndexOf(ct, x));
      assert false;
    }
  }

  /** After re-parenting `n` under `t` (`n` not an ancestor-or-self of `t`),
      the chain of a container that ran through `n` keeps its part up to
      `n` and continues with `t`'s old chain. */
  lemma {:induction false} ChainThroughReparented(a: Arena, b: Arena, n: NodeId, t: NodeId, x: NodeId)
    requires Forest(a) && a.Keys == b.Keys && n in a && t in a
    requires n !in SelfAndAncestors(a, t)
    requires b[n].parent == Some(t)
    requires forall y :: y in a && y != n ==> b[y].parent == a[y].parent
    requires n in SelfAndAncestors(a, x)
    ensures var c := SelfAndAncestors(a, x);
      SelfAndAncestors(b, x) == c[..IndexOf(c, n)] + ([n] + SelfAndAncestors(a, t))
    decreases IndexOf(SelfAndAncestors(a, x), n)
  {
    var c := SelfAndAncestors(a, x);
    var i := IndexOf(c, n);
    var ct := SelfAndAncestors(a, t);
    if x == n {
      assert SelfAndAncestors(b, x) == c[..i] + ([n] + ct) by {
        ChainOfReparented(a, b, n, t);
        assert c[..i] == [];
      }
    } else {
      var p := c[1];
      var cp := SelfAndAncestors(a, p);
      ReparentedStepFacts(a, b, n, t, x);
      ChainThroughReparented(a, b, n, t, p);
      ChainSplice(b, x, p, c, cp, i, [n] + ct);
    }
  }

  /** The step of `ChainThroughReparented` from a container other than `n`
      to its parent. */
  lemma ReparentedStepFacts(a: Arena, b: Arena, n: NodeId, t: NodeId, x: NodeId)
    requires Forest(a) && a.Keys == b.Keys && n in a && t in a && x != n
    requires n !in SelfAndAncestors(a, t)
    requires forall y :: y in a && y != n ==> b[y].parent == a[y].parent
    requires n in SelfAndAncestors(a, x)
    ensures var c := SelfAndAncestors(a, x);
      && |c| > 1
      && var cp := SelfAndAncestors(a, c[1]);
      && c == [x] + cp
      && n in cp && IndexOf(cp, n) == IndexOf(c, n) - 1
      && b[x].parent == Some(c[1])
      && x !in cp[..IndexOf(cp, n)] + ([n] + SelfAndAncestors(a, t))
  {
    var c := SelfAndAncestors(a, x);
    var i := IndexOf(c, n);
    var p := c[1];
    var cp := SelfAndAncestors(a, p);
    ChainOfChild(a, x);
    assert cp[i - 1] == n;
    IndexOfDistinct(cp, i - 1);
    OutsideSubtree(a, n, t, x);
    assert forall j :: 1 <= j < |c| ==> c[j] != c[0];
    assert x !in cp[..i - 1];
  }

  /** A container in front of its parent's spliced chain has the longer
      chain spliced the same way. */
  lemma ChainSplice(b: Arena, x: NodeId, p: NodeId, c: seq<NodeId>, cp: seq<NodeId>, i: nat, rest: seq<NodeId>)
    requires x in b && b[x].parent == Some(p) && x !in SelfAndAncestors(b, p)
    requires c == [x] + cp && 1 <= i <= |c|
    requires SelfAndAncestors(b, p) == cp[..i - 1] + rest
    ensures SelfAndAncestors(b, x) == c[..i] + rest
  {
    ChainStep(b, x, p);
    assert c[..i] == [x] + cp[..i - 1];
  }

  /** Re-parenting `n` under a container outside `n`'s subtree keeps the
      chain of every container ending at a root. */
  lemma RootedAfterReparent(a: Arena, b: Arena, n: NodeId, t: NodeId, x: NodeId)
    requires Forest(a) && a.Keys == b.Keys && n in a && t in a && x in a
    requires n !in SelfAndAncestors(a, t)
    requires b[n].parent == Some(t)
    requires forall y :: y in a && y != n ==> b[y].parent == a[y].parent
    ensures Rooted(b, x)
  {
    var c := SelfAndAncestors(a, x);
    assert Rooted(a, x);
    if n in c {
      var ct := SelfAndAncestors(a, t);
      assert Rooted(a, t);
      ChainThroughReparented(a, b, n, t, x);
      var cb := SelfAndAncestors(b, x);
      assert cb[|cb| - 1] == ct[|ct| - 1];
    } else {
      WalkFrame(a, b, x, {});
    }
  }

  /** So a well-formed result of such a re-parenting is again a forest. */
  lemma ReparentedForest(a: Arena, b: Arena, n: NodeId, t: NodeId)
    requires Forest(a) && WellFormed(b) && a.Keys == b.Keys && n in a && t in a
    requires n !in SelfAndAncestors(a, t)
    requires b[n].parent == Some(t)
    requires forall y :: y in a && y != n ==> b[y].parent == a[y].parent
    ensures Forest(b)
  {
    forall x | x in b
      ensures Rooted(b, x)
    {
      RootedAfterReparent(a, b, n, t, x);
    }
  }

  /** Two arenas with the same ids holding the same nodes are equal. */
  lemma NodewiseEqual(a: Arena, b: Arena)
    requires a.Keys == b.Keys && forall x :: x in a ==> b[x] == a[x]
    ensures b == a
  {
  }

  /** Same ids, variants, parents and children: only focus orders may differ. */
  predicate SameShape(a: Arena, b: Arena) {
    && a.Keys == b.Keys
    && forall x :: x in a ==>
         b[x].kind == a[x].kind && b[x].parent == a[x].parent && b[x].children == a[x].children
  }

  lemma SameShapeChains(a: Arena, b: Arena, x: NodeId)
    requires SameShape(a, b)
    ensures SelfAndAncestors(b, x) == SelfAndAncestors(a, x)
  {
    WalkFrame(a, b, x, {});
  }

  // ---------------------------------------------------------------------
  // Lowest common ancestor and branches
  // ---------------------------------------------------------------------

  /** `ContainerService.GetLowestCommonAncestor`: the first container of
      `x`'s chain that is also in `y`'s chain; `None` for different trees. */
  function LowestCommonAncestor(a: Arena, x: NodeId, y: NodeId): (r: Option<NodeId>)
    ensures r.None? <==> forall z :: z in SelfAndAncestors(a, x) ==> z !in SelfAndAncestors(a, y)
    ensures r.Some? ==>
      && r.value in SelfAndAncestors(a, x)
      && r.value in SelfAndAncestors(a, y)
      && forall i :: 0 <= i < IndexOf(SelfAndAncestors(a, x), r.value) ==>
           SelfAndAncestors(a, x)[i] !in SelfAndAncestors(a, y)
  {
    var cx := SelfAndAncestors(a, x);
    var cy := SelfAndAncestors(a, y);
    var k := FirstIndex(cx, z => z in cy);
    if k < 0 then None
    else
      IndexOfDistinct(cx, k);
      Some(cx[k])
  }

  /** The LCA is the lowest common ancestor: every container that is an
      ancestor-or-self of both arguments is an ancestor-or-self of it. */
  lemma LowestCommonAncestorIsLowest(a: Arena, x: NodeId, y: NodeId, z: NodeId)
    requires Forest(a) && x in a
    requires z in SelfAndAncestors(a, x) && z in SelfAndAncestors(a, y)
    ensures LowestCommonAncestor(a, x, y).Some?
    ensures z in SelfAndAncestors(a, LowestCommonAncestor(a, x, y).value)
  {
    var cx := SelfAndAncestors(a, x);
    var l := LowestCommonAncestor(a, x, y).value;
    var k := IndexOf(cx, l);
    var i := IndexOf(cx, z);
    assert cx[i] == z && z in SelfAndAncestors(a, y);
    assert k <= i;
    assert Rooted(a, x);
    ChainSuffix(a, x, k);
    assert cx[k..][i - k] == z;
  }

  /** The LCA of `x` and `y` is `y` itself exactly when `y` is an
      ancestor-or-self of `x`. */
  lemma LowestCommonAncestorIsTarget(a: Arena, x: NodeId, y: NodeId)
    requires Forest(a) && x in a && y in a
    ensures LowestCommonAncestor(a, x, y) == Some(y) <==> y in SelfAndAncestors(a, x)
  {
    var cx := SelfAndAncestors(a, x);
    var cy := SelfAndAncestors(a, y);
    if y in cx {
      assert y in cy;
      var l := LowestCommonAncestor(a, x, y).value;
      assert l in cy && l in cx;
      assert Rooted(a, x);
      ChainSuffix(a, x, IndexOf(cx, l));
      assert y in SelfAndAncestors(a, l) by {
        var k := IndexOf(cx, l);
        var j := IndexOf(cx, y);
        assert !(j < k);
        assert cx[j] == y;
      }
      AncestorAntisymmetric(a, l, y);
    }
  }

  /** `SelfAndAncestors.First(ancestor => ancestor.Parent == l)`: the member
      of `x`'s chain that is a direct child of `l`; `None` where `First`
      throws. */
  function BranchToward(a: Arena, x: NodeId, l: NodeId): (r: Option<NodeId>)
    ensures r.None? <==> forall z :: z in SelfAndAncestors(a, x) ==> a[z].parent != Some(l)
    ensures r.Some? ==> r.value in SelfAndAncestors(a, x) && a[r.value].parent == Some(l)
  {
    var c := SelfAndAncestors(a, x);
    var k := FirstIndex(c, z => z in a && a[z].parent == Some(l));
    if k < 0 then None else Some(c[k])
  }

  /** In a rooted chain, a member whose parent is `l` is followed by `l`. */
  lemma ChainStepToParent(a: Arena, x: NodeId, j: nat, l: NodeId)
    requires Rooted(a, x)
    requires j < |SelfAndAncestors(a, x)| && a[SelfAndAncestors(a, x)[j]].parent == Some(l)
    ensures j + 1 < |SelfAndAncestors(a, x)| && SelfAndAncestors(a, x)[j + 1] == l
  {
  }

  /** In a forest, the branch toward `l` exists exactly when `l` is a strict
      ancestor of `x`; it is then the member of `x`'s chain just below `l`,
      the only member whose parent is `l`, and `x` itself exactly when `x`
      is a direct child of `l`. */
  lemma BranchTowardSpec(a: Arena, x: NodeId, l: NodeId)
    requires Rooted(a, x)
    ensures var c := SelfAndAncestors(a, x);
      BranchToward(a, x, l).Some? <==> l in c && l != x
    ensures var c := SelfAndAncestors(a, x);
      l in c && l != x ==>
        && 1 <= IndexOf(c, l)
        && BranchToward(a, x, l) == Some(c[IndexOf(c, l) - 1])
        && (forall z :: z in c && a[z].parent == Some(l) ==> z == c[IndexOf(c, l) - 1])
        && (BranchToward(a, x, l) == Some(x) <==> a[x].parent == Some(l))
  {
    var c := SelfAndAncestors(a, x);
    if l in c && l != x {
      var k := IndexOf(c, l);
      assert c[0] == x && k != 0;
      assert a[c[k - 1]].parent == Some(l);
      OnlyChildOnChain(a, x, l);
    } else if BranchToward(a, x, l).Some? {
      var b := BranchToward(a, x, l).value;
      ChainStepToParent(a, x, IndexOf(c, b), l);
      assert false;
    }
  }

  /** In a rooted chain, only the member just below `l` has `l` as parent. */
  lemma OnlyChildOnChain(a: Arena, x: NodeId, l: NodeId)
    requires Rooted(a, x)
    requires var c := SelfAndAncestors(a, x); l in c && 1 <= IndexOf(c, l)
    ensures var c := SelfAndAncestors(a, x);
      forall z :: z in c && a[z].parent == Some(l) ==> z == c[IndexOf(c, l) - 1]
  {
    var c := SelfAndAncestors(a, x);
    var k := IndexOf(c, l);
    forall z | z in c && a[z].parent == Some(l)
      ensures z == c[k - 1]
    {
      var j := IndexOf(c, z);
      ChainStepToParent(a, x, j, l);
      IndexOfDistinct(c, j + 1);
    }
  }

  // ---------------------------------------------------------------------
  // Last focused descendant
  // ---------------------------------------------------------------------

  /** Descends through the first entry of each focus order. */
  function FollowFocus(a: Arena, x: NodeId, seen: set<NodeId>): NodeId
    decreases a.Keys - seen
  {
    if x !in a || x in seen || |a[x].focusOrder| == 0 then x
    else FollowFocus(a, a[x].focusOrder[0], seen + {x})
  }

  /** `Container.LastFocusedDescendant`: start at the most recently focused
      child and keep descending while the current container has one. */
  function LastFocusedDescendant(a: Arena, x: NodeId): Option<NodeId>
    requires x in a
  {
    if |a[x].focusOrder| == 0 then None
    else Some(FollowFocus(a, a[x].focusOrder[0], {x}))
  }

  /** Every container on `n`'s chain strictly below `b` is the most recent
      entry of its parent's focus order. */
  predicate FocusPathTo(a: Arena, n: NodeId, b: NodeId) {
    var c := SelfAndAncestors(a, n);
    && b in c
    && b != n
    && forall z :: z in c[..IndexOf(c, b)] ==> IsMostRecent(a, z)
  }

  /** Being the most recent child depends only on the parent's focus
      order. */
  lemma MostRecentFrame(a: Arena, b: Arena, z: NodeId, q: NodeId)
    requires SameShape(a, b) && IsMostRecent(a, z) && a[z].parent == Some(q)
    requires b[q] == a[q]
    ensures IsMostRecent(b, z)
  {
  }

  /** Once every chain member below `end` is its parent's most recent
      child, focus runs from `end` down to `n`. */
  lemma MostRecentPath(a: Arena, r: Arena, n: NodeId, end: NodeId)
    requires SameShape(a, r)
    requires var c := SelfAndAncestors(a, n);
      && end in c && end != n
      && forall z :: z in c[..IndexOf(c, end)] ==> IsMostRecent(r, z)
    ensures FocusPathTo(r, n, end)
  {
    SameShapeChains(a, r, n);
  }

  /** A focus path survives any change that keeps the shape and leaves the
      focus orders along it alone. */
  lemma FocusPathFrame(a: Arena, b: Arena, n: NodeId, t: NodeId)
    requires SameShape(a, b) && FocusPathTo(a, n, t)
    requires var c := SelfAndAncestors(a, n);
      forall y :: y in c[1..IndexOf(c, t) + 1] ==> b[y] == a[y]
    ensures FocusPathTo(b, n, t)
  {
    var c := SelfAndAncestors(a, n);
    var k := IndexOf(c, t);
    FocusPathFrameStep(a, b, c, k);
    MostRecentPath(a, b, n, t);
  }

  /** The chain-level core of `FocusPathFrame`. */
  lemma FocusPathFrameStep(a: Arena, b: Arena, c: seq<NodeId>, k: nat)
    requires SameShape(a, b) && k < |c|
    requires forall z :: z in c ==> z in a
    requires forall i, j :: 0 <= i && j == i + 1 && j < |c| ==> a[c[i]].parent == Some(c[j])
    requires forall z :: z in c[..k] ==> IsMostRecent(a, z)
    requires forall y :: y in c[1..k + 1] ==> b[y] == a[y]
    ensures forall z :: z in c[..k] ==> IsMostRecent(b, z)
  {
    forall z | z in c[..k]
      ensures IsMostRecent(b, z)
    {
      var j :| 0 <= j < k && c[..k][j] == z;
      assert c[j] in c && c[j + 1] in c;
      var q := c[j + 1];
      assert c[1..k + 1][j] == q;
      MostRecentFrame(a, b, z, q);
    }
  }

  lemma {:induction false} FollowDown(a: Arena, n: NodeId, k: nat, j: nat)
    requires n in a && |a[n].focusOrder| == 0
    requires var c := SelfAndAncestors(a, n);
      j < k < |c| && forall z :: z in c[..k] ==> IsMostRecent(a, z)
    ensures var c := SelfAndAncestors(a, n);
      FollowFocus(a, c[j], Elems(c[j + 1..k + 1])) == n
  {
    var c := SelfAndAncestors(a, n);
    if j > 0 {
      assert c[j - 1] in c[..k];
      assert IsMostRecent(a, c[j - 1]);
      assert a[c[j - 1]].parent == Some(c[j]);
      assert c[j] !in Elems(c[j + 1..k + 1]);
      FollowDown(a, n, k, j - 1);
      assert Elems(c[j + 1..k + 1]) + {c[j]} == Elems(c[j..k + 1]);
    } else {
      assert n !in Elems(c[1..k + 1]);
    }
  }

  /** Every focus entry of `x` is a child of `x`. */
  lemma FocusEntryIsChild(a: Arena, x: NodeId, y: NodeId)
    requires WellFormed(a) && x in a && y in a[x].focusOrder
    ensures y in a && a[y].parent == Some(x)
  {
    assert FocusOrderIsPermutation(a[x]) && ChildLinked(a, x);
    assert y in multiset(a[x].children);
  }

  /** A focus path extends downward through a most recent child. */
  lemma FocusPathExtend(a: Arena, x: NodeId, y: NodeId, b: NodeId)
    requires FocusPathTo(a, x, b) && IsMostRecent(a, y)
    requires SelfAndAncestors(a, y) == [y] + SelfAndAncestors(a, x)
    ensures FocusPathTo(a, y, b)
    ensures IndexOf(SelfAndAncestors(a, y), b) == IndexOf(SelfAndAncestors(a, x), b) + 1
  {
    var c := SelfAndAncestors(a, x);
    var k := IndexOf(c, b);
    DistinctHead(y, c);
    IndexOfCons(y, c, b);
    ConsPrefix(y, c, k);
  }

  /** One step down a focus path: the most recent child of `x` continues it,
      and `x` joins the strict ancestors already visited. */
  lemma FollowUpStep(a: Arena, x: NodeId, b: NodeId, seen: set<NodeId>)
    requires Forest(a) && x in a && FocusPathTo(a, x, b) && |a[x].focusOrder| > 0
    requires forall z :: z in seen ==> z in SelfAndAncestors(a, x) && z != x
    ensures var y := a[x].focusOrder[0];
      && y in a
      && FocusPathTo(a, y, b)
      && forall z :: z in seen + {x} ==> z in SelfAndAncestors(a, y) && z != y
  {
    var c := SelfAndAncestors(a, x);
    var y := a[x].focusOrder[0];
    FocusEntryIsChild(a, x, y);
    assert Rooted(a, y);
    ChainOfChild(a, y);
    FocusPathExtend(a, x, y, b);
    DistinctHead(y, c);
  }

  lemma {:induction false} FollowUp(a: Arena, x: NodeId, b: NodeId, seen: set<NodeId>)
    requires Forest(a) && x in a && FocusPathTo(a, x, b)
    requires forall z :: z in seen ==> z in SelfAndAncestors(a, x) && z != x
    ensures var d := FollowFocus(a, x, seen); d in a && IsLeaf(a, d) && FocusPathTo(a, d, b)
    decreases a.Keys - seen
  {
    if |a[x].focusOrder| > 0 {
      FollowUpStep(a, x, b, seen);
      FollowUp(a, a[x].focusOrder[0], b, seen + {x});
    } else {
      assert FocusOrderIsPermutation(a[x]);
    }
  }

  /** A leaf reached from `x` through most recent entries only is `x`'s last
      focused descendant. */
  lemma LastFocusedDescendantOfPath(a: Arena, x: NodeId, n: NodeId)
    requires WellFormed(a) && x in a && n in a
    requires IsLeaf(a, n) && FocusPathTo(a, n, x)
    ensures LastFocusedDescendant(a, x) == Some(n)
  {
    var c := SelfAndAncestors(a, n);
    var k := IndexOf(c, x);
    assert FocusOrderIsPermutation(a[n]);
    FollowDown(a, n, k, k - 1);
    assert c[k - 1] in c[..k];
    assert IsMostRecent(a, c[k - 1]);
    assert a[c[k - 1]].parent == Some(x);
    assert Elems(c[k..k + 1]) == {x};
  }

  /** The last focused descendant of `x` is a leaf reached from `x` through
      most recent entries only. */
  lemma PathOfLastFocusedDescendant(a: Arena, x: NodeId)
    requires Forest(a) && x in a && LastFocusedDescendant(a, x).Some?
    ensures var n := LastFocusedDescendant(a, x).value;
      n in a && IsLeaf(a, n) && FocusPathTo(a, n, x)
  {
    var y := a[x].focusOrder[0];
    FocusEntryIsChild(a, x, y);
    ChainOfChild(a, y);
    var c := SelfAndAncestors(a, y);
    assert c[1] == x;
    assert IndexOf(c, x) == 1 by {
      IndexOfDistinct(c, 1);
    }
    assert FocusPathTo(a, y, x);
    FollowUp(a, y, x, {x});
  }

  /** `x`'s last focused descendant is `n` exactly when `n` is a leaf whose
      chain up to `x` runs through most recent entries only. */
  lemma LastFocusedDescendantSpec(a: Arena, x: NodeId, n: NodeId)
    requires Forest(a) && x in a && n in a
    ensures LastFocusedDescendant(a, x) == Some(n) <==> IsLeaf(a, n) && FocusPathTo(a, n, x)
  {
    if IsLeaf(a, n) && FocusPathTo(a, n, x) {
      LastFocusedDescendantOfPath(a, x, n);
    }
    if LastFocusedDescendant(a, x) == Some(n) {
      PathOfLastFocusedDescendant(a, x);
    }
  }
}
