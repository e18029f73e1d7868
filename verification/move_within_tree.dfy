/** `MoveContainerWithinTreeHandler`: moves a container to a new parent and
    sibling index, keeping child orders and focus orders consistent. When the
    target parent is the lowest common ancestor (LCA) of the container and
    itself, the container stays in the same subtree of the LCA and the
    handler only restores its branch's focus slot; otherwise the container
    crosses from one branch of the LCA to another and the focus orders along
    both branches are adjusted. */
module MoveWithinTree {
  import opened Wrappers
  import opened Seqs
  import opened Tree
  import opened TreeOps

  /** Why a move is rejected. The handler itself has no error paths; these
      are the places where the calls it makes would throw. */
  datatype MoveError =
    | NotSameTree        // no common ancestor: the branch's `FocusIndex` dereferences a null parent
    | NoBranch           // `First` finds no ancestor whose parent is the LCA
    | NotSplitContainer  // the target parent is not a split container, so the attach fails
    | IndexOutOfRange    // `List.Insert` rejects the child index

  // ---------------------------------------------------------------------
  // Same-subtree regime
  // ---------------------------------------------------------------------

  /** The index the container is attached at in the same-subtree regime:
      one less than requested when the container sat before the target
      index among the LCA's own children, since detaching it shifts the
      later siblings left. */
  function AdjustedIndex(a: Arena, n: NodeId, l: NodeId, ti: int): int
    requires WellFormed(a) && n in a && a[n].parent.Some? && l in a
  {
    var d := Detach(a, n);
    var originalIndex := IndexOf(a[a[n].parent.value].children, n);
    var shouldAdjust := |a[l].children| > |d[l].children| && originalIndex < ti;
    if shouldAdjust then ti - 1 else ti
  }

  /** The adjustment happens exactly when the container is a direct child of
      the LCA placed before the target index. */
  lemma AdjustedIndexSpec(a: Arena, n: NodeId, l: NodeId, ti: int)
    requires WellFormed(a) && n in a && a[n].parent.Some? && l in a && l != n
    ensures AdjustedIndex(a, n, l, ti) ==
      if a[n].parent == Some(l) && Index(a, n) < ti then ti - 1 else ti
    ensures var d := Detach(a, n);
      |d[l].children| == if a[n].parent == Some(l) then |a[l].children| - 1 else |a[l].children|
  {
    assert ParentLinked(a, n);
    var d := Detach(a, n);
    if a[n].parent != Some(l) {
      assert d[l] == a[l];
    }
  }

  /** `MoveToLowestCommonAncestor`: detach `n`, re-attach it to the LCA `l`
      at the adjusted index, then shift it into the focus slot its branch
      held before the move. */
  function MoveToLowestCommonAncestor(a: Arena, n: NodeId, l: NodeId, ti: int): (r: Result<Arena, MoveError>)
    requires Forest(a) && n in a && l in a
    ensures var c := SelfAndAncestors(a, n);
      r == Failure(NoBranch) <==> !(l in c && l != n)
    ensures var c := SelfAndAncestors(a, n);
      r == Failure(NotSplitContainer) <==> l in c && l != n && !IsSplitContainer(a[l].kind)
    ensures var c := SelfAndAncestors(a, n);
      r == Failure(IndexOutOfRange) <==>
        l in c && l != n && IsSplitContainer(a[l].kind) && !(0 <= ti <= |a[l].children|)
    ensures r.Success? ==> SameSubtreeMoved(a, n, l, ti, r.value)
  {
    assert Rooted(a, n);
    BranchTowardSpec(a, n, l);
    match BranchToward(a, n, l)
    case None => Failure(NoBranch)
    case Some(cb) =>
      SameSubtreeSetup(a, n, l);
      var d := Detach(a, n);
      var adjusted := AdjustedIndex(a, n, l, ti);
      AdjustedIndexSpec(a, n, l, ti);
      if !IsSplitContainer(d[l].kind) then Failure(NotSplitContainer)
      else if !(0 <= adjusted <= |d[l].children|) then Failure(IndexOutOfRange)
      else Success(SameSubtreeArena(a, n, l, ti))
  }

  /** What the same-subtree move promises: `n` becomes `l`'s child at the
      adjusted index and takes over the focus slot of the branch it came
      from; every other container only loses `n` from its children and
      focus order (which changes only the old parent), and nothing else
      moves. */
  predicate SameSubtreeMoved(a: Arena, n: NodeId, l: NodeId, ti: int, r: Arena)
    requires Forest(a) && n in a && l in a
  {
    var c := SelfAndAncestors(a, n);
    && l in c && l != n && 1 <= IndexOf(c, l)
    && a[n].parent.Some?
    && WellFormed(r) && r.Keys == a.Keys
    && r[n] == a[n].(parent := Some(l))
    && Index(r, n) == (if a[n].parent == Some(l) && Index(a, n) < ti then ti - 1 else ti)
    && IndexOf(r[l].focusOrder, n) == IndexOf(a[l].focusOrder, c[IndexOf(c, l) - 1])
    && Remove(r[l].focusOrder, n) == Remove(a[l].focusOrder, n)
    && Remove(r[l].children, n) == Remove(a[l].children, n)
    && (forall x :: x in a && x != n ==> r[x].parent == a[x].parent && r[x].kind == a[x].kind)
    && (forall x :: x in a && x != n && x != l ==>
          r[x].children == Remove(a[x].children, n) && r[x].focusOrder == Remove(a[x].focusOrder, n))
    && (forall x :: x in a && x != n && x != l && Some(x) != a[n].parent ==> r[x] == a[x])
  }

  /** Facts the same-subtree regime relies on once the branch is found. */
  lemma SameSubtreeSetup(a: Arena, n: NodeId, l: NodeId)
    requires Forest(a) && n in a && l in a && BranchToward(a, n, l).Some?
    ensures var c := SelfAndAncestors(a, n); var cb := BranchToward(a, n, l).value;
      && l in c && l != n && 1 <= IndexOf(c, l) && cb == c[IndexOf(c, l) - 1]
      && a[n].parent.Some? && a[n].parent.value in a
      && cb in a && a[cb].parent == Some(l) && cb in a[l].focusOrder
  {
    var c := SelfAndAncestors(a, n);
    assert Rooted(a, n);
    BranchTowardSpec(a, n, l);
    var cb := BranchToward(a, n, l).value;
    assert |c| > 1;
    assert a[n].parent == Some(c[1]);
    assert ParentLinked(a, n) && ParentLinked(a, cb) && FocusOrderIsPermutation(a[l]);
    assert cb in multiset(a[l].children);
  }

  /** The detach and attach of the same-subtree move, before the focus slot
      is restored. */
  function SameSubtreeAttached(a: Arena, n: NodeId, l: NodeId, ti: int): Arena
    requires Forest(a) && n in a && l in a && BranchToward(a, n, l).Some?
    requires 0 <= ti <= |a[l].children|
  {
    SameSubtreeSetup(a, n, l);
    AdjustedIndexSpec(a, n, l, ti);
    Attach(Detach(a, n), l, n, AdjustedIndex(a, n, l, ti))
  }

  /** The arena after a same-subtree move that passed its checks. */
  function SameSubtreeArena(a: Arena, n: NodeId, l: NodeId, ti: int): (r: Arena)
    requires Forest(a) && n in a && l in a && BranchToward(a, n, l).Some?
    requires 0 <= ti <= |a[l].children|
    ensures SameSubtreeMoved(a, n, l, ti, r)
  {
    SameSubtreeAttachedSpec(a, n, l, ti);
    var b := SameSubtreeAttached(a, n, l, ti);
    SameSubtreeRefocused(a, n, l, ti, b);
    ShiftFocus(b, l, n, IndexOf(a[l].focusOrder, BranchToward(a, n, l).value))
  }

  /** Restoring the focus slot in `l` after the detach and attach completes
      the same-subtree move. */
  lemma SameSubtreeRefocused(a: Arena, n: NodeId, l: NodeId, ti: int, b: Arena)
    requires Forest(a) && n in a && l in a && BranchToward(a, n, l).Some?
    requires SameSubtreeAttachedFacts(a, n, l, ti, b)
    ensures var ofi := IndexOf(a[l].focusOrder, BranchToward(a, n, l).value);
      && l in b && n in b[l].focusOrder && 0 <= ofi < |b[l].focusOrder|
      && SameSubtreeMoved(a, n, l, ti, ShiftFocus(b, l, n, ofi))
  {
    SameSubtreeSetup(a, n, l);
    var ofi := IndexOf(a[l].focusOrder, BranchToward(a, n, l).value);
    var r := ShiftFocus(b, l, n, ofi);
    assert r[n] == b[n];
    assert r[l].children == b[l].children;
  }

  /** After the detach and attach, `n` is `l`'s child at the adjusted index,
      the other children of `l` keep their order, `n` is the last entry of
      `l`'s focus order, and every other container only lost `n`. */
  predicate SameSubtreeAttachedFacts(a: Arena, n: NodeId, l: NodeId, ti: int, b: Arena)
    requires Forest(a) && n in a && l in a
  {
    && a[n].parent.Some? && l != n
    && WellFormed(b) && b.Keys == a.Keys
    && b[n] == a[n].(parent := Some(l))
    && Index(b, n) == (if a[n].parent == Some(l) && Index(a, n) < ti then ti - 1 else ti)
    && Remove(b[l].children, n) == Remove(a[l].children, n)
    && b[l].focusOrder == Remove(a[l].focusOrder, n) + [n]
    && n in b[l].focusOrder && |b[l].focusOrder| >= |a[l].focusOrder|
    && Remove(b[l].focusOrder, n) == Remove(a[l].focusOrder, n)
    && (forall x :: x in a && x != n ==> b[x].parent == a[x].parent && b[x].kind == a[x].kind)
    && (forall x :: x in a && x != n && x != l ==>
          b[x].children == Remove(a[x].children, n) && b[x].focusOrder == Remove(a[x].focusOrder, n))
    && (forall x :: x in a && x != n && x != l && Some(x) != a[n].parent ==> b[x] == a[x])
  }

  lemma SameSubtreeAttachedSpec(a: Arena, n: NodeId, l: NodeId, ti: int)
    requires Forest(a) && n in a && l in a && BranchToward(a, n, l).Some?
    requires 0 <= ti <= |a[l].children|
    ensures SameSubtreeAttachedFacts(a, n, l, ti, SameSubtreeAttached(a, n, l, ti))
  {
    SameSubtreeSetup(a, n, l);
    AdjustedIndexSpec(a, n, l, ti);
    DetachOrders(a, n, l);
    assert FocusOrderIsPermutation(a[l]);
    RemoveDistinct(a[l].focusOrder, n);
    AppendRemove(Remove(a[l].focusOrder, n), n);
    forall x | x in a && x != n && x != l
      ensures Detach(a, n)[x].children == Remove(a[x].children, n)
      ensures Detach(a, n)[x].focusOrder == Remove(a[x].focusOrder, n)
    {
      DetachOrders(a, n, x);
    }
  }

  // ---------------------------------------------------------------------
  // Cross-subtree regime
  // ---------------------------------------------------------------------

  /** What the handler reads before it mutates anything: the branches of
      the LCA holding the container and the target parent, whether the
      container is its branch's last focused descendant, the branch's focus
      index, and whether that branch was focused more recently than the
      target's. */
  datatype CrossPlan = CrossPlan(
    containerBranch: NodeId,
    targetBranch: NodeId,
    isFocusedDescendant: bool,
    originalFocusIndex: int,
    isSubtreeFocused: bool)

  /** What the plan means: the two branches are the distinct children of
      `l` on the two chains; the container is the focused descendant of its
      branch exactly when it is the branch or a leaf reached from it
      through most recent entries; the subtree is focused exactly when the
      container's branch precedes the target's in `l`'s focus order. */
  predicate PlanFacts(a: Arena, n: NodeId, tp: NodeId, l: NodeId, p: CrossPlan)
    requires n in a
  {
    var cn := SelfAndAncestors(a, n);
    var ct := SelfAndAncestors(a, tp);
    var cb := p.containerBranch;
    var tb := p.targetBranch;
    && l in a && l in cn && l != n && l in ct && l != tp
    && 1 <= IndexOf(cn, l) && cb == cn[IndexOf(cn, l) - 1]
    && 1 <= IndexOf(ct, l) && tb == ct[IndexOf(ct, l) - 1]
    && cb != tb
    && cb in a && tb in a && a[cb].parent == Some(l) && a[tb].parent == Some(l)
    && cb in a[l].focusOrder && tb in a[l].focusOrder
    && p.originalFocusIndex == IndexOf(a[l].focusOrder, cb)
    && (p.isFocusedDescendant <==> n == cb || (IsLeaf(a, n) && FocusPathTo(a, n, cb)))
    && (p.isSubtreeFocused <==> cb in a[l].focusOrder[..IndexOf(a[l].focusOrder, tb)])
  }

  /** The planning step of the cross-subtree move: find both branches and read the focus
      facts. The only failure is a container that is itself the LCA, whose
      chain has no member below it. */
  function PlanCross(a: Arena, n: NodeId, tp: NodeId, l: NodeId): (r: Result<CrossPlan, MoveError>)
    requires Forest(a) && n in a && tp in a
    requires LowestCommonAncestor(a, n, tp) == Some(l) && l != tp
    ensures r.Failure? <==> l == n
    ensures r.Failure? ==> r.error == NoBranch
    ensures r.Success? ==> PlanFacts(a, n, tp, l, r.value)
  {
    assert Rooted(a, n) && Rooted(a, tp);
    BranchTowardSpec(a, n, l);
    BranchTowardSpec(a, tp, l);
    match BranchToward(a, n, l)
    case None => Failure(NoBranch)
    case Some(cb) =>
      var isFocusedDescendant := if n == cb then true else LastFocusedDescendant(a, cb) == Some(n);
      var tb := BranchToward(a, tp, l).value;
      var originalFocusIndex := IndexOf(a[l].focusOrder, cb);
      var plan := CrossPlan(cb, tb, isFocusedDescendant, originalFocusIndex,
                            originalFocusIndex < IndexOf(a[l].focusOrder, tb));
      PlanCrossFacts(a, n, tp, l, plan);
      Success(plan)
  }

  lemma PlanCrossFacts(a: Arena, n: NodeId, tp: NodeId, l: NodeId, p: CrossPlan)
    requires Forest(a) && n in a && tp in a
    requires LowestCommonAncestor(a, n, tp) == Some(l) && l != tp && l != n
    requires BranchToward(a, n, l) == Some(p.containerBranch)
    requires BranchToward(a, tp, l) == Some(p.targetBranch)
    requires p.isFocusedDescendant == (p.containerBranch == n || LastFocusedDescendant(a, p.containerBranch) == Some(n))
    requires p.originalFocusIndex == IndexOf(a[l].focusOrder, p.containerBranch)
    requires p.isSubtreeFocused == (p.originalFocusIndex < IndexOf(a[l].focusOrder, p.targetBranch))
    ensures PlanFacts(a, n, tp, l, p)
  {
    var cn := SelfAndAncestors(a, n);
    var ct := SelfAndAncestors(a, tp);
    var cb := p.containerBranch;
    var tb := p.targetBranch;
    assert Rooted(a, n) && Rooted(a, tp);
    BranchTowardSpec(a, n, l);
    BranchTowardSpec(a, tp, l);
    assert cb != tb by {
      assert IndexOf(cn, cb) < IndexOf(cn, l) by {
        IndexOfDistinct(cn, IndexOf(cn, l) - 1);
      }
    }
    assert l in a;
    assert ParentLinked(a, cb) && ParentLinked(a, tb) && FocusOrderIsPermutation(a[l]);
    assert cb in multiset(a[l].children) && tb in multiset(a[l].children);
    if cb != n {
      LastFocusedDescendantSpec(a, cb, n);
    }
    IndexOfBefore(a[l].focusOrder, cb, tb);
  }

  /** In the cross regime the container and the target parent lie in
      different branches of the LCA: neither is an ancestor-or-self of the
      other, and the container has a parent. */
  lemma CrossApart(a: Arena, n: NodeId, tp: NodeId, l: NodeId)
    requires Forest(a) && n in a && tp in a
    requires LowestCommonAncestor(a, n, tp) == Some(l) && l != tp && l != n
    ensures tp !in SelfAndAncestors(a, n) && n !in SelfAndAncestors(a, tp)
    ensures tp != n && a[n].parent.Some? && a[n].parent.value in a && a[n].parent.value != tp
  {
    var cn := SelfAndAncestors(a, n);
    LowestCommonAncestorIsTarget(a, n, tp);
    assert Rooted(a, n);
    assert cn[0] == n;
    assert |cn| > 1 by {
      assert l in cn && l != n;
    }
    assert a[n].parent == Some(cn[1]);
  }

  /** The detach and attach of the cross regime. */
  function CrossAttached(a: Arena, n: NodeId, tp: NodeId, ti: int): Arena
    requires WellFormed(a) && n in a && tp in a && tp != n && a[n].parent.Some?
    requires 0 <= ti <= |Detach(a, n)[tp].children|
  {
    Attach(Detach(a, n), tp, n, ti)
  }

  /** After the detach and attach, `n` is `tp`'s child at `ti`, last in
      `tp`'s focus order, its chain runs through `tp`, and only the old
      parent, `tp` and `n` itself changed. */
  lemma CrossAttachedSpec(a: Arena, n: NodeId, tp: NodeId, l: NodeId, ti: int)
    requires Forest(a) && n in a && tp in a
    requires LowestCommonAncestor(a, n, tp) == Some(l) && l != tp && l != n
    requires 0 <= ti <= |a[tp].children|
    ensures tp != n && a[n].parent.Some? && Detach(a, n)[tp] == a[tp]
    ensures var b := CrossAttached(a, n, tp, ti);
      && WellFormed(b) && b.Keys == a.Keys
      && b[n] == a[n].(parent := Some(tp)) && Index(b, n) == ti
      && b[tp].children == InsertAt(a[tp].children, ti, n)
      && Remove(b[tp].children, n) == a[tp].children
      && b[tp].focusOrder == a[tp].focusOrder + [n]
      && Remove(b[tp].focusOrder, n) == a[tp].focusOrder
      && b[l].focusOrder == Remove(a[l].focusOrder, n)
      && (forall x :: x in a && x != n ==> b[x].parent == a[x].parent && b[x].kind == a[x].kind)
      && (forall x :: x in a && x != n && x != tp && Some(x) != a[n].parent ==> b[x] == a[x])
      && SelfAndAncestors(b, n) == [n] + SelfAndAncestors(a, tp)
  {
    CrossApart(a, n, tp, l);
    assert Detach(a, n)[tp] == a[tp];
    DetachOrders(a, n, l);
    LowestCommonAncestorIsTarget(a, n, tp);
    ChainOfReparented(a, CrossAttached(a, n, tp, ti), n, tp);
  }

  /** Besides `tp`, the detach and attach only take `n` out of the lists
      that held it. */
  lemma CrossAttachedKeeps(a: Arena, n: NodeId, tp: NodeId, l: NodeId, ti: int)
    requires Forest(a) && n in a && tp in a
    requires LowestCommonAncestor(a, n, tp) == Some(l) && l != tp && l != n
    requires 0 <= ti <= |a[tp].children|
    ensures tp != n && a[n].parent.Some? && Detach(a, n)[tp] == a[tp]
    ensures var b := CrossAttached(a, n, tp, ti);
      forall x :: x in a && x != n && x != tp ==>
        b[x].children == Remove(a[x].children, n) && b[x].focusOrder == Remove(a[x].focusOrder, n)
  {
    CrossApart(a, n, tp, l);
    assert Detach(a, n)[tp] == a[tp];
    forall x | x in a && x != n && x != tp
      ensures Detach(a, n)[x].children == Remove(a[x].children, n)
      ensures Detach(a, n)[x].focusOrder == Remove(a[x].focusOrder, n)
    {
      DetachOrders(a, n, x);
    }
  }

  /** The containers from `tp` up to and including the target branch: the
      ones whose focus orders `SetFocusedDescendant` may reorder. */
  function TargetBand(a: Arena, tp: NodeId, tb: NodeId): (band: seq<NodeId>)
    ensures forall i :: 0 <= i < |band| ==> band[i] in a
  {
    var ct := SelfAndAncestors(a, tp);
    if tb in ct then ct[..IndexOf(ct, tb) + 1] else []
  }

  /** What the cross move promises: `n` is `tp`'s child at `ti`; if its
      subtree was focused more recently, focus now runs from the target
      branch down to `n`, and if `n` also carried its subtree's focus, the
      target branch takes over the original branch's focus index in `l`;
      otherwise `l` only loses `n`. Nothing outside the old parent, `tp`'s
      chain up to the target branch and `l` changes. */
  predicate CrossMoved(a: Arena, n: NodeId, tp: NodeId, l: NodeId, ti: int, p: CrossPlan, r: Arena)
    requires n in a && tp in a && l in a
  {
    var tb := p.targetBranch;
    && a[n].parent.Some?
    && WellFormed(r) && r.Keys == a.Keys
    && r[n] == a[n].(parent := Some(tp)) && Index(r, n) == ti
    && Remove(r[tp].children, n) == a[tp].children
    && (forall x :: x in a && x != n ==> r[x].parent == a[x].parent && r[x].kind == a[x].kind)
    && (p.isSubtreeFocused ==> FocusPathTo(r, n, tb))
    && (!p.isSubtreeFocused ==> r[tp].focusOrder == a[tp].focusOrder + [n])
    && (p.isSubtreeFocused && p.isFocusedDescendant ==>
          && IndexOf(r[l].focusOrder, tb) == p.originalFocusIndex
          && Remove(r[l].focusOrder, tb) == Remove(Remove(a[l].focusOrder, n), tb))
    && (!(p.isSubtreeFocused && p.isFocusedDescendant) ==> r[l].focusOrder == Remove(a[l].focusOrder, n))
    && CrossKeeps(a, n, tp, l, p, r)
    && (forall x :: x in a && x != n && x != tp && x != l && Some(x) != a[n].parent ==>
          (p.isSubtreeFocused ==> x !in TargetBand(a, tp, tb)) ==> r[x] == a[x])
  }

  /** The lists a cross move keeps apart from `n`'s new place and `l`'s
      focus order: `tp`'s focus order gains only `n`; every other container
      only loses `n` from its children, and from its focus order unless it
      is on the target band of a focused subtree; a container on that band
      only moves the chain member below it to the front of its focus
      order. */
  predicate CrossKeeps(a: Arena, n: NodeId, tp: NodeId, l: NodeId, p: CrossPlan, r: Arena)
    requires n in a && tp in a && r.Keys == a.Keys
  {
    var band := TargetBand(a, tp, p.targetBranch);
    && Remove(r[tp].focusOrder, n) == a[tp].focusOrder
    && (forall x :: x in a && x != n && x != tp ==> r[x].children == Remove(a[x].children, n))
    && (forall x :: x in a && x != n && x != tp && x != l && (p.isSubtreeFocused ==> x !in band) ==>
          r[x].focusOrder == Remove(a[x].focusOrder, n))
    && (p.isSubtreeFocused ==> forall j :: 0 <= j < |band| - 1 ==>
          Remove(r[band[j + 1]].focusOrder, band[j]) == Remove(a[band[j + 1]].focusOrder, band[j]))
  }

  /** The container's old parent is not on the target band: a band member
      on the container's chain would be a common ancestor below `l`. */
  lemma OldParentOffBand(a: Arena, n: NodeId, tp: NodeId, l: NodeId, p: CrossPlan)
    requires Forest(a) && n in a && tp in a
    requires LowestCommonAncestor(a, n, tp) == Some(l) && l != tp && l != n
    requires PlanFacts(a, n, tp, l, p)
    ensures a[n].parent.Some? && a[n].parent.value !in TargetBand(a, tp, p.targetBranch)
  {
    CrossApart(a, n, tp, l);
    CrossBand(a, n, tp, l, p);
    var cn := SelfAndAncestors(a, n);
    var ct := SelfAndAncestors(a, tp);
    var k := IndexOf(ct, p.targetBranch);
    assert Rooted(a, n);
    assert cn[0] == n && |cn| > 1;
    assert a[n].parent == Some(cn[1]);
    if IndexOf(cn, l) > 1 {
      assert cn[1] !in ct;
      assert forall z :: z in ct[..k + 1] ==> z in ct;
    }
  }

  /** The target branch lies on `tp`'s chain, is not the container, and
      the target band stops below `l`. */
  lemma CrossBand(a: Arena, n: NodeId, tp: NodeId, l: NodeId, p: CrossPlan)
    requires Forest(a) && n in a && tp in a
    requires LowestCommonAncestor(a, n, tp) == Some(l) && l != tp && l != n
    requires PlanFacts(a, n, tp, l, p)
    ensures var ct := SelfAndAncestors(a, tp); var tb := p.targetBranch;
      && tb in ct && tb != n
      && TargetBand(a, tp, tb) == ct[..IndexOf(ct, tb) + 1]
      && l !in TargetBand(a, tp, tb) && n !in TargetBand(a, tp, tb)
  {
    CrossApart(a, n, tp, l);
    var ct := SelfAndAncestors(a, tp);
    IndexOfDistinct(ct, IndexOf(ct, l) - 1);
  }

  /** After the attach of a cross-subtree move, make `n` the focused
      descendant of the target branch. */
  function CrossFocusWalk(a: Arena, n: NodeId, tp: NodeId, l: NodeId, ti: int, p: CrossPlan): Arena
    requires Forest(a) && n in a && tp in a
    requires LowestCommonAncestor(a, n, tp) == Some(l) && l != tp && l != n
    requires PlanFacts(a, n, tp, l, p) && 0 <= ti <= |a[tp].children|
  {
    CrossAttachedSpec(a, n, tp, l, ti);
    CrossBand(a, n, tp, l, p);
    SetFocusedDescendant(CrossAttached(a, n, tp, ti), n, p.targetBranch)
  }

  /** The focus walk keeps the shape, runs focus from the target branch
      down to `n`, and changes nothing outside the target band. */
  lemma CrossFocusWalkSpec(a: Arena, n: NodeId, tp: NodeId, l: NodeId, ti: int, p: CrossPlan)
    requires Forest(a) && n in a && tp in a
    requires LowestCommonAncestor(a, n, tp) == Some(l) && l != tp && l != n
    requires PlanFacts(a, n, tp, l, p) && 0 <= ti <= |a[tp].children|
    ensures tp != n && a[n].parent.Some? && Detach(a, n)[tp] == a[tp]
    ensures var b := CrossAttached(a, n, tp, ti); var w := CrossFocusWalk(a, n, tp, l, ti, p);
      && WellFormed(w) && SameShape(b, w)
      && FocusPathTo(w, n, p.targetBranch)
      && p.targetBranch in SelfAndAncestors(b, n)
      && FocusedDescendantSet(b, n, p.targetBranch, w)
      && SelfAndAncestors(w, n) == [n] + SelfAndAncestors(a, tp)
      && (forall y :: y in b && y !in TargetBand(a, tp, p.targetBranch) ==> w[y] == b[y])
  {
    CrossAttachedSpec(a, n, tp, l, ti);
    CrossBand(a, n, tp, l, p);
    var b := CrossAttached(a, n, tp, ti);
    var w := CrossFocusWalk(a, n, tp, l, ti, p);
    ConsUpTo(SelfAndAncestors(b, n), n, SelfAndAncestors(a, tp), p.targetBranch);
    SameShapeChains(b, w, n);
  }

  /** The arena after a cross move that passed its checks: attach, then
      the focus walk when the subtree was focused, then the focus index
      hand-over when the container also carried its subtree's focus. */
  function CrossArena(a: Arena, n: NodeId, tp: NodeId, l: NodeId, ti: int, p: CrossPlan): (r: Arena)
    requires Forest(a) && n in a && tp in a
    requires LowestCommonAncestor(a, n, tp) == Some(l) && l != tp && l != n
    requires PlanFacts(a, n, tp, l, p) && 0 <= ti <= |a[tp].children|
    ensures CrossMoved(a, n, tp, l, ti, p, r)
  {
    CrossAttachedSpec(a, n, tp, l, ti);
    if !p.isSubtreeFocused then
      CrossUnfocused(a, n, tp, l, ti, p);
      CrossAttached(a, n, tp, ti)
    else if !p.isFocusedDescendant then
      CrossFocused(a, n, tp, l, ti, p);
      CrossFocusWalk(a, n, tp, l, ti, p)
    else
      CrossRefocused(a, n, tp, l, ti, p);
      CrossHandOver(a, n, tp, l, ti, p)
  }

  lemma CrossUnfocused(a: Arena, n: NodeId, tp: NodeId, l: NodeId, ti: int, p: CrossPlan)
    requires Forest(a) && n in a && tp in a
    requires LowestCommonAncestor(a, n, tp) == Some(l) && l != tp && l != n
    requires PlanFacts(a, n, tp, l, p) && 0 <= ti <= |a[tp].children|
    requires !p.isSubtreeFocused
    ensures tp != n && a[n].parent.Some? && Detach(a, n)[tp] == a[tp]
    ensures CrossMoved(a, n, tp, l, ti, p, CrossAttached(a, n, tp, ti))
  {
    CrossAttachedSpec(a, n, tp, l, ti);
    CrossAttachedKeeps(a, n, tp, l, ti);
  }

  /** Walking focus down the target band keeps what `CrossKeeps` asks. */
  lemma CrossWalkKeeps(a: Arena, n: NodeId, tp: NodeId, l: NodeId, ti: int, p: CrossPlan)
    requires Forest(a) && n in a && tp in a
    requires LowestCommonAncestor(a, n, tp) == Some(l) && l != tp && l != n
    requires PlanFacts(a, n, tp, l, p) && 0 <= ti <= |a[tp].children|
    requires p.isSubtreeFocused
    ensures var w := CrossFocusWalk(a, n, tp, l, ti, p);
      w.Keys == a.Keys && CrossKeeps(a, n, tp, l, p, w)
  {
    CrossAttachedSpec(a, n, tp, l, ti);
    CrossAttachedKeeps(a, n, tp, l, ti);
    CrossFocusWalkSpec(a, n, tp, l, ti, p);
    CrossBand(a, n, tp, l, p);
    OldParentOffBand(a, n, tp, l, p);
    var b := CrossAttached(a, n, tp, ti);
    var w := CrossFocusWalk(a, n, tp, l, ti, p);
    var band := TargetBand(a, tp, p.targetBranch);
    assert forall x :: x in band && x != tp ==> b[x] == a[x];
    WalkBandOrders(a, b, w, n, tp, p.targetBranch);
  }

  /** The band clauses of `CrossKeeps` for the focus walk: with `n`'s new
      chain `[n] + ct`, each band member's focus order only moved the chain
      member below it to the front, and `tp`'s only moved `n`. */
  lemma WalkBandOrders(a: Arena, b: Arena, w: Arena, n: NodeId, tp: NodeId, tb: NodeId)
    requires b.Keys == a.Keys && tp in a
    requires SelfAndAncestors(b, n) == [n] + SelfAndAncestors(a, tp)
    requires tb in SelfAndAncestors(a, tp) && tb != n
    requires FocusedDescendantSet(b, n, tb, w)
    requires forall x :: x in TargetBand(a, tp, tb) && x != tp ==> b[x] == a[x]
    ensures Remove(w[tp].focusOrder, n) == Remove(b[tp].focusOrder, n)
    ensures var band := TargetBand(a, tp, tb);
      forall j :: 0 <= j < |band| - 1 ==>
        Remove(w[band[j + 1]].focusOrder, band[j]) == Remove(a[band[j + 1]].focusOrder, band[j])
  {
    var ct := SelfAndAncestors(a, tp);
    var c := SelfAndAncestors(b, n);
    ConsUpTo(c, n, ct, tb);
    var k := IndexOf(c, tb);
    assert FocusedDescendantSet(b, n, tb, w);
    BandSteps(a, b, w, c, k, tp);
  }

  /** Band steps over a plain chain `c`: if each of the first `k` steps only
      moved `c[j]` in `c[j + 1]`'s focus order, and the band `c[1..k + 1]`
      above `tp` is unchanged from `a` to `b`, the band steps compare `w`
      with `a` directly. */
  lemma BandSteps(a: Arena, b: Arena, w: Arena, c: seq<NodeId>, k: nat, tp: NodeId)
    requires a.Keys == b.Keys == w.Keys && 1 <= k < |c| && Distinct(c) && c[1] == tp
    requires forall i :: 0 <= i < |c| ==> c[i] in b
    requires forall j :: 0 <= j < k ==>
      Remove(w[c[j + 1]].focusOrder, c[j]) == Remove(b[c[j + 1]].focusOrder, c[j])
    requires forall x :: x in c[1..k + 1] && x != tp ==> b[x] == a[x]
    ensures Remove(w[tp].focusOrder, c[0]) == Remove(b[tp].focusOrder, c[0])
    ensures var band := c[1..k + 1];
      forall j :: 0 <= j < |band| - 1 ==>
        Remove(w[band[j + 1]].focusOrder, band[j]) == Remove(a[band[j + 1]].focusOrder, band[j])
  {
    var band := c[1..k + 1];
    assert Remove(w[c[1]].focusOrder, c[0]) == Remove(b[c[1]].focusOrder, c[0]);
    forall j | 0 <= j < |band| - 1
      ensures Remove(w[band[j + 1]].focusOrder, band[j]) == Remove(a[band[j + 1]].focusOrder, band[j])
    {
      assert band[j] == c[j + 1] && band[j + 1] == c[j + 2];
      IndexOfDistinct(c, j + 2);
      assert c[j + 2] in band;
    }
  }

  lemma CrossFocused(a: Arena, n: NodeId, tp: NodeId, l: NodeId, ti: int, p: CrossPlan)
    requires Forest(a) && n in a && tp in a
    requires LowestCommonAncestor(a, n, tp) == Some(l) && l != tp && l != n
    requires PlanFacts(a, n, tp, l, p) && 0 <= ti <= |a[tp].children|
    requires p.isSubtreeFocused && !p.isFocusedDescendant
    ensures CrossMoved(a, n, tp, l, ti, p, CrossFocusWalk(a, n, tp, l, ti, p))
  {
    CrossAttachedSpec(a, n, tp, l, ti);
    CrossFocusWalkSpec(a, n, tp, l, ti, p);
    CrossWalkKeeps(a, n, tp, l, ti, p);
    CrossBand(a, n, tp, l, p);
    var b := CrossAttached(a, n, tp, ti);
    var w := CrossFocusWalk(a, n, tp, l, ti, p);
    assert w[l] == b[l];
  }

  /** The focus hand-over of a cross-subtree move: the target branch takes the original
      branch's focus index in `l`. */
  function CrossHandOver(a: Arena, n: NodeId, tp: NodeId, l: NodeId, ti: int, p: CrossPlan): Arena
    requires Forest(a) && n in a && tp in a
    requires LowestCommonAncestor(a, n, tp) == Some(l) && l != tp && l != n
    requires PlanFacts(a, n, tp, l, p) && 0 <= ti <= |a[tp].children|
    requires p.isSubtreeFocused
  {
    CrossHandOverReady(a, n, tp, l, ti, p);
    ShiftFocus(CrossFocusWalk(a, n, tp, l, ti, p), l, p.targetBranch, p.originalFocusIndex)
  }

  /** Before the hand-over, `l`'s focus order is the original one minus
      `n`, which still holds the target branch and the original index. */
  lemma CrossHandOverReady(a: Arena, n: NodeId, tp: NodeId, l: NodeId, ti: int, p: CrossPlan)
    requires Forest(a) && n in a && tp in a
    requires LowestCommonAncestor(a, n, tp) == Some(l) && l != tp && l != n
    requires PlanFacts(a, n, tp, l, p) && 0 <= ti <= |a[tp].children|
    requires p.isSubtreeFocused
    ensures var w := CrossFocusWalk(a, n, tp, l, ti, p);
      && WellFormed(w) && l in w
      && w[l].focusOrder == Remove(a[l].focusOrder, n)
      && p.targetBranch in w[l].focusOrder
      && 0 <= p.originalFocusIndex < |w[l].focusOrder|
  {
    CrossAttachedSpec(a, n, tp, l, ti);
    CrossFocusWalkSpec(a, n, tp, l, ti, p);
    CrossBand(a, n, tp, l, p);
    var b := CrossAttached(a, n, tp, ti);
    var w := CrossFocusWalk(a, n, tp, l, ti, p);
    assert w[l] == b[l];
    var fo := a[l].focusOrder;
    IndexOfBefore(fo, p.containerBranch, p.targetBranch);
    assert p.originalFocusIndex < IndexOf(fo, p.targetBranch) < |fo|;
  }

  lemma CrossWalkChain(a: Arena, n: NodeId, tp: NodeId, l: NodeId, ti: int, p: CrossPlan)
    requires Forest(a) && n in a && tp in a
    requires LowestCommonAncestor(a, n, tp) == Some(l) && l != tp && l != n
    requires PlanFacts(a, n, tp, l, p) && 0 <= ti <= |a[tp].children|
    ensures SelfAndAncestors(CrossFocusWalk(a, n, tp, l, ti, p), n) == [n] + SelfAndAncestors(a, tp)
  {
    CrossFocusWalkSpec(a, n, tp, l, ti, p);
  }

  lemma CrossWalkPath(a: Arena, n: NodeId, tp: NodeId, l: NodeId, ti: int, p: CrossPlan)
    requires Forest(a) && n in a && tp in a
    requires LowestCommonAncestor(a, n, tp) == Some(l) && l != tp && l != n
    requires PlanFacts(a, n, tp, l, p) && 0 <= ti <= |a[tp].children|
    ensures var w := CrossFocusWalk(a, n, tp, l, ti, p);
      WellFormed(w) && FocusPathTo(w, n, p.targetBranch)
  {
    CrossFocusWalkSpec(a, n, tp, l, ti, p);
  }

  /** The hand-over reorders only `l`'s focus order and so keeps the focus
      path from the target branch down to `n`. */
  lemma CrossHandOverSpec(a: Arena, n: NodeId, tp: NodeId, l: NodeId, ti: int, p: CrossPlan)
    requires Forest(a) && n in a && tp in a
    requires LowestCommonAncestor(a, n, tp) == Some(l) && l != tp && l != n
    requires PlanFacts(a, n, tp, l, p) && 0 <= ti <= |a[tp].children|
    requires p.isSubtreeFocused
    ensures FocusPathTo(CrossHandOver(a, n, tp, l, ti, p), n, p.targetBranch)
  {
    CrossWalkPath(a, n, tp, l, ti, p);
    CrossHandOverReady(a, n, tp, l, ti, p);
    CrossWalkChain(a, n, tp, l, ti, p);
    CrossBand(a, n, tp, l, p);
    var w := CrossFocusWalk(a, n, tp, l, ti, p);
    HandOverKeepsPath(w, SelfAndAncestors(a, tp), n, l, p.targetBranch, p.originalFocusIndex);
  }

  /** Reordering `l`'s focus order keeps a focus path from `tb` down to `n`
      when `l` lies above `tb`. */
  lemma HandOverKeepsPath(w: Arena, ct: seq<NodeId>, n: NodeId, l: NodeId, tb: NodeId, i: int)
    requires WellFormed(w) && n in w && l in w
    requires FocusPathTo(w, n, tb) && SelfAndAncestors(w, n) == [n] + ct
    requires tb in ct && tb != n && l !in ct[..IndexOf(ct, tb) + 1]
    requires tb in w[l].focusOrder && 0 <= i < |w[l].focusOrder|
    ensures FocusPathTo(ShiftFocus(w, l, tb, i), n, tb)
  {
    var c := SelfAndAncestors(w, n);
    ConsUpTo(c, n, ct, tb);
    ShiftFocusKeepsPath(w, l, tb, i, n, tb);
  }

  lemma CrossRefocused(a: Arena, n: NodeId, tp: NodeId, l: NodeId, ti: int, p: CrossPlan)
    requires Forest(a) && n in a && tp in a
    requires LowestCommonAncestor(a, n, tp) == Some(l) && l != tp && l != n
    requires PlanFacts(a, n, tp, l, p) && 0 <= ti <= |a[tp].children|
    requires p.isSubtreeFocused && p.isFocusedDescendant
    ensures CrossMoved(a, n, tp, l, ti, p, CrossHandOver(a, n, tp, l, ti, p))
  {
    CrossAttachedSpec(a, n, tp, l, ti);
    CrossFocusWalkSpec(a, n, tp, l, ti, p);
    CrossHandOverReady(a, n, tp, l, ti, p);
    CrossHandOverSpec(a, n, tp, l, ti, p);
    CrossBand(a, n, tp, l, p);
    CrossWalkKeeps(a, n, tp, l, ti, p);
    HandOverKeeps(a, n, tp, l, p, CrossFocusWalk(a, n, tp, l, ti, p), CrossHandOver(a, n, tp, l, ti, p));
  }

  /** Reordering only `l`'s focus order, off the band and apart from `tp`,
      keeps what `CrossKeeps` asks. */
  lemma HandOverKeeps(a: Arena, n: NodeId, tp: NodeId, l: NodeId, p: CrossPlan, w: Arena, r: Arena)
    requires n in a && tp in a && w.Keys == a.Keys
    requires CrossKeeps(a, n, tp, l, p, w)
    requires SameShape(w, r) && forall y :: y in w && y != l ==> r[y] == w[y]
    requires l != tp && l !in TargetBand(a, tp, p.targetBranch)
    ensures r.Keys == a.Keys && CrossKeeps(a, n, tp, l, p, r)
  {
  }

  /** The cross-subtree move with its checks,
      in the order the handler meets them. */
  function MoveAcrossSubtrees(a: Arena, n: NodeId, tp: NodeId, l: NodeId, ti: int): (r: Result<Arena, MoveError>)
    requires Forest(a) && n in a && tp in a
    requires LowestCommonAncestor(a, n, tp) == Some(l) && l != tp
    ensures r == Failure(NoBranch) <==> l == n
    ensures r == Failure(NotSplitContainer) <==> l != n && !IsSplitContainer(a[tp].kind)
    ensures r == Failure(IndexOutOfRange) <==>
      l != n && IsSplitContainer(a[tp].kind) && !(0 <= ti <= |a[tp].children|)
    ensures r.Success? ==>
      PlanCross(a, n, tp, l).Success? && CrossMoved(a, n, tp, l, ti, PlanCross(a, n, tp, l).value, r.value)
  {
    match PlanCross(a, n, tp, l)
    case Failure(e) => Failure(e)
    case Success(p) =>
      CrossApart(a, n, tp, l);
      var d := Detach(a, n);
      assert d[tp] == a[tp];
      if !IsSplitContainer(d[tp].kind) then Failure(NotSplitContainer)
      else if !(0 <= ti <= |d[tp].children|) then Failure(IndexOutOfRange)
      else Success(CrossArena(a, n, tp, l, ti, p))
  }

  // ---------------------------------------------------------------------
  // The handler
  // ---------------------------------------------------------------------

  /** `n` and `tp` are in the same tree: their chains meet. */
  predicate SameTree(a: Arena, n: NodeId, tp: NodeId) {
    exists z :: z in SelfAndAncestors(a, n) && z in SelfAndAncestors(a, tp)
  }

  /** What every successful move promises: no container appears or
      disappears, links and focus orders stay consistent (so sibling
      indices stay contiguous), `n` is `tp`'s child at the requested index
      (less one when it sat before that index among `tp`'s own children),
      `tp`'s other children keep their order, every other container's
      children only lose `n` (so only the old parent's change), and no
      other container changes parent. */
  predicate Moved(a: Arena, n: NodeId, tp: NodeId, ti: int, r: Arena)
    requires n in a && tp in a
  {
    && a[n].parent.Some? && a[n].parent.value in a
    && WellFormed(r) && SiblingIndicesContiguous(r) && r.Keys == a.Keys
    && r[n] == a[n].(parent := Some(tp))
    && Index(r, n) == (if a[n].parent == Some(tp) && Index(a, n) < ti then ti - 1 else ti)
    && Remove(r[tp].children, n) == Remove(a[tp].children, n)
    && (forall x :: x in a && x != n && x != tp ==> r[x].children == Remove(a[x].children, n))
    && (forall x :: x in a && x != n ==> r[x].parent == a[x].parent && r[x].kind == a[x].kind)
  }

  /** `MoveContainerWithinTreeHandler.Handle`: move `n` under `tp` at
      index `ti`. The same-subtree path is taken exactly when `tp` is the
      LCA, that is, an ancestor-or-self of `n`. */
  function MoveContainerWithinTree(a: Arena, n: NodeId, tp: NodeId, ti: int): (r: Result<Arena, MoveError>)
    requires Forest(a) && n in a && tp in a
    ensures r == Failure(NotSameTree) <==> !SameTree(a, n, tp)
    ensures r == Failure(NoBranch) <==> n in SelfAndAncestors(a, tp)
    ensures r == Failure(NotSplitContainer) <==>
      SameTree(a, n, tp) && n !in SelfAndAncestors(a, tp) && !IsSplitContainer(a[tp].kind)
    ensures r == Failure(IndexOutOfRange) <==>
      && SameTree(a, n, tp) && n !in SelfAndAncestors(a, tp) && IsSplitContainer(a[tp].kind)
      && !(0 <= ti <= |a[tp].children|)
    ensures r.Success? ==> Moved(a, n, tp, ti, r.value)
  {
    HandleErrors(a, n, tp);
    match LowestCommonAncestor(a, n, tp)
    case None => Failure(NotSameTree)
    case Some(l) =>
      if tp == l then
        var r := MoveToLowestCommonAncestor(a, n, l, ti);
        SameSubtreeIsMoved(a, n, tp, ti, r);
        r
      else
        var r := MoveAcrossSubtrees(a, n, tp, l, ti);
        CrossIsMoved(a, n, tp, l, ti, r);
        r
  }

  /** The move keeps the tree a tree: it creates no cycle, since the
      container only ever moves under a container outside its subtree. */
  lemma MoveKeepsForest(a: Arena, n: NodeId, tp: NodeId, ti: int)
    requires Forest(a) && n in a && tp in a
    ensures var r := MoveContainerWithinTree(a, n, tp, ti);
      r.Success? ==> Forest(r.value)
  {
    var r := MoveContainerWithinTree(a, n, tp, ti);
    if r.Success? {
      ReparentedForest(a, r.value, n, tp);
    }
  }

  /** The error conditions of the handler in terms of the tree. */
  lemma HandleErrors(a: Arena, n: NodeId, tp: NodeId)
    requires Forest(a) && n in a && tp in a
    ensures LowestCommonAncestor(a, n, tp).None? <==> !SameTree(a, n, tp)
    ensures LowestCommonAncestor(a, n, tp) == Some(tp) <==> tp in SelfAndAncestors(a, n)
    ensures LowestCommonAncestor(a, n, tp) == Some(n) <==> n in SelfAndAncestors(a, tp)
    ensures LowestCommonAncestor(a, n, tp) == Some(tp) && n in SelfAndAncestors(a, tp) ==> n == tp
    ensures LowestCommonAncestor(a, n, tp).Some? ==> LowestCommonAncestor(a, n, tp).value in a
  {
    var cn := SelfAndAncestors(a, n);
    var ct := SelfAndAncestors(a, tp);
    LowestCommonAncestorIsTarget(a, n, tp);
    if SameTree(a, n, tp) {
      var z :| z in cn && z in ct;
      assert LowestCommonAncestor(a, n, tp).Some?;
    }
    if LowestCommonAncestor(a, n, tp).Some? {
      var l := LowestCommonAncestor(a, n, tp).value;
      assert l in cn && l in ct;
    }
    if n in ct {
      assert cn[0] == n;
    }
    if tp in cn && n in ct {
      AncestorAntisymmetric(a, n, tp);
    }
  }

  lemma SameSubtreeIsMoved(a: Arena, n: NodeId, tp: NodeId, ti: int, r: Result<Arena, MoveError>)
    requires Forest(a) && n in a && tp in a
    requires r.Success? ==> SameSubtreeMoved(a, n, tp, ti, r.value)
    ensures r.Success? ==> Moved(a, n, tp, ti, r.value)
  {
    if r.Success? {
      WellFormedIndicesContiguous(r.value);
      assert ParentLinked(a, n);
    }
  }

  lemma CrossIsMoved(a: Arena, n: NodeId, tp: NodeId, l: NodeId, ti: int, r: Result<Arena, MoveError>)
    requires Forest(a) && n in a && tp in a
    requires LowestCommonAncestor(a, n, tp) == Some(l) && l != tp
    requires r.Success? ==>
      PlanCross(a, n, tp, l).Success? && CrossMoved(a, n, tp, l, ti, PlanCross(a, n, tp, l).value, r.value)
    ensures r.Success? ==> Moved(a, n, tp, ti, r.value)
  {
    if r.Success? {
      CrossApart(a, n, tp, l);
      WellFormedIndicesContiguous(r.value);
      assert ParentLinked(a, n);
      assert ChildLinked(a, tp);
      assert n !in a[tp].children;
    }
  }

  // ---------------------------------------------------------------------
  // Properties of the handler
  // ---------------------------------------------------------------------

  /** Choice of regime: the same-subtree path runs exactly when the target parent
      is an ancestor-or-self of the container, and the cross-subtree plan is
      computed only otherwise. */
  lemma RegimeChoice(a: Arena, n: NodeId, tp: NodeId, ti: int)
    requires Forest(a) && n in a && tp in a
    ensures LowestCommonAncestor(a, n, tp).Some? <==> SameTree(a, n, tp)
    ensures LowestCommonAncestor(a, n, tp) == Some(tp) <==> tp in SelfAndAncestors(a, n)
    ensures tp in SelfAndAncestors(a, n) ==>
      MoveContainerWithinTree(a, n, tp, ti) == MoveToLowestCommonAncestor(a, n, tp, ti)
    ensures SameTree(a, n, tp) && tp !in SelfAndAncestors(a, n) ==>
      var l := LowestCommonAncestor(a, n, tp).value;
      l != tp && MoveContainerWithinTree(a, n, tp, ti) == MoveAcrossSubtrees(a, n, tp, l, ti)
  {
    HandleErrors(a, n, tp);
  }

  /** Moving a container to its current parent at its current index leaves
      the whole tree as it was: child order and focus order included. */
  lemma IdentityMove(a: Arena, n: NodeId)
    requires Forest(a) && n in a && a[n].parent.Some? && a[n].parent.value in a
    requires IsSplitContainer(a[a[n].parent.value].kind)
    ensures MoveContainerWithinTree(a, n, a[n].parent.value, Index(a, n)) == Success(a)
  {
    var p := a[n].parent.value;
    assert ParentLinked(a, n);
    var ti := Index(a, n);
    ChainOfChild(a, n);
    ParentIsNotSelf(a, n);
    HandleErrors(a, n, p);
    RegimeChoice(a, n, p, ti);
    var m := MoveContainerWithinTree(a, n, p, ti);
    assert m.Success?;
    SameSubtreeIdentity(a, n, m.value);
  }

  /** A same-subtree move of a container back to its own index among its
      own parent's children reproduces the arena. */
  lemma SameSubtreeIdentity(a: Arena, n: NodeId, r: Arena)
    requires Forest(a) && n in a && a[n].parent.Some? && a[n].parent.value in a
    requires SameSubtreeMoved(a, n, a[n].parent.value, Index(a, n), r)
    ensures r == a
  {
    var p := a[n].parent.value;
    ChainOfChild(a, n);
    var c := SelfAndAncestors(a, n);
    assert c[1] == p;
    IndexOfDistinct(c, 1);
    assert ParentLinked(r, n) && FocusOrderIsPermutation(r[p]);
    assert ParentLinked(a, n) && FocusOrderIsPermutation(a[p]);
    assert n in multiset(r[p].focusOrder) && n in multiset(a[p].focusOrder);
    RemoveIndexDetermines(r[p].children, a[p].children, n);
    RemoveIndexDetermines(r[p].focusOrder, a[p].focusOrder, n);
    assert r[p] == a[p];
    assert r[n] == a[n];
    forall x | x in a
      ensures r[x] == a[x]
    {
      if x != n && x != p {
        assert Some(x) != a[n].parent;
      }
    }
    NodewiseEqual(a, r);
  }

  /** The index adjustment at work: in a split container with three
      children, moving the first child to index 2 places it between the two
      others. */
  lemma ShiftRightExample(a: Arena, n: NodeId)
    requires Forest(a) && n in a && a[n].parent.Some?
    requires var p := a[n].parent.value;
      p in a && IsSplitContainer(a[p].kind) && |a[p].children| == 3 && a[p].children[0] == n
    ensures var p := a[n].parent.value; var r := MoveContainerWithinTree(a, n, p, 2);
      && r.Success?
      && Index(r.value, n) == 1
      && r.value[p].children == [a[p].children[1], n, a[p].children[2]]
  {
    var p := a[n].parent.value;
    ChainOfChild(a, n);
    ParentIsNotSelf(a, n);
    HandleErrors(a, n, p);
    var m := MoveContainerWithinTree(a, n, p, 2);
    assert m.Success?;
    ShiftRightChildren(a, n, m.value);
  }

  lemma ShiftRightChildren(a: Arena, n: NodeId, r: Arena)
    requires WellFormed(a) && n in a && a[n].parent.Some?
    requires var p := a[n].parent.value;
      p in a && |a[p].children| == 3 && a[p].children[0] == n
    requires Moved(a, n, a[n].parent.value, 2, r)
    ensures var p := a[n].parent.value;
      Index(r, n) == 1 && r[p].children == [a[p].children[1], n, a[p].children[2]]
  {
    var p := a[n].parent.value;
    var ch := a[p].children;
    assert FocusOrderIsPermutation(a[p]);
    IndexOfDistinct(ch, 0);
    assert Remove(ch, n) == [ch[1], ch[2]];
    assert ParentLinked(r, n);
    SecondOfThree(r[p].children, n, ch[1], ch[2]);
  }

  /** A container two or more levels below `l` is not in `l`'s focus order. */
  lemma NotInGrandparentOrder(a: Arena, n: NodeId, l: NodeId)
    requires WellFormed(a) && n in a && l in a
    requires l in SelfAndAncestors(a, n) && IndexOf(SelfAndAncestors(a, n), l) >= 2
    ensures n !in a[l].focusOrder
  {
    var cn := SelfAndAncestors(a, n);
    assert cn[0] == n && a[cn[0]].parent == Some(cn[1]);
    IndexOfDistinct(cn, 1);
    assert cn[1] != l;
    assert ChildLinked(a, l) && FocusOrderIsPermutation(a[l]);
    assert n !in a[l].children;
    assert n !in multiset(a[l].focusOrder);
  }

  /** The focus facts of a plan whose container lies below its branch:
      `l`'s focus order holds both branches and not the container. */
  lemma PlanFocusFacts(a: Arena, n: NodeId, tp: NodeId, l: NodeId, p: CrossPlan)
    requires WellFormed(a) && n in a && PlanFacts(a, n, tp, l, p) && n != p.containerBranch
    ensures var fo := a[l].focusOrder; var cb := p.containerBranch; var tb := p.targetBranch;
      && Distinct(fo) && n !in fo
      && cb in fo && tb in fo && cb != tb
      && p.originalFocusIndex == IndexOf(fo, cb)
      && (p.isSubtreeFocused <==> cb in fo[..IndexOf(fo, tb)])
  {
    var cn := SelfAndAncestors(a, n);
    var k := IndexOf(cn, l);
    assert cn[0] == n && p.containerBranch == cn[k - 1];
    assert k >= 2;
    NotInGrandparentOrder(a, n, l);
    assert FocusOrderIsPermutation(a[l]);
  }

  /** Focus hand-over: when the moved container carried the focus of a subtree
      that was focused more recently, and it was not that subtree's root,
      the target branch takes the original branch's focus index and the
      original branch follows right behind it. */
  lemma CrossTargetAhead(a: Arena, n: NodeId, tp: NodeId, l: NodeId, ti: int, p: CrossPlan, r: Arena)
    requires Forest(a) && n in a && tp in a
    requires LowestCommonAncestor(a, n, tp) == Some(l) && l != tp && l != n
    requires PlanFacts(a, n, tp, l, p) && CrossMoved(a, n, tp, l, ti, p, r)
    requires p.isSubtreeFocused && p.isFocusedDescendant && n != p.containerBranch
    ensures p.containerBranch in r[l].focusOrder && p.targetBranch in r[l].focusOrder
    ensures IndexOf(r[l].focusOrder, p.targetBranch) == IndexOf(a[l].focusOrder, p.containerBranch)
    ensures IndexOf(r[l].focusOrder, p.containerBranch) == IndexOf(r[l].focusOrder, p.targetBranch) + 1
  {
    var fo := a[l].focusOrder;
    var rfo := r[l].focusOrder;
    PlanFocusFacts(a, n, tp, l, p);
    assert FocusOrderIsPermutation(r[l]);
    assert Remove(fo, n) == fo;
    var cb := p.containerBranch;
    var tb := p.targetBranch;
    TakeOverIndex(fo, rfo, cb, tb);
  }
}
