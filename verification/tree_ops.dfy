/** The tree primitives the move handler invokes through the command bus:
    detaching a container from its parent, attaching it to a split container
    at a child index, and marking a container as the focused descendant of
    one of its ancestors. Each is a pure function from arena to arena. */
module TreeOps {
  import opened Wrappers
  import opened Seqs
  import opened Tree

  // ---------------------------------------------------------------------
  // Arena surgery
  // ---------------------------------------------------------------------

  /** `n` dropped from its parent's children and focus order, and made
      parentless. */
  function Unlink(a: Arena, n: NodeId): Arena
    requires n in a && a[n].parent.Some? && a[n].parent.value in a
  {
    var p := a[n].parent.value;
    var a1 := a[p := a[p].(children := Remove(a[p].children, n),
                           focusOrder := Remove(a[p].focusOrder, n))];
    a1[n := a1[n].(parent := None)]
  }

  /** `n` inserted into `t`'s children at `i`, appended to `t`'s focus
      order, and given `t` as parent. */
  function Link(a: Arena, t: NodeId, n: NodeId, i: int): Arena
    requires t in a && n in a && 0 <= i <= |a[t].children|
  {
    var a1 := a[t := a[t].(children := InsertAt(a[t].children, i, n),
                           focusOrder := a[t].focusOrder + [n])];
    a1[n := a1[n].(parent := Some(t))]
  }

  /** `p`'s focus order replaced by `fo`. */
  function WithFocusOrder(a: Arena, p: NodeId, fo: seq<NodeId>): Arena
    requires p in a
  {
    a[p := a[p].(focusOrder := fo)]
  }

  lemma UnlinkWellFormed(a: Arena, n: NodeId)
    requires WellFormed(a) && n in a && a[n].parent.Some? && a[n].parent.value in a
    ensures WellFormed(Unlink(a, n))
  {
    var r := Unlink(a, n);
    forall x | x in r
      ensures ChildLinked(r, x) && ParentLinked(r, x) && FocusOrderIsPermutation(r[x])
    {
      UnlinkChildLinked(a, n, x);
      UnlinkParentLinked(a, n, x);
      UnlinkPermutation(a, n, x);
    }
  }

  lemma UnlinkChildLinked(a: Arena, n: NodeId, x: NodeId)
    requires WellFormed(a) && n in a && a[n].parent.Some? && a[n].parent.value in a
    requires x in a
    ensures x in Unlink(a, n) && ChildLinked(Unlink(a, n), x)
  {
    var p := a[n].parent.value;
    var r := Unlink(a, n);
    assert ChildLinked(a, x);
    forall c | c in r[x].children
      ensures c in r && r[c].parent == Some(x)
    {
      if x == p {
        assert r[x].children == Remove(a[p].children, n);
      } else if x == n {
        assert r[x].children == a[x].children;
      } else {
        assert r[x] == a[x];
      }
      assert c in a[x].children && c != n;
    }
  }

  lemma UnlinkParentLinked(a: Arena, n: NodeId, x: NodeId)
    requires WellFormed(a) && n in a && a[n].parent.Some? && a[n].parent.value in a
    requires x in a
    ensures x in Unlink(a, n) && ParentLinked(Unlink(a, n), x)
  {
    var p := a[n].parent.value;
    var r := Unlink(a, n);
    if x != n {
      assert r[x].parent == a[x].parent;
      assert ParentLinked(a, x);
      if a[x].parent.Some? {
        var q := a[x].parent.value;
        if q == p {
          assert r[q].children == Remove(a[p].children, n);
        } else if q == n {
          assert r[q].children == a[q].children;
        } else {
          assert r[q] == a[q];
        }
      }
    }
  }

  lemma UnlinkPermutation(a: Arena, n: NodeId, x: NodeId)
    requires WellFormed(a) && n in a && a[n].parent.Some? && a[n].parent.value in a
    requires x in a
    ensures x in Unlink(a, n) && FocusOrderIsPermutation(Unlink(a, n)[x])
  {
    var p := a[n].parent.value;
    var r := Unlink(a, n);
    assert FocusOrderIsPermutation(a[x]);
    if x == p {
      RemoveDistinct(a[p].children, n);
      RemoveDistinct(a[p].focusOrder, n);
      assert r[x].children == Remove(a[p].children, n);
      assert r[x].focusOrder == Remove(a[p].focusOrder, n);
    } else {
      assert r[x].children == a[x].children && r[x].focusOrder == a[x].focusOrder;
    }
  }

  lemma LinkWellFormed(a: Arena, t: NodeId, n: NodeId, i: int)
    requires WellFormed(a) && t in a && n in a && a[n].parent.None?
    requires 0 <= i <= |a[t].children|
    ensures n !in a[t].children && n !in a[t].focusOrder
    ensures WellFormed(Link(a, t, n, i))
  {
    var r := Link(a, t, n, i);
    LinkFresh(a, t, n);
    forall x | x in r
      ensures ChildLinked(r, x) && ParentLinked(r, x) && FocusOrderIsPermutation(r[x])
    {
      LinkChildLinked(a, t, n, i, x);
      LinkParentLinked(a, t, n, i, x);
      LinkPermutation(a, t, n, i, x);
    }
  }

  /** A parentless container is nobody's child or focus entry. */
  lemma LinkFresh(a: Arena, t: NodeId, n: NodeId)
    requires WellFormed(a) && t in a && n in a && a[n].parent.None?
    ensures n !in a[t].children && n !in a[t].focusOrder
  {
    assert ChildLinked(a, t) && FocusOrderIsPermutation(a[t]);
    assert n !in multiset(a[t].children);
  }

  lemma LinkChildLinked(a: Arena, t: NodeId, n: NodeId, i: int, x: NodeId)
    requires WellFormed(a) && t in a && n in a && a[n].parent.None?
    requires 0 <= i <= |a[t].children| && x in a
    ensures x in Link(a, t, n, i) && ChildLinked(Link(a, t, n, i), x)
  {
    var r := Link(a, t, n, i);
    assert ChildLinked(a, x);
    forall c | c in r[x].children
      ensures c in r && r[c].parent == Some(x)
    {
      if x == t {
        assert r[x].children == InsertAt(a[t].children, i, n);
        if c != n {
          assert c in multiset(InsertAt(a[t].children, i, n));
          assert c in a[x].children;
        }
      } else {
        assert r[x].children == a[x].children;
        assert c in a[x].children && c != n;
      }
    }
  }

  lemma LinkParentLinked(a: Arena, t: NodeId, n: NodeId, i: int, x: NodeId)
    requires WellFormed(a) && t in a && n in a && a[n].parent.None?
    requires 0 <= i <= |a[t].children| && x in a
    ensures x in Link(a, t, n, i) && ParentLinked(Link(a, t, n, i), x)
  {
    var r := Link(a, t, n, i);
    if x == n {
      assert r[t].children == InsertAt(a[t].children, i, n);
      assert r[t].children[i] == n;
    } else {
      assert r[x].parent == a[x].parent;
      assert ParentLinked(a, x);
      if a[x].parent.Some? {
        var q := a[x].parent.value;
        if q == t {
          assert r[q].children == InsertAt(a[t].children, i, n);
          assert x in multiset(a[t].children);
          assert x in multiset(InsertAt(a[t].children, i, n));
        } else {
          assert r[q].children == a[q].children;
        }
      }
    }
  }

  lemma LinkPermutation(a: Arena, t: NodeId, n: NodeId, i: int, x: NodeId)
    requires WellFormed(a) && t in a && n in a && a[n].parent.None?
    requires 0 <= i <= |a[t].children| && x in a
    ensures x in Link(a, t, n, i) && FocusOrderIsPermutation(Link(a, t, n, i)[x])
  {
    var r := Link(a, t, n, i);
    assert FocusOrderIsPermutation(a[x]);
    if x == t {
      LinkFresh(a, t, n);
      InsertAtDistinct(a[t].children, i, n);
      AppendRemove(a[t].focusOrder, n);
      assert r[x].children == InsertAt(a[t].children, i, n);
      assert r[x].focusOrder == a[t].focusOrder + [n];
    } else {
      assert r[x].children == a[x].children && r[x].focusOrder == a[x].focusOrder;
    }
  }

  lemma WithFocusOrderWellFormed(a: Arena, p: NodeId, fo: seq<NodeId>)
    requires WellFormed(a) && p in a
    requires Distinct(fo) && multiset(fo) == multiset(a[p].children)
    ensures WellFormed(WithFocusOrder(a, p, fo)) && SameShape(a, WithFocusOrder(a, p, fo))
  {
    var r := WithFocusOrder(a, p, fo);
    forall x | x in r
      ensures ChildLinked(r, x) && ParentLinked(r, x) && FocusOrderIsPermutation(r[x])
    {
      assert ChildLinked(a, x) && ParentLinked(a, x) && FocusOrderIsPermutation(a[x]);
    }
  }

  /** Appending a fresh element keeps a sequence duplicate-free, and
      removing it again gives the sequence back. */
  lemma AppendRemove<T(!new)>(s: seq<T>, x: T)
    requires x !in s
    ensures Remove(s + [x], x) == s
    ensures Distinct(s) ==> Distinct(s + [x])
  {
    assert IndexOf(s + [x], x) == |s| by {
      assert (s + [x])[|s|] == x && (s + [x])[..|s|] == s;
    }
    assert (s + [x])[..|s|] == s;
  }

  // ---------------------------------------------------------------------
  // Detach and attach
  // ---------------------------------------------------------------------

  /** What unlinking does to `n` and its old parent. */
  lemma UnlinkFacts(a: Arena, n: NodeId)
    requires n in a && a[n].parent.Some? && a[n].parent.value in a
    ensures var r := Unlink(a, n); var p := a[n].parent.value;
      && r.Keys == a.Keys
      && r[n].parent.None? && r[n].kind == a[n].kind
      && r[p].children == Remove(a[p].children, n)
      && r[p].focusOrder == Remove(a[p].focusOrder, n)
      && (p != n ==> r[n] == a[n].(parent := None))
  {
    var p := a[n].parent.value;
    var r := Unlink(a, n);
    assert r[p].children == Remove(a[p].children, n);
    assert r[p].focusOrder == Remove(a[p].focusOrder, n);
  }

  lemma UnlinkFrame(a: Arena, n: NodeId)
    requires n in a && a[n].parent.Some? && a[n].parent.value in a
    ensures var r := Unlink(a, n);
      forall x :: x in a && x != n ==> r[x].parent == a[x].parent && r[x].kind == a[x].kind
    ensures var r := Unlink(a, n);
      forall x :: x in a && x != n && Some(x) != a[n].parent ==> r[x] == a[x]
  {
    var p := a[n].parent.value;
    var a1 := a[p := a[p].(children := Remove(a[p].children, n),
                           focusOrder := Remove(a[p].focusOrder, n))];
    var r := Unlink(a, n);
    assert r == a1[n := a1[n].(parent := None)];
    forall x | x in a && x != n
      ensures r[x].parent == a[x].parent && r[x].kind == a[x].kind
      ensures x != p ==> r[x] == a[x]
    {
      assert r[x] == a1[x];
    }
  }

  /** Removing a member of a duplicate-free sequence removes its only copy. */
  lemma UnlinkSequence(s: seq<NodeId>, n: NodeId)
    requires Distinct(s) && n in s
    ensures n !in Remove(s, n) && |Remove(s, n)| == |s| - 1
    ensures Remove(Remove(s, n), n) == Remove(s, n)
  {
    RemoveDistinct(s, n);
  }

  /** `DetachContainerCommand`: `n` leaves its parent's children and focus
      order and becomes parentless; its own subtree is kept. */
  function Detach(a: Arena, n: NodeId): (r: Arena)
    requires WellFormed(a) && n in a && a[n].parent.Some?
    ensures WellFormed(r) && r.Keys == a.Keys
    ensures r[n].parent.None? && r[n].kind == a[n].kind
    ensures var p := a[n].parent.value;
      && p in a
      && n !in r[p].children && n !in r[p].focusOrder
      && |r[p].children| == |a[p].children| - 1
      && r[p].children == Remove(a[p].children, n)
      && r[p].focusOrder == Remove(a[p].focusOrder, n)
      && (p != n ==> r[n] == a[n].(parent := None))
    ensures forall x :: x in a && x != n ==> r[x].parent == a[x].parent && r[x].kind == a[x].kind
    ensures forall x :: x in a && x != n && Some(x) != a[n].parent ==> r[x] == a[x]
  {
    var p := a[n].parent.value;
    assert ParentLinked(a, n) && FocusOrderIsPermutation(a[p]);
    assert n in multiset(a[p].focusOrder);
    UnlinkWellFormed(a, n);
    UnlinkFacts(a, n);
    UnlinkFrame(a, n);
    UnlinkSequence(a[p].children, n);
    UnlinkSequence(a[p].focusOrder, n);
    Unlink(a, n)
  }

  /** What linking does to `n` and `t`. */
  lemma LinkFacts(a: Arena, t: NodeId, n: NodeId, i: int)
    requires WellFormed(a) && t in a && n in a && a[n].parent.None?
    requires 0 <= i <= |a[t].children|
    ensures var r := Link(a, t, n, i);
      && r.Keys == a.Keys
      && r[n].parent == Some(t) && r[n].kind == a[n].kind
      && r[t].children == InsertAt(a[t].children, i, n)
      && r[t].focusOrder == a[t].focusOrder + [n]
      && (t != n ==> r[n] == a[n].(parent := Some(t)))
  {
    var r := Link(a, t, n, i);
    assert r[t].children == InsertAt(a[t].children, i, n);
    assert r[t].focusOrder == a[t].focusOrder + [n];
  }

  /** Inserting a container that was in neither sequence places it at the
      requested index and leaves the rest as it was. */
  lemma LinkSequences(ch: seq<NodeId>, fo: seq<NodeId>, i: int, n: NodeId)
    requires Distinct(ch) && n !in ch && n !in fo && 0 <= i <= |ch|
    ensures IndexOf(InsertAt(ch, i, n), n) == i
    ensures Remove(InsertAt(ch, i, n), n) == ch && Remove(fo + [n], n) == fo
  {
    InsertAtDistinct(ch, i, n);
    AppendRemove(fo, n);
  }

  lemma LinkFrame(a: Arena, t: NodeId, n: NodeId, i: int)
    requires t in a && n in a && 0 <= i <= |a[t].children|
    ensures var r := Link(a, t, n, i);
      forall x :: x in a && x != n ==> r[x].parent == a[x].parent && r[x].kind == a[x].kind
    ensures var r := Link(a, t, n, i);
      forall x :: x in a && x != n && x != t ==> r[x] == a[x]
  {
  }

  /** `AttachContainerCommand`: the parentless `n` becomes the child of `t`
      at index `i`, later siblings shift right, and `n` is appended to the
      end (least recent) of `t`'s focus order. */
  function Attach(a: Arena, t: NodeId, n: NodeId, i: int): (r: Arena)
    requires WellFormed(a) && t in a && n in a && a[n].parent.None?
    requires 0 <= i <= |a[t].children|
    ensures WellFormed(r) && r.Keys == a.Keys
    ensures r[n].parent == Some(t) && r[n].kind == a[n].kind
    ensures t != n ==> r[n] == a[n].(parent := Some(t))
    ensures Index(r, n) == i
    ensures r[t].children == InsertAt(a[t].children, i, n)
    ensures r[t].focusOrder == a[t].focusOrder + [n]
    ensures Remove(r[t].children, n) == a[t].children && Remove(r[t].focusOrder, n) == a[t].focusOrder
    ensures forall x :: x in a && x != n ==> r[x].parent == a[x].parent && r[x].kind == a[x].kind
    ensures forall x :: x in a && x != n && x != t ==> r[x] == a[x]
  {
    LinkWellFormed(a, t, n, i);
    LinkFacts(a, t, n, i);
    LinkFrame(a, t, n, i);
    assert FocusOrderIsPermutation(a[t]);
    LinkSequences(a[t].children, a[t].focusOrder, i, n);
    Link(a, t, n, i)
  }

  /** Detaching after attaching gives back the original arena. */
  lemma DetachAfterAttach(a: Arena, t: NodeId, n: NodeId, i: int)
    requires WellFormed(a) && t in a && n in a && a[n].parent.None? && t != n
    requires 0 <= i <= |a[t].children|
    ensures Detach(Attach(a, t, n, i), n) == a
  {
    var b := Attach(a, t, n, i);
    var r := Detach(b, n);
    assert b[n].parent == Some(t);
    assert r[t].children == Remove(b[t].children, n) == a[t].children;
    assert r[t].focusOrder == Remove(b[t].focusOrder, n) == a[t].focusOrder;
    assert r[t].parent == a[t].parent && r[t].kind == a[t].kind;
    assert r[n] == b[n].(parent := None);
    assert b[n] == a[n].(parent := Some(t));
    forall x | x in a
      ensures r[x] == a[x]
    {
      if x != t && x != n {
        assert Some(x) != b[n].parent;
        assert r[x] == b[x] == a[x];
      }
    }
    NodewiseEqual(a, r);
  }

  /** Attaching at the index a container had before it was detached puts it
      back among the same siblings, in the same place; only its focus entry
      moves, to the end of the parent's focus order. */
  lemma AttachAfterDetach(a: Arena, n: NodeId)
    requires WellFormed(a) && n in a && a[n].parent.Some? && a[n].parent.value != n
    ensures var p := a[n].parent.value;
      var r := Attach(Detach(a, n), p, n, Index(a, n));
      && r[p].children == a[p].children
      && r[p].focusOrder == Remove(a[p].focusOrder, n) + [n]
      && forall x :: x in a && x != p ==> r[x] == a[x]
  {
    var p := a[n].parent.value;
    assert ParentLinked(a, n);
    var d := Detach(a, n);
    var r := Attach(d, p, n, Index(a, n));
    assert d[p].children == Remove(a[p].children, n);
    assert r[p].children == InsertAt(d[p].children, IndexOf(a[p].children, n), n);
    RemoveInsertRoundTrip(a[p].children, n);
    forall x | x in a && x != p
      ensures r[x] == a[x]
    {
      if x == n {
        assert r[n] == d[n].(parent := Some(p));
        assert d[n] == a[n].(parent := None);
      } else {
        assert r[x] == d[x];
        assert d[x] == a[x];
      }
    }
  }

  /** Detaching `n` removes it from every other container's children and
      focus order, which changes only the old parent's lists. */
  lemma DetachOrders(a: Arena, n: NodeId, x: NodeId)
    requires WellFormed(a) && n in a && a[n].parent.Some? && x in a && x != n
    ensures Detach(a, n)[x].children == Remove(a[x].children, n)
    ensures Detach(a, n)[x].focusOrder == Remove(a[x].focusOrder, n)
  {
    if a[n].parent != Some(x) {
      assert ChildLinked(a, x) && FocusOrderIsPermutation(a[x]);
      assert n !in a[x].children;
      assert n !in multiset(a[x].focusOrder);
    }
  }

  /** Detaching re-indexes the remaining siblings to 0..n-2: those after the
      detached container move down by one, the others keep their index. */
  lemma DetachReindexes(a: Arena, n: NodeId, c: NodeId)
    requires WellFormed(a) && n in a && a[n].parent.Some?
    requires c in a && c != n && a[c].parent == a[n].parent
    ensures var d := Detach(a, n);
      Index(d, c) == if Index(a, c) > Index(a, n) then Index(a, c) - 1 else Index(a, c)
  {
    var p := a[n].parent.value;
    assert ParentLinked(a, n) && ParentLinked(a, c) && FocusOrderIsPermutation(a[p]);
    var d := Detach(a, n);
    assert d[c].parent == Some(p);
    assert d[p].children == Remove(a[p].children, n);
    assert Index(d, c) == IndexOf(Remove(a[p].children, n), c);
    assert Index(a, c) == IndexOf(a[p].children, c) && Index(a, n) == IndexOf(a[p].children, n);
    IndexOfRemove(a[p].children, n, c);
  }

  // ---------------------------------------------------------------------
  // Focus
  // ---------------------------------------------------------------------

  /** `ChildFocusOrder.ShiftToIndex(i, x)` on `p`: `x` moves to position
      `i` of `p`'s focus order and the other entries keep their relative
      order. */
  function ShiftFocus(a: Arena, p: NodeId, x: NodeId, i: int): (r: Arena)
    requires WellFormed(a) && p in a && x in a[p].focusOrder && 0 <= i < |a[p].focusOrder|
    ensures WellFormed(r) && SameShape(a, r)
    ensures IndexOf(r[p].focusOrder, x) == i
    ensures Remove(r[p].focusOrder, x) == Remove(a[p].focusOrder, x)
    ensures forall y :: y in a && y != p ==> r[y] == a[y]
  {
    assert FocusOrderIsPermutation(a[p]);
    var fo := ShiftToIndex(a[p].focusOrder, i, x);
    ShiftToIndexDistinct(a[p].focusOrder, i, x);
    WithFocusOrderWellFormed(a, p, fo);
    WithFocusOrder(a, p, fo)
  }

  /** Shifting within the focus order of a container off a focus path
      keeps the path. */
  lemma ShiftFocusKeepsPath(a: Arena, p: NodeId, x: NodeId, i: int, n: NodeId, t: NodeId)
    requires WellFormed(a) && p in a && x in a[p].focusOrder && 0 <= i < |a[p].focusOrder|
    requires FocusPathTo(a, n, t)
    requires var c := SelfAndAncestors(a, n); p !in c[1..IndexOf(c, t) + 1]
    ensures FocusPathTo(ShiftFocus(a, p, x, i), n, t)
  {
    FocusPathFrame(a, ShiftFocus(a, p, x, i), n, t);
  }

  /** Moves `x` to the front (most recent) of its parent's focus order. */
  function Promote(a: Arena, x: NodeId): (r: Arena)
    requires WellFormed(a) && x in a && a[x].parent.Some?
    ensures WellFormed(r) && SameShape(a, r)
    ensures IsMostRecent(r, x)
    ensures var p := a[x].parent.value;
      Remove(r[p].focusOrder, x) == Remove(a[p].focusOrder, x)
    ensures forall y :: y in a && Some(y) != a[x].parent ==> r[y] == a[y]
  {
    var p := a[x].parent.value;
    assert ParentLinked(a, x) && FocusOrderIsPermutation(a[p]);
    assert x in multiset(a[p].focusOrder);
    ShiftFocus(a, p, x, 0)
  }

  /** No two entries of `xs` share a parent. */
  predicate DistinctParents(a: Arena, xs: seq<NodeId>)
    requires forall x :: x in xs ==> x in a
  {
    forall i, j :: 0 <= i < j < |xs| ==> a[xs[i]].parent != a[xs[j]].parent
  }

  /** Every entry of `xs` has a parent in `ps`, and all of them are in the
      arena. */
  predicate ParentsWithin(a: Arena, xs: seq<NodeId>, ps: set<NodeId>) {
    forall x :: x in xs ==> x in a && a[x].parent.Some? && a[x].parent.value in a && a[x].parent.value in ps
  }

  /** Splitting `xs` into its head and tail: the tail's parents avoid the
      head's parent, and the tail keeps distinct parents. */
  lemma PromoteAllStep(a: Arena, b: Arena, xs: seq<NodeId>, ps: set<NodeId>)
    requires |xs| > 0 && ParentsWithin(a, xs, ps) && DistinctParents(a, xs) && SameShape(a, b)
    ensures ParentsWithin(b, xs[1..], ps - {a[xs[0]].parent.value})
    ensures DistinctParents(b, xs[1..])
    ensures forall y :: y in xs ==> y == xs[0] || y in xs[1..]
  {
    forall y | y in xs[1..]
      ensures y in xs && a[y].parent != a[xs[0]].parent
    {
      var j :| 0 <= j < |xs[1..]| && xs[1..][j] == y;
      assert xs[j + 1] == y;
    }
    forall i, j | 0 <= i < j < |xs| - 1
      ensures b[xs[1..][i]].parent != b[xs[1..][j]].parent
    {
      assert xs[1..][i] == xs[i + 1] && xs[1..][j] == xs[j + 1];
    }
    forall y | y in xs
      ensures y == xs[0] || y in xs[1..]
    {
      var j :| 0 <= j < |xs| && xs[j] == y;
      if j > 0 {
        assert xs[1..][j - 1] == y;
      }
    }
  }

  /** Promotes every entry of `xs` in its parent's focus order; only the
      parents, all drawn from `ps`, change. */
  function PromoteAll(a: Arena, xs: seq<NodeId>, ps: set<NodeId>): (r: Arena)
    requires WellFormed(a) && ParentsWithin(a, xs, ps) && DistinctParents(a, xs)
    ensures WellFormed(r) && SameShape(a, r)
    ensures forall x :: x in xs ==> IsMostRecent(r, x)
    ensures forall x :: x in xs ==>
      Remove(r[a[x].parent.value].focusOrder, x) == Remove(a[a[x].parent.value].focusOrder, x)
    ensures forall y :: y in a && y !in ps ==> r[y] == a[y]
    decreases |xs|
  {
    if |xs| == 0 then a
    else
      var p := a[xs[0]].parent.value;
      var b := Promote(a, xs[0]);
      PromoteAllStep(a, b, xs, ps);
      var r := PromoteAll(b, xs[1..], ps - {p});
      PromoteAllCombine(a, b, r, xs, ps);
      r
  }

  /** The head's promotion survives the promotions of the tail, which touch
      only the other parents. */
  lemma PromoteAllCombine(a: Arena, b: Arena, r: Arena, xs: seq<NodeId>, ps: set<NodeId>)
    requires |xs| > 0 && ParentsWithin(a, xs, ps)
    requires SameShape(a, b) && SameShape(b, r)
    requires var p := a[xs[0]].parent.value;
      && IsMostRecent(b, xs[0])
      && Remove(b[p].focusOrder, xs[0]) == Remove(a[p].focusOrder, xs[0])
      && forall y :: y in a && y != p ==> b[y] == a[y]
    requires forall y :: y in xs ==> y == xs[0] || y in xs[1..]
    requires forall x :: x in xs[1..] ==> IsMostRecent(r, x)
    requires forall x :: x in xs[1..] ==> a[x].parent.value != a[xs[0]].parent.value
    requires forall x :: x in xs[1..] ==>
      Remove(r[b[x].parent.value].focusOrder, x) == Remove(b[b[x].parent.value].focusOrder, x)
    requires forall y :: y in b && y !in ps - {a[xs[0]].parent.value} ==> r[y] == b[y]
    ensures SameShape(a, r)
    ensures forall x :: x in xs ==> IsMostRecent(r, x)
    ensures forall x :: x in xs ==>
      Remove(r[a[x].parent.value].focusOrder, x) == Remove(a[a[x].parent.value].focusOrder, x)
    ensures forall y :: y in a && y !in ps ==> r[y] == a[y]
  {
    var p := a[xs[0]].parent.value;
    assert r[p] == b[p];
    forall x | x in xs
      ensures IsMostRecent(r, x)
      ensures Remove(r[a[x].parent.value].focusOrder, x) == Remove(a[a[x].parent.value].focusOrder, x)
    {
      if x != xs[0] {
        assert x in xs[1..];
        var q := a[x].parent.value;
        assert b[x].parent == a[x].parent && b[q] == a[q];
      }
    }
  }

  /** In a duplicate-free sequence where each of the first `k` entries has
      the next entry as parent, those entries have distinct parents drawn
      from entries 1..k. */
  lemma StepParents(a: Arena, c: seq<NodeId>, k: nat)
    requires Distinct(c) && k < |c|
    requires forall z :: z in c ==> z in a
    requires forall i, j :: 0 <= i && j == i + 1 && j < |c| ==> a[c[i]].parent == Some(c[j])
    ensures ParentsWithin(a, c[..k], Elems(c[1..k + 1]))
    ensures DistinctParents(a, c[..k])
  {
    forall x | x in c[..k]
      ensures x in a && a[x].parent.Some? && a[x].parent.value in a && a[x].parent.value in Elems(c[1..k + 1])
    {
      var j :| 0 <= j < k && c[..k][j] == x;
      assert c[j] in c && c[j + 1] in c;
      assert a[c[j]].parent == Some(c[j + 1]);
      assert c[1..k + 1][j] == c[j + 1];
    }
    forall i, j | 0 <= i < j < k
      ensures a[c[..k][i]].parent != a[c[..k][j]].parent
    {
      assert c[..k][i] == c[i] && c[..k][j] == c[j];
      assert c[i] in c && c[j] in c;
      assert a[c[i]].parent == Some(c[i + 1]) && a[c[j]].parent == Some(c[j + 1]);
      assert c[i + 1] != c[j + 1];
    }
  }

  /** The chain of `n` below `end`: each member's parent is the next member,
      so the parents are the chain from `n`'s parent up to `end`. */
  lemma ChainPrefixParents(a: Arena, n: NodeId, end: NodeId)
    requires end in SelfAndAncestors(a, n) && end != n
    ensures var c := SelfAndAncestors(a, n); var k := IndexOf(c, end);
      && ParentsWithin(a, c[..k], Elems(c[1..k + 1]))
      && DistinctParents(a, c[..k])
  {
    var c := SelfAndAncestors(a, n);
    var k := IndexOf(c, end);
    StepParents(a, c, k);
  }

  /** A frame over the elements of `band` is a frame over `band`. */
  lemma FrameOutsideBand(a: Arena, r: Arena, band: seq<NodeId>)
    requires r.Keys == a.Keys
    requires forall y :: y in a && y !in Elems(band) ==> r[y] == a[y]
    ensures forall y :: y in a && y !in band ==> r[y] == a[y]
  {
  }

  /** What `SetFocusedDescendantCommand(n, end)` leaves behind: the shape is
      kept, focus runs from `end` down to `n`, each focus order on the way
      only moved the chain member below it to the front (the other entries
      keep their relative order), and nothing outside the containers from
      `n`'s parent up to `end` changed. */
  predicate FocusedDescendantSet(a: Arena, n: NodeId, end: NodeId, r: Arena)
    requires end in SelfAndAncestors(a, n)
  {
    var c := SelfAndAncestors(a, n);
    var k := IndexOf(c, end);
    && WellFormed(r) && SameShape(a, r)
    && FocusPathTo(r, n, end)
    && (forall j :: 0 <= j < k ==>
          Remove(r[c[j + 1]].focusOrder, c[j]) == Remove(a[c[j + 1]].focusOrder, c[j]))
    && (forall y :: y in a && y !in c[1..k + 1] ==> r[y] == a[y])
  }

  /** `SetFocusedDescendantCommand(n, end)`: every container on `n`'s chain
      strictly below `end` becomes the most recent child of its parent;
      `end`'s own slot in its parent is left alone. */
  function SetFocusedDescendant(a: Arena, n: NodeId, end: NodeId): (r: Arena)
    requires WellFormed(a) && n in a
    requires end in SelfAndAncestors(a, n) && end != n
    ensures FocusedDescendantSet(a, n, end, r)
  {
    var c := SelfAndAncestors(a, n);
    var k := IndexOf(c, end);
    PromoteChain(a, n, end);
    PromoteAll(a, c[..k], Elems(c[1..k + 1]))
  }

  /** Promoting the chain below `end` sets `n` as the focused descendant of
      `end`. */
  lemma PromoteChain(a: Arena, n: NodeId, end: NodeId)
    requires WellFormed(a) && n in a
    requires end in SelfAndAncestors(a, n) && end != n
    ensures var c := SelfAndAncestors(a, n); var k := IndexOf(c, end);
      && ParentsWithin(a, c[..k], Elems(c[1..k + 1])) && DistinctParents(a, c[..k])
      && FocusedDescendantSet(a, n, end, PromoteAll(a, c[..k], Elems(c[1..k + 1])))
  {
    var c := SelfAndAncestors(a, n);
    var k := IndexOf(c, end);
    ChainPrefixParents(a, n, end);
    var r := PromoteAll(a, c[..k], Elems(c[1..k + 1]));
    MostRecentPath(a, r, n, end);
    FrameOutsideBand(a, r, c[1..k + 1]);
    PromotedInOrder(a, r, c, k);
  }

  /** Promoting each of the first `k` chain members in its parent's focus
      order leaves the other entries of that order in place. */
  lemma PromotedInOrder(a: Arena, r: Arena, c: seq<NodeId>, k: nat)
    requires k < |c| && r.Keys == a.Keys
    requires forall z :: z in c ==> z in a
    requires forall i, j :: 0 <= i && j == i + 1 && j < |c| ==> a[c[i]].parent == Some(c[j])
    requires ParentsWithin(a, c[..k], Elems(c[1..k + 1]))
    requires forall x :: x in c[..k] ==>
      Remove(r[a[x].parent.value].focusOrder, x) == Remove(a[a[x].parent.value].focusOrder, x)
    ensures forall j :: 0 <= j < k ==>
      Remove(r[c[j + 1]].focusOrder, c[j]) == Remove(a[c[j + 1]].focusOrder, c[j])
  {
    forall j | 0 <= j < k
      ensures Remove(r[c[j + 1]].focusOrder, c[j]) == Remove(a[c[j + 1]].focusOrder, c[j])
    {
      assert c[..k][j] == c[j];
      assert c[j] in c && c[j + 1] in c;
      assert a[c[j]].parent == Some(c[j + 1]);
    }
  }
}
