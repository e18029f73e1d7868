/** The list operations the window manager performs on child lists and focus
    orders: `IndexOf`, `Remove` (first occurrence), `Insert`, LINQ's `First`
    and the `ShiftToIndex` list extension, as pure functions on sequences. */
module Seqs {

  /** No element occurs twice. */
  predicate Distinct<T(==)>(s: seq<T>) {
    forall i, j :: 0 <= i < j < |s| ==> s[i] != s[j]
  }

  /** The set of elements of `s`. */
  function Elems<T(!new)>(s: seq<T>): (r: set<T>)
    ensures forall x :: x in r <==> x in s
  {
    set x | x in s
  }

  /** The elements of a non-empty prefix are its head and the rest. */
  lemma ElemsPrefix<T(!new)>(s: seq<T>, n: nat)
    requires n < |s|
    ensures Elems(s[..n + 1]) == {s[0]} + Elems(s[1..n + 1])
  {
    assert s[..n + 1] == [s[0]] + s[1..n + 1];
  }

  /** A prefix of `[y] + s` is `y` followed by a prefix of `s`. */
  lemma ConsPrefix<T>(y: T, s: seq<T>, n: nat)
    requires n <= |s|
    ensures ([y] + s)[..n + 1] == [y] + s[..n]
  {
  }

  /** Position of the first occurrence of `x`, or -1 when there is none. */
  function IndexOf<T(==)>(s: seq<T>, x: T): (r: int)
    ensures -1 <= r < |s|
    ensures r == -1 <==> x !in s
    ensures 0 <= r ==> s[r] == x && x !in s[..r]
  {
    if |s| == 0 then -1
    else if s[0] == x then 0
    else
      var k := IndexOf(s[1..], x);
      assert k >= 0 ==> s[..k + 1] == [s[0]] + s[1..][..k];
      if k == -1 then -1 else k + 1
  }

  /** In a duplicate-free sequence the element at `i` has index `i`. */
  lemma IndexOfDistinct<T>(s: seq<T>, i: int)
    requires Distinct(s) && 0 <= i < |s|
    ensures IndexOf(s, s[i]) == i
  {
  }

  /** The head of a duplicate-free sequence does not occur in its tail. */
  lemma DistinctHead<T>(y: T, s: seq<T>)
    requires Distinct([y] + s)
    ensures y !in s
  {
    forall i | 0 <= i < |s|
      ensures s[i] != y
    {
      assert ([y] + s)[i + 1] == s[i] && ([y] + s)[0] == y;
    }
  }

  /** Prepending an element other than `x` shifts the index of `x` by one. */
  lemma IndexOfCons<T>(y: T, s: seq<T>, x: T)
    requires y != x && x in s
    ensures IndexOf([y] + s, x) == IndexOf(s, x) + 1
  {
    assert ([y] + s)[1..] == s;
  }

  /** The part of `[y] + s` after `y` up to and including `x` is the part
      of `s` up to and including `x`. */
  lemma ConsUpTo<T>(c: seq<T>, y: T, s: seq<T>, x: T)
    requires c == [y] + s && y != x && x in s
    ensures x in c && IndexOf(c, x) == IndexOf(s, x) + 1
    ensures c[1..IndexOf(c, x) + 1] == s[..IndexOf(s, x) + 1]
  {
    IndexOfCons(y, s, x);
  }

  /** Index of the first element satisfying `p`, or -1 (LINQ's `First`,
      whose "no element" case throws). */
  function FirstIndex<T>(s: seq<T>, p: T -> bool): (r: int)
    ensures -1 <= r < |s|
    ensures r == -1 <==> forall i :: 0 <= i < |s| ==> !p(s[i])
    ensures 0 <= r ==> p(s[r]) && forall i :: 0 <= i < r ==> !p(s[i])
  {
    if |s| == 0 then -1
    else if p(s[0]) then 0
    else
      var k := FirstIndex(s[1..], p);
      if k == -1 then -1 else k + 1
  }

  /** `x` comes first exactly when it occurs in the part before `y`. */
  lemma IndexOfBefore<T>(s: seq<T>, x: T, y: T)
    requires x in s && y in s
    ensures IndexOf(s, x) < IndexOf(s, y) <==> x in s[..IndexOf(s, y)]
  {
    var i := IndexOf(s, x);
    var j := IndexOf(s, y);
    if i < j {
      assert s[..j][i] == x;
    }
    if x in s[..j] {
      var k :| 0 <= k < j && s[..j][k] == x;
      assert s[k] == x;
    }
  }

  /** `List.Remove`: drops the first occurrence of `x`, if any. */
  function Remove<T(==,!new)>(s: seq<T>, x: T): (r: seq<T>)
    ensures x !in s ==> r == s
    ensures x in s ==> |r| == |s| - 1
    ensures multiset(r) == multiset(s) - multiset{x}
    ensures forall y :: y != x ==> (y in r <==> y in s)
  {
    var i := IndexOf(s, x);
    if i < 0 then s
    else
      assert s == s[..i] + [x] + s[i + 1..];
      s[..i] + s[i + 1..]
  }

  /** Removing from a duplicate-free sequence keeps it duplicate-free and
      leaves no copy of the removed element behind. */
  lemma RemoveDistinct<T(!new)>(s: seq<T>, x: T)
    requires Distinct(s)
    ensures Distinct(Remove(s, x))
    ensures x !in Remove(s, x)
  {
    var i := IndexOf(s, x);
    if i >= 0 {
      var r := Remove(s, x);
      assert r == s[..i] + s[i + 1..];
      forall a, b | 0 <= a < b < |r|
        ensures r[a] != r[b]
      {
        var a' := if a < i then a else a + 1;
        var b' := if b < i then b else b + 1;
        assert r[a] == s[a'] && r[b] == s[b'];
      }
    }
  }

  /** Removing `x` from a duplicate-free sequence moves every element after
      it one place forward and leaves the elements before it in place. */
  lemma IndexOfRemove<T(!new)>(s: seq<T>, x: T, y: T)
    requires Distinct(s) && x in s && y in s && x != y
    ensures IndexOf(Remove(s, x), y) ==
      if IndexOf(s, y) > IndexOf(s, x) then IndexOf(s, y) - 1 else IndexOf(s, y)
  {
    var i := IndexOf(s, x);
    var j := IndexOf(s, y);
    var r := Remove(s, x);
    RemoveDistinct(s, x);
    assert r == s[..i] + s[i + 1..];
    if j < i {
      assert r[j] == y;
      IndexOfDistinct(r, j);
    } else {
      assert r[j - 1] == y;
      IndexOfDistinct(r, j - 1);
    }
  }

  /** Moving `x` from behind `y` into `y`'s index pushes `y` one place back
      and changes nothing else. */
  lemma MoveAhead<T(!new)>(s: seq<T>, t: seq<T>, x: T, y: T)
    requires Distinct(s) && Distinct(t) && x in s && y in s && x != y
    requires IndexOf(s, y) < IndexOf(s, x)
    requires x in t && IndexOf(t, x) == IndexOf(s, y) && Remove(t, x) == Remove(s, x)
    ensures y in t && IndexOf(t, y) == IndexOf(t, x) + 1
  {
    assert y in Remove(s, x);
    IndexOfRemove(s, x, y);
    IndexOfRemove(t, x, y);
  }

  /** `y` took over the index `x` had, everything else kept its order, and
      `x` stood before `y`: then `x` now sits right behind `y`. */
  lemma TakeOverIndex<T(!new)>(s: seq<T>, t: seq<T>, x: T, y: T)
    requires Distinct(s) && Distinct(t) && x in s && y in s && x != y
    requires x in s[..IndexOf(s, y)]
    requires y in t && IndexOf(t, y) == IndexOf(s, x) && Remove(t, y) == Remove(s, y)
    ensures x in t && IndexOf(t, x) == IndexOf(t, y) + 1
  {
    IndexOfBefore(s, x, y);
    MoveAhead(s, t, y, x);
  }

  /** `List.Insert(i, x)`. */
  function InsertAt<T>(s: seq<T>, i: int, x: T): (r: seq<T>)
    requires 0 <= i <= |s|
    ensures |r| == |s| + 1 && r[i] == x
    ensures r[..i] == s[..i] && r[i + 1..] == s[i..]
    ensures multiset(r) == multiset(s) + multiset{x}
  {
    assert s == s[..i] + s[i..];
    s[..i] + [x] + s[i..]
  }

  /** Inserting a fresh element keeps a sequence duplicate-free, and the
      element is then found exactly where it was put. */
  lemma InsertAtDistinct<T(!new)>(s: seq<T>, i: int, x: T)
    requires Distinct(s) && x !in s && 0 <= i <= |s|
    ensures Distinct(InsertAt(s, i, x))
    ensures IndexOf(InsertAt(s, i, x), x) == i
    ensures Remove(InsertAt(s, i, x), x) == s
  {
    var r := InsertAt(s, i, x);
    assert r == s[..i] + [x] + s[i..];
    forall a, b | 0 <= a < b < |r|
      ensures r[a] != r[b]
    {
      if a != i && b != i {
        var a' := if a < i then a else a - 1;
        var b' := if b < i then b else b - 1;
        assert r[a] == s[a'] && r[b] == s[b'];
      } else if a == i {
        assert r[b] == s[b - 1];
      } else {
        assert r[a] == s[a];
      }
    }
    IndexOfDistinct(r, i);
    assert r[..i] + r[i + 1..] == s;
  }

  /** Removing an element and inserting it back where it was is the identity. */
  lemma {:induction false} RemoveInsertRoundTrip<T(!new)>(s: seq<T>, x: T)
    requires x in s
    ensures InsertAt(Remove(s, x), IndexOf(s, x), x) == s
  {
    var i := IndexOf(s, x);
    var r := Remove(s, x);
    assert r == s[..i] + s[i + 1..];
    var t := InsertAt(r, i, x);
    forall j | 0 <= j < |s|
      ensures t[j] == s[j]
    {
      if j < i {
        assert t[j] == t[..i][j] == r[..i][j] == r[j];
      } else if j > i {
        assert t[j] == t[i + 1..][j - i - 1] == r[i..][j - i - 1] == r[j - 1];
      }
    }
  }

  /** A sequence is determined by where `x` sits and what is left without
      it. */
  lemma RemoveIndexDetermines<T(!new)>(s: seq<T>, t: seq<T>, x: T)
    requires x in s && x in t
    requires Remove(s, x) == Remove(t, x) && IndexOf(s, x) == IndexOf(t, x)
    ensures s == t
  {
    RemoveInsertRoundTrip(s, x);
    RemoveInsertRoundTrip(t, x);
  }

  /** A sequence holding `x` at index 1 is `x` put between the two
      elements left when it is removed. */
  lemma SecondOfThree<T(!new)>(t: seq<T>, x: T, u: T, v: T)
    requires x in t && IndexOf(t, x) == 1 && Remove(t, x) == [u, v]
    ensures t == [u, x, v]
  {
    assert |t| == 3 && t[1] == x;
    assert Remove(t, x) == t[..1] + t[2..];
    assert t[0] == u && t[2] == v;
  }

  /** The `ShiftToIndex` list extension: remove `x`, then insert it at `i`. */
  function ShiftToIndex<T(==,!new)>(s: seq<T>, i: int, x: T): (r: seq<T>)
    requires x in s && 0 <= i < |s|
    ensures |r| == |s| && r[i] == x
    ensures multiset(r) == multiset(s)
  {
    InsertAt(Remove(s, x), i, x)
  }

  /** On a duplicate-free sequence `ShiftToIndex` only relocates `x`: the
      result is duplicate-free, `x` is found at `i`, and every other element
      keeps its relative order. */
  lemma ShiftToIndexDistinct<T(!new)>(s: seq<T>, i: int, x: T)
    requires Distinct(s) && x in s && 0 <= i < |s|
    ensures Distinct(ShiftToIndex(s, i, x))
    ensures IndexOf(ShiftToIndex(s, i, x), x) == i
    ensures Remove(ShiftToIndex(s, i, x), x) == Remove(s, x)
  {
    RemoveDistinct(s, x);
    InsertAtDistinct(Remove(s, x), i, x);
  }

  /** Shifting an element to the index it already has changes nothing. */
  lemma ShiftToOwnIndex<T(!new)>(s: seq<T>, x: T)
    requires Distinct(s) && x in s
    ensures ShiftToIndex(s, IndexOf(s, x), x) == s
  {
    RemoveInsertRoundTrip(s, x);
  }
}
