/**
  The two ways the step component attaches a step below a target:
  `addChildSibling0` (insert among the target's children) and `addChild0`
  (interpose the step between the target and the target's children), plus
  the `addChild` entry point that creates a fresh step and dispatches between
  them.
 */
module Insertion {
  import opened Lists
  import opened Steps

  // ---------------------------------------------------------------------------
  // Detaching a step from its parent

  /**
    `if (c._parent) c._parent.removeChild(c)`: take `c` out of the child list
    of the parent it names. Its own parent field is left as it was.
   */
  function Detach(a: Arena, c: Id): (r: Arena)
    requires Closed(a) && c in a
    ensures r.Keys == a.Keys
    ensures forall k | k in a :: r[k].data == a[k].data && r[k].parent == a[k].parent
    ensures forall k | k in a && Some(k) != a[c].parent :: r[k] == a[k]
  {
    match a[c].parent
    case None => a
    case Some(p) => RemoveChild(a, p, c).0
  }

  /** In a consistent arena, detaching `c` takes it out of every child list and changes nothing else. */
  lemma DetachUnlists(a: Arena, c: Id)
    requires Linked(a) && c in a
    ensures forall q | q in a :: Detach(a, c)[q].children == Without(a[q].children, {c})
    ensures forall q | q in a :: c !in Detach(a, c)[q].children
  {
    var r := Detach(a, c);
    forall q | q in a
      ensures r[q].children == Without(a[q].children, {c})
    {
      assert NoDup(a[q].children);
      if Some(q) == a[c].parent {
        RemoveFirstIsWithout(a[q].children, c);
      } else {
        OnlyParentLists(a, q, c);
        WithoutNothing(a[q].children, {c});
      }
    }
  }

  // ---------------------------------------------------------------------------
  // Sibling insertion

  /** Where `addChildSibling0` puts the new child in a list of length `len`: at `index`, or at the end. */
  function InsertPosition(len: nat, index: Option<int>): (k: nat)
    ensures k <= len
    ensures index.None? ==> k == len
    ensures index.Some? && 0 <= index.value <= len ==> k == index.value
  {
    match index
    case None => len
    case Some(i) => SpliceStart(len, i)
  }

  /**
    `t.addChildSibling0(c, index)`: detach `c` from its parent, insert it
    into `t`'s children at `index` (with `splice` semantics) or push it when
    no index is given, then force `c`'s parent to `t`.
   */
  function AddChildSibling0(a: Arena, t: Id, c: Id, index: Option<int>): (r: Arena)
    requires Closed(a) && t in a && c in a
    ensures r.Keys == a.Keys
    ensures var base := Detach(a, c)[t].children; var k := InsertPosition(|base|, index);
      r[t].children == base[..k] + [c] + base[k..]
    ensures forall q | q in a && q != t :: r[q].children == Detach(a, c)[q].children
    ensures r[c].parent == Some(t)
    ensures forall x | x in a && x != c :: r[x].parent == a[x].parent
    ensures forall x | x in a :: r[x].data == a[x].data
  {
    var a1 := Detach(a, c);
    var a2 := a1[t := a1[t].(children := SpliceOrPush(a1[t].children, index, c))];
    SetParent(a2, c, Some(t), true)
  }

  /** `splice(index, 0, c)` when an index is given, `push(c)` otherwise: `c` lands at `InsertPosition`. */
  function SpliceOrPush(cs: seq<Id>, index: Option<int>, c: Id): (r: seq<Id>)
    ensures var k := InsertPosition(|cs|, index); r == cs[..k] + [c] + cs[k..]
  {
    match index
    case None =>
      assert cs[..|cs|] == cs;
      cs + [c]
    case Some(i) =>
      InsertAtParts(cs, i, c);
      var k := SpliceStart(|cs|, i);
      var r := InsertAt(cs, i, c);
      assert r == r[..k] + [r[k]] + r[k + 1..];
      r
  }

  /**
    In a consistent arena, sibling insertion takes `c` out of every child
    list it was in and puts it into `t`'s at the requested position, the
    other children keeping their order around it.
   */
  lemma SiblingInsertLists(a: Arena, t: Id, c: Id, index: Option<int>)
    requires Linked(a) && t in a && c in a
    ensures var base := Without(a[t].children, {c}); var k := InsertPosition(|base|, index);
      AddChildSibling0(a, t, c, index)[t].children == base[..k] + [c] + base[k..]
    ensures forall q | q in a && q != t ::
      AddChildSibling0(a, t, c, index)[q].children == Without(a[q].children, {c})
  {
    DetachUnlists(a, c);
  }

  /** Sibling insertion keeps parent/child links consistent. */
  lemma SiblingInsertKeepsLinked(a: Arena, t: Id, c: Id, index: Option<int>)
    requires Linked(a) && t in a && c in a
    ensures Linked(AddChildSibling0(a, t, c, index))
  {
    SiblingDistinct(a, t, c, index);
    SiblingClosed(a, t, c, index);
    SiblingPointBack(a, t, c, index);
    SiblingParentsList(a, t, c, index);
  }

  lemma SiblingDistinct(a: Arena, t: Id, c: Id, index: Option<int>)
    requires Linked(a) && t in a && c in a
    ensures DistinctChildren(AddChildSibling0(a, t, c, index))
  {
    var r := AddChildSibling0(a, t, c, index);
    SiblingInsertLists(a, t, c, index);
    var base := Without(a[t].children, {c});
    var k := InsertPosition(|base|, index);
    assert r[t].children == base[..k] + [c] + base[k..];
    SplitMembers(base, k, c);
    forall q | q in r
      ensures NoDup(r[q].children)
    {
      assert NoDup(a[q].children);
    }
  }

  lemma SiblingClosed(a: Arena, t: Id, c: Id, index: Option<int>)
    requires Linked(a) && t in a && c in a
    ensures Closed(AddChildSibling0(a, t, c, index))
  {
    var r := AddChildSibling0(a, t, c, index);
    forall p, i | p in r && 0 <= i < |r[p].children|
      ensures r[p].children[i] in r
    {
      SiblingEdge(a, t, c, index, p, r[p].children[i]);
    }
  }

  lemma SiblingPointBack(a: Arena, t: Id, c: Id, index: Option<int>)
    requires Linked(a) && t in a && c in a
    requires Closed(AddChildSibling0(a, t, c, index))
    ensures ChildrenPointBack(AddChildSibling0(a, t, c, index))
  {
    var r := AddChildSibling0(a, t, c, index);
    forall p, i | p in r && 0 <= i < |r[p].children|
      ensures r[r[p].children[i]].parent == Some(p)
    {
      var x := r[p].children[i];
      SiblingEdge(a, t, c, index, p, x);
      if x != c {
        ListedPointsBack(a, p, x);
      }
    }
  }

  lemma SiblingParentsList(a: Arena, t: Id, c: Id, index: Option<int>)
    requires Linked(a) && t in a && c in a
    requires Closed(AddChildSibling0(a, t, c, index))
    ensures ParentsList(AddChildSibling0(a, t, c, index))
  {
    var r := AddChildSibling0(a, t, c, index);
    SiblingInsertLists(a, t, c, index);
    var base := Without(a[t].children, {c});
    var k := InsertPosition(|base|, index);
    SplitMembers(base, k, c);
    forall x | x in r && r[x].parent.Some?
      ensures x in r[r[x].parent.value].children
    {
      if x != c {
        var q := a[x].parent.value;
        assert x in a[q].children;
        assert x in Without(a[q].children, {c});
        if q == t {
          assert x in base;
        }
      }
    }
  }

  /**
    A ranking for the arena after `c`'s subtree has been moved below another
    step: the moved subtree keeps its ranks and every other step is lifted
    above all of them.
   */
  ghost function MovedRank(a: Arena, c: Id, rank: Id -> nat): Id -> nat
    requires Closed(a) && Ranked(a, rank) && c in a
  {
    x => if InSubtree(a, c, x, rank) then rank(x) else rank(x) + rank(c) + 1
  }

  /**
    When `t` is not in `c`'s subtree, sibling insertion keeps the tree
    acyclic: `MovedRank` ranks the result.
   */
  lemma SiblingInsertKeepsRanked(a: Arena, t: Id, c: Id, index: Option<int>, rank: Id -> nat)
    requires Linked(a) && Ranked(a, rank) && t in a && c in a && !InSubtree(a, c, t, rank)
    ensures Ranked(AddChildSibling0(a, t, c, index), MovedRank(a, c, rank))
    ensures Acyclic(AddChildSibling0(a, t, c, index))
  {
    var r := AddChildSibling0(a, t, c, index);
    var rk := MovedRank(a, c, rank);
    forall p, i | p in r && 0 <= i < |r[p].children|
      ensures rk(r[p].children[i]) < rk(p)
    {
      assert r[p].children[i] in r[p].children;
      MovedEdge(a, t, c, index, rank, p, r[p].children[i]);
    }
  }

  /** One child link of the sibling-inserted arena goes down in `MovedRank`. */
  lemma MovedEdge(a: Arena, t: Id, c: Id, index: Option<int>, rank: Id -> nat, p: Id, x: Id)
    requires Linked(a) && Ranked(a, rank) && t in a && c in a && !InSubtree(a, c, t, rank)
    requires p in a && x in AddChildSibling0(a, t, c, index)[p].children
    ensures MovedRank(a, c, rank)(x) < MovedRank(a, c, rank)(p)
  {
    SiblingEdge(a, t, c, index, p, x);
    if x != c {
      OldEdgeMoved(a, c, rank, p, x);
    }
  }

  /** A child link after sibling insertion is the new link from `t` to `c` or an old link not to `c`. */
  lemma SiblingEdge(a: Arena, t: Id, c: Id, index: Option<int>, p: Id, x: Id)
    requires Linked(a) && t in a && c in a
    requires p in a && x in AddChildSibling0(a, t, c, index)[p].children
    ensures (p == t && x == c) || (x != c && x in a[p].children)
  {
    SiblingInsertLists(a, t, c, index);
    var base := Without(a[t].children, {c});
    var k := InsertPosition(|base|, index);
    SplitMembers(base, k, c);
  }

  /** An old child link not into `c` goes down in `MovedRank`. */
  lemma OldEdgeMoved(a: Arena, c: Id, rank: Id -> nat, p: Id, x: Id)
    requires Linked(a) && Ranked(a, rank) && c in a && p in a && x in a[p].children && x != c
    ensures MovedRank(a, c, rank)(x) < MovedRank(a, c, rank)(p)
  {
    var j :| 0 <= j < |a[p].children| && a[p].children[j] == x;
    if InSubtree(a, c, p, rank) {
      SubtreeHasChildren(a, c, p, rank);
      assert InSubtree(a, c, a[p].children[j], rank);
    } else if InSubtree(a, c, x, rank) {
      ListedPointsBack(a, p, x);
      SubtreeParent(a, c, x, rank);
    }
  }

  // ---------------------------------------------------------------------------
  // Exclusive insertion

  /** Detaching only shortens one child list, so the arena stays closed and ranked. */
  lemma DetachKeepsShape(a: Arena, c: Id, rank: Id -> nat)
    requires Closed(a) && c in a
    ensures Closed(Detach(a, c))
    ensures Ranked(a, rank) ==> Ranked(Detach(a, c), rank)
  {
    var r := Detach(a, c);
    if a[c].parent.Some? {
      var p := a[c].parent.value;
      RemoveFirstSubset(a[p].children, c);
      forall q, i | q in r && 0 <= i < |r[q].children|
        ensures r[q].children[i] in a[q].children
      {
        assert r[q].children[i] in r[q].children;
      }
    }
  }

  /**
    `t.addChild0(n)`: detach `n`; if `t` has children, hand a copy of them to
    `n` when `n` is childless, or else to the childless end of `n`'s
    only-child chain, and fail (after the detach) when that chain branches;
    finally make `n` the only child of `t`.
   */
  function AddChild0(a: Arena, t: Id, n: Id, ghost rank: Id -> nat): (r: (Arena, bool))
    requires Closed(a) && Ranked(a, rank) && t in a && n in a
    ensures r.0.Keys == a.Keys
    ensures !r.1 ==> r.0 == Detach(a, n)
    ensures r.1 ==> r.0[t].children == [n] && r.0[n].parent == Some(t)
    ensures forall x | x in a :: r.0[x].data == a[x].data
  {
    DetachKeepsShape(a, n, rank);
    var a1 := Detach(a, n);
    var cs := a1[t].children;
    if HasChildren(a1, t, 1) then
      if HasChildren(a1, n, 1) then
        match FindLastSingleChild(a1, n, rank)
        case None => (a1, false)
        case Some(last) => (SetChildren(SetChildren(a1, last, cs), t, [n]), true)
      else (SetChildren(SetChildren(a1, n, cs), t, [n]), true)
    else (SetChildren(a1, t, [n]), true)
  }

  /** In a consistent arena, detaching `n` does not change what the search from `n` finds. */
  lemma DetachKeepsSearch(a: Arena, n: Id, rank: Id -> nat)
    requires Linked(a) && Ranked(a, rank) && n in a
    ensures Closed(Detach(a, n)) && Ranked(Detach(a, n), rank)
    ensures FindLastSingleChild(Detach(a, n), n, rank) == FindLastSingleChild(a, n, rank)
  {
    DetachKeepsShape(a, n, rank);
    var a1 := Detach(a, n);
    if a[n].parent.Some? {
      ListedPointsBack(a, a[n].parent.value, n);
      assert rank(n) < rank(a[n].parent.value);
    }
    FindLastSingleChildFrame(a, a1, n, rank);
  }

  /**
    In a consistent arena, exclusive insertion takes one of three shapes,
    decided by `C` (the children of `t` other than `n`) and by the search
    from `n`.
   */
  lemma AddChild0Cases(a: Arena, t: Id, n: Id, rank: Id -> nat)
    requires Linked(a) && Ranked(a, rank) && t in a && n in a
    ensures Closed(Detach(a, n)) && Ranked(Detach(a, n), rank)
    ensures var C := Without(a[t].children, {n}); var L := FindLastSingleChild(a, n, rank);
      && Detach(a, n)[t].children == C
      && (C == [] ==> AddChild0(a, t, n, rank) == (SetChildren(Detach(a, n), t, [n]), true))
      && (C != [] && L.None? ==> AddChild0(a, t, n, rank) == (Detach(a, n), false))
      && (C != [] && L.Some? ==>
            L.value != t && L.value in a &&
            AddChild0(a, t, n, rank) == (SetChildren(SetChildren(Detach(a, n), L.value, C), t, [n]), true))
  {
    DetachUnlists(a, n);
    DetachKeepsSearch(a, n, rank);
    var a1 := Detach(a, n);
    assert a1[n].children == a[n].children by {
      assert n !in a[n].children by {
        if n in a[n].children {
          ListedPointsBack(a, n, n);
        }
      }
      WithoutNothing(a[n].children, {n});
    }
    var C := a1[t].children;
    if C != [] && a[n].children == [] {
      assert FindLastSingleChild(a1, n, rank) == Some(n);
    }
    if C != [] && FindLastSingleChild(a, n, rank).Some? {
      var L := FindLastSingleChild(a, n, rank).value;
      assert a1[L].children == [];
    }
  }

  /**
    Exclusive insertion in a consistent arena succeeds exactly when `t` has no
    children besides `n`, or the search from `n` finds a step.
   */
  lemma AddChild0Succeeds(a: Arena, t: Id, n: Id, rank: Id -> nat)
    requires Linked(a) && Ranked(a, rank) && t in a && n in a
    ensures AddChild0(a, t, n, rank).1 <==>
      Without(a[t].children, {n}) == [] || FindLastSingleChild(a, n, rank).Some?
    ensures !AddChild0(a, t, n, rank).1 <==>
      Without(a[t].children, {n}) != [] && ChainBranches(a, n)
  {
    AddChild0Cases(a, t, n, rank);
    FindLastSingleChildFails(a, n, rank);
  }

  /**
    A failed exclusive insertion is not a no-op: every child list has lost
    `n` (so `t`'s list is its former one without `n`), and no parent field
    has changed.
   */
  lemma AddChild0FailureDetaches(a: Arena, t: Id, n: Id, rank: Id -> nat)
    requires Linked(a) && Ranked(a, rank) && t in a && n in a
    requires !AddChild0(a, t, n, rank).1
    ensures var r := AddChild0(a, t, n, rank).0;
      && (forall q | q in a :: r[q].children == Without(a[q].children, {n}))
      && (forall x | x in a :: r[x].parent == a[x].parent)
  {
    DetachUnlists(a, n);
  }

  /**
    On success with `t` having other children `C`, the step `L` found by the
    search from `n` takes over `C`, and each step of `C` names `L` as parent.
   */
  lemma AddChild0Adopts(a: Arena, t: Id, n: Id, rank: Id -> nat)
    requires Linked(a) && Ranked(a, rank) && t in a && n in a
    requires Without(a[t].children, {n}) != [] && FindLastSingleChild(a, n, rank).Some?
    ensures var C := Without(a[t].children, {n}); var L := FindLastSingleChild(a, n, rank).value;
      var r := AddChild0(a, t, n, rank).0;
      r[L].children == C && forall c | c in C :: r[c].parent == Some(L)
  {
    AddChild0Cases(a, t, n, rank);
    var C := Without(a[t].children, {n});
    var L := FindLastSingleChild(a, n, rank).value;
    var a2 := SetChildren(Detach(a, n), L, C);
    var r := AddChild0(a, t, n, rank).0;
    forall c | c in C
      ensures r[c].parent == Some(L)
    {
      var j :| 0 <= j < |C| && C[j] == c;
      assert a2[C[j]].parent == Some(L);
    }
  }

  /**
    On success, every child list other than those of `t` and of the adopting
    step `L` only loses `n`.
   */
  lemma AddChild0OtherLists(a: Arena, t: Id, n: Id, rank: Id -> nat)
    requires Linked(a) && Ranked(a, rank) && t in a && n in a
    ensures var C := Without(a[t].children, {n}); var L := FindLastSingleChild(a, n, rank);
      var r := AddChild0(a, t, n, rank);
      r.1 ==> forall q | q in a && q != t && (C == [] || L.None? || q != L.value) ::
        r.0[q].children == Without(a[q].children, {n})
  {
    AddChild0Cases(a, t, n, rank);
    DetachUnlists(a, n);
  }

  /** On success, only `n` and the former other children of `t` change parent. */
  lemma AddChild0OtherParents(a: Arena, t: Id, n: Id, rank: Id -> nat)
    requires Linked(a) && Ranked(a, rank) && t in a && n in a
    ensures var C := Without(a[t].children, {n}); var r := AddChild0(a, t, n, rank);
      r.1 ==> forall x | x in a && x != n && x !in C :: r.0[x].parent == a[x].parent
  {
    AddChild0Cases(a, t, n, rank);
  }

  /** A childless step can always be inserted exclusively: the search from it finds itself. */
  lemma AddChild0ChildlessSucceeds(a: Arena, t: Id, n: Id, rank: Id -> nat)
    requires Closed(a) && Ranked(a, rank) && t in a && n in a && a[n].children == []
    ensures AddChild0(a, t, n, rank).1
  {
    DetachKeepsShape(a, n, rank);
    var a1 := Detach(a, n);
    assert a1[n].children == [] by {
      RemoveFirstSubset(a[n].children, n);
    }
  }

  /**
    A failed exclusive insertion has already detached `n`: if `n` had a
    parent, that parent no longer lists it while `n` still names it, so the
    arena is left inconsistent.
   */
  lemma AddChild0FailureDangles(a: Arena, t: Id, n: Id, rank: Id -> nat)
    requires Linked(a) && Ranked(a, rank) && t in a && n in a
    requires !AddChild0(a, t, n, rank).1 && a[n].parent.Some?
    ensures !Linked(AddChild0(a, t, n, rank).0)
  {
    var r := AddChild0(a, t, n, rank).0;
    DetachUnlists(a, n);
    assert r[n].parent == a[n].parent;
    assert n !in r[a[n].parent.value].children;
  }

  /**
    Where the adopting step sits: it is childless, and, when `t` is not below
    `n`, it is neither `t` nor one of `t`'s other children.
   */
  lemma AdopterPlace(a: Arena, t: Id, n: Id, rank: Id -> nat)
    requires Linked(a) && Ranked(a, rank) && t in a && n in a && !InSubtree(a, n, t, rank)
    requires FindLastSingleChild(a, n, rank).Some?
    ensures var L := FindLastSingleChild(a, n, rank).value;
      L in a && a[L].children == [] && L != t && L !in Without(a[t].children, {n})
  {
    var L := FindLastSingleChild(a, n, rank).value;
    FindLastSingleChildInSubtree(a, n, rank);
    if L in Without(a[t].children, {n}) {
      ListedPointsBack(a, t, L);
      SubtreeParent(a, n, L, rank);
    }
  }

  /** The facts about a successful exclusive insertion the consistency proof works from. */
  ghost predicate ExclusiveOutcome(a: Arena, t: Id, n: Id, C: seq<Id>, A: Option<Id>, r: Arena)
    requires t in a && n in a
  {
    && r.Keys == a.Keys
    && r[t].children == [n] && r[n].parent == Some(t)
    && t !in C && n !in C && NoDup(C)
    && (forall c | c in C :: c in a && a[c].parent == Some(t))
    && (forall c | c in a && a[c].parent == Some(t) && c != n :: c in C)
    && (C != [] ==> A.Some? && A.value in a && A.value != t && A.value !in C && a[A.value].children == [])
    && (C != [] ==> r[A.value].children == C && forall c | c in C :: r[c].parent == A)
    && (forall q | q in a && q != t && (C == [] || q != A.value) :: r[q].children == Without(a[q].children, {n}))
    && (forall x | x in a && x != n && x !in C :: r[x].parent == a[x].parent)
  }

  lemma AddChild0Outcome(a: Arena, t: Id, n: Id, rank: Id -> nat)
    requires Linked(a) && Ranked(a, rank) && t in a && n in a && !InSubtree(a, n, t, rank)
    requires AddChild0(a, t, n, rank).1
    ensures ExclusiveOutcome(a, t, n, Without(a[t].children, {n}), FindLastSingleChild(a, n, rank),
      AddChild0(a, t, n, rank).0)
  {
    var C := Without(a[t].children, {n});
    assert NoDup(a[t].children);
    NotOwnChild(a, t, rank);
    forall c | c in C
      ensures c in a && a[c].parent == Some(t)
    {
      ListedPointsBack(a, t, c);
    }
    forall c | c in a && a[c].parent == Some(t) && c != n
      ensures c in C
    {
    }
    AddChild0Succeeds(a, t, n, rank);
    if C != [] {
      AddChild0Adopts(a, t, n, rank);
      AdopterPlace(a, t, n, rank);
    }
    AddChild0OtherLists(a, t, n, rank);
    AddChild0OtherParents(a, t, n, rank);
  }

  /**
    Exclusive insertion keeps parent/child links consistent when it succeeds
    and `t` is not in the subtree of `n` (the source does not check this; it
    would make a cycle).
   */
  lemma AddChild0KeepsLinked(a: Arena, t: Id, n: Id, rank: Id -> nat)
    requires Linked(a) && Ranked(a, rank) && t in a && n in a && !InSubtree(a, n, t, rank)
    requires AddChild0(a, t, n, rank).1
    ensures Linked(AddChild0(a, t, n, rank).0)
    ensures Ranked(AddChild0(a, t, n, rank).0, AdoptedRank(a, t, n, rank))
    ensures Acyclic(AddChild0(a, t, n, rank).0)
  {
    var C := Without(a[t].children, {n});
    var A := FindLastSingleChild(a, n, rank);
    var r := AddChild0(a, t, n, rank).0;
    AddChild0Outcome(a, t, n, rank);
    ExclusiveClosed(a, t, n, C, A, r);
    ExclusivePointBack(a, t, n, C, A, r);
    ExclusiveParentsList(a, t, n, C, A, r);
    ExclusiveDistinct(a, t, n, C, A, r);
    ExclusiveRanked(a, t, n, C, A, r, rank);
  }

  /**
    A ranking for the arena after `n` has been put between `t` and `t`'s
    other children: `n`'s old subtree sits above the rest of `t`'s old
    subtree, and all other steps, `t` included, sit above both.
   */
  ghost function AdoptedRank(a: Arena, t: Id, n: Id, rank: Id -> nat): Id -> nat
    requires Closed(a) && Ranked(a, rank) && t in a && n in a
  {
    x => if InSubtree(a, n, x, rank) then rank(x) + rank(t)
      else if InSubtree(a, t, x, rank) && x != t then rank(x)
      else rank(x) + rank(t) + rank(n) + 1
  }

  lemma ExclusiveRanked(a: Arena, t: Id, n: Id, C: seq<Id>, A: Option<Id>, r: Arena, rank: Id -> nat)
    requires Linked(a) && Ranked(a, rank) && t in a && n in a && !InSubtree(a, n, t, rank)
    requires A == FindLastSingleChild(a, n, rank) && ExclusiveOutcome(a, t, n, C, A, r) && Closed(r)
    ensures Ranked(r, AdoptedRank(a, t, n, rank))
  {
    var rk := AdoptedRank(a, t, n, rank);
    FindLastSingleChildInSubtree(a, n, rank);
    forall p, i | p in r && 0 <= i < |r[p].children|
      ensures rk(r[p].children[i]) < rk(p)
    {
      var x := r[p].children[i];
      assert x in r[p].children;
      ExclusiveEdge(a, t, n, C, A, r, p, x);
      if p == t && x == n {
      } else if C != [] && p == A.value && x in C {
        AdoptedEdge(a, t, n, rank, p, x);
      } else {
        OldEdgeAdopted(a, t, n, rank, p, x);
      }
    }
  }

  /**
    A child link after exclusive insertion is the new link from `t` to `n`,
    a link from the adopting step to one of `t`'s other children, or an old
    link not into `n`.
   */
  lemma ExclusiveEdge(a: Arena, t: Id, n: Id, C: seq<Id>, A: Option<Id>, r: Arena, p: Id, x: Id)
    requires Linked(a) && t in a && n in a && ExclusiveOutcome(a, t, n, C, A, r)
    requires p in a && x in r[p].children
    ensures || (p == t && x == n)
            || (C != [] && p == A.value && x in C && x in a[t].children && x != n)
            || (x in a[p].children && x != n)
  {
    if p != t && (C == [] || p != A.value) {
      assert x in Without(a[p].children, {n});
    } else if p != t {
      assert a[x].parent == Some(t);
    }
  }

  /** The link from the adopting step, which is in `n`'s subtree, to one of `t`'s other children goes down. */
  lemma AdoptedEdge(a: Arena, t: Id, n: Id, rank: Id -> nat, p: Id, x: Id)
    requires Linked(a) && Ranked(a, rank) && t in a && n in a && !InSubtree(a, n, t, rank)
    requires p in a && InSubtree(a, n, p, rank) && x in a[t].children && x != n
    ensures AdoptedRank(a, t, n, rank)(x) < AdoptedRank(a, t, n, rank)(p)
  {
    var j :| 0 <= j < |a[t].children| && a[t].children[j] == x;
    ListedPointsBack(a, t, x);
    if InSubtree(a, n, x, rank) {
      SubtreeParent(a, n, x, rank);
    }
    assert InSubtree(a, t, a[t].children[j], rank) by {
      assert InSubtree(a, a[t].children[j], a[t].children[j], rank);
    }
  }

  /** An old child link not into `n` goes down in `AdoptedRank`. */
  lemma OldEdgeAdopted(a: Arena, t: Id, n: Id, rank: Id -> nat, p: Id, x: Id)
    requires Linked(a) && Ranked(a, rank) && t in a && n in a && !InSubtree(a, n, t, rank)
    requires p in a && x in a[p].children && x != n
    ensures AdoptedRank(a, t, n, rank)(x) < AdoptedRank(a, t, n, rank)(p)
  {
    var j :| 0 <= j < |a[p].children| && a[p].children[j] == x;
    ListedPointsBack(a, p, x);
    SubtreeInArena(a, t, rank);
    if InSubtree(a, n, p, rank) {
      SubtreeHasChildren(a, n, p, rank);
      assert InSubtree(a, n, a[p].children[j], rank);
    } else {
      if InSubtree(a, n, x, rank) {
        SubtreeParent(a, n, x, rank);
      }
      if InSubtree(a, t, p, rank) {
        SubtreeHasChildren(a, t, p, rank);
        assert InSubtree(a, t, a[p].children[j], rank);
      } else if InSubtree(a, t, x, rank) && x != t {
        SubtreeParent(a, t, x, rank);
      }
    }
  }

  lemma ExclusiveDistinct(a: Arena, t: Id, n: Id, C: seq<Id>, A: Option<Id>, r: Arena)
    requires Linked(a) && t in a && n in a && ExclusiveOutcome(a, t, n, C, A, r)
    ensures DistinctChildren(r)
  {
    forall q | q in r
      ensures NoDup(r[q].children)
    {
      assert NoDup(a[q].children);
    }
  }

  lemma ExclusiveClosed(a: Arena, t: Id, n: Id, C: seq<Id>, A: Option<Id>, r: Arena)
    requires Linked(a) && t in a && n in a && ExclusiveOutcome(a, t, n, C, A, r)
    ensures Closed(r)
  {
    forall p, i | p in r && 0 <= i < |r[p].children|
      ensures r[p].children[i] in r
    {
      var x := r[p].children[i];
      assert x in r[p].children;
      if p == t {
      } else if C != [] && p == A.value {
      } else {
        assert x in Without(a[p].children, {n});
        ListedPointsBack(a, p, x);
      }
    }
  }

  lemma ExclusivePointBack(a: Arena, t: Id, n: Id, C: seq<Id>, A: Option<Id>, r: Arena)
    requires Linked(a) && t in a && n in a && ExclusiveOutcome(a, t, n, C, A, r) && Closed(r)
    ensures ChildrenPointBack(r)
  {
    forall p, i | p in r && 0 <= i < |r[p].children|
      ensures r[r[p].children[i]].parent == Some(p)
    {
      var x := r[p].children[i];
      assert x in r[p].children;
      if p == t {
      } else if C != [] && p == A.value {
      } else {
        assert x in Without(a[p].children, {n});
        ListedPointsBack(a, p, x);
        assert x !in C;
      }
    }
  }

  lemma ExclusiveParentsList(a: Arena, t: Id, n: Id, C: seq<Id>, A: Option<Id>, r: Arena)
    requires Linked(a) && t in a && n in a && ExclusiveOutcome(a, t, n, C, A, r) && Closed(r)
    ensures ParentsList(r)
  {
    forall x | x in r && r[x].parent.Some?
      ensures x in r[r[x].parent.value].children
    {
      if x != n && x !in C {
        var q := a[x].parent.value;
        assert x in a[q].children;
        assert x in Without(a[q].children, {n});
      }
    }
  }

  // ---------------------------------------------------------------------------
  // The `addChild` entry point

  /** A step made by `createStep`: the given data, no parent, no children. */
  function FreshStep(data: Payload): (s: Step)
    ensures s.parent.None? && s.children == []
  {
    Step(data, None, [])
  }

  /** Adding a fresh, unlinked step keeps an arena consistent and ranked. */
  lemma AddFreshKeepsShape(a: Arena, id: Id, data: Payload, rank: Id -> nat)
    requires Closed(a) && id !in a
    ensures Closed(a[id := FreshStep(data)])
    ensures Ranked(a, rank) ==> Ranked(a[id := FreshStep(data)], rank)
    ensures Linked(a) ==> Linked(a[id := FreshStep(data)])
  {
  }

  /**
    `t.addChild(template, {data, sibling, index})`: create the step `id`
    holding `data`, attach it below `t` by sibling insertion when `sibling`
    is set and by exclusive insertion otherwise, then register it at the end
    of `allSteps`. The root step is not touched.
   */
  function AddChild(f: Flow, t: Id, id: Id, data: Payload, sibling: bool, index: Option<int>,
                    ghost rank: Id -> nat): (r: Flow)
    requires Closed(f.steps) && Ranked(f.steps, rank) && t in f.steps && id !in f.steps
    ensures r.steps.Keys == f.steps.Keys + {id}
    ensures r.allSteps == f.allSteps + [id]
    ensures r.rootStep == f.rootStep
    ensures r.steps[id].data == data && r.steps[id].parent == Some(t)
    ensures forall x | x in f.steps :: r.steps[x].data == f.steps[x].data
  {
    AddFreshKeepsShape(f.steps, id, data, rank);
    var a := f.steps[id := FreshStep(data)];
    Flow(Place(a, t, id, sibling, index, rank), f.allSteps + [id], f.rootStep)
  }

  /** Sibling or exclusive insertion of `id` below `t`; for a step with no parent and no children either one succeeds. */
  function Place(a: Arena, t: Id, id: Id, sibling: bool, index: Option<int>, ghost rank: Id -> nat): (r: Arena)
    requires Closed(a) && Ranked(a, rank) && t in a && id in a
    requires a[id].children == [] && a[id].parent.None?
    ensures r.Keys == a.Keys && r[id].parent == Some(t)
    ensures forall x | x in a :: r[x].data == a[x].data
  {
    if sibling then AddChildSibling0(a, t, id, index)
    else
      assert Detach(a, id) == a;
      assert AddChild0(a, t, id, rank).1;
      AddChild0(a, t, id, rank).0
  }

  /**
    In sibling mode the new step is inserted into `t`'s children at `index`
    (with `splice` semantics), or appended without one; no other child list
    changes.
   */
  lemma AddChildSiblingPlaces(f: Flow, t: Id, id: Id, data: Payload, index: Option<int>, rank: Id -> nat)
    requires Closed(f.steps) && Ranked(f.steps, rank) && t in f.steps && id !in f.steps
    ensures var before := f.steps[t].children; var k := InsertPosition(|before|, index);
      var r := AddChild(f, t, id, data, true, index, rank).steps;
      && r[t].children == before[..k] + [id] + before[k..]
      && r[id].children == []
      && forall q | q in f.steps && q != t :: r[q] == f.steps[q]
  {
    AddFreshKeepsShape(f.steps, id, data, rank);
    var a := f.steps[id := FreshStep(data)];
    assert Detach(a, id) == a;
    assert AddChild(f, t, id, data, true, index, rank).steps == AddChildSibling0(a, t, id, index);
  }

  /**
    In exclusive mode the new step takes over all of `t`'s children, which
    now name it as parent, and becomes `t`'s only child; insertion cannot
    fail because the new step is childless.
   */
  lemma AddChildExclusivePlaces(f: Flow, t: Id, id: Id, data: Payload, index: Option<int>, rank: Id -> nat)
    requires Linked(f.steps) && Ranked(f.steps, rank) && t in f.steps && id !in f.steps
    ensures var before := f.steps[t].children; var r := AddChild(f, t, id, data, false, index, rank).steps;
      && r[t].children == [id]
      && r[id].children == before
      && (forall c | c in before :: r[c].parent == Some(id))
      && forall q | q in f.steps && q != t && q !in before :: r[q] == f.steps[q]
  {
    AddFreshKeepsShape(f.steps, id, data, rank);
    var a := f.steps[id := FreshStep(data)];
    assert id !in f.steps[t].children;
    FreshExclusive(a, t, id, rank);
    assert AddChild(f, t, id, data, false, index, rank).steps == AddChild0(a, t, id, rank).0;
  }

  /**
    Exclusive insertion of a childless step that no list mentions: it takes
    over all of `t`'s children and becomes `t`'s only child.
   */
  lemma FreshExclusive(a: Arena, t: Id, id: Id, rank: Id -> nat)
    requires Linked(a) && Ranked(a, rank) && t in a && id in a && t != id
    requires a[id].children == [] && a[id].parent.None? && id !in a[t].children
    ensures var before := a[t].children; var r := AddChild0(a, t, id, rank).0;
      && r[t].children == [id]
      && r[id].children == before
      && (forall c | c in before :: r[c].parent == Some(id))
      && forall q | q in a && q != t && q != id && q !in before :: r[q] == a[q]
  {
    var before := a[t].children;
    if before == [] {
      FreshAddChild0Alone(a, t, id, rank);
    } else {
      FreshAddChild0Adopts(a, t, id, rank);
      var a1 := SetChildren(a, id, before);
      assert forall c | c in before :: c != t by {
        forall c | c in before ensures c != t {
          if c == t { ListedPointsBack(a, t, t); }
        }
      }
    }
  }

  /** Exclusive insertion of a childless step without a parent below a childless `t`. */
  lemma FreshAddChild0Alone(a: Arena, t: Id, id: Id, rank: Id -> nat)
    requires Closed(a) && Ranked(a, rank) && t in a && id in a
    requires a[id].children == [] && a[id].parent.None? && a[t].children == []
    ensures AddChild0(a, t, id, rank).0 == SetChildren(a, t, [id])
  {
    assert Detach(a, id) == a;
  }

  /** Exclusive insertion of a childless step without a parent below a `t` with children: it adopts them. */
  lemma FreshAddChild0Adopts(a: Arena, t: Id, id: Id, rank: Id -> nat)
    requires Closed(a) && Ranked(a, rank) && t in a && id in a
    requires a[id].children == [] && a[id].parent.None? && a[t].children != []
    ensures AddChild0(a, t, id, rank).0 == SetChildren(SetChildren(a, id, a[t].children), t, [id])
  {
    assert Detach(a, id) == a;
  }

  /** `addChild` keeps parent/child links consistent, in both modes. */
  lemma AddChildKeepsLinked(f: Flow, t: Id, id: Id, data: Payload, sibling: bool, index: Option<int>,
                            rank: Id -> nat)
    requires Linked(f.steps) && Ranked(f.steps, rank) && t in f.steps && id !in f.steps
    ensures Linked(AddChild(f, t, id, data, sibling, index, rank).steps)
    ensures Ranked(AddChild(f, t, id, data, sibling, index, rank).steps, AddedRank(rank, t, id))
    ensures Acyclic(AddChild(f, t, id, data, sibling, index, rank).steps)
  {
    AddFreshKeepsShape(f.steps, id, data, rank);
    var a := f.steps[id := FreshStep(data)];
    if sibling {
      SiblingInsertKeepsLinked(a, t, id, index);
    } else {
      assert !InSubtree(a, id, t, rank) by {
        assert a[id].children == [];
      }
      AddChild0ChildlessSucceeds(a, t, id, rank);
      AddChild0KeepsLinked(a, t, id, rank);
    }
    AddChildRanked(f, t, id, data, sibling, index, rank);
  }

  /**
    A ranking for the flow after `addChild`: every old step doubles its rank
    and moves up by two, and the new step sits just below `t` (above `t`'s
    old children, which it may adopt).
   */
  function AddedRank(rank: Id -> nat, t: Id, id: Id): Id -> nat {
    x => if x == id then 2 * rank(t) + 1 else 2 * rank(x) + 2
  }

  lemma AddChildRanked(f: Flow, t: Id, id: Id, data: Payload, sibling: bool, index: Option<int>, rank: Id -> nat)
    requires Linked(f.steps) && Ranked(f.steps, rank) && t in f.steps && id !in f.steps
    ensures Ranked(AddChild(f, t, id, data, sibling, index, rank).steps, AddedRank(rank, t, id))
  {
    AddFreshKeepsShape(f.steps, id, data, rank);
    var a := f.steps[id := FreshStep(data)];
    var r := Place(a, t, id, sibling, index, rank);
    forall p, i | p in r && 0 <= i < |r[p].children|
      ensures var x := r[p].children[i];
        || (p == t && x == id)
        || (p == id && x != id && x in a[t].children)
        || (p != id && x != id && x in a[p].children)
    {
      assert r[p].children[i] in r[p].children;
      FreshEdge(a, t, id, sibling, index, rank, p, r[p].children[i]);
    }
    RankedByAddedEdges(a, r, t, id, rank);
  }

  /** An arena whose every link is an old link, or goes from `t` to `id` or from `id` to an old child of `t`, is ranked by `AddedRank`. */
  lemma RankedByAddedEdges(a: Arena, r: Arena, t: Id, id: Id, rank: Id -> nat)
    requires Ranked(a, rank) && t in a && t != id && r.Keys == a.Keys
    requires forall p, i | p in r && 0 <= i < |r[p].children| :: var x := r[p].children[i];
      || (p == t && x == id)
      || (p == id && x != id && x in a[t].children)
      || (p != id && x != id && x in a[p].children)
    ensures Ranked(r, AddedRank(rank, t, id))
  {
    var rk := AddedRank(rank, t, id);
    forall p, i | p in r && 0 <= i < |r[p].children|
      ensures rk(r[p].children[i]) < rk(p)
    {
      var x := r[p].children[i];
      assert x in r[p].children;
      if p == t && x == id {
      } else if p == id {
        var j :| 0 <= j < |a[t].children| && a[t].children[j] == x;
      } else {
        var j :| 0 <= j < |a[p].children| && a[p].children[j] == x;
      }
    }
  }

  /**
    A child link after placing a fresh step `id` below `t` is the new link
    from `t` to `id`, a link from `id` to one of `t`'s old children, or an
    old link not into `id`.
   */
  lemma FreshEdge(a: Arena, t: Id, id: Id, sibling: bool, index: Option<int>, rank: Id -> nat, p: Id, x: Id)
    requires Linked(a) && Ranked(a, rank) && t in a && id in a && t != id
    requires a[id].children == [] && a[id].parent.None? && id !in a[t].children
    requires p in a && x in Place(a, t, id, sibling, index, rank)[p].children
    ensures || (p == t && x == id)
            || (p == id && x != id && x in a[t].children)
            || (p != id && x != id && x in a[p].children)
  {
    if sibling {
      SiblingEdge(a, t, id, index, p, x);
    } else {
      assert !InSubtree(a, id, t, rank);
      assert Detach(a, id) == a;
      assert AddChild0(a, t, id, rank).1;
      assert FindLastSingleChild(a, id, rank) == Some(id);
      var C := Without(a[t].children, {id});
      AddChild0Outcome(a, t, id, rank);
      ExclusiveEdge(a, t, id, C, Some(id), AddChild0(a, t, id, rank).0, p, x);
    }
  }

}
