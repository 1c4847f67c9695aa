/**
  Removing a step: `destroy(recursive, checkCallbacks)` and the private
  `destroy0(parentIndex, recursive)` it delegates to, on the tree and on the
  flow's `allSteps` and `rootStep`.
 */
module Removal {
  import opened Lists
  import opened Steps
  import opened Insertion

  /**
    One round of the splicing loop: `p._children.splice(i + parentIndex, 0,
    child)` and `child.setParent(p, true)` (forced, so a plain update of the
    parent field) for the `i`-th child of `n`.
   */
  function SpliceOne(a: Arena, n: Id, p: Id, parentIndex: int, i: nat): (r: Arena)
    requires n in a && p in a && ChildrenIn(a, n) && i < |a[n].children|
    ensures r.Keys == a.Keys && ChildrenIn(r, n)
  {
    var c := a[n].children[i];
    var a1 := a[p := a[p].(children := InsertAt(a[p].children, i + parentIndex, c))];
    assert ChildrenIn(a1, n) by {
      if p == n {
        InsertAtParts(a[n].children, i + parentIndex, c);
        var k := SpliceStart(|a[n].children|, i + parentIndex);
        forall j | 0 <= j < |a1[n].children|
          ensures a1[n].children[j] in a
        {
          if j < k {
            assert a1[n].children[j] == a[n].children[j];
          } else if j > k {
            assert a1[n].children[j] == a1[n].children[k + 1..][j - k - 1];
          }
        }
      }
    }
    a1[c := a1[c].(parent := Some(p))]
  }

  /**
    The loop of a non-recursive `destroy0` on a step `n` with parent `p`:
    for `i` from the current position up to `length`, splice `n`'s `i`-th
    child into `p`'s children at `i + parentIndex` and force its parent to
    `p`. The child is read from `n`'s list as it is at that moment.
   */
  function SpliceChildren(a: Arena, n: Id, p: Id, parentIndex: int, i: nat, length: nat): (r: Arena)
    requires n in a && p in a && ChildrenIn(a, n)
    requires i <= length <= |a[n].children|
    ensures r.Keys == a.Keys
    ensures |r[n].children| >= |a[n].children|
    decreases length - i
  {
    if i == length then a
    else SpliceChildren(SpliceOne(a, n, p, parentIndex, i), n, p, parentIndex, i + 1, length)
  }

  /**
    One round of the adoption loop: `child.setParent(root, true)` (forced,
    so a plain update of the parent field) and `root._children.push(child)`
    for the `i`-th child of `n`.
   */
  function AdoptOne(a: Arena, n: Id, root: Id, i: nat): (r: Arena)
    requires n in a && root in a && ChildrenIn(a, n) && i < |a[n].children|
    ensures r.Keys == a.Keys
  {
    var c := a[n].children[i];
    var a1 := a[c := a[c].(parent := Some(root))];
    a1[root := a1[root].(children := a1[root].children + [c])]
  }

  /**
    The loop of a non-recursive `destroy0` on a root `n`: for `i` from the
    current position up to `length`, force the parent of `n`'s `i`-th child
    to `root` and push it onto `root`'s children.
   */
  function AdoptSiblings(a: Arena, n: Id, root: Id, i: nat, length: nat): (r: Arena)
    requires n in a && root in a && root != n && ChildrenIn(a, n)
    requires i <= length <= |a[n].children|
    ensures r.Keys == a.Keys
    ensures r[n].children == a[n].children
    decreases length - i
  {
    if i == length then a
    else AdoptSiblings(AdoptOne(a, n, root, i), n, root, i + 1, length)
  }

  /**
    The root branch of a non-recursive `destroy0`, on the tree: the first
    child of `n` loses its parent and the other children are handed to it.
   */
  function PromoteSteps(a: Arena, n: Id, ghost rank: Id -> nat): (r: Arena)
    requires Closed(a) && Ranked(a, rank) && n in a && |a[n].children| >= 1
    ensures r.Keys == a.Keys
    ensures r[n].children == a[n].children
  {
    var root := a[n].children[0];
    NotOwnChild(a, n, rank);
    var a1 := SetParent(a, root, None, true);
    if HasChildren(a1, n, 2) then AdoptSiblings(a1, n, root, 1, |a1[n].children|) else a1
  }

  /** The root branch of a non-recursive `destroy0`: the first child of `n` also becomes `rootStep`. */
  function PromoteFirstChild(f: Flow, n: Id, ghost rank: Id -> nat): (r: Flow)
    requires Closed(f.steps) && Ranked(f.steps, rank) && n in f.steps && |f.steps[n].children| >= 1
    ensures r.steps.Keys == f.steps.Keys
    ensures r.steps[n].children == f.steps[n].children
    ensures r.allSteps == f.allSteps
    ensures r.rootStep == Some(f.steps[n].children[0])
  {
    Flow(PromoteSteps(f.steps, n, rank), f.allSteps, Some(f.steps[n].children[0]))
  }

  /** `setChildren([])` then `_parent = null`: `n` ends with neither children nor parent. */
  function Clear(a: Arena, n: Id): (r: Arena)
    requires n in a
    ensures r.Keys == a.Keys
    ensures r[n] == a[n].(children := [], parent := None)
    ensures forall k | k in a && k != n :: r[k] == a[k]
  {
    SetParent(SetChildren(a, n, []), n, None, true)
  }

  /** Clearing a step keeps an arena closed and ranked. */
  lemma ClearKeepsShape(a: Arena, n: Id, rank: Id -> nat)
    requires n in a
    ensures Closed(a) ==> Closed(Clear(a, n))
    ensures Ranked(a, rank) ==> Ranked(Clear(a, n), rank)
  {
  }

  /**
    `destroy0(parentIndex, recursive)` on step `n`: drop `n` from `allSteps`
    (first match); if `n` has children, then for a root clear `rootStep`
    and, when not recursive, promote the first child; then destroy every
    child recursively, or, when not recursive and `n` has a parent, splice
    the children into the parent's list from `parentIndex` on; finally clear
    `n`'s children and parent. Called with `null` for recursion, where
    `parentIndex` is not read; 0 stands for it here.
   */
  function Destroy0(f: Flow, n: Id, parentIndex: int, recursive: bool, ghost rank: Id -> nat): (r: Flow)
    requires Closed(f.steps) && Ranked(f.steps, rank) && n in f.steps
    ensures r.steps.Keys == f.steps.Keys
    ensures recursive ==> Closed(r.steps) && Ranked(r.steps, rank)
    ensures recursive ==> forall k | k in f.steps && rank(k) > rank(n) :: r.steps[k] == f.steps[k]
    ensures r.steps[n].children == [] && r.steps[n].parent.None?
    ensures !recursive ==> r.allSteps == RemoveFirst(f.allSteps, n)
    decreases rank(n), 2
  {
    var f1 := f.(allSteps := RemoveFirst(f.allSteps, n));
    if !HasChildren(f1.steps, n, 1) then
      ClearKeepsShape(f1.steps, n, rank);
      f1.(steps := Clear(f1.steps, n))
    else
      var f3 := HandOver(f1, n, parentIndex, recursive, rank);
      ClearKeepsShape(f3.steps, n, rank);
      f3.(steps := Clear(f3.steps, n))
  }

  /**
    The part of `destroy0` for a step `n` that has children: the `rootStep`
    update for a root, then the loop over the children.
   */
  function HandOver(f: Flow, n: Id, parentIndex: int, recursive: bool, ghost rank: Id -> nat): (r: Flow)
    requires Closed(f.steps) && Ranked(f.steps, rank) && n in f.steps && |f.steps[n].children| >= 1
    ensures r.steps.Keys == f.steps.Keys
    ensures recursive ==> Closed(r.steps) && Ranked(r.steps, rank)
    ensures recursive ==> forall k | k in f.steps && rank(k) >= rank(n) :: r.steps[k] == f.steps[k]
    ensures !recursive ==> r.allSteps == f.allSteps
    decreases rank(n), 1
  {
    var a := f.steps;
    var f2 :=
      if !IsRootElement(a, n) then f
      else if recursive then f.(rootStep := None)
      else PromoteFirstChild(f, n, rank);
    if recursive then DestroyEach(f2, n, 0, |a[n].children|, rank)
    else if a[n].parent.Some? then
      f2.(steps := SpliceChildren(f2.steps, n, a[n].parent.value, parentIndex, 0, |a[n].children|))
    else f2
  }

  /** The recursive loop of `destroy0`: `destroy0(null, true)` on each of `n`'s children from `i` to `length`. */
  function DestroyEach(f: Flow, n: Id, i: nat, length: nat, ghost rank: Id -> nat): (r: Flow)
    requires Closed(f.steps) && Ranked(f.steps, rank) && n in f.steps
    requires i <= length <= |f.steps[n].children|
    ensures r.steps.Keys == f.steps.Keys && Closed(r.steps) && Ranked(r.steps, rank)
    ensures forall k | k in f.steps && rank(k) >= rank(n) :: r.steps[k] == f.steps[k]
    decreases rank(n), 0, length - i
  {
    if i == length then f
    else
      var c := f.steps[n].children[i];
      var f1 := Destroy0(f, c, 0, true, rank);
      DestroyEach(f1, n, i + 1, length, rank)
  }

  /**
    `destroy(recursive, checkCallbacks)`: refused (nothing changes, false)
    when callbacks are checked and `canDelete` (the answer of
    `canDeleteStep()`) is false; otherwise `n` is taken out of its parent's
    children, remembering its index there, and destroyed with `destroy0`.
   */
  function Destroy(f: Flow, n: Id, recursive: bool, checkCallbacks: bool, canDelete: bool,
                   ghost rank: Id -> nat): (r: (Flow, bool))
    requires Closed(f.steps) && Ranked(f.steps, rank) && n in f.steps
    ensures r.1 <==> !checkCallbacks || canDelete
    ensures !r.1 ==> r.0 == f
    ensures r.1 ==> r.0.steps.Keys == f.steps.Keys
    ensures r.1 ==> r.0.steps[n].children == [] && r.0.steps[n].parent.None?
    ensures r.1 ==> r.0.allSteps == RemoveFirst(f.allSteps, n) || recursive
  {
    if !checkCallbacks || canDelete then
      DetachKeepsShape(f.steps, n, rank);
      var parentIndex := match f.steps[n].parent
        case Some(p) => RemoveChild(f.steps, p, n).1
        case None => 0;
      (Destroy0(f.(steps := Detach(f.steps, n)), n, parentIndex, recursive, rank), true)
    else (f, false)
  }

  // ---------------------------------------------------------------------------
  // The two loops

  /**
    Splicing `n`'s children from `i` on into `p`'s list, at consecutive
    positions from `k`, places them as one block in their original order;
    no other child list changes.
   */
  lemma {:induction false} SpliceChildrenLists(a: Arena, n: Id, p: Id, k: nat, i: nat, length: nat, L: seq<Id>)
    requires n in a && p in a && p != n && ChildrenIn(a, n)
    requires i <= length == |a[n].children| && k <= |L|
    requires a[p].children == L[..k] + a[n].children[..i] + L[k..]
    ensures SpliceChildren(a, n, p, k, i, length)[p].children == L[..k] + a[n].children + L[k..]
    ensures forall q | q in a && q != p :: SpliceChildren(a, n, p, k, i, length)[q].children == a[q].children
    decreases length - i
  {
    var cs := a[n].children;
    if i == length {
      assert cs[..i] == cs;
    } else {
      InsertAfterBlock(L, k, cs[..i], cs[i]);
      PrefixStep(cs, i);
      var a2 := SpliceOne(a, n, p, k, i);
      assert a2[n].children == cs;
      SpliceChildrenLists(a2, n, p, k, i + 1, length, L);
    }
  }

  /** Each child spliced from `i` on names `p` as parent; no other parent field changes. */
  lemma {:induction false} SpliceChildrenParents(a: Arena, n: Id, p: Id, k: int, i: nat, length: nat)
    requires n in a && p in a && p != n && ChildrenIn(a, n)
    requires i <= length <= |a[n].children|
    ensures forall j | i <= j < length :: SpliceChildren(a, n, p, k, i, length)[a[n].children[j]].parent == Some(p)
    ensures forall q | q in a && q !in a[n].children[i..length] ::
      SpliceChildren(a, n, p, k, i, length)[q].parent == a[q].parent
    decreases length - i
  {
    var cs := a[n].children;
    if i < length {
      var a2 := SpliceOne(a, n, p, k, i);
      SpliceOneParents(a, n, p, k, i);
      var r := SpliceChildren(a2, n, p, k, i + 1, length);
      assert SpliceChildren(a, n, p, k, i, length) == r;
      SpliceChildrenParents(a2, n, p, k, i + 1, length);
      forall j | i + 1 <= j < length
        ensures r[cs[j]].parent == Some(p)
      {
        assert cs[j] == a2[n].children[j];
      }
      LoopParents(a, a2, r, cs, i, length, p);
    }
  }

  /** Splicing touches only child lists and parent fields. */
  lemma {:induction false} SpliceChildrenData(a: Arena, n: Id, p: Id, k: int, i: nat, length: nat)
    requires n in a && p in a && ChildrenIn(a, n)
    requires i <= length <= |a[n].children|
    ensures forall q | q in a :: SpliceChildren(a, n, p, k, i, length)[q].data == a[q].data
    decreases length - i
  {
    if i < length {
      var a2 := SpliceOne(a, n, p, k, i);
      assert forall q | q in a :: a2[q].data == a[q].data;
      SpliceChildrenData(a2, n, p, k, i + 1, length);
    }
  }

  /** One splicing round re-parents exactly the child it moves. */
  lemma SpliceOneParents(a: Arena, n: Id, p: Id, k: int, i: nat)
    requires n in a && p in a && p != n && ChildrenIn(a, n) && i < |a[n].children|
    ensures var a2 := SpliceOne(a, n, p, k, i);
      && a2[n].children == a[n].children
      && a2[a[n].children[i]].parent == Some(p)
      && forall q | q in a && q != a[n].children[i] :: a2[q].parent == a[q].parent
  {
  }

  /** Combining one loop round with the rest of the loop, for the parent fields. */
  lemma LoopParents(a: Arena, a2: Arena, r: Arena, cs: seq<Id>, i: nat, length: nat, p: Id)
    requires i < length <= |cs| && a2.Keys == a.Keys && r.Keys == a.Keys
    requires forall j | 0 <= j < |cs| :: cs[j] in a
    requires a2[cs[i]].parent == Some(p)
    requires forall q | q in a && q != cs[i] :: a2[q].parent == a[q].parent
    requires forall j | i + 1 <= j < length :: r[cs[j]].parent == Some(p)
    requires forall q | q in a && q !in cs[i + 1..length] :: r[q].parent == a2[q].parent
    ensures forall j | i <= j < length :: r[cs[j]].parent == Some(p)
    ensures forall q | q in a && q !in cs[i..length] :: r[q].parent == a[q].parent
  {
    SliceStep(cs, i, length);
    if cs[i] in cs[i + 1..length] {
      var j' :| 0 <= j' < |cs[i + 1..length]| && cs[i + 1..length][j'] == cs[i];
      assert cs[i + 1 + j'] == cs[i];
    }
  }

  /** Handing `n`'s children from `i` on to `root` appends them, in order, to `root`'s own children. */
  lemma {:induction false} AdoptSiblingsLists(a: Arena, n: Id, root: Id, i: nat, length: nat)
    requires n in a && root in a && root != n && ChildrenIn(a, n)
    requires i <= length <= |a[n].children|
    ensures var r := AdoptSiblings(a, n, root, i, length);
      && r[root].children == a[root].children + a[n].children[i..length]
      && (forall q | q in a && q != root :: r[q].children == a[q].children)
    decreases length - i
  {
    var cs := a[n].children;
    if i < length {
      var a2 := AdoptOne(a, n, root, i);
      assert a2[n].children == cs;
      AdoptSiblingsLists(a2, n, root, i + 1, length);
      var r := AdoptSiblings(a, n, root, i, length);
      assert r == AdoptSiblings(a2, n, root, i + 1, length);
      AppendSliceStep(a[root].children, cs, i, length);
    }
  }

  /** Each child handed over names `root` as parent; no other parent field changes. */
  lemma {:induction false} AdoptSiblingsParents(a: Arena, n: Id, root: Id, i: nat, length: nat)
    requires n in a && root in a && root != n && ChildrenIn(a, n)
    requires i <= length <= |a[n].children|
    ensures forall j | i <= j < length :: AdoptSiblings(a, n, root, i, length)[a[n].children[j]].parent == Some(root)
    ensures forall q | q in a && q !in a[n].children[i..length] ::
      AdoptSiblings(a, n, root, i, length)[q].parent == a[q].parent
    decreases length - i
  {
    var cs := a[n].children;
    if i < length {
      var a2 := AdoptOne(a, n, root, i);
      assert a2[n].children == cs;
      var r := AdoptSiblings(a2, n, root, i + 1, length);
      assert AdoptSiblings(a, n, root, i, length) == r;
      AdoptSiblingsParents(a2, n, root, i + 1, length);
      forall j | i + 1 <= j < length
        ensures r[cs[j]].parent == Some(root)
      {
        assert cs[j] == a2[n].children[j];
      }
      LoopParents(a, a2, r, cs, i, length, root);
    }
  }

  /** Handing over touches only child lists and parent fields. */
  lemma {:induction false} AdoptSiblingsData(a: Arena, n: Id, root: Id, i: nat, length: nat)
    requires n in a && root in a && root != n && ChildrenIn(a, n)
    requires i <= length <= |a[n].children|
    ensures forall q | q in a :: AdoptSiblings(a, n, root, i, length)[q].data == a[q].data
    decreases length - i
  {
    if i < length {
      var a2 := AdoptOne(a, n, root, i);
      assert a2[n].children == a[n].children;
      assert forall q | q in a :: a2[q].data == a[q].data;
      AdoptSiblingsData(a2, n, root, i + 1, length);
    }
  }

  // ---------------------------------------------------------------------------
  // Non-recursive removal of a step with a parent

  /** A non-recursive `destroy` of a step with parent `p` and children splices them into `p`'s list at `n`'s former index. */
  lemma DestroyLiftUnfold(f: Flow, n: Id, p: Id, checkCallbacks: bool, canDelete: bool, rank: Id -> nat)
    requires Closed(f.steps) && Ranked(f.steps, rank) && n in f.steps && f.steps[n].parent == Some(p)
    requires !checkCallbacks || canDelete
    requires p in f.steps && p != n && |f.steps[n].children| >= 1
    requires Detach(f.steps, n)[n] == f.steps[n] && ChildrenIn(Detach(f.steps, n), n)
    ensures Destroy(f, n, false, checkCallbacks, canDelete, rank).0
      == Flow(Clear(SpliceChildren(Detach(f.steps, n), n, p, FindIndex(f.steps[p].children, n), 0, |f.steps[n].children|), n),
              RemoveFirst(f.allSteps, n), f.rootStep)
  {
    var a1 := Detach(f.steps, n);
    var k := FindIndex(f.steps[p].children, n);
    DetachKeepsShape(f.steps, n, rank);
    var f1 := Flow(a1, RemoveFirst(f.allSteps, n), f.rootStep);
    assert Destroy(f, n, false, checkCallbacks, canDelete, rank).0 == Destroy0(f.(steps := a1), n, k, false, rank);
    var h := HandOver(f1, n, k, false, rank);
    assert Destroy0(f.(steps := a1), n, k, false, rank) == h.(steps := Clear(h.steps, n));
    assert h == f1.(steps := SpliceChildren(a1, n, p, k, 0, |f.steps[n].children|));
  }

  /** A non-recursive `destroy` of a childless step only detaches and clears it. */
  lemma DestroyLeafUnfold(f: Flow, n: Id, recursive: bool, checkCallbacks: bool, canDelete: bool, rank: Id -> nat)
    requires Closed(f.steps) && Ranked(f.steps, rank) && n in f.steps && f.steps[n].children == []
    requires !checkCallbacks || canDelete
    requires Detach(f.steps, n)[n] == f.steps[n]
    ensures Destroy(f, n, recursive, checkCallbacks, canDelete, rank).0
      == Flow(Clear(Detach(f.steps, n), n), RemoveFirst(f.allSteps, n), f.rootStep)
  {
    var a1 := Detach(f.steps, n);
    DetachKeepsShape(f.steps, n, rank);
    var k := match f.steps[n].parent case Some(p) => RemoveChild(f.steps, p, n).1 case None => 0;
    assert Destroy(f, n, recursive, checkCallbacks, canDelete, rank).0 == Destroy0(f.(steps := a1), n, k, recursive, rank);
  }

  /**
    `r` is `a` after `n`'s children took its place in its parent `p`'s list,
    in order, and named `p` as parent, and `n` was left with neither
    children nor parent; nothing else changed.
   */
  ghost predicate Lifted(a: Arena, n: Id, p: Id, r: Arena)
    requires n in a && p in a
  {
    var P := a[p].children;
    var k := FindIndex(P, n);
    var cs := a[n].children;
    && r.Keys == a.Keys
    && 0 <= k
    && r[p].children == P[..k] + cs + P[k + 1..]
    && (forall c | c in cs && c in r :: r[c].parent == Some(p))
    && r[n] == a[n].(children := [], parent := None)
    && (forall q | q in a && q != p && q != n :: r[q].children == a[q].children)
    && (forall q | q in a && q != n && q !in cs :: r[q].parent == a[q].parent)
    && (forall q | q in a :: r[q].data == a[q].data)
  }

  /** For a childless step, detaching and clearing it is lifting its (no) children. */
  lemma LiftLeafArena(a: Arena, n: Id, p: Id)
    requires Closed(a) && n in a && a[n].parent == Some(p)
    requires p in a && p != n && n in a[p].children && a[n].children == []
    ensures Lifted(a, n, p, Clear(Detach(a, n), n))
  {
    var P := a[p].children;
    var k := FindIndex(P, n);
    var a1 := Detach(a, n);
    var r := Clear(a1, n);
    assert a1[p].children == RemoveAt(P, k);
    RemoveAtEmptyBlock(P, k, a[n].children);
    assert r[p] == a1[p];
  }

  /** A childless step with a parent: `destroy` only takes it out of the parent's list. */
  lemma LiftLeaf(f: Flow, n: Id, p: Id, checkCallbacks: bool, canDelete: bool, rank: Id -> nat)
    requires Linked(f.steps) && Ranked(f.steps, rank) && n in f.steps && f.steps[n].parent == Some(p)
    requires !checkCallbacks || canDelete
    requires p in f.steps && p != n && n in f.steps[p].children && f.steps[n].children == []
    ensures var r := Destroy(f, n, false, checkCallbacks, canDelete, rank).0;
      Lifted(f.steps, n, p, r.steps) && r.allSteps == RemoveFirst(f.allSteps, n) && r.rootStep == f.rootStep
  {
    assert Detach(f.steps, n)[n] == f.steps[n];
    DestroyLeafUnfold(f, n, false, checkCallbacks, canDelete, rank);
    LiftLeafArena(f.steps, n, p);
  }

  /** The whole splicing loop, from the first child to the last, summed up. */
  lemma SpliceAll(a: Arena, n: Id, p: Id, k: nat, L: seq<Id>)
    requires n in a && p in a && p != n && ChildrenIn(a, n)
    requires k <= |L| && a[p].children == L
    ensures var cs := a[n].children; var s := SpliceChildren(a, n, p, k, 0, |cs|);
      && s[p].children == L[..k] + cs + L[k..]
      && (forall c | c in cs :: s[c].parent == Some(p))
      && (forall q | q in a && q != p :: s[q].children == a[q].children)
      && (forall q | q in a && q !in cs :: s[q].parent == a[q].parent)
      && (forall q | q in a :: s[q].data == a[q].data)
  {
    var cs := a[n].children;
    var s := SpliceChildren(a, n, p, k, 0, |cs|);
    EmptyBlock(L, k, cs[..0]);
    SpliceChildrenLists(a, n, p, k, 0, |cs|, L);
    SpliceChildrenParents(a, n, p, k, 0, |cs|);
    SpliceChildrenData(a, n, p, k, 0, |cs|);
    forall c | c in cs
      ensures s[c].parent == Some(p)
    {
      var j :| 0 <= j < |cs| && cs[j] == c;
      assert s[cs[j]].parent == Some(p);
    }
    forall q | q in a && q !in cs
      ensures s[q].parent == a[q].parent
    {
      assert q !in cs[0..|cs|];
    }
  }

  /** Once `n` is detached from `p`, the splicing loop puts `n`'s children where `n` was in `p`'s list. */
  lemma SplicedList(a: Arena, n: Id, p: Id)
    requires Closed(a) && n in a && a[n].parent == Some(p)
    requires p in a && p != n && n in a[p].children
    ensures Detach(a, n)[n] == a[n] && ChildrenIn(Detach(a, n), n)
    ensures var P := a[p].children; var cs := a[n].children; var k := FindIndex(P, n);
      SpliceChildren(Detach(a, n), n, p, k, 0, |cs|)[p].children == P[..k] + cs + P[k + 1..]
  {
    var P := a[p].children;
    var cs := a[n].children;
    var k := FindIndex(P, n);
    var a1 := Detach(a, n);
    DetachedFromParent(a, n, p);
    var L := a1[p].children;
    EmptyBlock(L, k, cs[..0]);
    SpliceChildrenLists(a1, n, p, k, 0, |cs|, L);
    ReplaceAtVia(P, k, cs, L, SpliceChildren(a1, n, p, k, 0, |cs|)[p].children);
  }

  /** Detaching `n` from its parent `p` drops the entry at `n`'s index from `p`'s list and leaves `n` as it was. */
  lemma DetachedFromParent(a: Arena, n: Id, p: Id)
    requires Closed(a) && n in a && a[n].parent == Some(p)
    requires p in a && p != n && n in a[p].children
    ensures var P := a[p].children; var k := FindIndex(P, n);
      && 0 <= k < |P|
      && Detach(a, n)[p].children == RemoveAt(P, k)
      && Detach(a, n)[n] == a[n] && ChildrenIn(Detach(a, n), n)
  {
    assert ChildrenIn(a, n);
  }

  /** What the splicing loop does to the arena once `n` is detached from `p`. */
  lemma SplicedParts(a: Arena, n: Id, p: Id)
    requires Closed(a) && n in a && a[n].parent == Some(p)
    requires p in a && p != n && n in a[p].children && n !in a[n].children && a[n].children != []
    ensures Detach(a, n)[n] == a[n] && ChildrenIn(Detach(a, n), n)
    ensures var P := a[p].children; var cs := a[n].children; var k := FindIndex(P, n);
      var s := SpliceChildren(Detach(a, n), n, p, k, 0, |cs|);
      && s.Keys == a.Keys
      && s[p].children == P[..k] + cs + P[k + 1..]
      && s[n].children == cs && s[n].data == a[n].data
      && (forall c | c in cs && c in s :: s[c].parent == Some(p))
      && (forall q | q in a && q != p && q != n :: s[q].children == a[q].children)
      && (forall q | q in a && q != n && q !in cs :: s[q].parent == a[q].parent)
      && (forall q | q in a :: s[q].data == a[q].data)
  {
    var P := a[p].children;
    var cs := a[n].children;
    var k := FindIndex(P, n);
    var a1 := Detach(a, n);
    assert a1[n] == a[n];
    assert ChildrenIn(a1, n) by {
      assert ChildrenIn(a, n);
    }
    var L := a1[p].children;
    assert L == RemoveAt(P, k);
    var s := SpliceChildren(a1, n, p, k, 0, |cs|);
    SplicedList(a, n, p);
    assert forall c | c in cs && c in s :: s[c].parent == Some(p) by {
      SpliceAll(a1, n, p, k, L);
    }
    assert forall q | q in a && q != p :: s[q].children == a1[q].children by {
      SpliceAll(a1, n, p, k, L);
    }
    assert forall q | q in a && q !in cs :: s[q].parent == a[q].parent by {
      SpliceAll(a1, n, p, k, L);
    }
    assert forall q | q in a :: s[q].data == a[q].data by {
      SpliceAll(a1, n, p, k, L);
    }
  }

  /** Splicing the children of a detached step into its parent's list and clearing it is lifting them. */
  lemma LiftSplicedArena(a: Arena, n: Id, p: Id)
    requires Closed(a) && n in a && a[n].parent == Some(p)
    requires p in a && p != n && n in a[p].children && n !in a[n].children && a[n].children != []
    ensures Detach(a, n)[n] == a[n] && ChildrenIn(Detach(a, n), n)
    ensures Lifted(a, n, p, Clear(SpliceChildren(Detach(a, n), n, p, FindIndex(a[p].children, n), 0, |a[n].children|), n))
  {
    SplicedParts(a, n, p);
    LiftedByClear(a, n, p, SpliceChildren(Detach(a, n), n, p, FindIndex(a[p].children, n), 0, |a[n].children|));
  }

  /** Clearing `n` after its children were moved to `p` and nothing else changed completes the lift. */
  lemma LiftedByClear(a: Arena, n: Id, p: Id, s: Arena)
    requires n in a && p in a && p != n && n in a[p].children && n !in a[n].children && s.Keys == a.Keys
    requires s[p].children == a[p].children[..FindIndex(a[p].children, n)] + a[n].children + a[p].children[FindIndex(a[p].children, n) + 1..]
    requires s[n].children == a[n].children && s[n].data == a[n].data
    requires forall c | c in a[n].children && c in s :: s[c].parent == Some(p)
    requires forall q | q in a && q != p && q != n :: s[q].children == a[q].children
    requires forall q | q in a && q != n && q !in a[n].children :: s[q].parent == a[q].parent
    requires forall q | q in a :: s[q].data == a[q].data
    ensures Lifted(a, n, p, Clear(s, n))
  {
    var r := Clear(s, n);
    assert r[p] == s[p];
  }

  /** A step with a parent and children: `destroy` splices the children into the parent's list. */
  lemma LiftSpliced(f: Flow, n: Id, p: Id, checkCallbacks: bool, canDelete: bool, rank: Id -> nat)
    requires Linked(f.steps) && Ranked(f.steps, rank) && n in f.steps && f.steps[n].parent == Some(p)
    requires !checkCallbacks || canDelete
    requires p in f.steps && p != n && n in f.steps[p].children && f.steps[n].children != []
    ensures var r := Destroy(f, n, false, checkCallbacks, canDelete, rank).0;
      Lifted(f.steps, n, p, r.steps) && r.allSteps == RemoveFirst(f.allSteps, n) && r.rootStep == f.rootStep
  {
    NotOwnChild(f.steps, n, rank);
    LiftSplicedArena(f.steps, n, p);
    DestroyLiftUnfold(f, n, p, checkCallbacks, canDelete, rank);
  }

  /**
    A non-recursive `destroy` of a step `n` whose parent is `p`, in a
    consistent arena: `n`'s children take its place in `p`'s list, in order,
    and name `p` as parent; `n` ends detached and childless; of the flow's
    registry only `allSteps` loses `n`.
   */
  lemma DestroyLiftsChildren(f: Flow, n: Id, checkCallbacks: bool, canDelete: bool, rank: Id -> nat)
    requires Linked(f.steps) && Ranked(f.steps, rank) && n in f.steps && f.steps[n].parent.Some?
    requires !checkCallbacks || canDelete
    ensures var p := f.steps[n].parent.value; var r := Destroy(f, n, false, checkCallbacks, canDelete, rank).0;
      p in f.steps && Lifted(f.steps, n, p, r.steps)
      && r.allSteps == RemoveFirst(f.allSteps, n) && r.rootStep == f.rootStep
  {
    var a := f.steps;
    var p := a[n].parent.value;
    assert p in a;
    ListedPointsBack(a, p, n);
    NotOwnChild(a, n, rank);
    assert p != n;
    if a[n].children == [] {
      LiftLeaf(f, n, p, checkCallbacks, canDelete, rank);
    } else {
      LiftSpliced(f, n, p, checkCallbacks, canDelete, rank);
    }
  }

  // ---------------------------------------------------------------------------
  // Lifting keeps the tree consistent

  /** The facts about a lift that the consistency proofs share. */
  lemma LiftFacts(a: Arena, n: Id, p: Id, r: Arena, rank: Id -> nat)
    requires Linked(a) && Ranked(a, rank) && n in a && a[n].parent == Some(p) && Lifted(a, n, p, r)
    ensures p in a && p != n && n in a[p].children && n !in a[n].children
    ensures var P := a[p].children; var k := FindIndex(P, n); var cs := a[n].children;
      && P[k] == n
      && (forall y :: y in r[p].children <==> y in cs || (y in P && y != n))
      && NoDup(r[p].children)
      && (forall y | y in cs :: y in a && a[y].parent == Some(n) && y !in P)
  {
    var P := a[p].children;
    var cs := a[n].children;
    var k := FindIndex(P, n);
    ListedPointsBack(a, p, n);
    NotOwnChild(a, n, rank);
    assert p != n by {
      var j :| 0 <= j < |P| && P[j] == n;
      assert rank(n) < rank(p);
    }
    forall y | y in cs
      ensures y in a && a[y].parent == Some(n) && y !in P
    {
      ListedPointsBack(a, n, y);
      if y in P {
        ListedPointsBack(a, p, y);
      }
    }
    assert NoDup(P) && NoDup(cs);
    ReplaceMembers(P, k, cs);
  }

  lemma LiftClosed(a: Arena, n: Id, p: Id, r: Arena, rank: Id -> nat)
    requires Linked(a) && Ranked(a, rank) && n in a && a[n].parent == Some(p) && Lifted(a, n, p, r)
    ensures Closed(r)
  {
    LiftFacts(a, n, p, r, rank);
    forall q, i | q in r && 0 <= i < |r[q].children|
      ensures r[q].children[i] in r
    {
      assert r[q].children[i] in r[q].children;
    }
  }

  lemma LiftPointBack(a: Arena, n: Id, p: Id, r: Arena, rank: Id -> nat)
    requires Linked(a) && Ranked(a, rank) && n in a && a[n].parent == Some(p) && Lifted(a, n, p, r)
    ensures Closed(r) && ChildrenPointBack(r)
  {
    LiftFacts(a, n, p, r, rank);
    LiftClosed(a, n, p, r, rank);
    var cs := a[n].children;
    forall q, i | q in r && 0 <= i < |r[q].children|
      ensures r[r[q].children[i]].parent == Some(q)
    {
      var x := r[q].children[i];
      assert x in r[q].children;
      if q == p {
        if x !in cs {
          ListedPointsBack(a, p, x);
        }
      } else if q != n {
        ListedPointsBack(a, q, x);
        assert x != n;
        if x in cs {
          ListedPointsBack(a, n, x);
        }
      }
    }
  }

  lemma LiftParentsList(a: Arena, n: Id, p: Id, r: Arena, rank: Id -> nat)
    requires Linked(a) && Ranked(a, rank) && n in a && a[n].parent == Some(p) && Lifted(a, n, p, r)
    ensures Closed(r) && ParentsList(r)
  {
    LiftFacts(a, n, p, r, rank);
    LiftClosed(a, n, p, r, rank);
    var cs := a[n].children;
    forall x | x in r && r[x].parent.Some?
      ensures x in r[r[x].parent.value].children
    {
      if x !in cs && x != n {
        var q := a[x].parent.value;
        assert x in a[q].children;
      }
    }
  }

  lemma LiftDistinct(a: Arena, n: Id, p: Id, r: Arena, rank: Id -> nat)
    requires Linked(a) && Ranked(a, rank) && n in a && a[n].parent == Some(p) && Lifted(a, n, p, r)
    ensures DistinctChildren(r)
  {
    LiftFacts(a, n, p, r, rank);
  }

  lemma LiftRanked(a: Arena, n: Id, p: Id, r: Arena, rank: Id -> nat)
    requires Linked(a) && Ranked(a, rank) && n in a && a[n].parent == Some(p) && Lifted(a, n, p, r)
    ensures Ranked(r, rank)
  {
    LiftFacts(a, n, p, r, rank);
    var cs := a[n].children;
    forall q, i | q in r && 0 <= i < |r[q].children|
      ensures rank(r[q].children[i]) < rank(q)
    {
      var x := r[q].children[i];
      assert x in r[q].children;
      if q == p && x in cs {
        var j :| 0 <= j < |cs| && cs[j] == x;
        assert rank(x) < rank(n);
        var l :| 0 <= l < |a[p].children| && a[p].children[l] == n;
        assert rank(n) < rank(p);
      } else {
        var j :| 0 <= j < |a[q].children| && a[q].children[j] == x;
      }
    }
  }

  /** Lifting the children of a step into its parent keeps the tree consistent and ranked. */
  lemma LiftKeepsLinked(a: Arena, n: Id, p: Id, r: Arena, rank: Id -> nat)
    requires Linked(a) && Ranked(a, rank) && n in a && a[n].parent == Some(p) && Lifted(a, n, p, r)
    ensures Linked(r) && Ranked(r, rank)
  {
    LiftPointBack(a, n, p, r, rank);
    LiftParentsList(a, n, p, r, rank);
    LiftDistinct(a, n, p, r, rank);
    LiftRanked(a, n, p, r, rank);
  }

  // ---------------------------------------------------------------------------
  // Non-recursive removal of a root

  /**
    `r` is `a` after the first child `root` of `n` lost its parent and took
    the other children of `n`, in order, after its own, and `n` was left
    with neither children nor parent; nothing else changed.
   */
  ghost predicate Promoted(a: Arena, n: Id, r: Arena)
    requires n in a && |a[n].children| >= 1
  {
    var cs := a[n].children;
    var root := cs[0];
    && r.Keys == a.Keys
    && root in r
    && r[root].children == a[root].children + cs[1..]
    && r[root].parent == None
    && (forall c | c in cs[1..] && c in r :: r[c].parent == Some(root))
    && r[n] == a[n].(children := [], parent := None)
    && (forall q | q in a && q != root && q != n :: r[q].children == a[q].children)
    && (forall q | q in a && q != n && q !in cs :: r[q].parent == a[q].parent)
    && (forall q | q in a :: r[q].data == a[q].data)
  }

  /** A non-recursive `destroy` of a root with children promotes its first child and clears it. */
  lemma DestroyPromoteUnfold(f: Flow, n: Id, checkCallbacks: bool, canDelete: bool, rank: Id -> nat)
    requires Closed(f.steps) && Ranked(f.steps, rank) && n in f.steps && f.steps[n].parent.None?
    requires !checkCallbacks || canDelete
    requires |f.steps[n].children| >= 1
    ensures Destroy(f, n, false, checkCallbacks, canDelete, rank).0
      == Flow(Clear(PromoteSteps(f.steps, n, rank), n), RemoveFirst(f.allSteps, n), Some(f.steps[n].children[0]))
  {
    var a := f.steps;
    assert Detach(a, n) == a;
    assert Destroy(f, n, false, checkCallbacks, canDelete, rank).0 == Destroy0(f, n, 0, false, rank);
    var f1 := f.(allSteps := RemoveFirst(f.allSteps, n));
    var h := HandOver(f1, n, 0, false, rank);
    assert Destroy0(f, n, 0, false, rank) == h.(steps := Clear(h.steps, n));
    assert h == PromoteFirstChild(f1, n, rank);
  }

  /** The whole handing-over loop, from the second child to the last, summed up. */
  lemma AdoptAll(a: Arena, n: Id, root: Id)
    requires n in a && root in a && root != n && ChildrenIn(a, n) && |a[n].children| >= 1
    ensures var cs := a[n].children; var s := AdoptSiblings(a, n, root, 1, |cs|);
      && (forall c | c in cs[1..] :: s[c].parent == Some(root))
      && (forall q | q in a && q !in cs[1..] :: s[q].parent == a[q].parent)
      && (forall q | q in a && q != root :: s[q].children == a[q].children)
      && (forall q | q in a :: s[q].data == a[q].data)
  {
    var cs := a[n].children;
    var s := AdoptSiblings(a, n, root, 1, |cs|);
    AdoptSiblingsLists(a, n, root, 1, |cs|);
    AdoptSiblingsParents(a, n, root, 1, |cs|);
    AdoptSiblingsData(a, n, root, 1, |cs|);
    assert cs[1..|cs|] == cs[1..];
    forall c | c in cs[1..]
      ensures s[c].parent == Some(root)
    {
      var j :| 0 <= j < |cs[1..]| && cs[1..][j] == c;
      assert cs[1 + j] == c;
    }
  }

  /** Promotion appends the other children of `n` to the first child's own. */
  lemma PromoteList(a: Arena, n: Id, rank: Id -> nat)
    requires Closed(a) && Ranked(a, rank) && n in a && |a[n].children| >= 1
    ensures var cs := a[n].children; PromoteSteps(a, n, rank)[cs[0]].children == a[cs[0]].children + cs[1..]
  {
    var cs := a[n].children;
    var root := cs[0];
    NotOwnChild(a, n, rank);
    var a1 := SetParent(a, root, None, true);
    assert a1[n] == a[n];
    assert ChildrenIn(a1, n) by {
      assert ChildrenIn(a, n);
    }
    if |cs| >= 2 {
      AdoptSiblingsLists(a1, n, root, 1, |cs|);
      assert cs[1..|cs|] == cs[1..];
    } else {
      assert cs[1..] == [];
    }
  }

  /** What promotion does to the tree. */
  lemma PromoteParts(a: Arena, n: Id, rank: Id -> nat)
    requires Closed(a) && Ranked(a, rank) && n in a && |a[n].children| >= 1 && NoDup(a[n].children)
    ensures var cs := a[n].children; var root := cs[0]; var s := PromoteSteps(a, n, rank);
      && root in a && root != n
      && s[root].children == a[root].children + cs[1..]
      && s[root].parent == None
      && (forall c | c in cs[1..] :: s[c].parent == Some(root))
      && (forall q | q in a && q != root :: s[q].children == a[q].children)
      && (forall q | q in a && q !in cs :: s[q].parent == a[q].parent)
      && (forall q | q in a :: s[q].data == a[q].data)
  {
    var cs := a[n].children;
    var root := cs[0];
    NotOwnChild(a, n, rank);
    var a1 := SetParent(a, root, None, true);
    assert a1[n] == a[n];
    assert ChildrenIn(a1, n) by {
      assert ChildrenIn(a, n);
    }
    var s := PromoteSteps(a, n, rank);
    assert root !in cs[1..] by {
      forall j | 0 <= j < |cs[1..]|
        ensures cs[1..][j] != root
      {
        assert cs[1..][j] == cs[j + 1];
      }
    }
    if |cs| >= 2 {
      assert s == AdoptSiblings(a1, n, root, 1, |cs|);
      AdoptAll(a1, n, root);
      PromoteList(a, n, rank);
    } else {
      assert s == a1;
      PromoteList(a, n, rank);
    }
  }

  /** Promoting the first child of a root and clearing the root. */
  lemma PromotedArena(a: Arena, n: Id, rank: Id -> nat)
    requires Linked(a) && Ranked(a, rank) && n in a && |a[n].children| >= 1
    ensures Promoted(a, n, Clear(PromoteSteps(a, n, rank), n))
  {
    assert NoDup(a[n].children);
    PromoteParts(a, n, rank);
    var s := PromoteSteps(a, n, rank);
    var r := Clear(s, n);
    var cs := a[n].children;
    assert r[cs[0]] == s[cs[0]];
    NotOwnChild(a, n, rank);
    assert n !in cs[1..];
  }

  /**
    A non-recursive `destroy` of a root `n` with children, in a consistent
    arena: its first child becomes `rootStep`, loses its parent and takes
    the other children after its own; `n` ends childless; `allSteps` loses
    `n`.
   */
  lemma DestroyPromotes(f: Flow, n: Id, checkCallbacks: bool, canDelete: bool, rank: Id -> nat)
    requires Linked(f.steps) && Ranked(f.steps, rank) && n in f.steps && f.steps[n].parent.None?
    requires |f.steps[n].children| >= 1
    requires !checkCallbacks || canDelete
    ensures var r := Destroy(f, n, false, checkCallbacks, canDelete, rank).0;
      && Promoted(f.steps, n, r.steps)
      && r.rootStep == Some(f.steps[n].children[0])
      && r.allSteps == RemoveFirst(f.allSteps, n)
  {
    DestroyPromoteUnfold(f, n, checkCallbacks, canDelete, rank);
    PromotedArena(f.steps, n, rank);
  }

  // ---------------------------------------------------------------------------
  // Promotion keeps the tree consistent

  /** The rank after promotion: the new root takes the rank of the step it replaces. */
  function PromotedRank(rank: Id -> nat, root: Id, n: Id): Id -> nat {
    x => if x == root then rank(n) else rank(x)
  }

  /** The facts about a promotion that the consistency proofs share. */
  lemma PromoteFacts(a: Arena, n: Id, r: Arena, rank: Id -> nat)
    requires Linked(a) && Ranked(a, rank) && n in a && a[n].parent.None?
    requires |a[n].children| >= 1 && Promoted(a, n, r)
    ensures var cs := a[n].children; var root := cs[0];
      && root in a && root != n && a[root].parent == Some(n) && root !in cs[1..]
      && (forall y | y in cs :: y in a && a[y].parent == Some(n) && y !in a[root].children)
      && (forall q | q in a :: n !in a[q].children)
      && NoDup(r[root].children)
  {
    var cs := a[n].children;
    var root := cs[0];
    NotOwnChild(a, n, rank);
    forall y | y in cs
      ensures y in a && a[y].parent == Some(n) && y !in a[root].children
    {
      ListedPointsBack(a, n, y);
      if y in a[root].children {
        ListedPointsBack(a, root, y);
      }
    }
    forall q | q in a
      ensures n !in a[q].children
    {
      if n in a[q].children {
        ListedPointsBack(a, q, n);
      }
    }
    assert root !in cs[1..] by {
      forall j | 0 <= j < |cs[1..]|
        ensures cs[1..][j] != root
      {
        assert cs[1..][j] == cs[j + 1];
      }
    }
    assert NoDup(cs) && NoDup(a[root].children);
    assert NoDup(cs[1..]) by {
      forall i, j | 0 <= i < j < |cs[1..]|
        ensures cs[1..][i] != cs[1..][j]
      {
        assert cs[1..][i] == cs[i + 1] && cs[1..][j] == cs[j + 1];
      }
    }
    assert cs == [root] + cs[1..];
    NoDupAppend(a[root].children, cs[1..]);
  }

  lemma PromoteClosed(a: Arena, n: Id, r: Arena, rank: Id -> nat)
    requires Linked(a) && Ranked(a, rank) && n in a && a[n].parent.None?
    requires |a[n].children| >= 1 && Promoted(a, n, r)
    ensures Closed(r)
  {
    PromoteFacts(a, n, r, rank);
    var cs := a[n].children;
    forall q, i | q in r && 0 <= i < |r[q].children|
      ensures r[q].children[i] in r
    {
      var x := r[q].children[i];
      if q == cs[0] && i >= |a[q].children| {
        assert x == cs[1..][i - |a[q].children|];
      }
    }
  }

  lemma PromotePointBack(a: Arena, n: Id, r: Arena, rank: Id -> nat)
    requires Linked(a) && Ranked(a, rank) && n in a && a[n].parent.None?
    requires |a[n].children| >= 1 && Promoted(a, n, r)
    ensures Closed(r) && ChildrenPointBack(r)
  {
    PromoteFacts(a, n, r, rank);
    PromoteClosed(a, n, r, rank);
    var cs := a[n].children;
    var root := cs[0];
    forall q, i | q in r && 0 <= i < |r[q].children|
      ensures r[r[q].children[i]].parent == Some(q)
    {
      var x := r[q].children[i];
      if q == root && i >= |a[q].children| {
        assert x == cs[1..][i - |a[q].children|];
        assert x in cs[1..];
      } else if q != n {
        assert x == a[q].children[i];
        ListedPointsBack(a, q, x);
        assert x !in cs;
      }
    }
  }

  lemma PromoteParentsList(a: Arena, n: Id, r: Arena, rank: Id -> nat)
    requires Linked(a) && Ranked(a, rank) && n in a && a[n].parent.None?
    requires |a[n].children| >= 1 && Promoted(a, n, r)
    ensures Closed(r) && ParentsList(r)
  {
    PromoteFacts(a, n, r, rank);
    PromoteClosed(a, n, r, rank);
    var cs := a[n].children;
    var root := cs[0];
    assert cs == [root] + cs[1..];
    forall x | x in r && r[x].parent.Some?
      ensures x in r[r[x].parent.value].children
    {
      if x in cs[1..] {
        assert x in r[root].children;
      } else if x != n && x != root {
        var q := a[x].parent.value;
        assert x in a[q].children;
        if q == root {
          assert x in r[root].children;
        }
      }
    }
  }

  lemma PromoteDistinct(a: Arena, n: Id, r: Arena, rank: Id -> nat)
    requires Linked(a) && Ranked(a, rank) && n in a && a[n].parent.None?
    requires |a[n].children| >= 1 && Promoted(a, n, r)
    ensures DistinctChildren(r)
  {
    PromoteFacts(a, n, r, rank);
  }

  lemma PromoteRanked(a: Arena, n: Id, r: Arena, rank: Id -> nat)
    requires Linked(a) && Ranked(a, rank) && n in a && a[n].parent.None?
    requires |a[n].children| >= 1 && Promoted(a, n, r)
    ensures Ranked(r, PromotedRank(rank, a[n].children[0], n))
  {
    PromoteFacts(a, n, r, rank);
    var cs := a[n].children;
    var root := cs[0];
    var rk := PromotedRank(rank, root, n);
    forall q, i | q in r && 0 <= i < |r[q].children|
      ensures rk(r[q].children[i]) < rk(q)
    {
      var x := r[q].children[i];
      assert rank(root) < rank(n);
      if q == root && i >= |a[q].children| {
        assert x == cs[1..][i - |a[q].children|];
        assert x == cs[i - |a[q].children| + 1];
        assert rank(x) < rank(n);
      } else if q != n {
        assert x == a[q].children[i];
        assert rank(x) < rank(q);
        assert x != root;
      }
    }
  }

  /**
    Promoting the first child of a root keeps the tree consistent and
    acyclic: the new root takes over the rank of the old one.
   */
  lemma PromoteKeepsLinked(a: Arena, n: Id, r: Arena, rank: Id -> nat)
    requires Linked(a) && Ranked(a, rank) && n in a && a[n].parent.None?
    requires |a[n].children| >= 1 && Promoted(a, n, r)
    ensures Linked(r) && Ranked(r, PromotedRank(rank, a[n].children[0], n))
  {
    PromotePointBack(a, n, r, rank);
    PromoteParentsList(a, n, r, rank);
    PromoteDistinct(a, n, r, rank);
    PromoteRanked(a, n, r, rank);
  }

  // ---------------------------------------------------------------------------
  // Removal of a childless step

  /** `r` is `a` with `n` taken out of every child list and left without parent; nothing else changed. */
  ghost predicate Unlisted(a: Arena, n: Id, r: Arena)
    requires n in a
  {
    && r.Keys == a.Keys
    && (forall q | q in a :: r[q].children == Without(a[q].children, {n}))
    && r[n] == a[n].(parent := None)
    && (forall q | q in a && q != n :: r[q].parent == a[q].parent && r[q].data == a[q].data)
  }

  /** Detaching and clearing a childless step unlists it. */
  lemma LeafUnlisted(a: Arena, n: Id)
    requires Linked(a) && n in a && a[n].children == []
    ensures Unlisted(a, n, Clear(Detach(a, n), n))
  {
    DetachUnlists(a, n);
  }

  lemma UnlistedClosed(a: Arena, n: Id, r: Arena)
    requires Linked(a) && n in a && Unlisted(a, n, r)
    ensures Closed(r)
    ensures forall q, i | q in r && 0 <= i < |r[q].children| :: r[q].children[i] in a[q].children && r[q].children[i] != n
  {
    forall q, i | q in r && 0 <= i < |r[q].children|
      ensures r[q].children[i] in a[q].children && r[q].children[i] != n
    {
      assert r[q].children[i] in r[q].children;
    }
  }

  lemma UnlistedPointBack(a: Arena, n: Id, r: Arena, rank: Id -> nat)
    requires Linked(a) && Ranked(a, rank) && n in a && Unlisted(a, n, r)
    ensures Closed(r) && ChildrenPointBack(r) && Ranked(r, rank)
  {
    UnlistedClosed(a, n, r);
    forall q, i | q in r && 0 <= i < |r[q].children|
      ensures r[r[q].children[i]].parent == Some(q) && rank(r[q].children[i]) < rank(q)
    {
      UnlistedChild(a, n, r, q, r[q].children[i], rank);
    }
  }

  /** A child an unlisted arena still lists is a child from before, with its parent link and rank. */
  lemma UnlistedChild(a: Arena, n: Id, r: Arena, q: Id, c: Id, rank: Id -> nat)
    requires Linked(a) && Ranked(a, rank) && n in a && Unlisted(a, n, r) && q in a && c in r[q].children
    ensures c in a && c != n && r[c].parent == Some(q) && rank(c) < rank(q)
  {
    assert c in a[q].children && c != n;
    ListedPointsBack(a, q, c);
    var j :| 0 <= j < |a[q].children| && a[q].children[j] == c;
  }

  lemma UnlistedParentsList(a: Arena, n: Id, r: Arena)
    requires Linked(a) && n in a && Unlisted(a, n, r)
    ensures Closed(r) && ParentsList(r)
  {
    UnlistedClosed(a, n, r);
    forall x | x in r && r[x].parent.Some?
      ensures x in r[r[x].parent.value].children
    {
      var q := r[x].parent.value;
      assert x != n && a[x].parent == Some(q);
      assert x in a[q].children;
      assert r[q].children == Without(a[q].children, {n});
    }
  }

  lemma UnlistedDistinct(a: Arena, n: Id, r: Arena)
    requires DistinctChildren(a) && n in a && Unlisted(a, n, r)
    ensures DistinctChildren(r)
  {
    forall q | q in r
      ensures NoDup(r[q].children)
    {
      assert NoDup(a[q].children);
    }
  }

  /** Unlisting a step keeps the tree consistent and ranked. */
  lemma UnlistedKeepsLinked(a: Arena, n: Id, r: Arena, rank: Id -> nat)
    requires Linked(a) && Ranked(a, rank) && n in a && Unlisted(a, n, r)
    ensures Linked(r) && Ranked(r, rank)
  {
    UnlistedPointBack(a, n, r, rank);
    UnlistedParentsList(a, n, r);
    UnlistedDistinct(a, n, r);
  }

  /**
    `destroy` of a childless step, recursive or not: it is taken out of its
    parent's list and loses its parent; `rootStep` is left as it was, even
    when the step was the root; `allSteps` loses it.
   */
  lemma DestroyLeaf(f: Flow, n: Id, recursive: bool, checkCallbacks: bool, canDelete: bool, rank: Id -> nat)
    requires Linked(f.steps) && Ranked(f.steps, rank) && n in f.steps && f.steps[n].children == []
    requires !checkCallbacks || canDelete
    ensures var r := Destroy(f, n, recursive, checkCallbacks, canDelete, rank).0;
      && Unlisted(f.steps, n, r.steps)
      && r.rootStep == f.rootStep && r.allSteps == RemoveFirst(f.allSteps, n)
  {
    var a := f.steps;
    if a[n].parent.Some? {
      var p := a[n].parent.value;
      ListedPointsBack(a, p, n);
      NotOwnChild(a, n, rank);
      assert p != n;
    }
    assert Detach(a, n)[n] == a[n];
    DestroyLeafUnfold(f, n, recursive, checkCallbacks, canDelete, rank);
    LeafUnlisted(a, n);
  }

  // ---------------------------------------------------------------------------
  // Recursive removal

  /** `b` still holds every step of `S` as `a0` has it. */
  ghost predicate Agrees(a0: Arena, S: set<Id>, b: Arena) {
    forall y | y in S :: y in a0 && y in b && b[y] == a0[y]
  }

  /**
    `r` is `b` after the steps of `S` were destroyed: each is left as `a0`
    had it but without children or parent, and every other step is as `b`
    had it.
   */
  ghost predicate SubtreeDestroyed(a0: Arena, S: set<Id>, b: Arena, r: Arena) {
    && r.Keys == b.Keys
    && (forall y | y in S :: y in a0 && y in r && r[y] == a0[y].(children := [], parent := None))
    && (forall y | y in b && y !in S :: r[y] == b[y])
  }

  /** Destroying two disjoint sets of steps one after the other destroys their union. */
  lemma DestroyedCompose(a0: Arena, S1: set<Id>, S2: set<Id>, S: set<Id>, b: Arena, m: Arena, r: Arena)
    requires SubtreeDestroyed(a0, S1, b, m) && SubtreeDestroyed(a0, S2, m, r) && S1 !! S2 && S == S1 + S2
    ensures SubtreeDestroyed(a0, S, b, r)
  {
  }

  /** Destroying one set of steps leaves a disjoint one as it was. */
  lemma AgreesAfter(a0: Arena, S1: set<Id>, S2: set<Id>, b: Arena, m: Arena)
    requires Agrees(a0, S1 + S2, b) && SubtreeDestroyed(a0, S1, b, m) && S1 !! S2
    ensures Agrees(a0, S2, m)
  {
  }

  /** A step lies outside the subtree of each of its children. */
  lemma NotInChildSubtree(a0: Arena, x: Id, i: nat, rank: Id -> nat)
    requires Closed(a0) && Ranked(a0, rank) && x in a0 && i < |a0[x].children|
    ensures x !in Subtree(a0, a0[x].children[i], rank)
  {
    SubtreeInArena(a0, a0[x].children[i], rank);
  }

  /**
    `destroy0(null, true)` on `x`, in an arena that still holds the subtree
    of `x` as the consistent arena `a0` has it: every step of that subtree
    is left without children or parent, every other step is untouched, the
    subtree's steps leave a duplicate-free `allSteps`, and `rootStep`
    becomes null exactly when `x` is a root with children.
   */
  lemma {:induction false} DestroySubtree(f: Flow, x: Id, parentIndex: int, rank: Id -> nat, a0: Arena)
    requires Linked(a0) && Ranked(a0, rank) && x in a0
    requires Closed(f.steps) && Ranked(f.steps, rank) && x in f.steps
    requires Agrees(a0, Subtree(a0, x, rank), f.steps)
    ensures var r := Destroy0(f, x, parentIndex, true, rank);
      && SubtreeDestroyed(a0, Subtree(a0, x, rank), f.steps, r.steps)
      && (NoDup(f.allSteps) ==> r.allSteps == Without(f.allSteps, Subtree(a0, x, rank)))
      && r.rootStep == (if a0[x].parent.None? && a0[x].children != [] then None else f.rootStep)
    decreases rank(x), 3
  {
    if a0[x].children == [] {
      DestroyLeafSubtree(f, x, parentIndex, rank, a0);
    } else {
      DestroyBranchSubtree(f, x, parentIndex, rank, a0);
    }
  }

  /** A childless step is its whole subtree: only it is destroyed. */
  lemma DestroyLeafSubtree(f: Flow, x: Id, parentIndex: int, rank: Id -> nat, a0: Arena)
    requires Linked(a0) && Ranked(a0, rank) && x in a0 && a0[x].children == []
    requires Closed(f.steps) && Ranked(f.steps, rank) && x in f.steps
    requires Agrees(a0, Subtree(a0, x, rank), f.steps)
    ensures var r := Destroy0(f, x, parentIndex, true, rank);
      && SubtreeDestroyed(a0, Subtree(a0, x, rank), f.steps, r.steps)
      && (NoDup(f.allSteps) ==> r.allSteps == Without(f.allSteps, Subtree(a0, x, rank)))
      && r.rootStep == f.rootStep
  {
    SubtreeSplit(a0, x, rank);
    assert Span(a0, x, 0, 0, rank) == {};
    assert f.steps[x] == a0[x];
    var f1 := f.(allSteps := RemoveFirst(f.allSteps, x));
    assert Destroy0(f, x, parentIndex, true, rank) == f1.(steps := Clear(f1.steps, x));
    if NoDup(f1.allSteps) {
      WithoutNothing(f1.allSteps, {});
    }
    ClearCompose(a0, x, {}, Subtree(a0, x, rank), f, f1, f1, Destroy0(f, x, parentIndex, true, rank));
  }

  /**
    A step with children: the recursive loop destroys the span of its
    children, then the step itself is cleared.
   */
  lemma {:induction false} DestroyBranchSubtree(f: Flow, x: Id, parentIndex: int, rank: Id -> nat, a0: Arena)
    requires Linked(a0) && Ranked(a0, rank) && x in a0 && a0[x].children != []
    requires Closed(f.steps) && Ranked(f.steps, rank) && x in f.steps
    requires Agrees(a0, Subtree(a0, x, rank), f.steps)
    ensures var r := Destroy0(f, x, parentIndex, true, rank);
      && SubtreeDestroyed(a0, Subtree(a0, x, rank), f.steps, r.steps)
      && (NoDup(f.allSteps) ==> r.allSteps == Without(f.allSteps, Subtree(a0, x, rank)))
      && r.rootStep == (if a0[x].parent.None? then None else f.rootStep)
    decreases rank(x), 2
  {
    var cs := a0[x].children;
    var S := Subtree(a0, x, rank);
    SubtreeSplit(a0, x, rank);
    var sp := Span(a0, x, 0, |cs|, rank);
    assert f.steps[x] == a0[x];
    var f2 := BranchUnfold(f, x, parentIndex, rank);
    assert Agrees(a0, sp, f2.steps);
    DestroyEachSubtree(f2, x, 0, |cs|, rank, a0);
    ClearCompose(a0, x, sp, S, f, f2, DestroyEach(f2, x, 0, |cs|, rank), Destroy0(f, x, parentIndex, true, rank));
  }

  /**
    With children, the recursive `destroy0` is the loop over them, started
    with `x` out of `allSteps` and, for a root, `rootStep` cleared, and
    followed by clearing `x`.
   */
  lemma BranchUnfold(f: Flow, x: Id, parentIndex: int, rank: Id -> nat) returns (f2: Flow)
    requires Closed(f.steps) && Ranked(f.steps, rank) && x in f.steps && f.steps[x].children != []
    ensures f2.steps == f.steps
    ensures f2.allSteps == RemoveFirst(f.allSteps, x)
    ensures f2.rootStep == if f.steps[x].parent.None? then None else f.rootStep
    ensures var h := DestroyEach(f2, x, 0, |f.steps[x].children|, rank);
      Destroy0(f, x, parentIndex, true, rank) == h.(steps := Clear(h.steps, x))
  {
    var f1 := f.(allSteps := RemoveFirst(f.allSteps, x));
    f2 := if IsRootElement(f.steps, x) then f1.(rootStep := None) else f1;
    assert HandOver(f1, x, parentIndex, true, rank) == DestroyEach(f2, x, 0, |f.steps[x].children|, rank);
  }

  /** Destroying the span of the children and then clearing the top destroys the whole subtree. */
  lemma ClearCompose(a0: Arena, x: Id, sp: set<Id>, S: set<Id>, f: Flow, f2: Flow, h: Flow, r: Flow)
    requires S == {x} + sp && x !in sp && x in a0 && x in f.steps && f.steps[x] == a0[x]
    requires f2.steps == f.steps && f2.allSteps == RemoveFirst(f.allSteps, x)
    requires SubtreeDestroyed(a0, sp, f2.steps, h.steps)
    requires NoDup(f2.allSteps) ==> h.allSteps == Without(f2.allSteps, sp)
    requires x in h.steps && r == h.(steps := Clear(h.steps, x))
    ensures SubtreeDestroyed(a0, S, f.steps, r.steps)
    ensures NoDup(f.allSteps) ==> r.allSteps == Without(f.allSteps, S)
  {
    if NoDup(f.allSteps) {
      RemoveFirstIsWithout(f.allSteps, x);
      WithoutUnion(f.allSteps, {x}, sp, S);
    }
  }

  /** The recursive loop of `destroy0` destroys the subtrees of the children `i` up to `length`. */
  lemma {:induction false} DestroyEachSubtree(f: Flow, x: Id, i: nat, length: nat, rank: Id -> nat, a0: Arena)
    requires Linked(a0) && Ranked(a0, rank) && x in a0
    requires Closed(f.steps) && Ranked(f.steps, rank) && x in f.steps
    requires f.steps[x].children == a0[x].children && i <= length == |a0[x].children|
    requires Agrees(a0, Span(a0, x, i, length, rank), f.steps)
    ensures var r := DestroyEach(f, x, i, length, rank);
      && SubtreeDestroyed(a0, Span(a0, x, i, length, rank), f.steps, r.steps)
      && (NoDup(f.allSteps) ==> r.allSteps == Without(f.allSteps, Span(a0, x, i, length, rank)))
      && r.rootStep == f.rootStep
    decreases rank(x), 0, length - i, 3
  {
    if i == length {
      assert Span(a0, x, i, length, rank) == {};
      if NoDup(f.allSteps) {
        WithoutNothing(f.allSteps, {});
      }
    } else {
      DestroyEachRound(f, x, i, length, rank, a0);
    }
  }

  /** A round of the recursive loop followed by the rest of the loop destroys the span from `i`. */
  lemma {:induction false} DestroyEachRound(f: Flow, x: Id, i: nat, length: nat, rank: Id -> nat, a0: Arena)
    requires Linked(a0) && Ranked(a0, rank) && x in a0
    requires Closed(f.steps) && Ranked(f.steps, rank) && x in f.steps
    requires f.steps[x].children == a0[x].children && i < length == |a0[x].children|
    requires Agrees(a0, Span(a0, x, i, length, rank), f.steps)
    ensures var r := DestroyEach(f, x, i, length, rank);
      && SubtreeDestroyed(a0, Span(a0, x, i, length, rank), f.steps, r.steps)
      && (NoDup(f.allSteps) ==> r.allSteps == Without(f.allSteps, Span(a0, x, i, length, rank)))
      && r.rootStep == f.rootStep
    decreases rank(x), 0, length - i, 2
  {
    var f1 := DestroyEachFirst(f, x, i, length, rank, a0);
    DestroyEachRest(f, f1, x, i, length, rank, a0);
  }

  /** After the first round, the rest of the loop destroys the rest of the span. */
  lemma {:induction false} DestroyEachRest(f: Flow, f1: Flow, x: Id, i: nat, length: nat, rank: Id -> nat, a0: Arena)
    requires Linked(a0) && Ranked(a0, rank) && x in a0
    requires Closed(f1.steps) && Ranked(f1.steps, rank) && x in f1.steps
    requires f1.steps[x].children == a0[x].children && i < length == |a0[x].children|
    requires var sc := Subtree(a0, a0[x].children[i], rank); var rest := Span(a0, x, i + 1, length, rank);
      && Span(a0, x, i, length, rank) == sc + rest && sc !! rest
      && SubtreeDestroyed(a0, sc, f.steps, f1.steps)
      && Agrees(a0, rest, f1.steps)
      && (NoDup(f.allSteps) ==> f1.allSteps == Without(f.allSteps, sc) && NoDup(f1.allSteps))
      && f1.rootStep == f.rootStep
    ensures var r := DestroyEach(f1, x, i + 1, length, rank);
      && SubtreeDestroyed(a0, Span(a0, x, i, length, rank), f.steps, r.steps)
      && (NoDup(f.allSteps) ==> r.allSteps == Without(f.allSteps, Span(a0, x, i, length, rank)))
      && r.rootStep == f.rootStep
    decreases rank(x), 0, length - i, 1
  {
    DestroyEachSubtree(f1, x, i + 1, length, rank, a0);
    RoundCompose(a0, Subtree(a0, a0[x].children[i], rank), Span(a0, x, i + 1, length, rank),
      Span(a0, x, i, length, rank), f, f1, DestroyEach(f1, x, i + 1, length, rank));
  }

  /** The effects of one round and of the rest of the loop add up to the effect on the whole span. */
  lemma RoundCompose(a0: Arena, sc: set<Id>, rest: set<Id>, S: set<Id>, f: Flow, f1: Flow, r: Flow)
    requires S == sc + rest && sc !! rest
    requires SubtreeDestroyed(a0, sc, f.steps, f1.steps) && SubtreeDestroyed(a0, rest, f1.steps, r.steps)
    requires NoDup(f.allSteps) ==> f1.allSteps == Without(f.allSteps, sc) && NoDup(f1.allSteps)
    requires NoDup(f1.allSteps) ==> r.allSteps == Without(f1.allSteps, rest)
    requires r.rootStep == f1.rootStep == f.rootStep
    ensures SubtreeDestroyed(a0, S, f.steps, r.steps)
    ensures NoDup(f.allSteps) ==> r.allSteps == Without(f.allSteps, S)
    ensures r.rootStep == f.rootStep
  {
    DestroyedCompose(a0, sc, rest, S, f.steps, f1.steps, r.steps);
    if NoDup(f.allSteps) {
      WithoutUnion(f.allSteps, sc, rest, S);
    }
  }

  /**
    One round of the recursive loop destroys the subtree of the `i`-th
    child and leaves the rest of the loop with the rest of the span.
   */
  lemma DestroyEachFirst(f: Flow, x: Id, i: nat, length: nat, rank: Id -> nat, a0: Arena) returns (f1: Flow)
    requires Linked(a0) && Ranked(a0, rank) && x in a0
    requires Closed(f.steps) && Ranked(f.steps, rank) && x in f.steps
    requires f.steps[x].children == a0[x].children && i < length == |a0[x].children|
    requires Agrees(a0, Span(a0, x, i, length, rank), f.steps)
    ensures Closed(f1.steps) && Ranked(f1.steps, rank) && x in f1.steps
    ensures f1.steps[x].children == a0[x].children
    ensures DestroyEach(f, x, i, length, rank) == DestroyEach(f1, x, i + 1, length, rank)
    ensures var sc := Subtree(a0, a0[x].children[i], rank); var rest := Span(a0, x, i + 1, length, rank);
      && Span(a0, x, i, length, rank) == sc + rest && sc !! rest
      && SubtreeDestroyed(a0, sc, f.steps, f1.steps)
      && Agrees(a0, rest, f1.steps)
      && (NoDup(f.allSteps) ==> f1.allSteps == Without(f.allSteps, sc) && NoDup(f1.allSteps))
      && f1.rootStep == f.rootStep
    decreases rank(x), 0, length - i, 0
  {
    var cs := a0[x].children;
    var c := cs[i];
    assert rank(c) < rank(x);
    SpanSplit(a0, x, i, length, rank);
    var sc := Subtree(a0, c, rank);
    var rest := Span(a0, x, i + 1, length, rank);
    DestroySubtree(f, c, 0, rank, a0);
    assert a0[c].parent == Some(x);
    NotInChildSubtree(a0, x, i, rank);
    f1 := Destroy0(f, c, 0, true, rank);
    AgreesAfter(a0, sc, rest, f.steps, f1.steps);
  }

  // ---------------------------------------------------------------------------
  // Recursive `destroy`

  /**
    `r` is `a` after the steps of `S` (the subtree of `n`) were destroyed:
    each of them is left without children or parent, `n` is out of every
    other child list, and nothing else changed.
   */
  ghost predicate Pruned(a: Arena, n: Id, S: set<Id>, r: Arena) {
    && r.Keys == a.Keys
    && (forall y | y in S :: y in a && r[y] == a[y].(children := [], parent := None))
    && (forall q | q in a && q !in S ::
          r[q].children == Without(a[q].children, {n}) && r[q].parent == a[q].parent && r[q].data == a[q].data)
  }

  /** A recursive `destroy` that is let through is `destroy0` on the detached arena. */
  lemma DestroyRecursiveUnfold(f: Flow, n: Id, checkCallbacks: bool, canDelete: bool, rank: Id -> nat)
    returns (parentIndex: int)
    requires Closed(f.steps) && Ranked(f.steps, rank) && n in f.steps && (!checkCallbacks || canDelete)
    ensures Closed(Detach(f.steps, n)) && Ranked(Detach(f.steps, n), rank)
    ensures Destroy(f, n, true, checkCallbacks, canDelete, rank).0
         == Destroy0(f.(steps := Detach(f.steps, n)), n, parentIndex, true, rank)
  {
    DetachKeepsShape(f.steps, n, rank);
    parentIndex := match f.steps[n].parent
      case Some(p) => RemoveChild(f.steps, p, n).1
      case None => 0;
  }

  /** Detaching `n` leaves its whole subtree as it was. */
  lemma DetachAgrees(a: Arena, n: Id, rank: Id -> nat)
    requires Linked(a) && Ranked(a, rank) && n in a
    ensures Agrees(a, Subtree(a, n, rank), Detach(a, n))
  {
    SubtreeInArena(a, n, rank);
    if a[n].parent.Some? {
      var p := a[n].parent.value;
      assert n in a[p].children;
      var j :| 0 <= j < |a[p].children| && a[p].children[j] == n;
      assert rank(n) < rank(p);
    }
  }

  /**
    `destroy(true, …)` on `n` when let through: every step of `n`'s subtree
    is left without children or parent and leaves `allSteps` (when that has
    no duplicates), `n` leaves its parent's list, nothing else changes, and
    `rootStep` becomes null exactly when `n` is a root with children.
   */
  lemma DestroyRecursive(f: Flow, n: Id, checkCallbacks: bool, canDelete: bool, rank: Id -> nat)
    requires Linked(f.steps) && Ranked(f.steps, rank) && n in f.steps && (!checkCallbacks || canDelete)
    ensures var r := Destroy(f, n, true, checkCallbacks, canDelete, rank).0;
      && Pruned(f.steps, n, Subtree(f.steps, n, rank), r.steps)
      && (NoDup(f.allSteps) ==> r.allSteps == Without(f.allSteps, Subtree(f.steps, n, rank)))
      && r.rootStep == (if f.steps[n].parent.None? && f.steps[n].children != [] then None else f.rootStep)
  {
    var a := f.steps;
    var S := Subtree(a, n, rank);
    var d := Detach(a, n);
    var parentIndex := DestroyRecursiveUnfold(f, n, checkCallbacks, canDelete, rank);
    DetachAgrees(a, n, rank);
    DetachUnlists(a, n);
    DestroySubtree(f.(steps := d), n, parentIndex, rank, a);
  }

  /** Pruning a subtree out of a consistent ranked tree leaves it consistent and ranked. */
  lemma PrunedKeepsLinked(a: Arena, n: Id, r: Arena, rank: Id -> nat)
    requires Linked(a) && Ranked(a, rank) && n in a && Pruned(a, n, Subtree(a, n, rank), r)
    ensures Linked(r) && Ranked(r, rank)
  {
    var S := Subtree(a, n, rank);
    forall q, i | q in r && 0 <= i < |r[q].children|
      ensures r[q].children[i] in a[q].children && r[q].children[i] != n
    {
      assert r[q].children[i] in r[q].children;
    }
    assert Closed(r);
    forall q, i | q in r && 0 <= i < |r[q].children|
      ensures r[r[q].children[i]].parent == Some(q) && rank(r[q].children[i]) < rank(q)
    {
      var c := r[q].children[i];
      ListedPointsBack(a, q, c);
      var j :| 0 <= j < |a[q].children| && a[q].children[j] == c;
      if c in S {
        SubtreeParent(a, n, c, rank);
      }
    }
    forall x | x in r && r[x].parent.Some?
      ensures x in r[r[x].parent.value].children
    {
      var q := r[x].parent.value;
      assert x !in S && a[x].parent == Some(q);
      assert x in a[q].children;
      if q in S {
        var j :| 0 <= j < |a[q].children| && a[q].children[j] == x;
        SubtreeHasChildren(a, n, q, rank);
      }
    }
    forall q | q in r
      ensures NoDup(r[q].children)
    {
      assert NoDup(a[q].children);
    }
  }
}
