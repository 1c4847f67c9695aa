/**
  The step tree of one flow, held as an arena: every step is stored under its
  id, and the parent and child links are ids resolved through the arena. This
  module holds the data model, the well-formedness predicates, and the
  node-level operations of the step component (`removeChild`, `setParent`,
  `setChildren`, `findLastSingleChild`).
 */
module Steps {
  import opened Lists

  /** A step id; ids are given and distinct (their clock-based generation is not modelled). */
  type Id = string

  /** The step's `data`: an opaque value, already deep-copied when the step was made. */
  type Payload = string

  datatype Option<T> = None | Some(value: T)

  /** One step: its payload, its parent (none for a root) and its ordered children. */
  datatype Step = Step(data: Payload, parent: Option<Id>, children: seq<Id>)

  type Arena = map<Id, Step>

  /** The flow-level bookkeeping around the tree: the registry `allSteps` and `rootStep`. */
  datatype Flow = Flow(steps: Arena, allSteps: seq<Id>, rootStep: Option<Id>)

  // ---------------------------------------------------------------------------
  // Well-formedness

  /** Every child id and every parent id names a step of the arena. */
  ghost predicate Closed(a: Arena) {
    && (forall p, i | p in a && 0 <= i < |a[p].children| :: a[p].children[i] in a)
    && (forall c | c in a && a[c].parent.Some? :: a[c].parent.value in a)
  }

  /** Every child id of `n` names a step of the arena. */
  ghost predicate ChildrenIn(a: Arena, n: Id)
    requires n in a
  {
    forall j | 0 <= j < |a[n].children| :: a[n].children[j] in a
  }

  /** Every listed child names its lister as parent. */
  ghost predicate ChildrenPointBack(a: Arena)
    requires Closed(a)
  {
    forall p, i | p in a && 0 <= i < |a[p].children| :: a[a[p].children[i]].parent == Some(p)
  }

  /** Every step that names a parent is listed among that parent's children. */
  ghost predicate ParentsList(a: Arena)
    requires Closed(a)
  {
    forall c | c in a && a[c].parent.Some? :: c in a[a[c].parent.value].children
  }

  /** No child list mentions a step twice. */
  ghost predicate DistinctChildren(a: Arena) {
    forall p | p in a :: NoDup(a[p].children)
  }

  /**
    Parent/child consistency: `c` is in `p`'s children exactly when `c`'s
    parent is `p`, and then exactly once. Together these mean that no step is
    listed by two parents or twice by one.
   */
  ghost predicate Linked(a: Arena) {
    Closed(a) && ChildrenPointBack(a) && ParentsList(a) && DistinctChildren(a)
  }

  /** A listed child names its lister as parent. */
  lemma ListedPointsBack(a: Arena, p: Id, x: Id)
    requires Closed(a) && ChildrenPointBack(a) && p in a && x in a[p].children
    ensures x in a && a[x].parent == Some(p)
  {
    var j :| 0 <= j < |a[p].children| && a[p].children[j] == x;
  }

  /** Only a step's parent lists it. */
  lemma OnlyParentLists(a: Arena, p: Id, x: Id)
    requires Closed(a) && ChildrenPointBack(a) && p in a && x in a && a[x].parent != Some(p)
    ensures x !in a[p].children
  {
    if x in a[p].children {
      ListedPointsBack(a, p, x);
    }
  }

  /**
    `rank` strictly decreases from every step to each of its children. The
    existence of such a ranking is acyclicity; the source does not check it,
    so the operations that recurse down the tree take a ranking as a ghost
    argument.
   */
  ghost predicate Ranked(a: Arena, rank: Id -> nat) {
    forall p, i | p in a && 0 <= i < |a[p].children| :: rank(a[p].children[i]) < rank(p)
  }

  ghost predicate Acyclic(a: Arena) {
    exists rank: Id -> nat :: Ranked(a, rank)
  }

  /** In a ranked arena no step lists itself. */
  lemma NotOwnChild(a: Arena, x: Id, rank: Id -> nat)
    requires Ranked(a, rank) && x in a
    ensures x !in a[x].children
  {
    forall j | 0 <= j < |a[x].children|
      ensures a[x].children[j] != x
    {
      assert rank(a[x].children[j]) < rank(x);
    }
  }

  /** `hasChildren(count)`. */
  predicate HasChildren(a: Arena, n: Id, count: int)
    requires n in a
  {
    |a[n].children| >= count
  }

  /** `isRootElement()`: the step has no parent. */
  predicate IsRootElement(a: Arena, n: Id)
    requires n in a
  {
    a[n].parent.None?
  }

  /**
    In a consistent arena, `hasChildren()` holds exactly when some step
    names `n` as its parent, and `hasChildren(2)` exactly when two different
    steps do.
   */
  lemma HasChildrenNamed(a: Arena, n: Id)
    requires Linked(a) && n in a
    ensures HasChildren(a, n, 1) <==> exists c | c in a :: a[c].parent == Some(n)
    ensures HasChildren(a, n, 2) <==> exists c, d | c in a && d in a && c != d :: a[c].parent == Some(n) && a[d].parent == Some(n)
  {
    var cs := a[n].children;
    if HasChildren(a, n, 1) {
      ListedPointsBack(a, n, cs[0]);
    }
    if HasChildren(a, n, 2) {
      assert NoDup(cs);
      ListedPointsBack(a, n, cs[1]);
    }
    if exists c, d | c in a && d in a && c != d :: a[c].parent == Some(n) && a[d].parent == Some(n) {
      var c, d :| c in a && d in a && c != d && a[c].parent == Some(n) && a[d].parent == Some(n);
      assert c in cs && d in cs;
    }
  }

  /** In a consistent arena, `isRootElement()` holds exactly when no step lists `n` as a child. */
  lemma IsRootUnlisted(a: Arena, n: Id)
    requires Linked(a) && n in a
    ensures IsRootElement(a, n) <==> forall p | p in a :: n !in a[p].children
  {
    if a[n].parent.Some? {
      assert n in a[a[n].parent.value].children;
    } else {
      forall p | p in a
        ensures n !in a[p].children
      {
        OnlyParentLists(a, p, n);
      }
    }
  }

  // ---------------------------------------------------------------------------
  // Node-level operations

  /**
    `p.removeChild(c)`: drop the first entry of `p`'s children whose id is `c`
    and return its former index, or -1 (list unchanged) when there is none.
    The parent field of `c` is not touched.
   */
  function RemoveChild(a: Arena, p: Id, c: Id): (r: (Arena, int))
    requires p in a
    ensures r.0.Keys == a.Keys
    ensures r.1 == -1 <==> c !in a[p].children
    ensures r.1 == -1 ==> r.0 == a
    ensures 0 <= r.1 ==> r.1 < |a[p].children| && a[p].children[r.1] == c && c !in a[p].children[..r.1]
    ensures r.0[p].children == RemoveFirst(a[p].children, c)
    ensures r.0[p] == a[p].(children := r.0[p].children)
    ensures forall k | k in a && k != p :: r.0[k] == a[k]
  {
    var cs := a[p].children;
    (a[p := a[p].(children := RemoveFirst(cs, c))], FindIndex(cs, c))
  }

  /** Putting back the one entry an update changed restores the arena. */
  lemma RestoreEntry(a: Arena, a': Arena, p: Id, s: Step)
    requires p in a && a'.Keys == a.Keys && s == a[p]
    requires forall k | k in a && k != p :: a'[k] == a[k]
    ensures a'[p := s] == a
  {
  }

  /** Splicing the removed child back in at the returned index undoes `removeChild`. */
  lemma RemoveChildUndone(a: Arena, p: Id, c: Id)
    requires p in a
    ensures var (a', i) := RemoveChild(a, p, c);
      0 <= i ==> a'[p := a'[p].(children := InsertAt(a'[p].children, i, c))] == a
  {
    var (a', i) := RemoveChild(a, p, c);
    if 0 <= i {
      var cs := InsertAt(a'[p].children, i, c);
      assert cs == a[p].children by {
        RemoveFirstUndone(a[p].children, c);
      }
      RestoreEntry(a, a', p, a'[p].(children := cs));
    }
  }

  /**
    `n.setParent(q, force)`: refused (nothing changes) when `n` already has a
    parent and `force` is off; otherwise the parent becomes exactly `q`, which
    may be none. The arrow released on a cleared parent is not modelled.
   */
  function SetParent(a: Arena, n: Id, q: Option<Id>, force: bool): (r: Arena)
    requires n in a
    ensures a[n].parent.Some? && !force ==> r == a
    ensures a[n].parent.None? || force ==> r.Keys == a.Keys && r[n] == a[n].(parent := q)
    ensures forall k | k in a && k != n :: k in r && r[k] == a[k]
  {
    if a[n].parent.Some? && !force then a
    else a[n := a[n].(parent := q)]
  }

  /**
    Once a step has been given a parent, a further `setParent` without
    `force` is refused, and a forced one simply overrides the first.
   */
  lemma SetParentSettles(a: Arena, n: Id, p: Id, q: Option<Id>)
    requires n in a
    ensures SetParent(SetParent(a, n, Some(p), true), n, q, false) == SetParent(a, n, Some(p), true)
    ensures SetParent(SetParent(a, n, Some(p), true), n, q, true) == SetParent(a, n, q, true)
  {
    var b := SetParent(a, n, Some(p), true);
    assert b[n := b[n].(parent := q)] == a[n := a[n].(parent := q)];
  }

  /**
    `x.setChildren(cs)`: the child list of `x` becomes `cs`, and every step of
    `cs` is force-parented to `x`. Nothing else changes; in particular the
    former children of `x` keep their parent field.
   */
  function SetChildren(a: Arena, x: Id, cs: seq<Id>): (r: Arena)
    requires x in a
    requires forall i | 0 <= i < |cs| :: cs[i] in a
    ensures r.Keys == a.Keys
    ensures r[x].children == cs
    ensures forall i | 0 <= i < |cs| :: r[cs[i]].parent == Some(x)
    ensures forall k | k in a && k != x && k !in cs :: r[k] == a[k]
    ensures forall k | k in a :: r[k].data == a[k].data
    ensures forall k | k in a && k != x :: r[k].children == a[k].children
    ensures forall k | k in a && k !in cs :: r[k].parent == a[k].parent
  {
    var a1 := a[x := a[x].(children := cs)];
    map k | k in a1 :: if k in cs then a1[k].(parent := Some(x)) else a1[k]
  }

  /**
    `findLastSingleChild()`: follow only-children down from `n`; answer the
    childless step reached, or none as soon as a step with two or more
    children is met (that step included).
   */
  function FindLastSingleChild(a: Arena, n: Id, ghost rank: Id -> nat): (r: Option<Id>)
    requires Closed(a) && Ranked(a, rank) && n in a
    ensures r.Some? ==> r.value in a && a[r.value].children == []
    ensures r.Some? ==> rank(r.value) <= rank(n)
    decreases rank(n)
  {
    if HasChildren(a, n, 2) then None
    else if HasChildren(a, n, 1) then FindLastSingleChild(a, a[n].children[0], rank)
    else Some(n)
  }

  /** The search only looks at steps ranked no higher than `n`, so arenas that agree there agree on its answer. */
  lemma {:induction false} FindLastSingleChildFrame(a: Arena, b: Arena, n: Id, rank: Id -> nat)
    requires Closed(a) && Ranked(a, rank) && Closed(b) && Ranked(b, rank) && n in a && n in b
    requires forall k | k in a && rank(k) <= rank(n) :: k in b && b[k].children == a[k].children
    ensures FindLastSingleChild(b, n, rank) == FindLastSingleChild(a, n, rank)
    decreases rank(n)
  {
    if |a[n].children| == 1 {
      FindLastSingleChildFrame(a, b, a[n].children[0], rank);
    }
  }

  /** `path` walks down from its first step through only-children. */
  ghost predicate SoleChildChain(a: Arena, path: seq<Id>) {
    && |path| >= 1
    && (forall i | 0 <= i < |path| :: path[i] in a)
    && (forall i | 0 <= i < |path| - 1 :: a[path[i]].children == [path[i + 1]])
  }

  /** Following a sole-child chain does not change what the search finds. */
  lemma {:induction false} FindLastSingleChildAlongChain(a: Arena, path: seq<Id>, rank: Id -> nat)
    requires Closed(a) && Ranked(a, rank) && SoleChildChain(a, path)
    ensures FindLastSingleChild(a, path[0], rank) == FindLastSingleChild(a, path[|path| - 1], rank)
    decreases |path|
  {
    if |path| > 1 {
      assert SoleChildChain(a, path[1..]);
      FindLastSingleChildAlongChain(a, path[1..], rank);
    }
  }

  /**
    The search succeeds with `t` when a sole-child chain from `n` ends in the
    childless `t`, and fails when one ends in a step with two or more children.
   */
  lemma FindLastSingleChildComplete(a: Arena, path: seq<Id>, rank: Id -> nat)
    requires Closed(a) && Ranked(a, rank) && SoleChildChain(a, path)
    ensures a[path[|path| - 1]].children == [] ==>
      FindLastSingleChild(a, path[0], rank) == Some(path[|path| - 1])
    ensures |a[path[|path| - 1]].children| >= 2 ==>
      FindLastSingleChild(a, path[0], rank) == None
  {
    FindLastSingleChildAlongChain(a, path, rank);
  }

  /**
    Conversely, every answer is explained by a sole-child chain from `n`: it
    ends in the step found, or, when none is found, in a step with two or more
    children.
   */
  lemma {:induction false} FindLastSingleChildSound(a: Arena, n: Id, rank: Id -> nat) returns (path: seq<Id>)
    requires Closed(a) && Ranked(a, rank) && n in a
    ensures SoleChildChain(a, path) && path[0] == n
    ensures FindLastSingleChild(a, n, rank) == Some(path[|path| - 1]) ==> a[path[|path| - 1]].children == []
    ensures FindLastSingleChild(a, n, rank).Some? ==> FindLastSingleChild(a, n, rank) == Some(path[|path| - 1])
    ensures FindLastSingleChild(a, n, rank).None? ==> |a[path[|path| - 1]].children| >= 2
    decreases rank(n)
  {
    var cs := a[n].children;
    if |cs| >= 2 || |cs| == 0 {
      path := [n];
    } else {
      assert cs == [cs[0]];
      var rest := FindLastSingleChildSound(a, cs[0], rank);
      path := [n] + rest;
      assert path[1..] == rest;
    }
  }

  /** Some sole-child chain from `n` reaches a step with two or more children. */
  ghost predicate ChainBranches(a: Arena, n: Id) {
    exists path | SoleChildChain(a, path) && path[0] == n :: |a[path[|path| - 1]].children| >= 2
  }

  /** The search fails exactly when the only-child chain below `n` branches. */
  lemma FindLastSingleChildFails(a: Arena, n: Id, rank: Id -> nat)
    requires Closed(a) && Ranked(a, rank) && n in a
    ensures FindLastSingleChild(a, n, rank).None? <==> ChainBranches(a, n)
  {
    var path := FindLastSingleChildSound(a, n, rank);
    if ChainBranches(a, n) {
      var p :| SoleChildChain(a, p) && p[0] == n && |a[p[|p| - 1]].children| >= 2;
      FindLastSingleChildComplete(a, p, rank);
    }
  }

  // ---------------------------------------------------------------------------
  // Subtrees

  /** `y` is `x` or lies below it, following child lists. */
  ghost predicate InSubtree(a: Arena, x: Id, y: Id, rank: Id -> nat)
    requires Closed(a) && Ranked(a, rank) && x in a
    decreases rank(x)
  {
    x == y || exists i | 0 <= i < |a[x].children| :: InSubtree(a, a[x].children[i], y, rank)
  }

  /** The subtree rooted at `x`, as a set of ids. */
  ghost function Subtree(a: Arena, x: Id, rank: Id -> nat): (s: set<Id>)
    requires Closed(a) && Ranked(a, rank) && x in a
    ensures x in s
    ensures forall y :: y in s <==> y in a && InSubtree(a, x, y, rank)
  {
    SubtreeInArena(a, x, rank);
    set y | y in a && InSubtree(a, x, y, rank)
  }

  lemma {:induction false} SubtreeInArena(a: Arena, x: Id, rank: Id -> nat)
    requires Closed(a) && Ranked(a, rank) && x in a
    ensures forall y | InSubtree(a, x, y, rank) :: y in a && rank(y) <= rank(x)
    decreases rank(x)
  {
    forall i | 0 <= i < |a[x].children|
      ensures forall y | InSubtree(a, a[x].children[i], y, rank) :: y in a && rank(y) <= rank(x)
    {
      SubtreeInArena(a, a[x].children[i], rank);
    }
  }

  /** A subtree is closed under taking children. */
  lemma {:induction false} SubtreeHasChildren(a: Arena, x: Id, y: Id, rank: Id -> nat)
    requires Closed(a) && Ranked(a, rank) && x in a && InSubtree(a, x, y, rank)
    ensures y in a
    ensures forall i | 0 <= i < |a[y].children| :: InSubtree(a, x, a[y].children[i], rank)
    decreases rank(x)
  {
    SubtreeInArena(a, x, rank);
    if x != y {
      var i :| 0 <= i < |a[x].children| && InSubtree(a, a[x].children[i], y, rank);
      SubtreeHasChildren(a, a[x].children[i], y, rank);
      forall j | 0 <= j < |a[y].children|
        ensures InSubtree(a, x, a[y].children[j], rank)
      {
        assert InSubtree(a, a[x].children[i], a[y].children[j], rank);
      }
    } else {
      forall j | 0 <= j < |a[y].children|
        ensures InSubtree(a, x, a[y].children[j], rank)
      {
        assert InSubtree(a, a[x].children[j], a[y].children[j], rank);
      }
    }
  }

  /** Below the top of a subtree, every step's parent is in the subtree too. */
  lemma {:induction false} SubtreeParent(a: Arena, x: Id, y: Id, rank: Id -> nat)
    requires Closed(a) && ChildrenPointBack(a) && Ranked(a, rank) && x in a
    requires InSubtree(a, x, y, rank) && y != x
    ensures y in a && a[y].parent.Some? && InSubtree(a, x, a[y].parent.value, rank)
    ensures a[y].parent.value in a && y in a[a[y].parent.value].children
    decreases rank(x)
  {
    var i :| 0 <= i < |a[x].children| && InSubtree(a, a[x].children[i], y, rank);
    var c := a[x].children[i];
    if y == c {
      assert a[y].parent == Some(x);
    } else {
      SubtreeParent(a, c, y, rank);
      assert InSubtree(a, c, a[y].parent.value, rank);
    }
  }

  /** The steps in the subtrees of `x`'s children `i` up to `length`, in the arena `a`. */
  ghost function Span(a: Arena, x: Id, i: nat, length: nat, rank: Id -> nat): set<Id>
    requires Closed(a) && Ranked(a, rank) && x in a && i <= length <= |a[x].children|
  {
    set y | y in a && exists j | i <= j < length :: InSubtree(a, a[x].children[j], y, rank)
  }

  /** A span is the first child's subtree plus the rest, and the two do not meet. */
  lemma SpanSplit(a: Arena, x: Id, i: nat, length: nat, rank: Id -> nat)
    requires Linked(a) && Ranked(a, rank) && x in a && i < length <= |a[x].children|
    ensures Span(a, x, i, length, rank) == Subtree(a, a[x].children[i], rank) + Span(a, x, i + 1, length, rank)
    ensures Subtree(a, a[x].children[i], rank) !! Span(a, x, i + 1, length, rank)
  {
    var cs := a[x].children;
    forall y | y in Subtree(a, cs[i], rank) && y in Span(a, x, i + 1, length, rank)
      ensures false
    {
      var j :| i + 1 <= j < length && InSubtree(a, cs[j], y, rank);
      SiblingSubtreesDisjoint(a, x, i, j, y, rank);
    }
  }

  /** A subtree is its top step plus the span of all its children; the top is not in the span. */
  lemma SubtreeSplit(a: Arena, x: Id, rank: Id -> nat)
    requires Closed(a) && Ranked(a, rank) && x in a
    ensures Subtree(a, x, rank) == {x} + Span(a, x, 0, |a[x].children|, rank)
    ensures x !in Span(a, x, 0, |a[x].children|, rank)
  {
    var cs := a[x].children;
    if x in Span(a, x, 0, |cs|, rank) {
      var j :| 0 <= j < |cs| && InSubtree(a, cs[j], x, rank);
      SubtreeInArena(a, cs[j], rank);
    }
  }

  /** The step the search finds lies in the subtree of the step it starts from. */
  lemma {:induction false} FindLastSingleChildInSubtree(a: Arena, n: Id, rank: Id -> nat)
    requires Closed(a) && Ranked(a, rank) && n in a
    ensures FindLastSingleChild(a, n, rank).Some? ==> InSubtree(a, n, FindLastSingleChild(a, n, rank).value, rank)
    decreases rank(n)
  {
    if |a[n].children| == 1 {
      FindLastSingleChildInSubtree(a, a[n].children[0], rank);
    }
  }

  /** Two subtrees that share a step are nested. */
  lemma {:induction false} SubtreesNested(a: Arena, x1: Id, x2: Id, y: Id, rank: Id -> nat)
    requires Closed(a) && ChildrenPointBack(a) && Ranked(a, rank) && x1 in a && x2 in a
    requires InSubtree(a, x1, y, rank) && InSubtree(a, x2, y, rank)
    ensures InSubtree(a, x1, x2, rank) || InSubtree(a, x2, x1, rank)
    decreases rank(x1) - rank(y)
  {
    SubtreeInArena(a, x1, rank);
    if y != x1 && y != x2 {
      SubtreeParent(a, x1, y, rank);
      SubtreeParent(a, x2, y, rank);
      var q := a[y].parent.value;
      assert rank(y) < rank(q);
      SubtreesNested(a, x1, x2, q, rank);
    }
  }

  /** The subtrees of two different children of one step are disjoint. */
  lemma SiblingSubtreesDisjoint(a: Arena, p: Id, i: nat, j: nat, y: Id, rank: Id -> nat)
    requires Linked(a) && Ranked(a, rank) && p in a
    requires i < |a[p].children| && j < |a[p].children| && i != j
    ensures !(InSubtree(a, a[p].children[i], y, rank) && InSubtree(a, a[p].children[j], y, rank))
  {
    var c1, c2 := a[p].children[i], a[p].children[j];
    assert c1 != c2 by { assert NoDup(a[p].children); }
    if InSubtree(a, c1, y, rank) && InSubtree(a, c2, y, rank) {
      SubtreesNested(a, c1, c2, y, rank);
      SubtreeInArena(a, c1, rank);
      SubtreeInArena(a, c2, rank);
      if InSubtree(a, c1, c2, rank) {
        SubtreeParent(a, c1, c2, rank);
      } else {
        SubtreeParent(a, c2, c1, rank);
      }
    }
  }
}
