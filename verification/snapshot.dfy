/**
  The JSON projection of a step's subtree (`toJSON`): id, data and the
  projections of the children in order; parent links are not part of it.
 */
module Snapshot {
  import opened Lists
  import opened Steps

  /** The object `toJSON` builds for one step. */
  datatype StepJson = StepJson(id: Id, data: Payload, children: seq<StepJson>)

  /** `toJSON()`: the step's id and data, with its children's projections, or `[]` when it has none. */
  function ToJson(a: Arena, n: Id, ghost rank: Id -> nat): (j: StepJson)
    requires Closed(a) && Ranked(a, rank) && n in a
    ensures j.id == n && j.data == a[n].data && |j.children| == |a[n].children|
    decreases rank(n), 1
  {
    StepJson(n, a[n].data, if HasChildren(a, n, 1) then ChildrenJson(a, n, 0, rank) else [])
  }

  /** `children.map(child => child.toJSON())` from index `i` on. */
  function ChildrenJson(a: Arena, n: Id, i: nat, ghost rank: Id -> nat): (js: seq<StepJson>)
    requires Closed(a) && Ranked(a, rank) && n in a && i <= |a[n].children|
    ensures |js| == |a[n].children| - i
    decreases rank(n), 0, |a[n].children| - i
  {
    var cs := a[n].children;
    if i == |cs| then []
    else
      assert rank(cs[i]) < rank(n);
      [ToJson(a, cs[i], rank)] + ChildrenJson(a, n, i + 1, rank)
  }

  /** `j` mirrors the subtree of `n`: same id and data at every step, children in the same order. */
  ghost predicate Mirrors(a: Arena, n: Id, j: StepJson, rank: Id -> nat)
    requires Closed(a) && Ranked(a, rank) && n in a
    decreases rank(n)
  {
    && j.id == n && j.data == a[n].data
    && |j.children| == |a[n].children|
    && forall i | 0 <= i < |j.children| :: rank(a[n].children[i]) < rank(n) && Mirrors(a, a[n].children[i], j.children[i], rank)
  }

  /** The `i`-th projected child is the projection of the `i`-th child. */
  lemma {:induction false} ChildrenJsonAt(a: Arena, n: Id, i: nat, k: nat, rank: Id -> nat)
    requires Closed(a) && Ranked(a, rank) && n in a && i <= k < |a[n].children|
    ensures rank(a[n].children[k]) < rank(n)
    ensures ChildrenJson(a, n, i, rank)[k - i] == ToJson(a, a[n].children[k], rank)
    decreases k - i
  {
    if i < k {
      ChildrenJsonAt(a, n, i + 1, k, rank);
    }
  }

  /** The projection mirrors the tree it comes from. */
  lemma {:induction false} ToJsonMirrors(a: Arena, n: Id, rank: Id -> nat)
    requires Closed(a) && Ranked(a, rank) && n in a
    ensures Mirrors(a, n, ToJson(a, n, rank), rank)
    decreases rank(n)
  {
    var j := ToJson(a, n, rank);
    forall i | 0 <= i < |j.children|
      ensures rank(a[n].children[i]) < rank(n) && Mirrors(a, a[n].children[i], j.children[i], rank)
    {
      ChildrenJsonAt(a, n, 0, i, rank);
      ToJsonMirrors(a, a[n].children[i], rank);
    }
  }

  /** Only the projection mirrors a subtree: the mirror is unique. */
  lemma {:induction false} MirrorUnique(a: Arena, n: Id, j: StepJson, rank: Id -> nat)
    requires Closed(a) && Ranked(a, rank) && n in a && Mirrors(a, n, j, rank)
    ensures j == ToJson(a, n, rank)
    decreases rank(n)
  {
    var t := ToJson(a, n, rank);
    forall i | 0 <= i < |j.children|
      ensures j.children[i] == t.children[i]
    {
      ChildrenJsonAt(a, n, 0, i, rank);
      MirrorUnique(a, a[n].children[i], j.children[i], rank);
    }
  }

  // ---------------------------------------------------------------------------
  // The steps a projection holds

  /** The ids of a projection in preorder. */
  function Ids(j: StepJson): (s: seq<Id>)
    ensures |s| >= 1 && s[0] == j.id
    decreases j, 1
  {
    [j.id] + IdsOf(j.children)
  }

  function IdsOf(js: seq<StepJson>): seq<Id>
    decreases js, 0
  {
    if js == [] then [] else Ids(js[0]) + IdsOf(js[1..])
  }

  /** The number of step objects in a projection. */
  function Size(j: StepJson): (k: nat)
    decreases j, 1
  {
    1 + SizeOf(j.children)
  }

  function SizeOf(js: seq<StepJson>): nat
    decreases js, 0
  {
    if js == [] then 0 else Size(js[0]) + SizeOf(js[1..])
  }

  /** There is one preorder id per step object. */
  lemma {:induction false} IdsCount(j: StepJson)
    ensures |Ids(j)| == Size(j)
    decreases j, 1
  {
    IdsOfCount(j.children);
  }

  lemma {:induction false} IdsOfCount(js: seq<StepJson>)
    ensures |IdsOf(js)| == SizeOf(js)
    decreases js, 0
  {
    if js != [] {
      IdsCount(js[0]);
      IdsOfCount(js[1..]);
    }
  }

  /**
    The preorder ids of a mirror of `n` are exactly the steps of `n`'s
    subtree, and in a consistent tree none repeats.
   */
  lemma {:induction false} MirrorIds(a: Arena, n: Id, j: StepJson, rank: Id -> nat)
    requires Linked(a) && Ranked(a, rank) && n in a && Mirrors(a, n, j, rank)
    ensures forall y :: y in Ids(j) <==> y in Subtree(a, n, rank)
    ensures NoDup(Ids(j))
    decreases rank(n), 1
  {
    MirrorIdsOf(a, n, 0, j.children, rank);
    SubtreeSplit(a, n, rank);
    NoDupAppend([n], IdsOf(j.children));
  }

  /** The preorder ids of mirrors of the children from `i` on are the steps of their span, without repeats. */
  lemma {:induction false} MirrorIdsOf(a: Arena, n: Id, i: nat, js: seq<StepJson>, rank: Id -> nat)
    requires Linked(a) && Ranked(a, rank) && n in a && i <= |a[n].children|
    requires |js| == |a[n].children| - i
    requires forall k | 0 <= k < |js| :: rank(a[n].children[i + k]) < rank(n) && Mirrors(a, a[n].children[i + k], js[k], rank)
    ensures forall y :: y in IdsOf(js) <==> y in Span(a, n, i, |a[n].children|, rank)
    ensures NoDup(IdsOf(js))
    decreases rank(n), 0, |js|
  {
    var cs := a[n].children;
    if js == [] {
      assert Span(a, n, i, |cs|, rank) == {};
    } else {
      assert Mirrors(a, cs[i], js[0], rank);
      MirrorIds(a, cs[i], js[0], rank);
      forall k | 0 <= k < |js[1..]|
        ensures rank(cs[i + 1 + k]) < rank(n) && Mirrors(a, cs[i + 1 + k], js[1..][k], rank)
      {
        assert js[1..][k] == js[k + 1];
      }
      MirrorIdsOf(a, n, i + 1, js[1..], rank);
      SpanSplit(a, n, i, |cs|, rank);
      NoDupAppend(Ids(js[0]), IdsOf(js[1..]));
    }
  }

  /**
    `toJSON` holds every step of the subtree exactly once: its preorder ids
    are the subtree's steps without repeats, so it has as many step
    objects as the subtree has steps.
   */
  lemma ToJsonSteps(a: Arena, n: Id, rank: Id -> nat)
    requires Linked(a) && Ranked(a, rank) && n in a
    ensures var j := ToJson(a, n, rank);
      && (forall y :: y in Ids(j) <==> y in Subtree(a, n, rank))
      && NoDup(Ids(j))
      && Size(j) == |Subtree(a, n, rank)|
  {
    var j := ToJson(a, n, rank);
    ToJsonMirrors(a, n, rank);
    MirrorIds(a, n, j, rank);
    IdsCount(j);
    NoDupCard(Ids(j), Subtree(a, n, rank));
  }
}
