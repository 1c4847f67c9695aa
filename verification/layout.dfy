/**
  The width a step's subtree needs on the canvas (`getNodeTreeWidth`). A
  step's own rendered width comes from the DOM; here it is the abstract
  function `width`, and the gap between sibling subtrees is `gap`.
 */
module Layout {
  import opened Lists
  import opened Steps

  function Max(x: int, y: int): (m: int)
    ensures m >= x && m >= y && (m == x || m == y)
  {
    if x >= y then x else y
  }

  /**
    `getNodeTreeWidth(gap)`: a childless step needs its own width; a step
    with children needs the larger of its own width and the children's
    tree widths laid side by side with `gap` between neighbours.
   */
  function TreeWidth(a: Arena, n: Id, gap: int, width: Id -> int, ghost rank: Id -> nat): (w: int)
    requires Closed(a) && Ranked(a, rank) && n in a
    ensures w >= width(n)
    decreases rank(n), 1
  {
    var cs := a[n].children;
    if !HasChildren(a, n, 1) then width(n)
    else Max(width(n), ReduceWidths(a, n, 0, 0, gap, width, rank) + gap * (|cs| - 1))
  }

  /** The `reduce` over the children from index `i`, with `acc` the width summed so far. */
  function ReduceWidths(a: Arena, n: Id, i: nat, acc: int, gap: int, width: Id -> int, ghost rank: Id -> nat): int
    requires Closed(a) && Ranked(a, rank) && n in a && i <= |a[n].children|
    decreases rank(n), 0, |a[n].children| - i
  {
    var cs := a[n].children;
    if i == |cs| then acc
    else
      assert rank(cs[i]) < rank(n);
      ReduceWidths(a, n, i + 1, acc + TreeWidth(a, cs[i], gap, width, rank), gap, width, rank)
  }

  /** The tree widths of a list of steps, added up from the right: the reference sum. */
  ghost function SumWidths(a: Arena, cs: seq<Id>, gap: int, width: Id -> int, rank: Id -> nat): int
    requires Closed(a) && Ranked(a, rank) && forall c | c in cs :: c in a
  {
    if cs == [] then 0
    else TreeWidth(a, cs[0], gap, width, rank) + SumWidths(a, cs[1..], gap, width, rank)
  }

  /** The left fold from `i` adds the reference sum of the remaining children to `acc`. */
  lemma {:induction false} ReduceIsSum(a: Arena, n: Id, i: nat, acc: int, gap: int, width: Id -> int, rank: Id -> nat)
    requires Closed(a) && Ranked(a, rank) && n in a && i <= |a[n].children|
    ensures ReduceWidths(a, n, i, acc, gap, width, rank) == acc + SumWidths(a, a[n].children[i..], gap, width, rank)
    decreases |a[n].children| - i
  {
    var cs := a[n].children;
    if i < |cs| {
      ReduceIsSum(a, n, i + 1, acc + TreeWidth(a, cs[i], gap, width, rank), gap, width, rank);
      assert cs[i..][1..] == cs[i + 1..];
    }
  }

  /**
    The width formula in terms of the reference sum: a childless step needs
    its own width, any other step the larger of its own width and the sum
    of its children's tree widths plus one gap between each two neighbours.
   */
  lemma TreeWidthIs(a: Arena, n: Id, gap: int, width: Id -> int, rank: Id -> nat)
    requires Closed(a) && Ranked(a, rank) && n in a
    ensures var cs := a[n].children;
      TreeWidth(a, n, gap, width, rank)
        == if cs == [] then width(n) else Max(width(n), SumWidths(a, cs, gap, width, rank) + gap * (|cs| - 1))
  {
    ReduceIsSum(a, n, 0, 0, gap, width, rank);
    assert a[n].children[0..] == a[n].children;
  }

  /** With non-negative widths and gaps, the sum is at least each of its terms. */
  lemma {:induction false} SumCoversEach(a: Arena, cs: seq<Id>, k: nat, gap: int, width: Id -> int, rank: Id -> nat)
    requires Closed(a) && Ranked(a, rank) && (forall c | c in cs :: c in a) && k < |cs|
    requires forall y :: width(y) >= 0
    ensures 0 <= TreeWidth(a, cs[k], gap, width, rank) <= SumWidths(a, cs, gap, width, rank)
  {
    SumNonNegative(a, cs[1..], gap, width, rank);
    if k > 0 {
      SumCoversEach(a, cs[1..], k - 1, gap, width, rank);
    }
  }

  lemma {:induction false} SumNonNegative(a: Arena, cs: seq<Id>, gap: int, width: Id -> int, rank: Id -> nat)
    requires Closed(a) && Ranked(a, rank) && (forall c | c in cs :: c in a)
    requires forall y :: width(y) >= 0
    ensures SumWidths(a, cs, gap, width, rank) >= 0
  {
    if cs != [] {
      SumNonNegative(a, cs[1..], gap, width, rank);
    }
  }

  /**
    With non-negative widths and gap, a step's subtree is at least as wide
    as the subtree of each of its children.
   */
  lemma ChildFitsParent(a: Arena, n: Id, k: nat, gap: int, width: Id -> int, rank: Id -> nat)
    requires Closed(a) && Ranked(a, rank) && n in a && k < |a[n].children|
    requires gap >= 0 && forall y :: width(y) >= 0
    ensures TreeWidth(a, a[n].children[k], gap, width, rank) <= TreeWidth(a, n, gap, width, rank)
  {
    var cs := a[n].children;
    TreeWidthIs(a, n, gap, width, rank);
    SumCoversEach(a, cs, k, gap, width, rank);
  }

  /**
    The same computation as a loop over the children that asks each child
    for its tree width, as the component does through its children.
   */
  method NodeTreeWidth(a: Arena, n: Id, gap: int, width: Id -> int, ghost rank: Id -> nat) returns (w: int)
    requires Closed(a) && Ranked(a, rank) && n in a
    ensures w == TreeWidth(a, n, gap, width, rank)
    decreases rank(n)
  {
    var cs := a[n].children;
    if |cs| == 0 {
      return width(n);
    }
    var childWidth := 0;
    var i := 0;
    while i < |cs|
      invariant 0 <= i <= |cs|
      invariant ReduceWidths(a, n, 0, 0, gap, width, rank) == ReduceWidths(a, n, i, childWidth, gap, width, rank)
    {
      assert rank(cs[i]) < rank(n);
      var cw := NodeTreeWidth(a, cs[i], gap, width, rank);
      childWidth := childWidth + cw;
      i := i + 1;
    }
    childWidth := childWidth + gap * (|cs| - 1);
    w := Max(width(n), childWidth);
  }
}
