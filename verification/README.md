# ng-flowchart step tree, in Dafny

This project models the step-tree engine of ng-flowchart's `NgFlowchartStepComponent`, and proves properties of the model. That engine is:

- the operations that insert, re-parent and remove steps;
- the two read-side traversals, the subtree width used for layout and the `toJSON` projection.

A flow is a tree of steps. Each step has an id, an opaque `data` payload, a parent link and an ordered list of children. Around the tree, the flow keeps a registry `allSteps` and a `rootStep` pointer.

In the model, the steps live in an arena (`map<Id, Step>`). Parent and child links are ids resolved through the arena. The flow is `Flow(steps, allSteps, rootStep)`. Every operation is a pure function from the old arena or flow to the new one.

The source mutates objects in place. Where that matters, the model reads a list at the moment the source reads it. For example, the loop of `destroy0` reads the children of the step it is removing live, while the same loop appends to the parent's list.

Modules:

- `Lists` (lists.dfy): the JavaScript array operations the component uses on child lists and on `allSteps`.
  - `findIndex` by id.
  - `splice(i, 1)`.
  - `splice(start, 0, x)`, including how a start outside the array is normalised.
  - The "remove the first match" idiom.
- `Steps` (steps.dfy): the data model and the node-level operations.
  - The consistency predicates:
    - `Linked`: a listed child names its lister as parent, a step with a parent is listed by it, and no list repeats a step.
    - `Ranked`: a ranking that strictly decreases from parent to child. Such a ranking exists exactly when the tree has no cycle.
  - `removeChild`, `setParent`, `setChildren`, `findLastSingleChild`, `hasChildren` and `isRootElement`.
  - Subtrees as sets of ids.
- `Insertion` (insertion.dfy): `addChildSibling0`, `addChild0` and the synchronous part of `addChild`.
- `Removal` (removal.dfy): `destroy` and `destroy0`, in all three shapes.
  - Non-recursive removal of a step that has a parent: its children are spliced into the parent's list.
  - Non-recursive removal of a root: its first child is promoted, and the other children are handed to it.
  - Recursive removal of a whole subtree.
- `Layout` (layout.dfy): `getNodeTreeWidth`. A step's own rendered width is an abstract function.
- `Snapshot` (snapshot.dfy): `toJSON`.

Recursion down the tree (the search, recursive removal, width, projection) takes a ghost ranking as its termination argument. The source has no cycle check, so the model does not assume the tree is acyclic. It asks for a ranking wherever it recurses, and it states acyclicity as a precondition where an operation would create a cycle.

Where the code and its documentation disagree, the model follows the code:

- `addChild` uses exclusive insertion unless `sibling` is set. Its doc comment says sibling insertion is the default.
- `addChild` ignores the result of `addChild0`. For the freshly created, childless step, exclusive insertion cannot fail (`Insertion.Place`), so the step is always attached before it is pushed onto `allSteps`.
- A failed `addChild0` is not a no-op. The new child has already left its old parent's list.
- Destroying a childless root leaves `rootStep` pointing at the destroyed step. Only the branch for steps with children writes `rootStep`.

## Model

Every source cell is a path in `projects/ng-flowchart/src/lib/`.

| member | source | states |
|---|---|---|
| Lists.FindIndex | projects/ng-flowchart/src/lib/ng-flowchart-step/ng-flowchart-step.component.ts:261 | `findIndex` by id returns -1 exactly when the id is absent. Otherwise it returns the first position holding it. |
| Lists.RemoveAt | projects/ng-flowchart/src/lib/ng-flowchart-step/ng-flowchart-step.component.ts:263 | `splice(i, 1)` with `i` in range drops exactly the element at `i`: the result is one shorter, and each later element moves one place down. Its inverse is `Lists.ReinsertRemoved`. |
| Lists.SpliceStart | projects/ng-flowchart/src/lib/ng-flowchart-step/ng-flowchart-step.component.ts:221 | The position where `splice(start, 0, x)` inserts always lies within the array. It is the requested start whenever that start is in range. |
| Lists.InsertAt | projects/ng-flowchart/src/lib/ng-flowchart-step/ng-flowchart-step.component.ts:221 | `splice(start, 0, x)` makes the array one longer, with `x` at the normalised start. Every old element keeps its place before that position and moves one up after it. |
| Lists.InsertAtMembers | projects/ng-flowchart/src/lib/ng-flowchart-step/ng-flowchart-step.component.ts:221 | `splice(start, 0, x)` adds `x` and keeps every other element. It keeps a list without duplicates duplicate-free when `x` was absent. |
| Lists.InsertAtParts | projects/ng-flowchart/src/lib/ng-flowchart-step/ng-flowchart-step.component.ts:221 | After `splice(start, 0, x)`, `x` sits at the normalised start. The elements before it and after it are the original ones, in order. |
| Lists.RemoveInserted | projects/ng-flowchart/src/lib/ng-flowchart-step/ng-flowchart-step.component.ts:221 | Removing what `splice(start, 0, x)` inserted gives back the original array. |
| Lists.RemoveFirst | projects/ng-flowchart/src/lib/ng-flowchart-step/ng-flowchart-step.component.ts:383-386 | `findIndex` then `splice(index, 1)` on `allSteps` leaves the array as it was when the id is absent. Otherwise it drops exactly one element; `Lists.RemoveFirstIsWithout` and `Lists.RemoveFirstUndone` pin down which. |
| Lists.ReinsertRemoved | projects/ng-flowchart/src/lib/ng-flowchart-step/ng-flowchart-step.component.ts:263 | Putting the element that `splice(i, 1)` removed back at `i` restores the array. |
| Lists.RemoveFirstIsWithout | projects/ng-flowchart/src/lib/ng-flowchart-step/ng-flowchart-step.component.ts:383-386 | In a list without duplicates, removing the first match of an id is the same as filtering that id out. |
| Steps.RemoveChild | projects/ng-flowchart/src/lib/ng-flowchart-step/ng-flowchart-step.component.ts:257-267 | `removeChild` returns -1, and changes nothing, exactly when the child is not listed. Otherwise it returns the first index holding the child and drops that entry. It changes nothing else, not even the child's parent field. |
| Steps.RemoveChildUndone | projects/ng-flowchart/src/lib/ng-flowchart-step/ng-flowchart-step.component.ts:257-267 | Splicing the child back in at the returned index restores the arena. |
| Steps.SetParent | projects/ng-flowchart/src/lib/ng-flowchart-step/ng-flowchart-step.component.ts:269-279 | Without `force`, a step that already has a parent is left unchanged. Otherwise its parent becomes exactly the argument, which may be none. No other step changes. |
| Steps.SetParentSettles | projects/ng-flowchart/src/lib/ng-flowchart-step/ng-flowchart-step.component.ts:269-274 | After a parent has been set, a non-forced `setParent` is refused, and a forced one overrides the earlier one. |
| Steps.SetChildren | projects/ng-flowchart/src/lib/ng-flowchart-step/ng-flowchart-step.component.ts:481-486 | The list becomes exactly the given one, and each listed step names the step as parent. Other lists, other parent fields and all data are unchanged. In particular, the former children keep their parent field. |
| Steps.IsRootUnlisted | projects/ng-flowchart/src/lib/ng-flowchart-step/ng-flowchart-step.component.ts:291-293 | In a consistent tree, a step has no parent exactly when no step lists it as a child. |
| Steps.HasChildrenNamed | projects/ng-flowchart/src/lib/ng-flowchart-step/ng-flowchart-step.component.ts:295-297 | In a consistent tree, `hasChildren(1)` holds exactly when some step names this one as parent. `hasChildren(2)` holds exactly when two different steps do. |
| Steps.FindLastSingleChild | projects/ng-flowchart/src/lib/ng-flowchart-step/ng-flowchart-step.component.ts:468-479 | A step the search returns is childless and lies no higher than the start. |
| Steps.FindLastSingleChildComplete | projects/ng-flowchart/src/lib/ng-flowchart-step/ng-flowchart-step.component.ts:468-479 | If an only-child chain from the start ends in a childless step, the search returns that step. If it ends in a step with two or more children, the search fails. |
| Steps.FindLastSingleChildFails | projects/ng-flowchart/src/lib/ng-flowchart-step/ng-flowchart-step.component.ts:468-479 | The search fails exactly when the only-child chain below the start, start included, reaches a step with two or more children. |
| Steps.FindLastSingleChildInSubtree | projects/ng-flowchart/src/lib/ng-flowchart-step/ng-flowchart-step.component.ts:468-479 | A step the search returns lies in the subtree of the start. |
| Steps.SubtreeSplit | projects/ng-flowchart/src/lib/ng-flowchart-step/ng-flowchart-step.component.ts:413-419 | A subtree is its top step plus the subtrees of the top's children. The top is not in any of those child subtrees. |
| Steps.SiblingSubtreesDisjoint | projects/ng-flowchart/src/lib/ng-flowchart-step/ng-flowchart-step.component.ts:413-419 | In a consistent tree, the subtrees of two different children of a step share no step. |
| Insertion.Detach | projects/ng-flowchart/src/lib/ng-flowchart-step/ng-flowchart-step.component.ts:210-212 | Only the list of the named parent changes. Every parent field and every payload stays as it was. |
| Insertion.DetachUnlists | projects/ng-flowchart/src/lib/ng-flowchart-step/ng-flowchart-step.component.ts:230-232 | In a consistent arena, detaching a step removes it from every child list and changes nothing else. |
| Insertion.SpliceOrPush | projects/ng-flowchart/src/lib/ng-flowchart-step/ng-flowchart-step.component.ts:217-222 | Splicing at an index and pushing without one both put the child exactly at the insert position, with the list around it kept in order. |
| Insertion.InsertPosition | projects/ng-flowchart/src/lib/ng-flowchart-step/ng-flowchart-step.component.ts:217-222 | Without an index the child goes at the end. With an in-range index it goes at that index. It always lands within the list. |
| Insertion.AddChildSibling0 | projects/ng-flowchart/src/lib/ng-flowchart-step/ng-flowchart-step.component.ts:209-226 | The target's list becomes the detached list with the child spliced in at the insert position. Other lists are as detached, and the child names the target as parent. No other parent field or payload changes. |
| Insertion.SiblingInsertLists | projects/ng-flowchart/src/lib/ng-flowchart-step/ng-flowchart-step.component.ts:209-226 | In a consistent arena, the child leaves every list it was in. It enters the target's list at the requested position, and the target's other children keep their order around it. |
| Insertion.SiblingInsertKeepsLinked | projects/ng-flowchart/src/lib/ng-flowchart-step/ng-flowchart-step.component.ts:209-226 | Sibling insertion keeps parent and child links consistent. |
| Insertion.SiblingInsertKeepsRanked | projects/ng-flowchart/src/lib/ng-flowchart-step/ng-flowchart-step.component.ts:209-226 | When the target is not in the moved step's subtree, sibling insertion keeps the tree acyclic. The moved subtree keeps its ranks and every other step is lifted above it (`MovedRank`). |
| Insertion.AddChild0 | projects/ng-flowchart/src/lib/ng-flowchart-step/ng-flowchart-step.component.ts:228-254 | On failure the result is the arena with the new child detached. On success the target's only child is the new child, which names the target as parent. Payloads never change. |
| Insertion.AddChild0Cases | projects/ng-flowchart/src/lib/ng-flowchart-step/ng-flowchart-step.component.ts:228-254 | There are exactly three outcomes. If the target has no other children, the new child simply becomes its only child. If the chain from the new child branches, the call fails after the detach. Otherwise the search's step takes the target's other children, and then the new child becomes the target's only child. |
| Insertion.AddChild0Succeeds | projects/ng-flowchart/src/lib/ng-flowchart-step/ng-flowchart-step.component.ts:234-241 | The call fails exactly when the target has other children and the only-child chain from the new child branches. |
| Insertion.AddChild0FailureDetaches | projects/ng-flowchart/src/lib/ng-flowchart-step/ng-flowchart-step.component.ts:230-241 | After a failure, every child list has lost the new child and no parent field has changed. |
| Insertion.AddChild0FailureDangles | projects/ng-flowchart/src/lib/ng-flowchart-step/ng-flowchart-step.component.ts:230-241 | If the new child had a parent, a failure leaves the arena inconsistent: the child still names a parent that no longer lists it. |
| Insertion.AddChild0Adopts | projects/ng-flowchart/src/lib/ng-flowchart-step/ng-flowchart-step.component.ts:242-248 | The step found by the search takes the target's former other children, in order. Each of them names that step as parent. |
| Insertion.AddChild0ChildlessSucceeds | projects/ng-flowchart/src/lib/ng-flowchart-step/ng-flowchart-step.component.ts:245-248 | A childless new child can always be inserted exclusively. |
| Insertion.AddChild0OtherLists | projects/ng-flowchart/src/lib/ng-flowchart-step/ng-flowchart-step.component.ts:228-254 | On success, every list other than the target's and the adopting step's only loses the new child. |
| Insertion.AddChild0OtherParents | projects/ng-flowchart/src/lib/ng-flowchart-step/ng-flowchart-step.component.ts:228-254 | On success, only the new child and the target's former other children change parent. |
| Insertion.AdopterPlace | projects/ng-flowchart/src/lib/ng-flowchart-step/ng-flowchart-step.component.ts:237-243 | When the target is not below the new child, the adopting step is childless. It is neither the target nor one of the target's other children. |
| Insertion.AddChild0KeepsLinked | projects/ng-flowchart/src/lib/ng-flowchart-step/ng-flowchart-step.component.ts:228-254 | A successful exclusive insertion keeps links consistent, provided the target is not in the new child's subtree. It also keeps the tree acyclic: the new child's old subtree is ranked above the rest of the target's old subtree, and every other step above both (`AdoptedRank`). |
| Insertion.AddFreshKeepsShape | projects/ng-flowchart/src/lib/ng-flowchart-step/ng-flowchart-step.component.ts:104-107 | Adding a freshly created step, with no links, keeps the arena consistent and ranked. |
| Insertion.AddChild | projects/ng-flowchart/src/lib/ng-flowchart-step/ng-flowchart-step.component.ts:104-120 | The new step, holding the given data, is attached below the target in either mode. It is pushed onto `allSteps`, and `rootStep` is untouched. |
| Insertion.Place | projects/ng-flowchart/src/lib/ng-flowchart-step/ng-flowchart-step.component.ts:108-113 | For a new step with no parent and no children, insertion in either mode succeeds. The step then names the target as parent, and no key or payload changes. |
| Insertion.FreshExclusive | projects/ng-flowchart/src/lib/ng-flowchart-step/ng-flowchart-step.component.ts:245-248 | Exclusive insertion of a childless, unlisted step makes it the target's only child. It takes all of the target's former children, which name it as parent. No other step changes. |
| Insertion.AddChildSiblingPlaces | projects/ng-flowchart/src/lib/ng-flowchart-step/ng-flowchart-step.component.ts:108-110 | In sibling mode the new step is spliced into the target's list at the index, or pushed when there is none. Every other step is unchanged. |
| Insertion.AddChildExclusivePlaces | projects/ng-flowchart/src/lib/ng-flowchart-step/ng-flowchart-step.component.ts:111-113 | Without `sibling`, the new step becomes the target's only child and takes all of the target's former children, which name it as parent. |
| Insertion.AddChildKeepsLinked | projects/ng-flowchart/src/lib/ng-flowchart-step/ng-flowchart-step.component.ts:104-120 | `addChild` keeps parent and child links consistent in both modes. The result is acyclic, ranked by doubling every old rank plus two and putting the new step just below the target (`AddedRank`), so any later operation that needs a ranking can follow it. |
| Removal.SpliceChildren | projects/ng-flowchart/src/lib/ng-flowchart-step/ng-flowchart-step.component.ts:422-425 | The splicing step keeps the same set of steps. The removed step's own list never gets shorter, so the loop's index stays within it. |
| Removal.AdoptSiblings | projects/ng-flowchart/src/lib/ng-flowchart-step/ng-flowchart-step.component.ts:402-408 | The adoption loop keeps the same set of steps and leaves the removed step's own list as it was. |
| Removal.PromoteSteps | projects/ng-flowchart/src/lib/ng-flowchart-step/ng-flowchart-step.component.ts:396-408 | Promotion keeps the same set of steps and leaves the old root's list intact for the loop that follows. |
| Removal.PromoteFirstChild | projects/ng-flowchart/src/lib/ng-flowchart-step/ng-flowchart-step.component.ts:391-409 | Promoting a root with children makes its first child `rootStep`. The old root's list and `allSteps` are left alone. |
| Removal.Destroy0 | projects/ng-flowchart/src/lib/ng-flowchart-step/ng-flowchart-step.component.ts:378-430 | `destroy0` keeps the same set of step ids and always leaves the step with neither children nor parent. When non-recursive, it takes exactly the first occurrence of the step out of `allSteps`. When recursive, it keeps the tree closed and ranked and leaves every step ranked above the removed one as it was. |
| Removal.HandOver | projects/ng-flowchart/src/lib/ng-flowchart-step/ng-flowchart-step.component.ts:388-426 | Handing the children over keeps the same ids and leaves `allSteps` alone when non-recursive. When recursive, it keeps the tree closed and ranked and does not touch the step or anything ranked at or above it. |
| Removal.DestroyEach | projects/ng-flowchart/src/lib/ng-flowchart-step/ng-flowchart-step.component.ts:414-419 | The recursive loop over the children keeps the tree closed and ranked, and changes nothing ranked at or above the removed step. |
| Removal.SpliceChildrenLists | projects/ng-flowchart/src/lib/ng-flowchart-step/ng-flowchart-step.component.ts:413-426 | The splicing loop places the removed step's children, in order, as one block in the parent's list. No other list changes. |
| Removal.SpliceChildrenParents | projects/ng-flowchart/src/lib/ng-flowchart-step/ng-flowchart-step.component.ts:422-425 | Each spliced child names the parent. No other parent field changes. |
| Removal.AdoptSiblingsLists | projects/ng-flowchart/src/lib/ng-flowchart-step/ng-flowchart-step.component.ts:402-408 | The adoption loop appends the other children, in order, after the new root's own children. No other list changes. |
| Removal.AdoptSiblingsParents | projects/ng-flowchart/src/lib/ng-flowchart-step/ng-flowchart-step.component.ts:402-408 | Each adopted child names the new root. No other parent field changes. |
| Removal.Clear | projects/ng-flowchart/src/lib/ng-flowchart-step/ng-flowchart-step.component.ts:427-429 | The step is left without children or parent, and every other step is unchanged. |
| Removal.Destroy | projects/ng-flowchart/src/lib/ng-flowchart-step/ng-flowchart-step.component.ts:127-143 | `destroy` returns true exactly when callbacks are off or deletion is allowed. When it returns false, nothing changes. When it returns true, the step ends without children or parent and, unless the destroy is recursive, leaves `allSteps`. |
| Removal.DestroyLiftsChildren | projects/ng-flowchart/src/lib/ng-flowchart-step/ng-flowchart-step.component.ts:378-430 | Non-recursive removal of a step with a parent replaces it in the parent's list by its children, in order. The children name the parent. The step ends with neither children nor parent, `allSteps` loses it, and `rootStep` is unchanged. |
| Removal.LiftKeepsLinked | projects/ng-flowchart/src/lib/ng-flowchart-step/ng-flowchart-step.component.ts:413-426 | Lifting the children into the parent keeps the tree consistent and acyclic. |
| Removal.DestroyPromotes | projects/ng-flowchart/src/lib/ng-flowchart-step/ng-flowchart-step.component.ts:388-411 | Non-recursive removal of a root with children makes its first child `rootStep`, with no parent. The other children follow that child's own children, in order. The removed root ends childless, and `allSteps` loses it. |
| Removal.PromoteKeepsLinked | projects/ng-flowchart/src/lib/ng-flowchart-step/ng-flowchart-step.component.ts:394-409 | Promotion keeps the tree consistent and acyclic. The new root takes over the old root's rank. |
| Removal.DestroyLeaf | projects/ng-flowchart/src/lib/ng-flowchart-step/ng-flowchart-step.component.ts:378-430 | Removing a childless step, recursive or not, takes it out of its parent's list and clears its parent. `allSteps` loses it. `rootStep` is left as it was, even when the step was the root. |
| Removal.UnlistedKeepsLinked | projects/ng-flowchart/src/lib/ng-flowchart-step/ng-flowchart-step.component.ts:127-143 | Unlisting a step keeps the tree consistent and acyclic. |
| Removal.DestroySubtree | projects/ng-flowchart/src/lib/ng-flowchart-step/ng-flowchart-step.component.ts:378-430 | Recursive `destroy0` leaves every step of the subtree without children or parent, and touches no other step. A duplicate-free `allSteps` loses exactly the subtree. `rootStep` becomes null exactly when the step is a root with children. |
| Removal.DestroyEachSubtree | projects/ng-flowchart/src/lib/ng-flowchart-step/ng-flowchart-step.component.ts:413-419 | The recursive loop destroys exactly the subtrees of the children it visits. It leaves `rootStep` alone. |
| Removal.DestroyRecursive | projects/ng-flowchart/src/lib/ng-flowchart-step/ng-flowchart-step.component.ts:127-143 | Recursive `destroy` clears every step of the subtree, takes the step out of its parent's list and changes nothing else. A duplicate-free `allSteps` loses exactly the subtree. `rootStep` becomes null exactly when the step is a root with children. |
| Removal.PrunedKeepsLinked | projects/ng-flowchart/src/lib/ng-flowchart-step/ng-flowchart-step.component.ts:127-143 | Pruning a subtree keeps the rest of the tree consistent and acyclic. |
| Layout.TreeWidth | projects/ng-flowchart/src/lib/ng-flowchart-step/ng-flowchart-step.component.ts:311-325 | A subtree is never narrower than its top step's own width. |
| Layout.ReduceIsSum | projects/ng-flowchart/src/lib/ng-flowchart-step/ng-flowchart-step.component.ts:318-320 | The `reduce` over the children equals the reference sum of their tree widths. |
| Layout.TreeWidthIs | projects/ng-flowchart/src/lib/ng-flowchart-step/ng-flowchart-step.component.ts:311-325 | A childless step needs its own width. Any other step needs the larger of its own width and the sum of its children's tree widths plus one gap between each two neighbours. |
| Layout.ChildFitsParent | projects/ng-flowchart/src/lib/ng-flowchart-step/ng-flowchart-step.component.ts:311-325 | With non-negative widths and gap, no child's subtree is wider than its parent's. |
| Layout.NodeTreeWidth | projects/ng-flowchart/src/lib/ng-flowchart-step/ng-flowchart-step.component.ts:311-325 | The loop that asks each child for its tree width computes the same width as the recursive definition. |
| Snapshot.ToJson | projects/ng-flowchart/src/lib/ng-flowchart-step/ng-flowchart-step.component.ts:355-363 | The object carries the step's id and data and one entry per child. |
| Snapshot.ChildrenJson | projects/ng-flowchart/src/lib/ng-flowchart-step/ng-flowchart-step.component.ts:359-361 | The `children` map produces one object per remaining child. |
| Snapshot.ToJsonMirrors | projects/ng-flowchart/src/lib/ng-flowchart-step/ng-flowchart-step.component.ts:355-363 | The projection mirrors the tree: the same id and data at every step, with children in the same order. |
| Snapshot.MirrorUnique | projects/ng-flowchart/src/lib/ng-flowchart-step/ng-flowchart-step.component.ts:355-363 | Any object that mirrors the subtree is the projection. |
| Snapshot.ToJsonSteps | projects/ng-flowchart/src/lib/ng-flowchart-step/ng-flowchart-step.component.ts:355-363 | In a consistent tree, the projection's preorder ids are exactly the subtree's steps, with no repeats. So it holds as many step objects as the subtree has steps. |

## Left out

- DOM and rendering are not modelled:
  - `compRef.destroy()`;
  - arrows, including the arrow `setParent` releases when the parent is cleared;
  - hover icons, `hideTree`/`showTree`, `setPosition`, `getCurrentRect`;
  - drag listeners and view initialisation.

  They have no effect on the tree.
- Step creation is asynchronous and goes through the canvas: `canvas.createStep`, `addToCanvas`, `reRender`. `addChild` takes the created step's id and data as parameters. The step is fresh: it has no links.
- Ids are generated from `Date.now()`, a clock. Ids are taken as given and distinct.
- The `canDeleteStep()` hook is the boolean parameter `canDelete`. `canDrop` and `getDropPositionsForStep` are not part of this model.
- Console warnings and errors are not modelled. They do not change state.
- The step manager service (component factories, the registry lookup, the deep copy of `data`) and the Angular module are not part of this model. `data` is an immutable value.
- Layout.TreeWidth: rendered widths and the gap are floating-point numbers in the source. Here they are integers, so rounding is not modelled.
- Layout.ChildFitsParent: it assumes non-negative widths and gap. With a negative gap a child's subtree can be wider than its parent's.
- Removal.DestroySubtree: `destroy0(null, true)` receives `null` as `parentIndex` in the recursive calls, where it is never read. The model passes 0 there.
- Removal.DestroyRecursive: the registry facts are stated for an `allSteps` without duplicates. With duplicates, each destroyed step still loses only its first occurrence, as `Lists.RemoveFirst` models.
- Cycles are not checked by the source. The recursive operations take a ranking, so they are modelled on acyclic trees only. `Insertion.AddChild0KeepsLinked` requires that the target is not below the new child, and `Insertion.SiblingInsertKeepsRanked` requires that the target is not below the moved step. Without that, insertion would create a cycle.
- Lists.InsertAt: the insertion index is a JavaScript number in the source, and `splice` truncates a fractional start and treats `NaN` as 0. The model takes an integer index, so those conversions are not modelled. As in `splice`, a negative start counts from the end and an out-of-range start is clamped.
- The case where `addChild` is used on a step that is already in the arena is not modelled. The new step's id is required to be fresh.
