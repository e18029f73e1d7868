# GlazeWM container moves and the window-state toggle, in Dafny

This project models two pieces of the GlazeWM tiling window manager and proves properties of them.

**Moving a container within the container tree.** This is the C# `MoveContainerWithinTreeHandler` (`Handle` and `MoveToLowestCommonAncestor`). It moves a container `n` under a target parent `tp` at child index `ti`. Two structures must stay consistent while it does so:

- each container's ordered list of children, whose positions are the children's sibling indices;
- each container's `ChildFocusOrder`, a recency ranking of its children (index 0 is the most recent).

The handler works in one of two regimes:

- **Same subtree.** When `tp` is the lowest common ancestor (LCA) of `n` and `tp`, the handler detaches `n` and re-attaches it at a corrected index. The index is one less when `n` was a direct child of the LCA sitting before `ti`. `n` then takes over the focus slot its branch held.
- **Cross subtree.** Otherwise the handler finds the two children of the LCA on the way to `n` and to `tp`. It computes two flags from the focus orders and moves `n`. Depending on the flags, it makes `n` the focused descendant of the target branch. When both flags hold, the target branch also takes the original branch's focus index in the LCA.

**The window-state toggle.** This is the Rust `toggle_window_state`. It chooses the state handed to `update_window_state`:

- the requested state, when the window is not in it;
- otherwise the window's previous state;
- otherwise tiling;
- otherwise nothing.

When it succeeds, it queues the window for redraw.

Files:

- `wrappers.dfy`: `Option` and `Result`.
- `seqs.dfy`: the list operations the handler uses. These are `IndexOf`, `List.Remove`, `List.Insert`, LINQ `First` and the `ShiftToIndex` extension, with their lemmas.
- `tree.dfy`: the container arena and its well-formedness. It also covers `SelfAndAncestors`, `GetLowestCommonAncestor`, the LCA branch (`SelfAndAncestors.First(a => a.Parent == lca)`), `LastFocusedDescendant` and focus paths.
- `tree_ops.dfy`: the commands the handler sends through the bus, as pure functions. These are `DetachContainerCommand`, `AttachContainerCommand`, `SetFocusedDescendantCommand` and `ChildFocusOrder.ShiftToIndex`.
- `move_within_tree.dfy`: the handler, its two regimes and the properties of the whole move.
- `toggle_window_state.dfy`: the toggle.

The tree is an immutable map from container ids to nodes. Each node has a kind, an optional parent, a child list and a focus order. `WellFormed` says:

- every child points back to its parent;
- every parent lists its children;
- each focus order is a duplicate-free permutation of the duplicate-free child list.

`Forest` adds that every ancestor chain ends at a parentless container. The move requires a forest and gives one back (`MoveKeepsForest`). Sibling indices are positions in the parent's child list, as `Container.Index` defines them. `WellFormedIndicesContiguous` shows they are then exactly 0..n-1.

The handler cannot fail in the source, but the calls it makes throw in four situations. The model returns one `MoveError` for each, checked before anything changes:

- `NotSameTree`: there is no LCA, so `FocusIndex` dereferences a null parent.
- `NoBranch`: `First` finds no ancestor whose parent is the LCA. This happens when the container is itself the LCA.
- `NotSplitContainer`: the `as SplitContainer` cast yields null.
- `IndexOutOfRange`: `List.Insert` rejects the index.

## Model

Paths are relative to the repository root.

| member | source | states |
|---|---|---|
| MoveWithinTree.MoveContainerWithinTree | GlazeWM.Domain/Containers/CommandHandlers/MoveContainerWithinTreeHandler.cs:19-72 | Each error occurs exactly under its condition: different trees, the container an ancestor-or-self of the target parent, a target that is not a split container, an index outside 0..count. On success, no container is created or destroyed, every link and focus order stays consistent, and sibling indices stay contiguous. `n` becomes `tp`'s child at `ti`, or at `ti - 1` when it sat before `ti` among `tp`'s own children. `tp`'s other children keep their order. Every other container's children only lose `n`, so only the old parent's list changes. No other container changes parent or kind. |
| MoveWithinTree.MoveKeepsForest | GlazeWM.Domain/Containers/CommandHandlers/MoveContainerWithinTreeHandler.cs:29-35 | A successful move leaves a forest again: the links stay consistent and every ancestor chain still ends at a root. This holds because the move is refused whenever the container is an ancestor-or-self of the target parent. |
| Tree.ReparentedForest | GlazeWM.Domain/Containers/CommandHandlers/MoveContainerWithinTreeHandler.cs:54-56 | Giving a container a new parent outside its own subtree, and changing no other parent, keeps every chain ending at a root. |
| MoveWithinTree.RegimeChoice | GlazeWM.Domain/Containers/CommandHandlers/MoveContainerWithinTreeHandler.cs:29-35 | The LCA is the target parent exactly when the target parent is an ancestor-or-self of the container. In that case the move is the same-subtree move. Only otherwise is it the cross-subtree move, whose branch and flag computation never runs on the same-subtree path. |
| MoveWithinTree.HandleErrors | GlazeWM.Domain/Containers/CommandHandlers/MoveContainerWithinTreeHandler.cs:29-40 | There is no LCA exactly when the two chains do not meet. The LCA is the target parent exactly when that is an ancestor-or-self of the container. The LCA is the container exactly when the container is an ancestor-or-self of the target parent. |
| Tree.LowestCommonAncestor | GlazeWM.Domain/Containers/CommandHandlers/MoveContainerWithinTreeHandler.cs:27-29 | The result is absent exactly when the two chains are disjoint. Otherwise it lies on both chains, and no container below it on the first chain lies on the second. |
| Tree.LowestCommonAncestorIsLowest | GlazeWM.Domain/Containers/CommandHandlers/MoveContainerWithinTreeHandler.cs:27-29 | Every common ancestor-or-self of the two containers is an ancestor-or-self of the LCA. |
| Tree.LowestCommonAncestorIsTarget | GlazeWM.Domain/Containers/CommandHandlers/MoveContainerWithinTreeHandler.cs:27-31 | The LCA of `x` and `y` is `y` exactly when `y` is on `x`'s chain. |
| Tree.BranchToward | GlazeWM.Domain/Containers/CommandHandlers/MoveContainerWithinTreeHandler.cs:39-40 | The branch is absent exactly when no chain member has the LCA as parent. Otherwise it is a chain member whose parent is the LCA. |
| Tree.BranchTowardSpec | GlazeWM.Domain/Containers/CommandHandlers/MoveContainerWithinTreeHandler.cs:37-47 | In a forest, the branch exists exactly when the LCA is a strict ancestor. It is then the chain member just below the LCA, and the only chain member whose parent is the LCA. It is the container itself exactly when the container is a direct child of the LCA. |
| MoveWithinTree.PlanCross | GlazeWM.Domain/Containers/CommandHandlers/MoveContainerWithinTreeHandler.cs:37-52 | It fails, with `NoBranch`, exactly when the container is the LCA. Otherwise the two branches are distinct children of the LCA, found on the two chains. `isFocusedDescendant` holds exactly when the container is its branch, or is a leaf reached from its branch by most-recent focus entries. `isSubtreeFocused` holds exactly when the container's branch comes before the target branch in the LCA's focus order. `originalFocusIndex` is the container branch's position there. |
| MoveWithinTree.PlanCrossFacts | GlazeWM.Domain/Containers/CommandHandlers/MoveContainerWithinTreeHandler.cs:42-52 | The flags as the handler computes them (an index comparison, a `LastFocusedDescendant` test) have the meaning `PlanCross` states. |
| Tree.LastFocusedDescendantSpec | GlazeWM.Domain/Containers/CommandHandlers/MoveContainerWithinTreeHandler.cs:42-44 | `x`'s last focused descendant is `n` exactly when `n` is a leaf and every container from `n` up to just below `x` is its parent's most recent child. |
| MoveWithinTree.MoveAcrossSubtrees | GlazeWM.Domain/Containers/CommandHandlers/MoveContainerWithinTreeHandler.cs:37-71 | The cross-subtree errors occur exactly under their conditions. On success the result is what `CrossArena` promises for the plan. |
| MoveWithinTree.CrossArena | GlazeWM.Domain/Containers/CommandHandlers/MoveContainerWithinTreeHandler.cs:54-69 | `n` becomes the target parent's child at `ti`, and the target parent's focus order gains only `n`. If its subtree was focused more recently, focus runs from the target branch down to `n`. Each focus order on the target band, from the target parent up to the target branch, only moves the chain member below it to the front; its other entries keep their relative order. Otherwise `n` is the last entry of the target parent's focus order. If both flags hold, the target branch sits at `originalFocusIndex` in the LCA's order, which otherwise keeps its relative order without `n`. Without both flags, the LCA's order is the old one without `n`. Every other container only loses `n` from its children, and from its focus order unless it is the LCA or on the band of a focused subtree. That changes only the old parent, which is never on the band. |
| MoveWithinTree.CrossTargetAhead | GlazeWM.Domain/Containers/CommandHandlers/MoveContainerWithinTreeHandler.cs:63-69 | Suppose both flags hold and the container lies below its branch. Then the target branch takes the original branch's focus index in the LCA, and the original branch follows right behind it. |
| MoveWithinTree.MoveToLowestCommonAncestor | GlazeWM.Domain/Containers/CommandHandlers/MoveContainerWithinTreeHandler.cs:74-98 | Each error occurs exactly under its condition: no branch, an LCA that is not a split container, an index outside 0..count. On success the move is what `SameSubtreeMoved` describes: `n` is the LCA's child at the adjusted index, sits at its branch's old focus index, and the LCA's other children and focus entries keep their order. Every other container only loses `n` from its children and focus order. |
| MoveWithinTree.AdjustedIndexSpec | GlazeWM.Domain/Containers/CommandHandlers/MoveContainerWithinTreeHandler.cs:81-93 | The attach index is `ti - 1` exactly when the container was a direct child of the LCA with index below `ti`, and `ti` otherwise. The LCA loses a child on detach exactly when the container was its direct child. |
| MoveWithinTree.SameSubtreeArena | GlazeWM.Domain/Containers/CommandHandlers/MoveContainerWithinTreeHandler.cs:76-97 | The container becomes the LCA's child at the adjusted index and the LCA's other children keep their order. The container sits at the focus index its branch held before the move. The rest of the LCA's focus order is unchanged, and it is still a duplicate-free permutation of the children. Every other container only loses the container from its children and focus order, which changes the old parent and nothing else. |
| MoveWithinTree.SameSubtreeAttachedSpec | GlazeWM.Domain/Containers/CommandHandlers/MoveContainerWithinTreeHandler.cs:85-95 | After the detach and attach, the container is the LCA's child at the adjusted index and the other children keep their order. The container's focus entry is the last one in the LCA's focus order, after the old entries without it. Every other container only loses the container from its children and focus order. |
| MoveWithinTree.IdentityMove | GlazeWM.Domain/Containers/CommandHandlers/MoveContainerWithinTreeHandler.cs:85-97 | Moving a container to its own parent at its own index gives back exactly the tree it started from, child orders and focus orders included. |
| MoveWithinTree.SameSubtreeIdentity | GlazeWM.Domain/Containers/CommandHandlers/MoveContainerWithinTreeHandler.cs:85-97 | Any arena the same-subtree move may produce for the container's own parent and own index is the original arena. |
| MoveWithinTree.ShiftRightExample | GlazeWM.Domain/Containers/CommandHandlers/MoveContainerWithinTreeHandler.cs:91-95 | In a split container with three children, moving the first child to index 2 succeeds and puts it at index 1, between the other two. |
| TreeOps.Detach | GlazeWM.Domain/Containers/CommandHandlers/MoveContainerWithinTreeHandler.cs:54 | The container becomes parentless. Its old parent's children and focus order lose exactly that container and keep their order, so the parent has one child fewer. Everything else is unchanged and the arena stays well formed. |
| TreeOps.DetachReindexes | GlazeWM.Domain/Containers/CommandHandlers/MoveContainerWithinTreeHandler.cs:85-88 | After a detach, later siblings move down one index and earlier ones keep theirs. |
| TreeOps.Attach | GlazeWM.Domain/Containers/CommandHandlers/MoveContainerWithinTreeHandler.cs:56 | A parentless container is inserted at `i` in the target's children, with later siblings shifting right. It gets index `i`, and its focus entry is appended at the end of the target's focus order. Everything else is unchanged and the arena stays well formed. |
| TreeOps.DetachAfterAttach | GlazeWM.Domain/Containers/CommandHandlers/MoveContainerWithinTreeHandler.cs:54-56 | Detaching a container right after attaching it restores the arena. |
| TreeOps.AttachAfterDetach | GlazeWM.Domain/Containers/CommandHandlers/MoveContainerWithinTreeHandler.cs:85-95 | Re-attaching at the old index restores the parent's children exactly. The only change is that the container's focus entry moved to the end. |
| TreeOps.SetFocusedDescendant | GlazeWM.Domain/Containers/CommandHandlers/MoveContainerWithinTreeHandler.cs:58-61 | The shape is kept and the arena stays well formed. Every container on `n`'s chain below `end` becomes its parent's most recent child. That is the only change to each such focus order: without the promoted child, the other entries keep their relative order. Only focus orders of containers from `n`'s parent up to `end` change. |
| TreeOps.ShiftFocus | GlazeWM.Domain/Containers/CommandHandlers/MoveContainerWithinTreeHandler.cs:66-69 | The entry moves to position `i` and all other entries keep their relative order. Only that one focus order changes, so the shape is kept and the arena stays well formed. |
| TreeOps.ShiftFocusKeepsPath | GlazeWM.Domain/Containers/CommandHandlers/MoveContainerWithinTreeHandler.cs:58-69 | Shifting in the focus order of a container outside a focus path keeps that path. |
| MoveWithinTree.OldParentOffBand | GlazeWM.Domain/Containers/CommandHandlers/MoveContainerWithinTreeHandler.cs:54-61 | The container's old parent is never on the target band that the focus walk reorders. A band member on the container's chain would be a common ancestor below the LCA. |
| Tree.Walk | GlazeWM.Domain/Containers/CommandHandlers/MoveContainerWithinTreeHandler.cs:39-47 | `SelfAndAncestors` (read again at line 77) starts at the container, lists only arena members and no container twice, and each entry's parent is the next entry. |
| Seqs.FirstIndex | GlazeWM.Domain/Containers/CommandHandlers/MoveContainerWithinTreeHandler.cs:39-40 | `First` (also at lines 47 and 78) finds the first element that satisfies the predicate: it satisfies it, and no earlier element does. The result is -1, the throwing case, exactly when no element does. |
| Seqs.IndexOf | GlazeWM.Domain/Containers/CommandHandlers/MoveContainerWithinTreeHandler.cs:51-52 | `FocusIndex` (also at line 79) and `Index` (line 82) give the first position that holds the element, and -1 exactly when it is absent. |
| Seqs.ShiftToIndexDistinct | GlazeWM.Domain/Containers/CommandHandlers/MoveContainerWithinTreeHandler.cs:66-69 | On a duplicate-free list, `ShiftToIndex(i, x)` keeps the list duplicate-free and puts `x` at `i`. Without `x` the list is unchanged. |
| Seqs.ShiftToOwnIndex | GlazeWM.Domain/Containers/CommandHandlers/MoveContainerWithinTreeHandler.cs:97 | Shifting an entry to the index it already has changes nothing. |
| Seqs.RemoveInsertRoundTrip | GlazeWM.Domain/Containers/CommandHandlers/MoveContainerWithinTreeHandler.cs:85-95 | Removing an element and inserting it back at its old index gives the list back. |
| Seqs.IndexOfBefore | GlazeWM.Domain/Containers/CommandHandlers/MoveContainerWithinTreeHandler.cs:49-52 | One focus index is below another exactly when that entry occurs before the other in the list. |
| Tree.WellFormedIndicesContiguous | GlazeWM.Domain/Containers/CommandHandlers/MoveContainerWithinTreeHandler.cs:82 | In a well-formed arena, the child at position `i` of any container has that container as parent and index `i`. |
| ToggleWindowState.NextState | packages/wm/src/windows/commands/toggle_window_state.rs:20-38 | It returns the requested state when the window is not in it. Otherwise it returns the previous state when there is one, or tiling when the window is not tiling. It returns no update exactly when the window is already tiling, tiling was requested, and there is no previous state. |
| ToggleWindowState.NextStateChanges | packages/wm/src/windows/commands/toggle_window_state.rs:23-38 | The toggle asks for the state the window is already in only when that state is its recorded previous state. |
| ToggleWindowState.ToggleBack | packages/wm/src/windows/commands/toggle_window_state.rs:23-29 | Requesting a new state gives that state. Repeating the request with the old state recorded as previous gives the old state back. |
| ToggleWindowState.QueueRedraw | packages/wm/src/windows/commands/toggle_window_state.rs:45 | The window is appended to the redraw queue: it occurs once more, the old queue is a prefix, and nothing else changes. |
| ToggleWindowState.Toggle | packages/wm/src/windows/commands/toggle_window_state.rs:14-48 | It fails exactly when the chosen update fails, and then returns that update's state and error untouched, with no redraw entry. Otherwise the state is the one the update left, or the original one when no update was chosen. The only change on top is one more redraw entry for the window, appended at the end. |
| ToggleWindowState.ToggleAlwaysRedraws | packages/wm/src/windows/commands/toggle_window_state.rs:10-13 | With an update that cannot fail, the toggle succeeds in every branch and the window is the last entry of the redraw queue. |

## Left out

- `packages/wm/src/ipc_server.rs` is not part of this model. It is socket I/O on async tasks with no tree or state logic.
- The command bus is not modelled: the handler calls the modelled detach, attach and focus commands directly.
- The handlers of `DetachContainerCommand`, `AttachContainerCommand` and `SetFocusedDescendantCommand`, and `Container`, `ContainerService` and `ChildFocusOrder`, are not part of this model. They are defined here by the behaviour the move relies on:
  - detach removes the container from its parent's children and focus order;
  - attach inserts it at the index and appends a focus entry;
  - set-focused-descendant moves every container on the path to the front of its parent's focus order.
- `LastFocusedDescendant` is not stored. It is derived by following the first entry of each focus order downwards, so it cannot go stale.
- A workspace counts as a split container, since in GlazeWM the workspace type derives from the split-container type.
- MoveWithinTree.MoveContainerWithinTree: where the source would throw part-way through, possibly after the detach, the model returns the error before changing anything.
- ToggleWindowState.Toggle: `update_window_state` is not part of this model. It is a parameter, an arbitrary total function returning the new manager state and an optional error. That includes a partial update before an error, and its own redraw entries.
- `WindowState`: the configurations carried by the floating and fullscreen states are abstract numbers. The toggle only compares states for equality.
- Geometry, redraw computation, user configuration, native window handles, and concurrency around the shared tree are not modelled.
