# Reparenting, the brush-entity check and editor list logic, in Dafny

This project models three pieces of the Sledge map editor:

- **The reversible reparent action.** The action records each object's identity
  and its parent's identity. `Perform` moves every recorded object under one
  target parent. `Reverse` moves each object back under its own original parent.
  Each of the two publishes `DocumentTreeStructureChanged` and then
  `VisgroupsChanged`.
- **The "brush entity has child entities" problem check and its fix.** The check
  reports every solid-class entity of the world that has something other than
  groups and solids below it. The fix builds, but does not perform, a reparent
  action. That action lifts every entity below the offender up to the offender's
  own parent.
- **Two pure computations of the editor shell.** The first is cyclic
  previous/next tab selection. The second is the update of the recent-file list:
  the list is ordered, the opened file is dropped from it, at most nine entries are kept,
  the opened file is put first and the list is renumbered.

The map is an arena, `MapTree(worldSpawn, objects)`: a map from object identity
to a record holding the parent's identity, the object's kind and the entity's
game-data class.

- `SetParent` changes that one field of that one record.
- `FindByID` on the world root becomes `Resolves`: the identity is live and is
  attached below the root.
- `Find` and `FindAll` list the matching identities of a subtree.

A `Document` pairs the tree with a log of events. Each `SetParent`, each
`UpdateAutoVisgroups` call and each `Mediator.Publish` call appends one event, so
the number and the order of the notifications can be stated.

Files:

- `wrappers.dfy`: `Option`.
- `ids.dfy`: sorted identity lists.
- `map_objects.dfy`: the tree, descendants, `SetParent`, `Find`.
- `documents.dfy`: the event log and counting.
- `operations.dfy`: the `Reparent` action.
- `reparent_laws.dfy`: round trip and notification laws.
- `problems.dfy`: the check, the fix and a worked example.
- `editor.dfy`: tabs and the recent-file list.

## Model

| member | source | states |
|---|---|---|
| `Operations.NewReparent` | Sledge.Editor/Actions/MapObjects/Operations/Reparent.cs:22-31 | One record per input object, in input order. Each record holds the object's identity and its parent's identity at construction. It requires every object to be live and to have a parent, and the tree is only read. |
| `Operations.Dispose` | Sledge.Editor/Actions/MapObjects/Operations/Reparent.cs:33-36 | The disposed action references no object and keeps its target identity. |
| `Operations.Perform` | Sledge.Editor/Actions/MapObjects/Operations/Reparent.cs:53-61 | Requires the target to resolve (`MapObjects.Resolves`, the model of `FindByID` at line 55). Every recorded object's parent becomes the target and every other object is unchanged. The root and the set of objects do not change. The log grows by one event per record plus three. |
| `Operations.Reverse` | Sledge.Editor/Actions/MapObjects/Operations/Reparent.cs:38-51 | Requires every original parent to resolve (`MapObjects.Resolves`, the model of `FindByID` at line 42). Each recorded object goes back under the parent its last record holds, and every other object is unchanged. The log grows by two events per record plus two. |
| `Operations.ResolveParents` | Sledge.Editor/Actions/MapObjects/Operations/Reparent.cs:40-42 | The lookup table has one entry per distinct original parent, and each entry resolves. |
| `Operations.MoveTreeEffect` | Sledge.Editor/Actions/MapObjects/Operations/Reparent.cs:56 | Calling `SetParent(target)` on each record in turn changes exactly the recorded objects' parent fields. |
| `Operations.RestoreTreeEffect` | Sledge.Editor/Actions/MapObjects/Operations/Reparent.cs:43-47 | The per-record restore loop leaves each recorded object under its last record's parent and changes nothing else. |
| `Operations.RestoreEventsShape` | Sledge.Editor/Actions/MapObjects/Operations/Reparent.cs:43-47 | For each record the restore loop logs a parent change, then that object's own auto-visgroup update. |
| `ReparentLaws.ConsistentLastParent` | Sledge.Editor/Actions/MapObjects/Operations/Reparent.cs:40-46 | When records agree on each object's parent, the parent `Reverse` restores for an object is its own record's parent. |
| `ReparentLaws.ReverseRestoresOwnParents` | Sledge.Editor/Actions/MapObjects/Operations/Reparent.cs:40-46 | After `Reverse`, every recorded object's parent is its own recorded original parent, even when the objects came from several parents. |
| `ReparentLaws.PerformThenReverseRestores` | Sledge.Editor/Actions/MapObjects/Operations/Reparent.cs:22-61 | For an action built on a document, `Perform` then `Reverse` gives back exactly the original tree. |
| `ReparentLaws.RedoRepeatsPerform` | Sledge.Editor/Actions/MapObjects/Operations/Reparent.cs:38-61 | Performing again after an undo yields the same tree as the first `Perform`. |
| `ReparentLaws.PerformLogCounts` | Sledge.Editor/Actions/MapObjects/Operations/Reparent.cs:57-60 | `Perform` publishes each message once and updates auto-visgroups once. |
| `ReparentLaws.PerformNotifications` | Sledge.Editor/Actions/MapObjects/Operations/Reparent.cs:55-60 | `Perform` logs the moves in record order, then one batched update naming every recorded object, then the two messages in order. Each message is published once, and only after every move. |
| `ReparentLaws.RestoreEventsCounts` | Sledge.Editor/Actions/MapObjects/Operations/Reparent.cs:43-47 | The restore loop updates auto-visgroups once per record and publishes nothing. |
| `ReparentLaws.ReverseLogPositions` | Sledge.Editor/Actions/MapObjects/Operations/Reparent.cs:43-50 | `Reverse` logs a move and that object's update for each record, then the two messages in order. |
| `ReparentLaws.ReverseLogCounts` | Sledge.Editor/Actions/MapObjects/Operations/Reparent.cs:46-50 | `Reverse` publishes each message once and updates auto-visgroups once per record. |
| `ReparentLaws.ReverseNotifications` | Sledge.Editor/Actions/MapObjects/Operations/Reparent.cs:40-50 | Combines the `Reverse` log positions and counts, with every publication after every move. |
| `MapObjects.SetParent` | Sledge.Editor/Actions/MapObjects/Operations/Reparent.cs:45 | Only the parent field of the one object changes. |
| `MapObjects.Find` | Sledge.Editor/Problems/SolidEntityWithEntityChildren.cs:14-15 | Lists exactly the matching objects of a subtree, the subtree's root included, in ascending identity order. |
| `MapObjects.FindBelow` | Sledge.Editor/Problems/SolidEntityWithEntityChildren.cs:26 | Lists exactly the matching objects strictly below an object, in ascending identity order. |
| `Problems.AnyForeignContent` | Sledge.Editor/Problems/SolidEntityWithEntityChildren.cs:18 | The `Any` test over the children's subtrees holds exactly when something below is neither a group nor a solid. |
| `Problems.WorldEntities` | Sledge.Editor/Problems/SolidEntityWithEntityChildren.cs:14-15 | Exactly the entities attached below the world root. |
| `Problems.EntitiesWithGameData` | Sledge.Editor/Problems/SolidEntityWithEntityChildren.cs:16 | Of those, exactly the ones that have game data. |
| `Problems.BrushEntities` | Sledge.Editor/Problems/SolidEntityWithEntityChildren.cs:17 | Of those, exactly the ones whose class is solid. |
| `Problems.OffendingEntities` | Sledge.Editor/Problems/SolidEntityWithEntityChildren.cs:14-18 | An entity is selected exactly when it is a world entity with solid-class game data and has something other than groups and solids below it. |
| `Problems.Check` | Sledge.Editor/Problems/SolidEntityWithEntityChildren.cs:12-22 | There is one problem per offending entity, naming that entity alone, with the fixed title and description. An entity is named exactly when it offends, in ascending identity order. |
| `Problems.ProblemsForNames` | Sledge.Editor/Problems/SolidEntityWithEntityChildren.cs:20 | The problems built for a list of identities name exactly those identities. |
| `Problems.Fix` | Sledge.Editor/Problems/SolidEntityWithEntityChildren.cs:24-27 | The target is the offender's parent. The records are exactly the entities below the offender, each with its current parent. Nothing is performed. |
| `Problems.LiftedChainStaysBelow` | Sledge.Editor/Problems/SolidEntityWithEntityChildren.cs:26 | After the lift, a parent chain that reaches the offender existed before the lift and passes no lifted object. |
| `Problems.LiftedLeavesNoEntityBelow` | Sledge.Editor/Problems/SolidEntityWithEntityChildren.cs:26 | Lifting the fix's records leaves no entity below the offender. |
| `Problems.FixCanPerform` | Sledge.Editor/Problems/SolidEntityWithEntityChildren.cs:24-27 | On a well-formed tree the fix's target resolves and its records are live. |
| `Problems.FixLeavesNoEntityBelow` | Sledge.Editor/Problems/SolidEntityWithEntityChildren.cs:14-26 | On a well-formed tree, performing the fix leaves no entity below the offender. |
| `Problems.FixClearsProblem` | Sledge.Editor/Problems/SolidEntityWithEntityChildren.cs:14-26 | On a well-formed tree, performing the fix leaves no entity below the offender, so the check no longer reports it. |
| `Problems.CheckSingleOffender` | Sledge.Editor/Problems/SolidEntityWithEntityChildren.cs:12-22 | A map with exactly one offender yields exactly one problem, which names it. |
| `Problems.FixSingleEntity` | Sledge.Editor/Problems/SolidEntityWithEntityChildren.cs:24-27 | With exactly one entity below the offender, the fix is the one record of that entity, under the offender's parent. |
| `Problems.NestedEntityCheck` | Sledge.Editor/Problems/SolidEntityWithEntityChildren.cs:12-22 | On the map root 1 ⊃ brush entity 2 ⊃ group 3 ⊃ point entity 4, the check reports entity 2 alone. |
| `Problems.NestedEntityFix` | Sledge.Editor/Problems/SolidEntityWithEntityChildren.cs:24-27 | On that map, the fix moves entity 4 from parent 3 to parent 1. `Perform` puts it there and `Reverse` restores the map. |
| `Editor.PreviousTab` | Sledge.Editor/Editor.cs:399-407 | With at most one tab, nothing changes. Otherwise the result is a valid index, equal to the selection minus one modulo the tab count. From the first tab, and from no selection, it wraps round to the last tab. |
| `Editor.NextTab` | Sledge.Editor/Editor.cs:409-417 | With at most one tab, nothing changes. Otherwise the result is a valid index, equal to the selection plus one modulo the tab count, from no selection as well. |
| `Editor.NextThenPrevious` | Sledge.Editor/Editor.cs:399-417 | Next then previous returns to the selected tab. |
| `Editor.PreviousThenNext` | Sledge.Editor/Editor.cs:399-417 | Previous then next returns to the selected tab. |
| `Editor.NextTabsCycle` | Sledge.Editor/Editor.cs:409-417 | Pressing next `k` times advances the selection by `k` modulo the tab count. |
| `Editor.PreviousTabsCycle` | Sledge.Editor/Editor.cs:399-407 | Pressing previous `k` times moves the selection back by `k` modulo the tab count. |
| `Editor.OrderBySorts` | Sledge.Editor/Editor.cs:759 | `OrderBy(x => x.Order)` returns a permutation of the list, sorted by order. |
| `Editor.OrderByStable` | Sledge.Editor/Editor.cs:759 | Entries of equal order keep their relative positions. |
| `Editor.WithoutLocation` | Sledge.Editor/Editor.cs:759 | `Where(x => x.Location != path)` keeps exactly the entries for other files. |
| `Editor.WithoutLocationCounts` | Sledge.Editor/Editor.cs:759 | `Where` keeps each other-file entry exactly as many times as the list holds it, and keeps no entry for the opened file. |
| `Editor.Take` | Sledge.Editor/Editor.cs:759 | `Take(9)` keeps the first nine entries in their order, or all of them when there are fewer. |
| `Editor.Renumber` | Sledge.Editor/Editor.cs:761-764 | The loop keeps every entry's location and position and sets each entry's order to its index. |
| `Editor.RecentFileUpdate` | Sledge.Editor/Editor.cs:759-764 | The list holds 1 to 10 entries. The opened file is first and appears nowhere else, and the orders are 0, 1, …, n−1. |
| `Editor.RetainedEntries` | Sledge.Editor/Editor.cs:759 | `Editor.Retained` is the query of line 759. The kept entries are sorted by old order and come from the old list. None is the opened file. There are nine of them, or every other-file entry when there are fewer. |
| `Editor.RetainedAll` | Sledge.Editor/Editor.cs:759 | With at most nine entries for other files, the query keeps every one of them, as often as the old list holds it. |
| `Editor.RetainedEarliest` | Sledge.Editor/Editor.cs:759 | Every other-file entry that is dropped has an order no earlier than any kept entry. |
| `Editor.RetainedStable` | Sledge.Editor/Editor.cs:759 | Among kept entries of equal order, the old relative order is kept. |
| `Editor.RecentFileUpdateShape` | Sledge.Editor/Editor.cs:759-764 | The new list is the opened file followed by the kept entries, renumbered from 1. |
| `Editor.RecentFileUpdateIdempotent` | Sledge.Editor/Editor.cs:759-764 | Opening the same file twice in a row leaves the list as the first open made it. |

## Left out

- Child order is not modelled. The arena lists identities in ascending order, so `Check` reports problems, and `Fix` records entities, in ascending identity order.
- The record's `MapObject` reference is not modelled. In the arena an object is its identity, so the reference and the identity coincide.
- `Operations.Reverse`: the code calls `SetParent` on the held reference of each recorded object, whether or not the object is still in the map. The model follows the code and requires every recorded object to be live. It does not skip deleted objects. The intended design of the action is that reversal skips a recorded object that a later edit deleted, and the code does not do that.
- `Operations.Perform` and `Operations.Reverse` require their lookups to resolve. `FindByID` returning nothing is not handled by the code: it would pass a null parent. So "the target resolves" and "every original parent resolves" are preconditions.
- `Operations.Perform` requires every recorded object to be live, as `Reverse` does. The code calls `SetParent` on the held reference even for an object that a later edit deleted.
- `Problems.Problem` keeps the objects, the title and the description. It does not keep the check-type tag, the map reference or the `Fix` delegate that line 20 of `SolidEntityWithEntityChildren.cs` stores: `Fix` is called directly with the problem.
- Rolling back a half-done `Perform` or `Reverse` is not modelled. The code has no such path.
- The internals of `Map.UpdateAutoVisgroups` and the mediator's dispatch are not shown. Each call is one opaque event in the log.
- After `Dispose`, the code's `Perform` and `Reverse` would dereference a null list. The model's `Disposed` action is simply not accepted by `Perform` or `Reverse`.
- `ReparentLaws.PerformThenReverseRestores` assumes every original parent still resolves after `Perform`. When the target lies below one of the moved objects, an original parent can become detached. The code would then pass a null parent and not restore the object.
- `MapObjects.IsDescendant` follows at most as many parent links as the map has objects. That is exact on acyclic trees. On a cyclic parent chain it answers "yes" for every object on the cycle, which is how `Acyclic` detects the cycle, and "no" for any `a` off the chain.
- That `Perform` and `Reverse` keep the tree well-formed is not proved. `Problems.FixClearsProblem` needs the tree well-formed before the fix runs, not after.
- `Problems.FixClearsProblem`: it shows that the performed fix leaves no entity below the offender, and that the offender is no longer reported. It does not show that the check reports nothing anywhere else.
- That construction and the check are read-only, and that two checks of the same tree agree, holds because they are pure functions of the tree. No separate statement is made.
- Game-data parsing is not modelled. The game-data class is a plain field of the object record.
- The rest of `Sledge.Editor/Editor.cs` is not modelled: WinForms setup, docking, the toolbar and status bar, the mediator subscription table, compile and launch, the update checker (network I/O), settings and session persistence, jump lists and background tasks. All of it is UI, I/O, foreign calls or concurrency.
- The recent-file update's I/O is not modelled: `Elevation.RegisterFileType`, `JumpList`, `SettingsManager.Write` and the menu refresh. Only the list computation is.
- `Sledge.Sandbox/QuickStartBootstrap.cs` is not modelled. It is a start-up script that registers providers and opens file browsers at fixed paths.
- The tab strip is modelled by its tab count and selected index. The WinForms control itself is not modelled.
