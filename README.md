# Flicking core, modelled in Dafny

Flicking is a carousel component. Its controller, the `Flicking` class in
`src/Flicking.ts`, keeps a table of original panels and one table per clone
group, a viewport with a camera and a gesture state machine, and lists of
checked (already measured) index ranges. The Vue wrapper in
`packages/vue-flicking/src/Flicking.ts` renders the panels as virtual nodes.
Some of those nodes are clones of the slot nodes. After each render the
wrapper hands the renderer's diff to the controller's `sync`.

This project models:

- the controller's movement commands: `moveTo` with its circular
  nearest-copy resolution, and the `prev`/`next` guards;
- the insertion index of `prepend` and `append`;
- the hole filtering of `getAllPanels` and `getStatus`;
- the callback object that `triggerEvent` returns;
- `moveCamera`;
- `sync`: the full resynchronisation and the three only-visible branches;
- the wrapper's `$_getPanels`, `$_getClonedVNodes`, `$_cloneVNode`,
  `onUpdate` and `$_checkCloneCount`.

Modules:

| file | module | contents |
|---|---|---|
| `wrappers.dfy` | `Wrappers` | `Option` |
| `js_semantics.dfy` | `JsSemantics` | truncating `%`, `slice`, sparse-array assignment and reads, `filter`, number printing |
| `panels.dfy` | `Panels` | panels, panel tables with holes, `getRange`, the diff record |
| `navigation.dfy` | `Navigation` | `moveTo`, `prev`/`next`, `prepend`/`append`, `getAllPanels`, `getStatus`, `triggerEvent` |
| `checked_ranges.dfy` | `CheckedRanges` | `updateCheckedIndexes` and the push of checked ranges |
| `sync_tables.dfy` | `SyncTables` | the loops that rebuild the original and clone tables in a full `sync` |
| `visible_sync.dfy` | `VisibleSync` | the only-visible branches of `sync` |
| `controller.dfy` | `Controller` | `moveCamera`'s direction rule, the full-`sync` arithmetic, and the controller class |
| `vue_flicking.dfy` | `VueFlicking` | the virtual-node clone and key rule, the rendered lists, and the wrapper class |

Panels are values (`Panels.Panel`). A panel table is a sequence of optional
panels, because a JavaScript array written at arbitrary indices has holes.
The loops that write such arrays (`newPanels[afterIdx] = ...`) are methods
with loop invariants. Each method is proved against a predicate that states
the whole resulting table; those predicates are in `SyncTables.OriginalsBuilt`,
`SyncTables.CloneGroupBuilt`, `VisibleSync.OriginalsPlaced` and
`VisibleSync.ClonesPlaced`. The controller and the wrapper are classes whose
fields the methods update.

### Behaviour worth noting

- **moveTo, circular mode.** One might expect the "next loop" candidate
  always to go to clone group 0 and the "previous loop" candidate to the last
  group, with ties keeping the original. The code instead decides by the sign
  of `nearestPosition - anchorPosition`, where `nearestPosition` already has
  the relative anchor subtracted. So when the panel's own copy is nearest and
  its relative anchor is positive, the last clone group is taken
  (`Navigation.OwnCopyWithPositiveAnchorGoesToLastClone`). With a zero
  relative anchor each loop does map to its own copy
  (`Navigation.ZeroAnchorFollowsLoop`). The `reduce` keeps the first of
  equally near candidates, and the previous-loop candidate comes first, so a
  tie between it and the own copy goes to the previous loop
  (`Navigation.NearestOfThree`). The model follows the code.
- **moveCamera.** Outside circular mode a still camera keeps the direction
  (`Controller.StillCameraKeepsDirection`). In circular mode, a tick with no
  camera change and an input that is not towards "next" counts as having
  wrapped: the change becomes `+scrollAreaSize` and the direction turns
  `NEXT` (`Controller.StillCircularCameraTurnsNext`). The model follows the
  code.

Two observations are not claimed as findings. Both follow from the code,
and the authors may have meant them:

- Clone group 0 gets no key, because `cloneIndex ? ... : undefined` treats
  group index 0 as false (`VueFlicking.CloneVNode`). Keys still never clash
  between keyed groups (`VueFlicking.CloneKeysSeparateGroups`).
- In only-visible mode, the wrapper renders `max - min + 1` visible entries.
  The controller reads the added items' elements from index `max - min` on
  (`VueFlicking.VisibleCountsDiffer`). The model keeps both as written.

## Model

| member | source | states |
|---|---|---|
| JsSemantics.Abs | src/Flicking.ts:206 | `Math.abs`: non-negative and equal to `x` or `-x` |
| JsSemantics.TruncRem | packages/vue-flicking/src/Flicking.ts:173-174 | JavaScript `%`: for a non-negative dividend it is the Euclidean remainder; for a negative one it lies in `(-b, 0]` and equals `a` plus a multiple of `b` |
| JsSemantics.Slice | src/Flicking.ts:610-611 | `slice` clamps both bounds: an in-range slice is the subsequence, an end past the array gives the rest from the start, a start past the array or an empty range gives `[]`, and the result is never longer than the input |
| JsSemantics.SlicePrefix | packages/vue-flicking/src/Flicking.ts:224 | `slice(0, end)` is a prefix; its length is `end` clamped to the length, and a negative `end` counts back from the end |
| JsSemantics.Put | src/Flicking.ts:622 | assignment into a sparse array: the slot holds the value, every other old slot is unchanged, and the array grows with holes up to the index |
| JsSemantics.At | src/Flicking.ts:638 | a read past either end of an array is `undefined` |
| JsSemantics.Filter | src/Flicking.ts:617-619 | `filter` keeps exactly the elements that pass the test |
| JsSemantics.FilterAppend | src/Flicking.ts:617-619 | filtering a concatenation is the concatenation of the filtered parts, in order |
| JsSemantics.NatToString | packages/vue-flicking/src/Flicking.ts:235 | a number prints as a non-empty string of decimal digits |
| JsSemantics.NatToStringInjective | packages/vue-flicking/src/Flicking.ts:235 | different numbers print differently |
| Panels.NewPanel | src/Flicking.ts:627 | a new panel holds its element and index and is not a clone |
| Panels.CloneExternal | src/Flicking.ts:639 | a clone keeps the original's index, records its group and takes the given element |
| Panels.ElementAt | src/Flicking.ts:627 | reading an element list: the element inside the list, `undefined` outside it |
| Panels.ElementOfSlice | src/Flicking.ts:684 | reading a slice at `i` is reading the list at `start + i`, also past the list, where both are `undefined` |
| Panels.SetIndex | src/Flicking.ts:623 | `setIndex` changes the index only |
| Panels.Get | src/Flicking.ts:186 | a panel is found exactly when the index is inside the table and the slot is not a hole |
| Panels.Compact | src/Flicking.ts:301-302 | dropping holes keeps exactly the panels the table holds |
| Panels.CompactAppend | src/Flicking.ts:297-302 | dropping holes from originals followed by clones equals the dropped originals followed by the dropped clones |
| Panels.CompactDense | src/Flicking.ts:401-402 | on a table without holes, dropping holes changes nothing |
| Panels.GetRange | src/Flicking.ts:516 | `getRange()` is `{0, -1}` for a table with no panel; otherwise its bounds hold panels and every panel lies between them |
| Navigation.FirstNearestIndex | src/Flicking.ts:205-209 | the reference choice: every earlier candidate is strictly farther from the hanger and no later one is nearer |
| Navigation.ReduceNearestIsFirstNearest | src/Flicking.ts:205-209 | the `reduce` seeded with `Infinity` returns the first nearest candidate |
| Navigation.NearestOfThree | src/Flicking.ts:200-208 | of the three loop candidates, the one picked is nearest, and every candidate before it is strictly farther |
| Navigation.NearestAnchor | src/Flicking.ts:198-209 | the nearest anchor is a candidate no farther than any other; the own copy beats the previous loop strictly, and the next loop beats both strictly |
| Navigation.Retarget | src/Flicking.ts:211-219 | a positive offset takes clone group 0 and throws when there is none; a negative one takes the last group, or the panel itself without clones; zero keeps the panel |
| Navigation.MoveTo | src/Flicking.ts:184-242 | no move without the panel or outside `Idle`; a move never targets the current place; the event is `change` exactly when the index changes; outside circular mode it moves to the panel itself whenever it is needed and never throws; in circular mode it throws exactly when the nearest copy needs a clone group and there is none, the target is the nearest candidate retargeted by the offset rule, and it moves whenever it neither throws nor stays where it is |
| Navigation.OwnCopyWithPositiveAnchorGoesToLastClone | src/Flicking.ts:209-218 | when the own copy is nearest and the relative anchor is positive, the move goes to the last clone group |
| Navigation.ZeroAnchorFollowsLoop | src/Flicking.ts:209-219 | with a zero relative anchor, the next loop maps to group 0, the previous loop to the last group, and the own copy to the panel |
| Navigation.PreviousLoopExample | src/Flicking.ts:198-209 | track 300, hanger 0, anchor 280: the previous loop at -20 is chosen |
| Navigation.Step | src/Flicking.ts:143-175 | `prev`/`next` focus a panel exactly when there is a current panel, the state is `Idle` and the neighbour exists; that neighbour is the one focused |
| Navigation.MovementOnlyWhenIdle | src/Flicking.ts:143-191 | outside `Idle`, none of `moveTo`, `prev` or `next` has an effect |
| Navigation.PrependIndex | src/Flicking.ts:516 | the insertion index of `prepend` leaves room for the elements before the first panel, or is 0 |
| Navigation.PrependFillsLeadingHole | src/Flicking.ts:512-518 | when the elements fit before the first panel they end right before it, in empty slots; otherwise they go to index 0 |
| Navigation.AppendIndex | src/Flicking.ts:537 | `append` inserts after every panel and within the table, right after the last panel or at 0 when there is none, and only holes follow that index |
| Navigation.AppendIndexUnique | src/Flicking.ts:537 | no other index follows every panel and is 0 or right after a panel, so trailing holes do not move the insertion point |
| Navigation.AllPanels | src/Flicking.ts:294-303 | `getAllPanels` lists exactly the originals, or with `includeClone` exactly the originals and the clones of every group, holes dropped |
| Navigation.FlattenCompact | src/Flicking.ts:297-298 | the clone groups, flattened with holes dropped, hold exactly the clones of some group |
| Navigation.GetStatus | src/Flicking.ts:398-415 | the status holds the current index and camera position, and one entry per panel, holes dropped and in order |
| Navigation.StatusOfDenseTable | src/Flicking.ts:401-408 | on a table without holes the status lists every panel at its own position |
| Navigation.TriggerEvent | src/Flicking.ts:785-815 | an event counts as canceled exactly when the viewport does not exist yet or a listener stopped it |
| Navigation.ExactlyOneCallbackRuns | src/Flicking.ts:817-830 | chained in either order, `onSuccess` and `onStopped` run exactly one callback, chosen by `canceled` |
| CheckedRanges.DropOverlapping | src/Flicking.ts:651 | `updateCheckedIndexes` forgets exactly the checked ranges that meet the given range |
| CheckedRanges.DropAdded | src/Flicking.ts:651 | a range survives the added indices exactly when it covers none of them |
| CheckedRanges.DropRemoved | src/Flicking.ts:652 | a range survives the removed indices exactly when it meets no removed index or its neighbours |
| CheckedRanges.DropMaintained | src/Flicking.ts:663-666 | a range survives the kept items exactly when it covers none of their new indices |
| CheckedRanges.Shifted | src/Flicking.ts:655-659 | pushing a range keeps its width |
| CheckedRanges.PushedIndexBounds | src/Flicking.ts:657-658 | a range moves back by at most the number of removed indices and forward by at most the number of added ones |
| CheckedRanges.NothingBeforeKeepsRange | src/Flicking.ts:655-660 | a range with no added or removed index before it does not move |
| CheckedRanges.NewSlotsDoNotPush | src/Flicking.ts:657 | added indices the old table did not hold do not push any range |
| SyncTables.PlaceKept | src/Flicking.ts:621-624 | every kept panel sits at its new index with that index set, only new indices of kept panels are filled, and the table ends with a panel |
| SyncTables.PlaceAdded | src/Flicking.ts:626-628 | each added index holds a new panel on its element, and the kept panels stay in place |
| SyncTables.BuildOriginals | src/Flicking.ts:617-628 | the new original table holds exactly the kept panels and the added panels, each at its new index |
| SyncTables.PrevGroup | src/Flicking.ts:633 | the previous clone group exists exactly for group indices below the old group count |
| SyncTables.BuildCloneGroup | src/Flicking.ts:636-646 | a new clone group holds, at each kept index, the old clone or else a fresh clone on the group's element, and at each added index a fresh clone |
| SyncTables.PlaceKeptInGroup | src/Flicking.ts:636-640 | every kept index of the group holds its old clone, or a fresh clone when the group is new |
| SyncTables.PlaceAddedInGroup | src/Flicking.ts:642-646 | every added index of the group holds a clone of the new panel on the element at the group's offset |
| SyncTables.BuildClones | src/Flicking.ts:630-648 | there is one clone table per new group: empty outside circular mode, built by the group rule in circular mode |
| SyncTables.GroupOffsetFits | src/Flicking.ts:632-645 | every element index `originalCount * g + i` a clone reads lies inside the cloned elements |
| VisibleSync.AddedCloneElementsAsWritten | src/Flicking.ts:697 | as written, the slice is empty whenever `addedCount * cloneCount` does not pass the start offset |
| VisibleSync.AddedCloneSliceIsEmpty | src/Flicking.ts:697 | three visible panels, one added item, one group: the slice of the clone's elements is empty |
| VisibleSync.AddedCloneElements | src/Flicking.ts:695-697 | corrected: the `addedCount * cloneCount` elements right after the added items |
| VisibleSync.AddedCloneElementFor | src/Flicking.ts:697-703 | with the corrected slice, the clone of added item `index` in group `g` reads the element rendered for it, and no two pairs share an element |
| VisibleSync.NewCloneStrideCollides | src/Flicking.ts:725 | as written, with 3 panels and groups 0 to 2, panel 2 of the first new group and panel 0 of the second read the same element |
| VisibleSync.NewCloneElementIndex | src/Flicking.ts:725 | corrected: the element index of a clone in new group `offset` lies in that group's block of `panelCount` |
| VisibleSync.NewCloneElementsDistinct | src/Flicking.ts:720-725 | with the corrected stride, every (panel, group) pair reads its own element inside the slice |
| VisibleSync.NewCloneGroup | src/Flicking.ts:725 | a new group has one clone per original panel, holes stay holes, and each clone is on its own element |
| VisibleSync.InsertClones | src/Flicking.ts:727 | `insertClones` puts the new group at its index and keeps the groups before it |
| VisibleSync.RemoveClonesAfter | src/Flicking.ts:733 | `removeClonesAfter(n)` keeps the first `n` groups |
| VisibleSync.PlaceKeptClones | src/Flicking.ts:686-693 | each kept panel takes its new index, and its clones move to that index in their groups |
| VisibleSync.KeptCloneGroups | src/Flicking.ts:683-693 | every group of the new clone tables holds the kept panels' clones at their new indices |
| VisibleSync.AddedBlock | src/Flicking.ts:698-708 | the visible panels one added item contributes: the panel, then in circular mode its clone in each group |
| VisibleSync.AddedClones | src/Flicking.ts:702-705 | one clone of the added panel per group, each on its own element |
| VisibleSync.AddedPanelListShape | src/Flicking.ts:698-709 | the added visible panels are the blocks of the added items, in order |
| VisibleSync.PutClones | src/Flicking.ts:702-705 | each group's table gets the clone at the added index, and nothing else changes |
| VisibleSync.PlaceAddedVisible | src/Flicking.ts:698-700 | each added index holds a new panel on its element |
| VisibleSync.PlaceAddedClonesVisible | src/Flicking.ts:701-705 | in circular mode every group holds the added panel's clone at the added index |
| VisibleSync.InsertedGroupsAppend | src/Flicking.ts:723-729 | inserting one more group extends both the clone tables and the visible panels by that group |
| VisibleSync.NewGroupPanelsAt | src/Flicking.ts:723-729 | the visible panels of `k` new groups are `k` blocks of one group each: position `idx + panelCount * o` holds entry `idx` of group `o` |
| VisibleSync.NewGroupPanelsAreClones | src/Flicking.ts:725-728 | the visible panels added for new groups are clones of the originals, group by group |
| VisibleSync.AddCloneGroups | src/Flicking.ts:720-729 | the clone tables gain the new groups at their indices, and the visible panels gain their clones in group order |
| VisibleSync.NewGroupElement | src/Flicking.ts:720-725 | with the corrected stride, the clone of panel `idx` in new group `o` is on the element rendered at `start + idx + panelCount * o`, or `undefined` past the list |
| VisibleSync.InsertCloneGroups | src/Flicking.ts:723-729 | the loop over new groups yields the state `CloneGroupsAdded` describes |
| VisibleSync.AddedElements | src/Flicking.ts:684 | the added items' elements follow the previously visible ones |
| VisibleSync.AddedCloneSlice | src/Flicking.ts:696-697 | the elements of the added clones follow the added items |
| VisibleSync.RebuildForOriginals | src/Flicking.ts:680-709 | the new tables hold the kept panels and clones at their new indices and the added panels and clones; the added visible panels are listed item by item |
| Controller.CameraChange | src/Flicking.ts:849-855 | the camera change is the position difference, except in circular mode when its sign disagrees with the input; then it is measured the other way round the loop |
| Controller.NewDirection | src/Flicking.ts:857-863 | the direction is either kept or set |
| Controller.NewDirectionRule | src/Flicking.ts:849-863 | the whole direction rule: outside circular mode the sign of the change decides, and no change keeps the direction; in circular mode a change of a full track keeps it, a longer one is read by its sign, and a shorter one, read across the seam, sets the direction against its sign |
| Controller.StillCameraKeepsDirection | src/Flicking.ts:857-858 | outside circular mode, a move with no camera change keeps the direction |
| Controller.StillCircularCameraTurnsNext | src/Flicking.ts:850-858 | in circular mode, a still camera with an input not towards "next" sets the direction to `NEXT` |
| Controller.SeamCrossingReversesDirection | src/Flicking.ts:850-861 | in circular mode, a change whose sign disagrees with the input is read as crossing the seam, and the direction is set against the change |
| Controller.AgreeingChangeSetsDirection | src/Flicking.ts:849-861 | a change that agrees with the input sets the direction by its sign |
| Controller.NewOriginalCount | src/Flicking.ts:607 | the original count is the floor of the list length over the group count |
| Controller.NewCloneCount | src/Flicking.ts:608 | the clone count is the floor of the length over the original count, minus one, and 0 when there are no originals |
| Controller.CloneGroupsFitList | src/Flicking.ts:607-611 | the new clone count is at least the old one, and the new clone groups fit in the cloned elements |
| Controller.KeptOriginals | src/Flicking.ts:617 | exactly the kept items whose old index is within the old range |
| Controller.AddedOriginals | src/Flicking.ts:619 | exactly the added indices below the new original count |
| Controller.ShiftAll | src/Flicking.ts:654-660 | every checked range is pushed, and the number of ranges is kept |
| Controller.CheckedAfterSyncDropsTouched | src/Flicking.ts:651-666 | every surviving range comes from an old range of the same width that touched no added or removed index; after a change it covers no kept item's new index |
| Controller.RebuildTables | src/Flicking.ts:607-648 | the full rebuild yields the original and clone tables `FullRebuilt` describes |
| Controller.LastReport | src/Flicking.ts:740-744 | the last of the reported panels that names a position: it names it, and no later report does; -1 when none does |
| Controller.Rebound | src/Flicking.ts:742-743 | `setElement`: a reported panel takes the element rendered at its report index, `undefined` past the list; an unreported entry or a hole stays as it is |
| Controller.ReboundPanelAt | src/Flicking.ts:740-744 | after the loop, each position of the tables holds its old panel bound to the element of the last report that named it |
| Controller.RebindFollowsRenderOrder | src/Flicking.ts:740-744 | when no panel is reported twice, the `k`-th visible panel is bound to the `k`-th rendered element and is otherwise unchanged |
| Controller.Flicking.constructor | src/Flicking.ts:97-135 | a new controller has no panels, clones or checked ranges, camera 0, and an idle state |
| Controller.Flicking.MoveCamera | src/Flicking.ts:834-873 | a trusted move while holding updates the direction; the delta always grows; the camera follows, and goes back when the move event is canceled |
| Controller.Flicking.ShiftCheckedIndexes | src/Flicking.ts:654-660 | the in-place loop leaves every checked range pushed |
| Controller.Flicking.SyncFull | src/Flicking.ts:598-669 | no change leaves everything as it is; it throws exactly when a kept original names no panel, and then nothing is replaced; otherwise the panels, clones, clone count and checked ranges are rebuilt as specified |
| Controller.Flicking.SyncVisibleOriginals | src/Flicking.ts:680-716 | it throws exactly when a kept item names no panel, and then nothing changes; otherwise the tables are rebuilt from the original list's diff, the added panels are appended to the old visible panels, and the window is reset |
| Controller.Flicking.SyncVisibleCloneCount | src/Flicking.ts:717-737 | more groups add cloned groups and their visible panels; fewer drop the surplus groups; the window is reset |
| Controller.Flicking.RebindVisible | src/Flicking.ts:738-747 | every table entry a reported panel occupies is rebound to the element at its last report index, no other entry changes, and the visible panels become the reported ones |
| Controller.Flicking.Sync | src/Flicking.ts:587-750 | it throws exactly when the branch taken meets a kept index that names no panel, and then nothing changes; the full branch leaves no-change diffs alone and otherwise rebuilds the tables; in only-visible mode, a changed original list rebuilds from it, a changed clone count adds or drops groups, and otherwise the reported panels are rebound; camera and state never change |
| VueFlicking.CloneVNode | packages/vue-flicking/src/Flicking.ts:233-250 | a clone copies tag, data and text; it is keyed exactly when the clone index is truthy; its children are clones without an index |
| VueFlicking.CloneOnlyChangesKeys | packages/vue-flicking/src/Flicking.ts:237-247 | a clone equals the node once keys are ignored, at every depth |
| VueFlicking.NestedClonesUnkeyed | packages/vue-flicking/src/Flicking.ts:237-239 | nested clones carry no key at any depth |
| VueFlicking.CloneKeyParts | packages/vue-flicking/src/Flicking.ts:235 | a clone key is `clone`, the group number, `-`, then the node key or the child index |
| VueFlicking.CloneKeysSeparateGroups | packages/vue-flicking/src/Flicking.ts:234-236 | clones of different groups get different keys |
| VueFlicking.UnkeyedCloneKeysDistinct | packages/vue-flicking/src/Flicking.ts:234-236 | unkeyed nodes at different positions of one group get different keys |
| VueFlicking.VisibleEntryAsWritten | packages/vue-flicking/src/Flicking.ts:172-185 | as written, an index renders a slot node exactly when it is within the originals, and the slot is always a valid one |
| VueFlicking.VisibleEntry | packages/vue-flicking/src/Flicking.ts:170-186 | corrected: the index is the slot plus `panelCnt` times the group's place on the track, with clones before the originals counting back from the last group |
| VueFlicking.VisibleEntryWithinClones | packages/vue-flicking/src/Flicking.ts:172-182 | every index of the circular track names an existing clone group |
| VueFlicking.AsWrittenSlotAgrees | packages/vue-flicking/src/Flicking.ts:172-177 | as written, the slot is right for every index, and the whole entry is right from -1 upwards |
| VueFlicking.AsWrittenCloneIndexOverruns | packages/vue-flicking/src/Flicking.ts:174 | as written, indices in `[-panelCnt, -2]` get a group index past the last group |
| VueFlicking.AsWrittenEntriesCollide | packages/vue-flicking/src/Flicking.ts:172-177 | three panels, two groups: indices -4 and -1 both render slot 2 of group 1, where they should be groups 0 and 1 |
| VueFlicking.CloneRunLength | packages/vue-flicking/src/Flicking.ts:227-229 | `count` clone groups of `w` nodes are `w * count` nodes long |
| VueFlicking.CloneRunAt | packages/vue-flicking/src/Flicking.ts:227-229 | position `j + w * g` of the clone run holds node `j` cloned into group `from + g` |
| VueFlicking.CloneRunShape | packages/vue-flicking/src/Flicking.ts:227-230 | the clone run is group-major: every (group, node) pair sits at its own position |
| VueFlicking.Originals | packages/vue-flicking/src/Flicking.ts:224 | the originals are a prefix of the slots: all of them for an infinite last index, `lastIndex + 1` of them otherwise |
| VueFlicking.OptionLastIndex | packages/vue-flicking/src/Flicking.ts:156-158 | a missing or zero `lastIndex` option falls back to `Infinity` |
| VueFlicking.ClonedVNodes | packages/vue-flicking/src/Flicking.ts:216-231 | the loop yields the clone run of the originals for the native clone count |
| VueFlicking.FullListLength | packages/vue-flicking/src/Flicking.ts:210 | the full list has one copy of the originals per group, plus the originals |
| VueFlicking.FullListAt | packages/vue-flicking/src/Flicking.ts:210 | after the originals, group `g` holds each original cloned into `g` at its position |
| VueFlicking.FullListShape | packages/vue-flicking/src/Flicking.ts:210 | the full list is the originals followed by every clone group in order |
| VueFlicking.FullListMatchesSync | packages/vue-flicking/src/Flicking.ts:210 | from the full list's length, `sync` recovers exactly the original count and the clone count the wrapper rendered |
| VueFlicking.Visibles | packages/vue-flicking/src/Flicking.ts:170-186 | one rendered entry per index of the visible window, each the node its entry names |
| VueFlicking.WindowNode | packages/vue-flicking/src/Flicking.ts:176-185 | an original index renders its slot, `undefined` past the slots; a clone index renders the slot's clone keyed by its group and slot |
| VueFlicking.WindowWithinSlots | packages/vue-flicking/src/Flicking.ts:170-186 | with panels and no more panels than slots, no window throws and every entry is a node |
| VueFlicking.RemovedSlotInWindow | packages/vue-flicking/src/Flicking.ts:172-185 | two slots left of three panels: index 2 renders `undefined` and index 5, a clone of the missing slot, throws |
| VueFlicking.VisibleListLength | packages/vue-flicking/src/Flicking.ts:208 | the only-visible list is the window, the added slots, their clones in the old groups and the slots of the new groups |
| VueFlicking.VisibleListWindow | packages/vue-flicking/src/Flicking.ts:170-186 | the window's entry `k` is the slot node for an original index (`undefined` past the slots), or the slot's clone in the entry's group |
| VueFlicking.VisibleListAdded | packages/vue-flicking/src/Flicking.ts:188 | after the window come the added slots, in order |
| VueFlicking.VisibleListAddedClone | packages/vue-flicking/src/Flicking.ts:190-197 | then each added slot cloned into each old group, group-major |
| VueFlicking.VisibleListNewClone | packages/vue-flicking/src/Flicking.ts:199-206 | then every slot cloned into each new group, group-major |
| VueFlicking.VisibleCountsDiffer | packages/vue-flicking/src/Flicking.ts:208 | the node at index `max - min` is the last window entry, and the first added slot comes one further |
| VueFlicking.Flicking.constructor | packages/vue-flicking/src/Flicking.ts:33-51 | the wrapper starts with clone count 0, no stored slot diff, and the given window |
| VueFlicking.Flicking.GetPanels | packages/vue-flicking/src/Flicking.ts:143-214 | no slots render nothing; in only-visible mode the slot diff is stored, and the render throws exactly when the window was never set, is reversed by more than one, holds a clone of a missing slot or meets a track without panels, or the clone count fell; otherwise the visible list is rendered; in full mode the originals and their clone groups are rendered |
| VueFlicking.Flicking.OnUpdate | packages/vue-flicking/src/Flicking.ts:83-94 | `sync` runs on the stored slot diff; when it throws the wrapper keeps its clone count and stored diff; otherwise the clone count becomes the native one read before it, the stored diff is dropped, and a full resynchronisation leaves the tables it rebuilt |
| VueFlicking.Flicking.CheckCloneCount | packages/vue-flicking/src/Flicking.ts:134-141 | a re-render is forced exactly when the rendered clone count differs from the native one |

## Left out

- DOM access, element geometry, resizing, focus, `findEstimatedPosition` and the CSS updates are left out. Positions and sizes (`anchor`, `relativeAnchor`, `hanger`, `scrollAreaSize`) are parameters.
- `Controller.Flicking.constructor`: the wrapper-element lookup that throws, the options merge, `listenInput`, `listenResize` and the statistics call are left out; they touch the DOM or the network.
- Plugins and `sendEvent` are left out, because they are I/O.
- The event payload of `triggerEvent` is left out: `progress`, its `%= 1`, which is floating point, and the merged parameters. What the emitter's `trigger` returns is the parameter `accepted`.
- The Vue life cycle is left out: `mounted`, `render`, `beforeDestroy`, `$_bindEvents`, `$_checkPlugins` and `$_checkUpdate`.
- `VueFlicking.Flicking.CheckCloneCount` returns the decision to force a re-render; `$forceUpdate` and `$nextTick` are framework calls.
- `ListDiffer` and `ChildrenDiffer` are not part of this model. Their diff results are inputs (`Panels.Diff`), and so is the visible window the viewport reports.
- The panel manager and the viewport are not part of this model. Their operations are given the contract their names and uses imply:
  - `getRange`: `{0, -1}` on an empty table;
  - `getPanelCount` is the length of the original table;
  - `replacePanels`, `insertClones`, `removeClonesAfter`, `resetVisibleIndex` and `updateCheckedIndexes`;
  - `viewport.moveCamera` sets the camera;
  - `panel.prev()`/`panel.next()` are given functions.
- Panels are values. `setIndex` on a panel that the old and new tables share is modelled as storing the re-indexed panel in the new table, so aliasing between tables is not captured. Nor are the `setIndex` calls made before a `sync` throws: the model leaves the tables as they were.
- `VisibleSync.AddedClones`: the clones the source reads back from `newClones[groupIndex][addIndex]` are the ones it has just written; the model uses them directly.
- `Controller.NewOriginalCount`: does not model the `>> 0` 32-bit truncation; list lengths are assumed below 2^31, where it equals the floor.
- `Controller.FullSyncReady`: requires that no two kept or added items of the diff go to one index, which the list differ that produces the diff guarantees; two writes to one index are not modelled.
- `Controller.Flicking.OriginalsSyncReady`: requires the same of the original list's diff, and distinct added indices.
- `VueFlicking.Flicking.GetPanelsReady`: requires the slot diff's added indices to lie within the slots, which the slot differ guarantees; it computes them over those slots.
- `Controller.Flicking.SyncVisibleOriginals`: requires no more clone tables than the clone count, which the panel manager keeps.
- `Controller.Flicking.SyncReady`: the only-visible branches that read the window require it to be set, with `min <= max`. An unset window makes the wrapper's render throw before `sync` runs (`VueFlicking.RenderThrows`); an empty window, whose `max - min` is -1 and makes `slice` count from the end, is not modelled.
- `Controller.NewCloneCount`: with no originals the source computes a clone count of -1 and `counter(-1)` makes no group; `counter` is not part of this model, and the model gives 0 groups directly.
- The `data`, `isComment`, `componentOptions`, `context`, `ns` and `isStatic` fields of a virtual node are folded into one `data` field, which the clone copies unchanged.
- `DEFAULT_OPTIONS.lastIndex` is `Infinity`, modelled as `Navigation.Extended.PosInfinity`.
- `Controller.Flicking.RebindVisible`: the viewport's `calcVisiblePanels` is an input, as positions in the tables that name present panels; what it reports is taken as the new visible panels. `setPositionCSS` is a DOM update and is left out.

## Findings

In each row below, the as-written member exhibits the defect. The rest of the model uses the corrected definition: `VisibleSync.AddedCloneElements`, `VisibleSync.NewCloneElementIndex` and `VueFlicking.VisibleEntry`.

| source | as written | input that shows it | evidently intended | confidence | as-written member | corrected member |
|---|---|---|---|---|---|---|
| src/Flicking.ts:697 | `elements.slice(addedCloneOffset, addedCount * cloneCount)` uses a count as the end index | 3 visible panels, 1 added item, 1 clone group, 5 rendered elements: the slice is empty, so the clone is built on `undefined` | end index `addedCloneOffset + addedCount * cloneCount` | not executed | VisibleSync.AddedCloneSliceIsEmpty | VisibleSync.AddedCloneElementFor |
| src/Flicking.ts:725 | clone `idx` of new group `offset` reads `newCloneElements[idx + cloneCount * offset]` | 3 panels, clone count 0 to 2: panel 2 of group 0 and panel 0 of group 1 both read element 2 | stride `panelCount`: `idx + panelCount * offset` | not executed | VisibleSync.NewCloneStrideCollides | VisibleSync.NewCloneElementsDistinct |
| packages/vue-flicking/src/Flicking.ts:172-177 | a negative visible index takes its group from `newCloneCount - ((index + 1) % panelCnt + 1)` with the truncating `%` | 3 panels, 2 clone groups, window -4..-1: indices -4 and -1 both render slot 2 of group 1, twice with one key | group `newCloneCount + floor(index / panelCnt)` | not executed | VueFlicking.AsWrittenEntriesCollide | VueFlicking.VisibleEntryWithinClones |
