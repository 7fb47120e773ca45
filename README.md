# Storyboard compaction engine, in Dafny

This project models the storyboard compaction engine of OSharp.Storyboard
(`Management/ElementCompress.cs`) and the two event classes it writes
lines from: `LibOsb/Models/EventClass/Event.cs` and
`LibOSB/Model/EventClass/EventSingle.cs`.

`Compress` rewrites an element's event list in place into a shorter
equivalent one. It works on the element and on each loop and trigger
sub-container. Within a container every event kind (Move, Fade, Scale, ...)
is its own timeline, a group in `GroupBy` order. The engine runs two passes:

- `PreOptimize` / `RemoveByObsoletedList` scans each non-Fade group forward.
  It deletes an event whose effect falls inside an invisible ("obsolete")
  time range.
- `NormalOptimize` / `RemoveByLogic` scans each group backward. It merges
  static events that continue each other, elides redundant static events,
  drops zero-length markers, and applies the first-event rules. Those rules
  may fold a lone Move into the element's `DefaultX`/`DefaultY`.

How the model is built:

- Event objects are records in a map from id to `Event`, held by the class
  `EventStore`. A list holds ids, so the merge's change to `EndTime` is seen
  through every list, as with the shared objects of the source.
- A container is the class `Container`. Its `EventList` and default position
  are fields that the methods update.
- Every loop of the source is a method proved equal to a function:
  - `ObsoletePass.ObsScan` and `ObsoletePass.ObsoleteSpec` for the obsolete pass;
  - `LogicPass.Backstep`, `LogicPass.FirstEvent`, `LogicPass.ScanGroup` and
    `LogicPass.LogicSpec` for the merge/prune pass.
- `PreOptimize`, `NormalOptimize` and `Compress` are proved equal to the
  folds `CompressSpec.PreAll`, `CompressSpec.NormalAll` and
  `CompressSpec.CompressAll`. A fold maps each container of the family to its
  `Part`: its kind, its bookkeeping, its list and its default position. It
  runs the per-container functions over the loop children, then the trigger
  children, then the container itself, in the source's order.
- The properties are lemmas about those functions.
- The predicates the engine calls but does not define are fields of the
  `Oracles` value that every operation takes. They are `IsStatic`,
  `IsEventSequent`, the obsolete-range queries and the like. Every property
  below holds whatever these predicates are.

`NormalOptimize` is modelled as written. The calls it makes for the loop and
trigger children (`ElementCompress.cs:111` and `:116`) pass the parent's
`EventList` as the list to group. So a child's own events are never scanned
there. A merge in such a call extends `EndTime` on one of the parent's events,
and its removals target the child's list. When that list holds neither event,
nothing leaves it. `LogicPass.ChildPassEditsParent` proves this when the
parent's list is the two merging events. For the whole family and any lists,
`CompressSpec.NormalAllEffects` states the bound, and
`ElementCompress.NormalOptimize` ensures it: only events of the element's own
list are ever edited, and a child loses only ids that the element's list
holds.

## Model

| member | source | states |
|---|---|---|
| ElementCompress.Compress | Management/ElementCompress.cs:11-22 | The family's state afterwards equals `CompressAll` of its state before. Every list is a sublist of what it was: events only go, and survivors keep their order. Event objects change only their `EndTime`, and only those in the element's own list. Containers that are not elements keep their default position. |
| CompressSpec.CompressAll | Management/ElementCompress.cs:20-21 | `PreAll` on the parts, then `NormalAll` on the result. The family keeps its keys, every list stays repeat-free over existing events, and a container outside the family is untouched. |
| CompressSpec.CompressAllEffects | Management/ElementCompress.cs:11-22 | When the element is not its own sub-container, every list only loses events. Only events of the element's starting list are edited, and only in `EndTime`. No container that is not an element moves its default position. |
| ElementCompress.PreOptimize | Management/ElementCompress.cs:27-44 | The family's parts afterwards equal `PreAll` of the parts before. The container's own list becomes `PreSpec` of its old list. Every list only loses events and never a Fade event. |
| CompressSpec.PreAll | Management/ElementCompress.cs:27-44 | For an element: `PreFold` over the loops, then over the triggers. Then the container's own part becomes `PrePart` of itself. The keys are kept and every list stays repeat-free. A container that is neither the container nor a listed sub-container is untouched. |
| CompressSpec.PreAllEffects | Management/ElementCompress.cs:27-44 | Every list only loses events, never a Fade event. Nothing but the lists changes. |
| CompressSpec.PreAllOnce | Management/ElementCompress.cs:27-44 | When each sub-container is listed once and the container is not among them, the container's part and each sub-container's part become `PrePart` of their old part: every list becomes `PreSpec` of itself. |
| ElementCompress.PreOptimizeSubs | Management/ElementCompress.cs:29-40 | For an element, the loop `foreach` and then the trigger `foreach`. The family's parts become `PreFold` over the loops and then over the triggers. The element's own list is untouched, and every list only shrinks and keeps its Fade events. |
| ElementCompress.PreOptimizeChildren | Management/ElementCompress.cs:31-39 | A `foreach` over loops or triggers: the family's parts become `PreFold` of the old parts over the items. The element's own list is untouched, and every list only shrinks and keeps its Fade events. |
| CompressSpec.PreFold | Management/ElementCompress.cs:31-39 | `PrePart` on each listed container in turn; a container listed twice is run twice. The keys are kept, every list stays repeat-free, and an unlisted container is untouched. |
| CompressSpec.PreFoldEffects | Management/ElementCompress.cs:31-39 | Over the fold every list only loses events, never a Fade event. Nothing but the lists changes. |
| CompressSpec.PreFoldOnce | Management/ElementCompress.cs:31-39 | When no container is listed twice, each listed container's part becomes `PrePart` of its old part. |
| ElementCompress.PreOptimizeChild | Management/ElementCompress.cs:33 | One recursive `PreOptimize(item)`: the family's parts change only at the item, to `PrePart` of its old part. |
| ElementCompress.PreOptimizeOwn | Management/ElementCompress.cs:42-43 | A container with events runs `RemoveByObsoletedList` on a copy of its own list. Its list becomes `PreSpec` of the old list, and no other part of the family changes. |
| CompressSpec.PrePart | Management/ElementCompress.cs:42-43 | A container's list becomes `PreSpec` of itself, which lost no Fade event. |
| CompressSpec.PreSpec | Management/ElementCompress.cs:42-43 | An empty list stays as it is. Otherwise the result is a repeat-free sublist over existing events. An event leaves exactly when there are obsolete ranges, it is not a Fade event, and it is removable within its group of the list. |
| ElementCompress.RemoveByObsoletedList | Management/ElementCompress.cs:49-100 | The container's list afterwards is exactly `ObsoleteSpec` of the snapshot and the old list: no change without obsolete ranges; otherwise one forward scan per non-Fade group, in first-appearance order. |
| ObsoletePass.ObsoleteSpec | Management/ElementCompress.cs:49-100 | The pass as a function: the list unchanged without obsolete ranges, otherwise `ObsGroups` over the non-Fade keys of the snapshot. |
| ObsoletePass.ObsoleteSpecRemoves | Management/ElementCompress.cs:49-100 | The list only loses events and keeps the order of the rest. An event leaves exactly when there are obsolete ranges, it is in the snapshot, it is not a Fade event, and it is removable within its own group of the snapshot. |
| ObsoletePass.ObsoleteSpecNoRanges | Management/ElementCompress.cs:51 | A container without obsolete ranges keeps its list unchanged. |
| ObsoletePass.NonFade | Management/ElementCompress.cs:52 | The groups scanned are exactly the kinds present other than Fade. |
| ObsoletePass.ObsGroups | Management/ElementCompress.cs:52-99 | One forward scan per key, each over that key's group of the snapshot, threading the container's list. The list stays repeat-free. |
| ObsoletePass.ObsGroupsExact | Management/ElementCompress.cs:52-95 | Over all visited kinds, an event leaves the container's list exactly when it is in the snapshot, its kind is visited, and it is removable within its own group. |
| ObsoletePass.ObsGroupsShrinks | Management/ElementCompress.cs:90-92 | Over all groups the container list only loses events, keeps the order of the rest, and loses only events of the snapshot. |
| ElementCompress.ScanObsoleteGroup | Management/ElementCompress.cs:54-95 | The `for` loop with its `i--` rewind computes `ObsScan`: the container list afterwards is the list that `ObsScan` leaves. The group is a local the source discards. |
| ObsoletePass.ObsScan | Management/ElementCompress.cs:56-94 | The forward scan terminates. It deletes the same events from the group and from the container list, and leaves the survivors in order. |
| ObsoletePass.ObsScanGroup | Management/ElementCompress.cs:55-95 | One group scan removes, from the group and from the container list, exactly the events that are removable within the group. |
| ObsoletePass.ObsScanExact | Management/ElementCompress.cs:56-94 | From position `i`, the events before `i` stay. An event at or after `i` leaves exactly when it is not protected and `canRemove` holds at its position in the list as it stands: the rewind means later positions are untouched until the scan reaches them. |
| ElementCompress.ObsoleteStep | Management/ElementCompress.cs:58-94 | One iteration of that loop computes `ObsNext`. An event that is not a guarded boundary event, and whose `canRemove` holds, leaves both lists and `i` stays on its slot. Otherwise the scan moves to the next event. |
| ObsoletePass.ObsNext | Management/ElementCompress.cs:58-94 | One iteration as a function: remove the event at `i` from both lists and stay, or move past it. The state stays well formed. |
| ObsoletePass.Removable | Management/ElementCompress.cs:71-88 | An event is removed from its group when it is not protected and `canRemove` holds at its own position there. |
| ObsoletePass.Protected | Management/ElementCompress.cs:71-72 | An event on a range boundary whose kind is in `UnworthyDictionary` is never removed. |
| ObsoletePass.CanRemove | Management/ElementCompress.cs:76-88 | The last event of its kind: it lies in a range that lasts to `MaxTime`. Any other: the range test holds for it and the next event's start. |
| ObsoletePass.InFinalRange | Management/ElementCompress.cs:80-81 | The event lies in an obsolete range whose end is the container's `MaxTime`. |
| ElementCompress.RemoveEvent | Management/ElementCompress.cs:278-282 | Removes the first occurrence of the event from the container's list and from the working group. |
| Seqs.RemoveFirst | Management/ElementCompress.cs:280-281 | `List.Remove`: nothing changes when the item is absent; otherwise the list is one shorter and gains nothing. |
| Storyboard.Group | Management/ElementCompress.cs:133-137 | A `GroupBy` group: exactly the listed events of one kind, as a sublist of the list, so in list order, and repeat-free when the list is. |
| Storyboard.GroupKeys | Management/ElementCompress.cs:133-134 | The `GroupBy` keys: every kind present, only kinds present, once each. For two keys in order, every event of the later kind has an event of the earlier kind before it in the list: the keys come in order of first appearance. |
| ElementCompress.RemoveByLogic | Management/ElementCompress.cs:131-276 | The container's list, the event objects and the default position afterwards equal `LogicSpec`: one backward scan per kind of the snapshot, in first-appearance order. |
| ElementCompress.RemoveGroup | Management/ElementCompress.cs:135-275 | One turn of the `foreach` over groups: the first kind not yet scanned is taken from the snapshot and scanned. The container then stands where the fold over the remaining kinds continues from. |
| ElementCompress.ScanLogicGroup | Management/ElementCompress.cs:137-274 | The `while` loop over `index` computes `ScanGroup`: the container list, the event objects and the defaults afterwards are those `ScanGroup` leaves. The group is a local the source discards. |
| ElementCompress.ScanStep | Management/ElementCompress.cs:140-273 | One turn of the loop lowers `index`: at 0 it runs the first-event rules and ends the scan, otherwise it takes one backward step. Either way the rest of the scan reaches the same result as before the turn. |
| ElementCompress.BackstepStep | Management/ElementCompress.cs:198-273 | One iteration with `index > 0` computes `Backstep`: merge, elide, drop a marker, or step back. |
| ElementCompress.FirstEventStep | Management/ElementCompress.cs:145-197 | The iteration at `index == 0` computes `FirstEvent`, and the scan then stops. |
| LogicPass.ScanGroup | Management/ElementCompress.cs:139-274 | The backward scan terminates, since every step lowers `index` or stops at 0, so the first-event rules run at most once. It deletes the same events from the group and the container list, keeps the survivors in order, and changes event objects only in `EndTime`. |
| LogicPass.MergeRule | Management/ElementCompress.cs:205-221 | When both events are static and sequent, the previous event's `EndTime` becomes the current event's `EndTime`. Its `StartTime` and every other event object are unchanged. The current event leaves the group and the container, and nothing else leaves. |
| LogicPass.ElideRule | Management/ElementCompress.cs:228-237 | Otherwise, a static current event that is sequent and passes `IsSmallerThenMaxTime` is removed. Its predecessor and all event objects are unchanged. |
| LogicPass.MarkerRule | Management/ElementCompress.cs:248-271 | Otherwise, when the predecessor has zero length and ends where the current event starts, it is removed exactly when `index > 1`, or it shares a multiple `MinTime`, or it is static and sequent. Otherwise nothing changes, and the scan steps back in every case. |
| LogicPass.FirstEventRules | Management/ElementCompress.cs:156-194 | A lone event that is in range and static-and-default is removed. For a Move group of an element: a lone static event with whole coordinates sets `DefaultX`/`DefaultY` to its start and is removed, and one equal to the initial position is removed. Every other Move case resets the defaults to 0. Each removal holds exactly under its condition. |
| LogicPass.BackstepOrdered | Management/ElementCompress.cs:198-273 | One step keeps a timeline whose events do not overlap free of overlap. It never shortens an event, and it edits only events of the group. |
| LogicPass.ScanGroupOrdered | Management/ElementCompress.cs:139-274 | The whole scan keeps a non-overlapping timeline non-overlapping. No `EndTime` decreases, and only events of the group are edited. |
| LogicPass.ScanGroupDefaults | Management/ElementCompress.cs:165-166 | Only a Move group of an element can change the default position. |
| LogicPass.ScanGroupTouches | Management/ElementCompress.cs:209 | The only event objects a scan edits are members of its group. |
| LogicPass.LogicGroups | Management/ElementCompress.cs:133-275 | The pass over all groups changes event objects only in `EndTime`, and keeps lists free of repeats. |
| LogicPass.LogicGroupsShrinks | Management/ElementCompress.cs:133-275 | The container's list only loses events, keeps the order of the rest, and loses only events of the snapshot. |
| LogicPass.LogicGroupsTouches | Management/ElementCompress.cs:209 | The only event objects the pass edits are members of the snapshot. |
| LogicPass.LogicGroupsDefaults | Management/ElementCompress.cs:166 | A container that is not an element keeps its default position. |
| LogicPass.LogicSpecEffects | Management/ElementCompress.cs:131-276 | Everything one `RemoveByLogic` call does: sublist, removals only from the snapshot, edits only of the snapshot's `EndTime` values, defaults kept unless an element. |
| LogicPass.LogicSpec | Management/ElementCompress.cs:131-276 | The pass as a function: `LogicGroups` over the `GroupBy` keys of the snapshot. |
| LogicPass.Backstep | Management/ElementCompress.cs:198-273 | One step at `index > 0` as a function: merge, elide, drop a marker, or move on; every branch steps back one position. |
| LogicPass.FirstEvent | Management/ElementCompress.cs:145-197 | The first-event rules at `index == 0` as a function, after which the scan breaks. |
| LogicPass.ChildPassEditsParent | Management/ElementCompress.cs:109-117 | Take a child's call with the parent's list, two merging events a and b that the child does not own. It extends the parent's event a to b's end, and it leaves the child's list as it was. |
| ElementCompress.NormalOptimize | Management/ElementCompress.cs:105-124 | The family's state afterwards equals `NormalAll` of its state before. Every list has lost only ids that the container's own list held. Event objects change only in `EndTime`, and only those of the container's list. Containers that are not elements keep their default position. |
| CompressSpec.NormalAll | Management/ElementCompress.cs:105-124 | For an element: `LogicFold` over the loops, then over the triggers, each against the container's list. Then `OwnStep`. The keys are kept and the state stays well formed. A container that is neither the container nor a listed sub-container is untouched. |
| CompressSpec.NormalAllEffects | Management/ElementCompress.cs:105-124 | When the container is not its own sub-container, every list loses only ids of the container's list. Only those event objects change, in `EndTime`. Kinds are kept, and no container that is not an element moves its default position. |
| ElementCompress.NormalOptimizeSubs | Management/ElementCompress.cs:107-118 | For an element, both `foreach` loops against the element's list. The state becomes `LogicFold` over the loops and then the triggers. The element's part is unchanged. Each list loses only ids of the element's list, only those events are edited, and non-elements keep their defaults. |
| ElementCompress.NormalOptimizeChildren | Management/ElementCompress.cs:109-117 | A `foreach` over loops or triggers, scanned against the parent's list: the state becomes `LogicFold` of the old state over the items. The parent's part is unchanged, and the edits are confined to the parent's events. |
| CompressSpec.LogicFold | Management/ElementCompress.cs:109-117 | `LogicStep` on each listed container in turn, each against the parent's current list. The keys are kept, and an unlisted container is untouched. |
| CompressSpec.LogicFoldEffects | Management/ElementCompress.cs:109-117 | When the parent is not listed, its part is unchanged. Every list loses only ids of the parent's list, and only those events change, in `EndTime`. Kinds are kept, and non-elements keep their defaults. |
| ElementCompress.ScanAgainst | Management/ElementCompress.cs:109-123 | One `RemoveByLogic(item, container.EventList.ToList())` on a member of the family: the state afterwards is `LogicStep` of the state before. |
| CompressSpec.LogicStep | Management/ElementCompress.cs:111 | The item's list, its defaults and the event objects become those of `LogicSpec` with the parent's list as snapshot, and no other part changes. The item loses only ids of the parent's list. Only those events change, in `EndTime`. A non-element keeps its defaults. |
| CompressSpec.LogicStepEffects | Management/ElementCompress.cs:111 | Across the family, one call loses only ids of the parent's list, keeps every kind, and keeps the default position of every container that is not an element. |
| ElementCompress.NormalOptimizeOwn | Management/ElementCompress.cs:120-123 | The state becomes `OwnStep` of the state before. A container with events is scanned against its own list: it loses only ids of that list, only those events change, in `EndTime`, and a non-element keeps its defaults. |
| CompressSpec.OwnStep | Management/ElementCompress.cs:120-123 | Nothing changes for an empty list. Otherwise the container is scanned against its own list. No other part changes. |
| ElementCompress.NormalOptimizeStep | Management/ElementCompress.cs:109-123 | One `RemoveByLogic` call seen from outside: the container equals `LogicSpec` of the snapshot and its old state. The list shrinks only by snapshot ids; only snapshot events change, in `EndTime`; a non-element keeps its defaults. |
| LibOsbEvent.Event.AdjustTime | LibOsb/Models/EventClass/Event.cs:26-30 | Both times move by the offset, and nothing else changes. |
| LibOsbEvent.Adjusted | LibOsb/Models/EventClass/Event.cs:28-29 | The shift moves start and end by the offset and keeps `EndTime - StartTime`. |
| LibOsbEvent.AdjustedComposes | LibOsb/Models/EventClass/Event.cs:28-29 | Shifting by a and then by b equals one shift by a + b. |
| LibOsbEvent.EndField | LibOsb/Models/EventClass/Event.cs:22 | The end field is empty exactly when `StartTime` equals `EndTime`. Otherwise it reads back as the rounded `EndTime`. |
| LibOsbEvent.Event.ToString | LibOsb/Models/EventClass/Event.cs:19-24 | Splitting the line at commas gives, in order, the type, the easing ordinal, the rounded start time and the end field, then the pieces of `ScriptParams`, provided the type has no comma. |
| LibOsbEvent.ToStringFields | LibOsb/Models/EventClass/Event.cs:21-23 | The line has at least five fields. The easing and the start time read back as the ordinal and the rounded start time. The end field is empty exactly for an instant event and otherwise reads back as the rounded end time. |
| Text.RoundHalfEven | LibOsb/Models/EventClass/Event.cs:22 | `Math.Round`: the result is within one half of its argument. A tie goes to the even integer, and a whole number is returned unchanged. |
| Text.IntToStringRoundTrip | LibOsb/Models/EventClass/Event.cs:22 | A number written as decimal text reads back as the same number. |
| Text.SplitJoin | LibOsb/Models/EventClass/Event.cs:21 | Splitting a `string.Join` line at the separator gives back every field but the last, then the pieces of the last field. |
| LibOsbEventSingle.EventSingle.Init | LibOSB/Model/EventClass/EventSingle.cs:14-24 | Stores the type, easing, times and pre/post values unchanged. It ends by building the parameter text from those values. |
| LibOsbEventSingle.EventSingle.BuildParams | LibOSB/Model/EventClass/EventSingle.cs:26-32 | The parameter text follows the current values and reads only fields it does not write, so a repeated call changes nothing. |
| LibOsbEventSingle.ParamsText | LibOSB/Model/EventClass/EventSingle.cs:28-31 | With comma-free number text, splitting at commas gives the single value when pre equals post. Otherwise it gives the pre value and then the post value. |
| LibOsbEventSingle.ParamsTextFieldCount | LibOSB/Model/EventClass/EventSingle.cs:28-31 | The text has one field exactly when the event is static, and never more than two. |

## Left out

- `Examine` and `FillObsoleteList` (Management/ElementCompress.cs:13-14) are not part of this model. Each container's `Info` (its minimum and maximum times, their counts and its obsolete ranges) stands for what they compute. `Info` is a constant of the container: it stays fixed through both passes and is not recomputed after removals or merges. So `IsSmallerThenMaxTime`, `EqualsMultiMinTime` and the final-range test read the values taken before `PreOptimize`. The container class that holds these values in the source is not part of this model, so if it recomputes them as events leave or Fade events change, the model does not capture that.
- ElementCompress.Compress and the methods below it require `Ready`, which the source does not check. The requirement is that every event object has the arity of its kind (as the source's typed event classes guarantee), and that every list holds only existing events and holds each event object at most once. With an object listed twice, `List.Remove` (Management/ElementCompress.cs:280-281) removes only its first copy, and the model does not cover that case. `Ready` also asks that the family be one level deep and that an element not be its own sub-container. A sub-container listed twice is covered: it is run twice, as in the source.
- ElementCompress.Compress: two promises of the design are not stated: that a second run changes nothing, and that the compacted storyboard gives the same value at every sampled time. Sampling needs the meaning of events (interpolation, easing, parameter values), which the engine never computes. The tests the engine's decisions rest on (`IsStatic`, `IsEventSequent`, the range tests, `EqualsInitialPosition`) are uninterpreted parameters here, so neither property follows from the model. A second run would also start from a different state. The Move first-event rule (Management/ElementCompress.cs:186-192) resets `DefaultX`/`DefaultY` to 0, and `EqualsInitialPosition` then sees the new defaults. Each container's `Info` would also be recomputed by `Examine`/`FillObsoleteList`, which are not part of this model.
- The predicates the engine calls but does not define are parameters of the model, with no body: `OnObsoleteTimingRange`, `InObsoleteTimingRange`, `ContainsTimingPoint`, `IsTimeInRange`, `IsStatic`, `IsStaticAndDefault`, `IsSmallerThenMaxTime`, `EqualsMultiMinTime`, `EventCompare.IsEventSequent`, `EqualsInitialPosition` and membership in `UnworthyDictionary`. `EqualsInitialPosition` receives the element's current default position.
- Floating point: engine times are whole numbers (`int`), and parameter values are exact reals. `Math.Round` is modelled exactly (round half to even). Overflow of the `(int)` cast, negative zero, and the rounding of `+=` on doubles are not modelled.
- LibOsbEvent.Event.ToString: the start field is `Math.Round(StartTime)` (LibOsb/Models/EventClass/Event.cs:22), a double written by `double.ToString()`, which switches to exponent notation for large values ("1E+15"). The model writes the rounded start as integer text, so it agrees with the source only where the double prints without an exponent. The end field goes through an `(int)` cast and is integer text in both.
- `double.ToString()` and string concatenation of doubles depend on the culture. They are the parameter `fmt` of `Init`/`BuildParams`. Under a culture with a decimal comma, the pre/post text cannot be split back. The statements about splitting therefore assume `fmt` writes no comma.
- The easing is its ordinal: `(int)Enum.Parse(typeof(EasingType), Easing.ToString())` is the identity on it. `LibOSB/Model/Constants/Easing.cs` has no behaviour to verify.
- `LibOSB/Model/EventType/Rotate.cs` only calls `Init` with `"R"`. The `LibOSB` base `Event` is not part of this model, so `EventSingle` carries its own fields.
- The `container is Element` tests are the constant `IsElement`. Sub-containers cannot be elements, and an element is not its own sub-container.
