/**
  The compaction engine: `Compress` runs the obsolete-driven pass and then
  the merge/prune pass over an element and its loop and trigger
  sub-containers, rewriting their event lists in place. Each method is
  proved against the functions of `ObsoletePass`, `LogicPass` and
  `CompressSpec`.
 */
module ElementCompress {
  import opened Seqs
  import opened Storyboard
  import opened ObsoletePass
  import opened LogicPass
  import opened CompressSpec

  /** The event objects. A list holds ids; a change to an object is seen through every list holding it. */
  class EventStore {
    var Events: map<nat, Event>

    constructor (events: map<nat, Event>)
      ensures Events == events
    {
      Events := events;
    }
  }

  /** An event container: an element, or one of its loop or trigger sub-containers. */
  class Container {
    const IsElement: bool
    const LoopList: seq<Container>
    const TriggerList: seq<Container>
    var EventList: seq<nat>
    /** Min/max times, their counts and the obsolete ranges, as computed before the passes; fixed through both passes. */
    const Info: TimeInfo
    var DefaultX: real
    var DefaultY: real

    /** A loop or trigger sub-container. */
    constructor Sub(eventList: seq<nat>, info: TimeInfo)
      ensures !IsElement && LoopList == [] && TriggerList == []
      ensures EventList == eventList && Info == info
    {
      IsElement, LoopList, TriggerList := false, [], [];
      EventList, Info := eventList, info;
      DefaultX, DefaultY := 0.0, 0.0;
    }

    /** An element with its default position and sub-containers. */
    constructor Element(eventList: seq<nat>, info: TimeInfo, x: real, y: real,
                        loops: seq<Container>, triggers: seq<Container>)
      ensures IsElement && LoopList == loops && TriggerList == triggers
      ensures EventList == eventList && Info == info && DefaultX == x && DefaultY == y
    {
      IsElement, LoopList, TriggerList := true, loops, triggers;
      EventList, Info := eventList, info;
      DefaultX, DefaultY := x, y;
    }
  }

  /** The container and, for an element, its loop and trigger sub-containers. */
  function Family(c: Container): set<Container> {
    {c} + (if c.IsElement then Elems(c.LoopList) + Elems(c.TriggerList) else {})
  }

  /**
    The family's shape: an element is not its own sub-container, and a
    container that is not an element (a sub-container among them) has no
    sub-containers.
   */
  predicate Shape(c: Container) {
    && (c.IsElement ==> c !in c.LoopList && c !in c.TriggerList)
    && (!c.IsElement ==> c.LoopList == [] && c.TriggerList == [])
    && (forall k :: k in Family(c) && k != c ==> !k.IsElement && k.LoopList == [] && k.TriggerList == [])
  }

  /** A container's own state as the specifications see it. */
  function PartOf(k: Container): Part
    reads k
  {
    Part(k.IsElement, k.Info, k.EventList, k.DefaultX, k.DefaultY)
  }

  /** The part of every container of the family. */
  function Parts(c: Container): map<Container, Part>
    reads Family(c)
  {
    map k | k in Family(c) :: PartOf(k)
  }

  /** The event objects and the family, as the specifications see them. */
  function StageOf(store: EventStore, c: Container): Stage<Container>
    reads store, Family(c)
  {
    Stage(store.Events, Parts(c))
  }

  /** Assumed of the family before a pass: every list names existing events, each once; the family has its shape. */
  predicate Ready(store: EventStore, c: Container)
    reads store, Family(c)
  {
    StageOk(StageOf(store, c)) && Shape(c)
  }

  /** The parts, read one container at a time. */
  lemma PartsAt(store: EventStore, c: Container)
    ensures Parts(c).Keys == Family(c)
    ensures forall k :: k in Family(c) ==> Parts(c)[k] == PartOf(k)
    ensures Ready(store, c) ==> forall k :: k in Family(c) ==> Distinct(k.EventList) && AllIn(k.EventList, store.Events)
  {
    if Ready(store, c) {
      forall k | k in Family(c) ensures Distinct(k.EventList) && AllIn(k.EventList, store.Events) {
        assert Parts(c)[k] == PartOf(k);
      }
    }
  }

  /** A sub-container of a ready element is ready itself. */
  lemma ReadyChild(store: EventStore, c: Container, item: Container)
    requires Ready(store, c) && c.IsElement && (item in c.LoopList || item in c.TriggerList)
    ensures item in Family(c) && item != c && !item.IsElement
    ensures Family(item) == {item} && Ready(store, item)
  {
    assert item in Elems(c.LoopList) + Elems(c.TriggerList);
    assert item in Family(c) && item != c;
    assert Family(item) == {item};
    PartsAt(store, c);
    PartsAt(store, item);
    assert PartOf(item) == Parts(c)[item];
  }

  /** Only `k` of the family differs from the parts `before`. */
  lemma OnlyChanged(c: Container, k: Container, before: map<Container, Part>)
    requires before.Keys == Family(c) && k in Family(c)
    requires forall j :: j in Family(c) && j != k ==> PartOf(j) == before[j]
    ensures Parts(c) == before[k := PartOf(k)]
  {
  }

  /** The container as the merge/prune specification sees it. */
  function Snapshot(store: EventStore, c: Container): ScanState
    reads store, c
  {
    ScanState([], -1, store.Events, c.EventList, c.DefaultX, c.DefaultY)
  }

  /** `RemoveEvent`: the event leaves the container's list and the working group. */
  method RemoveEvent(container: Container, list: seq<nat>, e: nat) returns (rest: seq<nat>)
    modifies container`EventList
    ensures container.EventList == RemoveFirst(old(container.EventList), e)
    ensures rest == RemoveFirst(list, e)
  {
    container.EventList := RemoveFirst(container.EventList, e);
    rest := RemoveFirst(list, e);
  }

  /** The scan of one group of `RemoveByObsoletedList` (the loop over its events). */
  method ScanObsoleteGroup(store: EventStore, container: Container, list: seq<nat>, o: Oracles)
    requires ObsOk(Scope(container.Info, o, store.Events), ObsState(list, 0, container.EventList))
    modifies container`EventList
    ensures container.EventList
      == ObsScan(Scope(container.Info, o, store.Events), ObsState(list, 0, old(container.EventList))).Owned
  {
    ghost var sc := Scope(container.Info, o, store.Events);
    ghost var groupEnd := ObsScan(sc, ObsState(list, 0, container.EventList)).Owned;
    var list := list;
    var i := 0;
    while i < |list|
      invariant ObsOk(sc, ObsState(list, i, container.EventList))
      invariant ObsScan(sc, ObsState(list, i, container.EventList)).Owned == groupEnd
      decreases |list| - i
    {
      ObsScanNext(sc, ObsState(list, i, container.EventList));
      list, i := ObsoleteStep(store, container, list, i, o);
    }
  }

  /** The body of that loop, including its `i--` rewind and the loop's `i++`. */
  method ObsoleteStep(store: EventStore, container: Container, list: seq<nat>, i: int, o: Oracles)
      returns (rest: seq<nat>, next: int)
    requires ObsOk(Scope(container.Info, o, store.Events), ObsState(list, i, container.EventList)) && i < |list|
    modifies container`EventList
    ensures ObsState(rest, next, container.EventList)
      == ObsNext(Scope(container.Info, o, store.Events), ObsState(list, i, old(container.EventList)))
  {
    ghost var sc := Scope(container.Info, o, store.Events);
    rest, next := list, i;
    var nowE := list[i];
    var e := store.Events[nowE];
    if !(o.OnObsoleteTimingRange(container.Info, e) && o.Unworthy(e.Type)) {
      var canRemove: bool;
      if i == |list| - 1 {
        var range := o.InObsoleteTimingRange(container.Info, e);
        canRemove := range.Some? && range.value.EndTime == container.Info.MaxTime;
      } else {
        var nextE := store.Events[list[i + 1]];
        canRemove := o.ContainsTimingPoint(container.Info.ObsoleteList, e.StartTime, e.EndTime, nextE.StartTime);
      }
      assert canRemove == CanRemove(sc, list, i);
      if canRemove {
        rest := RemoveEvent(container, list, nowE);
        next := next - 1;
      }
    }
    next := next + 1;
  }

  /** `RemoveByObsoletedList`: the obsolete-driven pass over one container. */
  method RemoveByObsoletedList(store: EventStore, container: Container, eventList: seq<nat>, o: Oracles)
    requires AllIn(eventList, store.Events) && Distinct(eventList) && Distinct(container.EventList)
    modifies container`EventList
    ensures container.EventList
      == ObsoleteSpec(Scope(container.Info, o, store.Events), eventList, old(container.EventList))
  {
    ghost var sc := Scope(container.Info, o, store.Events);
    if |container.Info.ObsoleteList| == 0 {
      return;
    }
    var keys := NonFade(GroupKeys(eventList, store.Events, {}));
    ghost var target := ObsGroups(sc, keys, eventList, container.EventList);
    var g := 0;
    while g < |keys|
      invariant 0 <= g <= |keys|
      invariant Distinct(container.EventList)
      invariant ObsGroups(sc, keys[g..], eventList, container.EventList) == target
    {
      var list := Group(eventList, store.Events, keys[g]);
      ScanObsoleteGroup(store, container, list, o);
      assert keys[g..][1..] == keys[g + 1..];
      g := g + 1;
    }
  }

  /** The working state of one group scan of `RemoveByLogic`. */
  function Cur(list: seq<nat>, index: int, store: EventStore, c: Container): ScanState
    reads store, c
  {
    ScanState(list, index, store.Events, c.EventList, c.DefaultX, c.DefaultY)
  }

  /** The first event of a group (`index == 0`): the Move/default-position rules. */
  method FirstEventStep(store: EventStore, container: Container, g: GroupScope, list: seq<nat>)
      returns (rest: seq<nat>)
    requires g.IsElement == container.IsElement && g.Info == container.Info
    requires ScanOk(g, Cur(list, 0, store, container))
    modifies container`EventList, container`DefaultX, container`DefaultY
    ensures Cur(rest, -1, store, container) == FirstEvent(g, old(Cur(list, 0, store, container)))
  {
    var o := g.O;
    var nowE := list[0];
    var e := store.Events[nowE];
    rest := list;
    if o.IsTimeInRange(container.Info, e) && o.IsStaticAndDefault(e) && |list| == 1 {
      rest := RemoveEvent(container, list, nowE);
    } else if g.Type == Move && container.IsElement {
      if |list| == 1 && o.IsStatic(e) {
        if forall k :: k in e.Start ==> IsWhole(k) {
          container.DefaultX := e.Start[0];
          container.DefaultY := e.Start[1];
          rest := RemoveEvent(container, list, nowE);
        } else if o.EqualsInitialPosition(e, container.DefaultX, container.DefaultY) {
          rest := RemoveEvent(container, list, nowE);
        } else {
          container.DefaultX := 0.0;
          container.DefaultY := 0.0;
        }
      } else {
        container.DefaultX := 0.0;
        container.DefaultY := 0.0;
      }
    }
  }

  /** One backward step (`index > 0`): merge, elide, drop a marker, or move on. */
  method BackstepStep(store: EventStore, container: Container, g: GroupScope, list: seq<nat>, index: int)
      returns (rest: seq<nat>, next: int)
    requires g.Info == container.Info
    requires ScanOk(g, Cur(list, index, store, container)) && index > 0
    modifies store`Events, container`EventList
    ensures next == index - 1
    ensures Cur(rest, next, store, container) == Backstep(g, old(Cur(list, index, store, container)))
  {
    var o := g.O;
    var nowE := list[index];
    var preE := list[index - 1];
    var n := store.Events[nowE];
    var p := store.Events[preE];
    rest, next := list, index - 1;
    if o.IsStatic(n) && o.IsStatic(p) && o.IsEventSequent(p, n) {
      store.Events := store.Events[preE := p.(EndTime := n.EndTime)];
      rest := RemoveEvent(container, list, nowE);
    } else if o.IsSmallerThenMaxTime(container.Info, n) && o.IsStatic(n) && o.IsEventSequent(p, n) {
      rest := RemoveEvent(container, list, nowE);
    } else if n.StartTime == p.EndTime && p.StartTime == p.EndTime {
      if index > 1 {
        rest := RemoveEvent(container, list, preE);
      } else if o.EqualsMultiMinTime(container.Info, p) {
        rest := RemoveEvent(container, list, preE);
      } else if o.IsStatic(p) && o.IsEventSequent(p, n) {
        rest := RemoveEvent(container, list, preE);
      }
    }
  }

  /**
    One turn of the scan loop of `RemoveByLogic`: the first event ends the
    scan (the `break`), any other is a backward step.
   */
  method ScanStep(store: EventStore, container: Container, g: GroupScope, list: seq<nat>, index: int)
      returns (rest: seq<nat>, next: int)
    requires g.IsElement == container.IsElement && g.Info == container.Info
    requires ScanOk(g, Cur(list, index, store, container)) && index >= 0
    modifies store`Events, container`EventList, container`DefaultX, container`DefaultY
    ensures next < index && ScanOk(g, Cur(rest, next, store, container))
    ensures ScanGroup(g, Cur(rest, next, store, container)) == ScanGroup(g, old(Cur(list, index, store, container)))
  {
    if index == 0 {
      ScanGroupFirst(g, Cur(list, index, store, container));
      FirstEventOk(g, Cur(list, index, store, container));
      rest := FirstEventStep(store, container, g, list);
      next := -1;
    } else {
      ScanGroupBack(g, Cur(list, index, store, container));
      rest, next := BackstepStep(store, container, g, list, index);
    }
  }

  /** The backward scan of one group of `RemoveByLogic`. */
  method ScanLogicGroup(store: EventStore, container: Container, g: GroupScope, list: seq<nat>)
    requires g.IsElement == container.IsElement && g.Info == container.Info
    requires ScanOk(g, Cur(list, |list| - 1, store, container))
    modifies store`Events, container`EventList, container`DefaultX, container`DefaultY
    ensures SameContainer(Snapshot(store, container), ScanGroup(g, old(Cur(list, |list| - 1, store, container))))
  {
    ghost var groupEnd := ScanGroup(g, Cur(list, |list| - 1, store, container));
    var list := list;
    var index := |list| - 1;
    while index >= 0
      invariant ScanOk(g, Cur(list, index, store, container))
      invariant ScanGroup(g, Cur(list, index, store, container)) == groupEnd
      decreases index
    {
      list, index := ScanStep(store, container, g, list, index);
    }
  }

  /**
    One turn of the `foreach` of `RemoveByLogic`, with `keys` the kinds not
    yet scanned: the group of the first is taken from the snapshot and scanned.
   */
  method RemoveGroup(store: EventStore, container: Container, eventList: seq<nat>, keys: seq<EventType>, o: Oracles)
    requires keys != [] && LogicOk(eventList, Snapshot(store, container))
    modifies store`Events, container`EventList, container`DefaultX, container`DefaultY
    ensures LogicOk(eventList, Snapshot(store, container))
    ensures SameContainer(
      LogicGroups(keys[1..], container.IsElement, container.Info, o, eventList, Snapshot(store, container)),
      LogicGroups(keys, container.IsElement, container.Info, o, eventList, old(Snapshot(store, container))))
  {
    ghost var before := Snapshot(store, container);
    LogicGroupsStep(keys, container.IsElement, container.Info, o, eventList, before);
    var t := keys[0];
    var gs := GroupScope(t, container.IsElement, container.Info, o);
    var list := Group(eventList, store.Events, t);
    assert StartGroup(eventList, before, t) == Cur(list, |list| - 1, store, container);
    ScanLogicGroup(store, container, gs, list);
    LogicGroupsSame(keys[1..], container.IsElement, container.Info, o, eventList,
                    ScanGroup(gs, StartGroup(eventList, before, t)), Snapshot(store, container));
  }

  /** `RemoveByLogic`: the merge/prune pass over the groups of the snapshot `eventList`. */
  method RemoveByLogic(store: EventStore, container: Container, eventList: seq<nat>, o: Oracles)
    requires LogicOk(eventList, Snapshot(store, container))
    modifies store`Events, container`EventList, container`DefaultX, container`DefaultY
    ensures SameContainer(Snapshot(store, container),
      LogicSpec(container.IsElement, container.Info, o, eventList, old(Snapshot(store, container))))
  {
    var keys := GroupKeys(eventList, store.Events, {});
    ghost var target := LogicSpec(container.IsElement, container.Info, o, eventList, Snapshot(store, container));
    while keys != []
      invariant LogicOk(eventList, Snapshot(store, container))
      invariant SameContainer(
        LogicGroups(keys, container.IsElement, container.Info, o, eventList, Snapshot(store, container)), target)
    {
      RemoveGroup(store, container, eventList, keys, o);
      keys := keys[1..];
    }
  }

  /** `PreOptimize`: the obsolete-driven pass, children first, each container on its own list. */
  method PreOptimize(store: EventStore, c: Container, o: Oracles)
    requires Ready(store, c)
    modifies Family(c)`EventList
    ensures Ready(store, c)
    ensures Parts(c) == PreAll(o, store.Events, old(Parts(c)), c, c.LoopList, c.TriggerList)
    ensures c.EventList == PreSpec(c.Info, o, store.Events, old(c.EventList))
    ensures AllShrunk(store.Events, old(Parts(c)), Parts(c))
    decreases if c.IsElement then 3 else 0
  {
    ghost var parts := Parts(c);
    if c.IsElement {
      PreOptimizeSubs(store, c, o);
    }
    PreOptimizeOwn(store, c, o);
    PreAllEffects(o, store.Events, parts, c, c.LoopList, c.TriggerList);
  }

  /** The two `foreach` loops of `PreOptimize`: each loop, then each trigger sub-container. */
  method PreOptimizeSubs(store: EventStore, c: Container, o: Oracles)
    requires Ready(store, c) && c.IsElement
    modifies Family(c)`EventList
    ensures Ready(store, c) && c.EventList == old(c.EventList)
    ensures Parts(c) == PreFold(o, store.Events, PreFold(o, store.Events, old(Parts(c)), c.LoopList), c.TriggerList)
    ensures AllShrunk(store.Events, old(Parts(c)), Parts(c))
    decreases 2
  {
    ghost var start := Parts(c);
    PreOptimizeChildren(store, c, c.LoopList, o);
    ghost var mid := Parts(c);
    PreOptimizeChildren(store, c, c.TriggerList, o);
    AllShrunkTrans(store.Events, start, mid, Parts(c));
  }

  /** The last step of `PreOptimize`: a container with events runs the pass on its own list. */
  method PreOptimizeOwn(store: EventStore, c: Container, o: Oracles)
    requires Ready(store, c)
    modifies c`EventList
    ensures Ready(store, c)
    ensures Parts(c) == old(Parts(c))[c := PrePart(o, store.Events, old(Parts(c))[c])]
    ensures c.EventList == PreSpec(c.Info, o, store.Events, old(c.EventList))
  {
    PartsAt(store, c);
    ghost var parts := Parts(c);
    if c.EventList != [] {
      RemoveByObsoletedList(store, c, c.EventList, o);
    }
    assert c.EventList == PreSpec(c.Info, o, store.Events, parts[c].List);
    OnlyChanged(c, c, parts);
    PartsOkUpdate(store.Events, store.Events, parts, c, PartOf(c));
  }

  /** The `foreach` over one of an element's sub-container lists in `PreOptimize`. */
  method PreOptimizeChildren(store: EventStore, c: Container, items: seq<Container>, o: Oracles)
    requires Ready(store, c) && c.IsElement
    requires forall item :: item in items ==> item in c.LoopList || item in c.TriggerList
    modifies Family(c)`EventList
    ensures Ready(store, c) && c.EventList == old(c.EventList)
    ensures Parts(c) == PreFold(o, store.Events, old(Parts(c)), items)
    ensures AllShrunk(store.Events, old(Parts(c)), Parts(c))
    decreases 1, |items|
  {
    PartsAt(store, c);
    ghost var parts := Parts(c);
    for i := 0 to |items|
      invariant Ready(store, c)
      invariant Parts(c) == PreFold(o, store.Events, parts, items[..i])
    {
      PreFoldStep(o, store.Events, parts, items, i);
      PreOptimizeChild(store, c, items[i], o);
    }
    assert items[..|items|] == items;
    PreFoldEffects(o, store.Events, parts, items);
    PartsAt(store, c);
  }

  /** One iteration of that `foreach`: `PreOptimize(item)`, which touches only the item's list. */
  method PreOptimizeChild(store: EventStore, c: Container, item: Container, o: Oracles)
    requires Ready(store, c) && c.IsElement && (item in c.LoopList || item in c.TriggerList)
    modifies Family(c)`EventList
    ensures Ready(store, c)
    ensures Parts(c) == old(Parts(c))[item := PrePart(o, store.Events, old(Parts(c))[item])]
    decreases 1, 0
  {
    ReadyChild(store, c, item);
    PartsAt(store, c);
    ghost var parts := Parts(c);
    PreOptimize(store, item, o);
    OnlyChanged(c, item, parts);
    PartsOkUpdate(store.Events, store.Events, parts, item, PartOf(item));
  }

  /**
    One `RemoveByLogic` call as `NormalOptimize` makes it: on `item`, with
    the snapshot `eventList`.
   */
  method NormalOptimizeStep(store: EventStore, item: Container, eventList: seq<nat>, o: Oracles)
    requires LogicOk(eventList, Snapshot(store, item))
    modifies store`Events, item`EventList, item`DefaultX, item`DefaultY
    ensures SameContainer(Snapshot(store, item),
      LogicSpec(item.IsElement, item.Info, o, eventList, old(Snapshot(store, item))))
    ensures Pruned(old(item.EventList), item.EventList, eventList) && Distinct(item.EventList)
    ensures EventsEdited(old(store.Events), store.Events, eventList) && EventsOk(store.Events)
    ensures !item.IsElement ==> item.DefaultX == old(item.DefaultX) && item.DefaultY == old(item.DefaultY)
  {
    ghost var snap := Snapshot(store, item);
    LogicSpecEffects(item.IsElement, item.Info, o, eventList, snap);
    ghost var r := LogicSpec(item.IsElement, item.Info, o, eventList, snap);
    RemoveByLogic(store, item, eventList, o);
    assert SameContainer(Snapshot(store, item), r);
    PrunedFromSpec(snap.Owned, r.Owned, eventList);
  }

  /**
    `RemoveByLogic(item, c.EventList)` on a container of `c`'s family: a
    child in a `foreach` of `NormalOptimize`, or `c` itself in its last step.
   */
  method ScanAgainst(store: EventStore, c: Container, item: Container, o: Oracles)
    requires Ready(store, c) && item in Family(c)
    modifies store`Events, item`EventList, item`DefaultX, item`DefaultY
    ensures Ready(store, c)
    ensures StageOf(store, c) == LogicStep(o, old(StageOf(store, c)), c, item)
  {
    PartsAt(store, c);
    ghost var stage := StageOf(store, c);
    NormalOptimizeStep(store, item, c.EventList, o);
    OnlyChanged(c, item, stage.Parts);
    assert PartOf(item) == LogicStep(o, stage, c, item).Parts[item];
    assert StageOf(store, c) == LogicStep(o, stage, c, item);
  }

  /** A `foreach` over one of an element's sub-container lists in `NormalOptimize`. */
  method NormalOptimizeChildren(store: EventStore, c: Container, items: seq<Container>, o: Oracles)
    requires Ready(store, c) && c.IsElement
    requires forall item :: item in items ==> item in c.LoopList || item in c.TriggerList
    modifies store`Events, Family(c)`EventList, Family(c)`DefaultX, Family(c)`DefaultY
    ensures Ready(store, c)
    ensures StageOf(store, c) == LogicFold(o, old(StageOf(store, c)), c, items)
    ensures PartOf(c) == old(PartOf(c))
    ensures AllPruned(old(Parts(c)), Parts(c), c.EventList)
    ensures KindsKept(old(Parts(c)), Parts(c)) && DefaultsKept(old(Parts(c)), Parts(c))
    ensures EventsEdited(old(store.Events), store.Events, c.EventList)
  {
    PartsAt(store, c);
    ghost var stage := StageOf(store, c);
    for i := 0 to |items|
      invariant Ready(store, c)
      invariant StageOf(store, c) == LogicFold(o, stage, c, items[..i])
    {
      LogicFoldStep(o, stage, c, items, i);
      ReadyChild(store, c, items[i]);
      ScanAgainst(store, c, items[i], o);
    }
    assert items[..|items|] == items;
    LogicFoldEffects(o, stage, c, items);
    PartsAt(store, c);
  }

  /** The two `foreach` loops of `NormalOptimize`: every child is scanned against the element's list. */
  method NormalOptimizeSubs(store: EventStore, c: Container, o: Oracles)
    requires Ready(store, c) && c.IsElement
    modifies store`Events, Family(c)`EventList, Family(c)`DefaultX, Family(c)`DefaultY
    ensures Ready(store, c)
    ensures StageOf(store, c) == LogicFold(o, LogicFold(o, old(StageOf(store, c)), c, c.LoopList), c, c.TriggerList)
    ensures PartOf(c) == old(PartOf(c))
    ensures AllPruned(old(Parts(c)), Parts(c), c.EventList)
    ensures KindsKept(old(Parts(c)), Parts(c)) && DefaultsKept(old(Parts(c)), Parts(c))
    ensures EventsEdited(old(store.Events), store.Events, c.EventList)
  {
    ghost var start := StageOf(store, c);
    NormalOptimizeChildren(store, c, c.LoopList, o);
    ghost var mid := StageOf(store, c);
    NormalOptimizeChildren(store, c, c.TriggerList, o);
    AllPrunedTrans(start.Parts, mid.Parts, Parts(c), c.EventList);
    EventsEditedTrans(start.Events, mid.Events, store.Events, c.EventList);
    KeptTrans(start.Parts, mid.Parts, Parts(c));
  }

  /** The last step of `NormalOptimize`: a non-empty container is scanned against its own list. */
  method NormalOptimizeOwn(store: EventStore, c: Container, o: Oracles)
    requires Ready(store, c)
    modifies store`Events, c`EventList, c`DefaultX, c`DefaultY
    ensures Ready(store, c)
    ensures StageOf(store, c) == OwnStep(o, old(StageOf(store, c)), c)
    ensures Pruned(old(c.EventList), c.EventList, old(c.EventList))
    ensures EventsEdited(old(store.Events), store.Events, old(c.EventList))
    ensures !c.IsElement ==> c.DefaultX == old(c.DefaultX) && c.DefaultY == old(c.DefaultY)
  {
    PartsAt(store, c);
    if c.EventList != [] {
      ScanAgainst(store, c, c, o);
      PartsAt(store, c);
    } else {
      PrunedRefl(c.EventList, c.EventList);
      EndTimeOnlyRefl(store.Events);
    }
  }

  /**
    `NormalOptimize`, as written: each loop and trigger child is scanned
    against the PARENT's list, then the container against its own.
   */
  method NormalOptimize(store: EventStore, c: Container, o: Oracles)
    requires Ready(store, c)
    modifies store`Events, Family(c)`EventList, Family(c)`DefaultX, Family(c)`DefaultY
    ensures Ready(store, c)
    ensures StageOf(store, c) == NormalAll(o, old(StageOf(store, c)), c, c.LoopList, c.TriggerList)
    ensures AllPruned(old(Parts(c)), Parts(c), old(c.EventList))
    ensures EventsEdited(old(store.Events), store.Events, old(c.EventList))
    ensures DefaultsKept(old(Parts(c)), Parts(c))
  {
    PartsAt(store, c);
    ghost var start := StageOf(store, c);
    if c.IsElement {
      NormalOptimizeSubs(store, c, o);
    }
    NormalOptimizeOwn(store, c, o);
    NormalAllEffects(o, start, c, c.LoopList, c.TriggerList);
  }

  /**
    `Compress`: the obsolete-driven pass, then the merge/prune pass.
    `Examine` and `FillObsoleteList` are not part of this model: each
    container's `Info` stands for what they compute, and `Ready` is assumed.
   */
  method Compress(store: EventStore, element: Container, o: Oracles)
    requires Ready(store, element) && element.IsElement
    modifies store`Events, Family(element)`EventList, Family(element)`DefaultX, Family(element)`DefaultY
    ensures Ready(store, element)
    ensures StageOf(store, element)
      == CompressAll(o, old(StageOf(store, element)), element, element.LoopList, element.TriggerList)
    ensures AllSublists(old(Parts(element)), Parts(element))
    ensures EventsEdited(old(store.Events), store.Events, old(element.EventList))
    ensures DefaultsKept(old(Parts(element)), Parts(element))
  {
    PartsAt(store, element);
    ghost var start := StageOf(store, element);
    PreOptimize(store, element, o);
    NormalOptimize(store, element, o);
    CompressAllEffects(o, start, element, element.LoopList, element.TriggerList);
  }
}
