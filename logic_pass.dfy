/**
  The semantic merge/prune pass (`RemoveByLogic`), stated as a function:
  a backward scan over each group of one kind that merges, elides and
  drops events, and handles the group's first event last.
 */
module LogicPass {
  import opened Seqs
  import opened Storyboard

  /** What a group scan reads: the group's kind, whether the container is an `Element`, its bookkeeping and the predicates. */
  datatype GroupScope = GroupScope(Type: EventType, IsElement: bool, Info: TimeInfo, O: Oracles)

  /**
    The scan state: the working group `List` and the position `Index`, the
    event objects, the container's `EventList` as `Owned`, and the
    element's default position.
   */
  datatype ScanState = ScanState(
    List: seq<nat>,
    Index: int,
    Events: map<nat, Event>,
    Owned: seq<nat>,
    DefaultX: real,
    DefaultY: real)

  predicate ScanOk(g: GroupScope, st: ScanState) {
    && -1 <= st.Index < |st.List|
    && Distinct(st.List) && Distinct(st.Owned)
    && AllIn(st.List, st.Events)
    && EventsOk(st.Events)
    && (forall id :: id in st.List ==> st.Events[id].Type == g.Type)
  }

  /** `RemoveEvent(container, list, e)`: the event leaves both lists. */
  function Remove(st: ScanState, x: nat): ScanState {
    st.(List := RemoveFirst(st.List, x), Owned := RemoveFirst(st.Owned, x))
  }

  /** A value with no fractional part: the test `k == (int)k`. */
  predicate IsWhole(k: real) {
    k == k.Floor as real
  }

  predicate MergeCase(g: GroupScope, pre: Event, now: Event) {
    g.O.IsStatic(now) && g.O.IsStatic(pre) && g.O.IsEventSequent(pre, now)
  }

  predicate ElideCase(g: GroupScope, pre: Event, now: Event) {
    g.O.IsSmallerThenMaxTime(g.Info, now) && g.O.IsStatic(now) && g.O.IsEventSequent(pre, now)
  }

  /** The predecessor is a zero-length event ending where the current one starts. */
  predicate MarkerCase(pre: Event, now: Event) {
    now.StartTime == pre.EndTime && pre.StartTime == pre.EndTime
  }

  /** When a zero-length predecessor may go. */
  predicate MarkerRemovable(g: GroupScope, index: int, pre: Event, now: Event) {
    index > 1 || g.O.EqualsMultiMinTime(g.Info, pre) || (g.O.IsStatic(pre) && g.O.IsEventSequent(pre, now))
  }

  /** One iteration of the `while` loop at `index > 0`; every branch steps back one position. */
  function Backstep(g: GroupScope, st: ScanState): ScanState
    requires ScanOk(g, st) && st.Index > 0
  {
    var now := st.List[st.Index];
    var pre := st.List[st.Index - 1];
    var n := st.Events[now];
    var p := st.Events[pre];
    if MergeCase(g, p, n) then
      Remove(st.(Events := st.Events[pre := p.(EndTime := n.EndTime)]), now).(Index := st.Index - 1)
    else if ElideCase(g, p, n) then
      Remove(st, now).(Index := st.Index - 1)
    else if MarkerCase(p, n) && MarkerRemovable(g, st.Index, p, n) then
      Remove(st, pre).(Index := st.Index - 1)
    else
      st.(Index := st.Index - 1)
  }

  /** The first-event rules at `index == 0`, after which the scan breaks (`Index` becomes -1). */
  function FirstEvent(g: GroupScope, st: ScanState): ScanState
    requires ScanOk(g, st) && st.Index == 0
  {
    var now := st.List[0];
    var e := st.Events[now];
    var done := st.(Index := -1);
    if g.O.IsTimeInRange(g.Info, e) && g.O.IsStaticAndDefault(e) && |st.List| == 1 then
      Remove(done, now)
    else if g.Type == Move && g.IsElement then
      if |st.List| == 1 && g.O.IsStatic(e) then
        if forall k :: k in e.Start ==> IsWhole(k) then
          Remove(done, now).(DefaultX := e.Start[0], DefaultY := e.Start[1])
        else if g.O.EqualsInitialPosition(e, st.DefaultX, st.DefaultY) then
          Remove(done, now)
        else
          done.(DefaultX := 0.0, DefaultY := 0.0)
      else
        done.(DefaultX := 0.0, DefaultY := 0.0)
    else
      done
  }

  lemma RemoveOk(g: GroupScope, st: ScanState, x: nat, index: int)
    requires ScanOk(g, st) && x in st.List && -1 <= index < |st.List| - 1
    ensures ScanOk(g, Remove(st, x).(Index := index))
    ensures DeletedFromBoth(st.List, Remove(st, x).List, st.Owned, Remove(st, x).Owned)
  {
    RemoveFirstDistinct(st.List, x);
    RemoveFirstDistinct(st.Owned, x);
    DeletedOne(st.List, st.Owned, x);
  }

  /** Extending the predecessor's `EndTime` keeps the state well formed. */
  lemma ExtendOk(g: GroupScope, st: ScanState, pre: nat, t: int)
    requires ScanOk(g, st) && pre in st.Events
    ensures var ev := st.Events[pre := st.Events[pre].(EndTime := t)];
      ScanOk(g, st.(Events := ev)) && EndTimeOnly(st.Events, ev)
  {
    var ev := st.Events[pre := st.Events[pre].(EndTime := t)];
    EndTimeOnlyKeepsOk(st.Events, ev);
  }

  /** Only `Remove` touches the lists; only a merge touches an event, and then only its `EndTime`. */
  lemma BackstepOk(g: GroupScope, st: ScanState)
    requires ScanOk(g, st) && st.Index > 0
    ensures var r := Backstep(g, st);
      && ScanOk(g, r) && r.Index == st.Index - 1
      && DeletedFromBoth(st.List, r.List, st.Owned, r.Owned)
      && EndTimeOnly(st.Events, r.Events)
      && r.DefaultX == st.DefaultX && r.DefaultY == st.DefaultY
      && (forall id :: id in r.List ==> id in st.List)
      && (forall id :: id in st.Events && r.Events[id] != st.Events[id] ==> id in st.List)
  {
    var now := st.List[st.Index];
    var pre := st.List[st.Index - 1];
    var n := st.Events[now];
    var p := st.Events[pre];
    if MergeCase(g, p, n) {
      var ev := st.Events[pre := p.(EndTime := n.EndTime)];
      ExtendOk(g, st, pre, n.EndTime);
      RemoveOk(g, st.(Events := ev), now, st.Index - 1);
    } else if ElideCase(g, p, n) {
      RemoveOk(g, st, now, st.Index - 1);
      assert EndTimeOnly(st.Events, st.Events);
    } else if MarkerCase(p, n) && MarkerRemovable(g, st.Index, p, n) {
      RemoveOk(g, st, pre, st.Index - 1);
      assert EndTimeOnly(st.Events, st.Events);
    } else {
      DeletedNone(st.List, st.Owned);
      assert EndTimeOnly(st.Events, st.Events);
    }
  }

  lemma FirstEventOk(g: GroupScope, st: ScanState)
    requires ScanOk(g, st) && st.Index == 0
    ensures var r := FirstEvent(g, st);
      && r.Index == -1 && ScanOk(g, r)
      && DeletedFromBoth(st.List, r.List, st.Owned, r.Owned)
      && r.Events == st.Events
  {
    var now := st.List[0];
    var done := st.(Index := -1);
    RemoveOk(g, done, now, -1);
    DeletedNone(st.List, st.Owned);
  }

  /**
    The backward scan of one group. It terminates because every
    iteration lowers `Index` or ends the scan, and the first-event rules
    run once, at the end.
   */
  function ScanGroup(g: GroupScope, st: ScanState): (r: ScanState)
    requires ScanOk(g, st)
    ensures ScanOk(g, r) && r.Index == -1
    ensures DeletedFromBoth(st.List, r.List, st.Owned, r.Owned)
    ensures EndTimeOnly(st.Events, r.Events)
    decreases st.Index + 1
  {
    if st.Index < 0 then
      DeletedNone(st.List, st.Owned);
      st
    else if st.Index == 0 then
      FirstEventOk(g, st);
      FirstEvent(g, st)
    else
      var next := Backstep(g, st);
      BackstepOk(g, st);
      var r := ScanGroup(g, next);
      DeletedTrans(st.List, next.List, r.List, st.Owned, next.Owned, r.Owned);
      EndTimeOnlyTrans(st.Events, next.Events, r.Events);
      r
  }

  /** One unfolding of the scan: a backward step, then the scan of what is left. */
  lemma ScanGroupBack(g: GroupScope, st: ScanState)
    requires ScanOk(g, st) && st.Index > 0
    ensures ScanOk(g, Backstep(g, st)) && ScanGroup(g, st) == ScanGroup(g, Backstep(g, st))
  {
    BackstepOk(g, st);
  }

  /** The scan ends with the first event of the group. */
  lemma ScanGroupFirst(g: GroupScope, st: ScanState)
    requires ScanOk(g, st) && st.Index == 0
    ensures ScanGroup(g, st) == FirstEvent(g, st)
  {
  }

  /** Merge rule: the predecessor absorbs the current event, which leaves both lists; nothing else changes. */
  lemma MergeRule(g: GroupScope, st: ScanState)
    requires ScanOk(g, st) && st.Index > 0
    requires MergeCase(g, st.Events[st.List[st.Index - 1]], st.Events[st.List[st.Index]])
    ensures var r := Backstep(g, st);
      var k := st.Index;
      var pre := st.List[k - 1];
      var now := st.List[k];
      && r.Events[pre].StartTime == st.Events[pre].StartTime
      && r.Events[pre].EndTime == st.Events[now].EndTime
      && (forall id :: id in st.Events && id != pre ==> r.Events[id] == st.Events[id])
      && r.List == st.List[..k] + st.List[k + 1..]
      && now !in r.Owned
      && (forall id :: id in st.Owned && id != now ==> id in r.Owned)
  {
    var now := st.List[st.Index];
    RemoveFirstAt(st.List, st.Index);
    RemoveFirstDistinct(st.Owned, now);
    assert forall id :: id in st.Owned && id != now ==> id in Elems(st.Owned) - {now};
  }

  /** Elide rule: the current event leaves both lists and its predecessor is left as it was. */
  lemma ElideRule(g: GroupScope, st: ScanState)
    requires ScanOk(g, st) && st.Index > 0
    requires var p := st.Events[st.List[st.Index - 1]];
      var n := st.Events[st.List[st.Index]];
      !MergeCase(g, p, n) && ElideCase(g, p, n)
    ensures var r := Backstep(g, st);
      var k := st.Index;
      var now := st.List[k];
      && r.Events == st.Events
      && r.List == st.List[..k] + st.List[k + 1..]
      && now !in r.Owned
      && (forall id :: id in st.Owned && id != now ==> id in r.Owned)
  {
    var now := st.List[st.Index];
    RemoveFirstAt(st.List, st.Index);
    RemoveFirstDistinct(st.Owned, now);
    assert forall id :: id in st.Owned && id != now ==> id in Elems(st.Owned) - {now};
  }

  /**
    Zero-length-marker rule: a zero-length predecessor ending where the
    current event starts leaves both lists exactly when it is not the
    group's first event, shares the multiple minimum time, or is static
    and sequent with the current event; otherwise nothing changes.
   */
  lemma MarkerRule(g: GroupScope, st: ScanState)
    requires ScanOk(g, st) && st.Index > 0
    requires var p := st.Events[st.List[st.Index - 1]];
      var n := st.Events[st.List[st.Index]];
      !MergeCase(g, p, n) && !ElideCase(g, p, n) && MarkerCase(p, n)
    ensures var r := Backstep(g, st);
      var k := st.Index;
      var pre := st.List[k - 1];
      var p := st.Events[pre];
      var n := st.Events[st.List[k]];
      && r.Events == st.Events
      && r.Index == k - 1
      && (pre !in r.List <==> (k > 1 || g.O.EqualsMultiMinTime(g.Info, p) || (g.O.IsStatic(p) && g.O.IsEventSequent(p, n))))
      && (pre !in r.List ==> r.List == st.List[..k - 1] + st.List[k..] && pre !in r.Owned)
      && (pre in r.List ==> r.List == st.List && r.Owned == st.Owned)
  {
    var pre := st.List[st.Index - 1];
    RemoveFirstAt(st.List, st.Index - 1);
    RemoveFirstDistinct(st.List, pre);
    RemoveFirstDistinct(st.Owned, pre);
    assert pre !in Elems(RemoveFirst(st.List, pre));
    assert pre !in Elems(RemoveFirst(st.Owned, pre));
  }

  /**
    The first-event rules: the lone first event goes when it is in range
    and static-and-default; for a Move group of an element, a lone static
    event with whole coordinates becomes the default position and goes, a
    lone static event equal to the initial position goes, and every other
    case resets the default position to the origin. Otherwise nothing changes.
   */
  lemma FirstEventRules(g: GroupScope, st: ScanState)
    requires ScanOk(g, st) && st.Index == 0
    ensures var r := FirstEvent(g, st);
      var now := st.List[0];
      var e := st.Events[now];
      var lone := |st.List| == 1;
      var dropDefault := g.O.IsTimeInRange(g.Info, e) && g.O.IsStaticAndDefault(e) && lone;
      var moveCase := !dropDefault && g.Type == Move && g.IsElement;
      var whole := forall k :: k in e.Start ==> IsWhole(k);
      var fold := moveCase && lone && g.O.IsStatic(e) && whole;
      var same := moveCase && lone && g.O.IsStatic(e) && !whole
                  && g.O.EqualsInitialPosition(e, st.DefaultX, st.DefaultY);
      && r.Events == st.Events
      && (now !in r.List <==> dropDefault || fold || same)
      && (now !in r.List ==> r.List == [] && now !in r.Owned)
      && (now in r.List ==> r.List == st.List && r.Owned == st.Owned)
      && (fold ==> r.DefaultX == e.Start[0] && r.DefaultY == e.Start[1])
      && (moveCase && !fold && !same ==> r.DefaultX == 0.0 && r.DefaultY == 0.0)
      && (!moveCase || same ==> r.DefaultX == st.DefaultX && r.DefaultY == st.DefaultY)
  {
    var now := st.List[0];
    RemoveFirstDistinct(st.Owned, now);
    assert now !in Elems(RemoveFirst(st.Owned, now));
    if |st.List| == 1 {
      assert st.List == [now];
    }
  }

  /** Each group of events is a timeline: every event well ordered, each ending before the next starts. */
  predicate Ordered(list: seq<nat>, ev: map<nat, Event>)
    requires AllIn(list, ev)
  {
    && (forall i :: 0 <= i < |list| ==> ev[list[i]].StartTime <= ev[list[i]].EndTime)
    && (forall i :: 0 < i < |list| ==> ev[list[i - 1]].EndTime <= ev[list[i]].StartTime)
  }

  lemma OrderedRemoveAt(list: seq<nat>, ev: map<nat, Event>, k: nat)
    requires AllIn(list, ev) && Ordered(list, ev) && k < |list|
    ensures AllIn(list[..k] + list[k + 1..], ev) && Ordered(list[..k] + list[k + 1..], ev)
  {
    var m := list[..k] + list[k + 1..];
    assert forall i :: 0 <= i < |m| ==> m[i] == if i < k then list[i] else list[i + 1];
    forall i | 0 < i < |m| ensures ev[m[i - 1]].EndTime <= ev[m[i]].StartTime {
      if i == k {
        assert ev[list[k - 1]].EndTime <= ev[list[k]].StartTime;
        assert ev[list[k]].EndTime <= ev[list[k + 1]].StartTime;
      }
    }
  }

  lemma OrderedMerge(list: seq<nat>, ev: map<nat, Event>, k: nat)
    requires AllIn(list, ev) && Ordered(list, ev) && Distinct(list) && 0 < k < |list|
    ensures var ev' := ev[list[k - 1] := ev[list[k - 1]].(EndTime := ev[list[k]].EndTime)];
      var m := list[..k] + list[k + 1..];
      AllIn(m, ev') && Ordered(m, ev')
  {
    var pre := list[k - 1];
    var ev' := ev[pre := ev[pre].(EndTime := ev[list[k]].EndTime)];
    var m := list[..k] + list[k + 1..];
    assert forall i :: 0 <= i < |m| ==> m[i] == if i < k then list[i] else list[i + 1];
    assert forall i :: 0 <= i < |m| && i != k - 1 ==> m[i] != pre;
    assert ev[list[k - 1]].EndTime <= ev[list[k]].StartTime;
    forall i | 0 < i < |m| ensures ev'[m[i - 1]].EndTime <= ev'[m[i]].StartTime {
      if i == k {
        assert ev[list[k]].EndTime <= ev[list[k + 1]].StartTime;
      }
    }
  }

  /** A scan step keeps the working group a timeline and only lengthens events of the group. */
  lemma BackstepOrdered(g: GroupScope, st: ScanState)
    requires ScanOk(g, st) && st.Index > 0 && Ordered(st.List, st.Events)
    ensures var r := Backstep(g, st);
      && AllIn(r.List, r.Events) && Ordered(r.List, r.Events)
      && (forall id :: id in st.Events ==> r.Events[id].EndTime >= st.Events[id].EndTime)
      && (forall id :: id in st.Events && r.Events[id] != st.Events[id] ==> id in st.List)
  {
    var k := st.Index;
    var p := st.Events[st.List[k - 1]];
    var n := st.Events[st.List[k]];
    BackstepOk(g, st);
    if MergeCase(g, p, n) {
      MergeRule(g, st);
      OrderedMerge(st.List, st.Events, k);
      assert p.EndTime <= n.StartTime <= n.EndTime;
    } else if ElideCase(g, p, n) {
      ElideRule(g, st);
      OrderedRemoveAt(st.List, st.Events, k);
    } else if MarkerCase(p, n) {
      MarkerRule(g, st);
      if st.List[k - 1] !in Backstep(g, st).List {
        OrderedRemoveAt(st.List, st.Events, k - 1);
      }
    }
  }

  /**
    The group scan preserves the timeline invariant of its group, never
    shortens an event, and changes no event outside the group.
   */
  lemma {:induction false} ScanGroupOrdered(g: GroupScope, st: ScanState)
    requires ScanOk(g, st) && Ordered(st.List, st.Events)
    ensures var r := ScanGroup(g, st);
      && Ordered(r.List, r.Events)
      && (forall id :: id in st.Events ==> r.Events[id].EndTime >= st.Events[id].EndTime)
      && (forall id :: id in st.Events && r.Events[id] != st.Events[id] ==> id in st.List)
    decreases st.Index + 1
  {
    if st.Index == 0 {
      FirstEventRules(g, st);
    } else if st.Index > 0 {
      var next := Backstep(g, st);
      BackstepOk(g, st);
      BackstepOrdered(g, st);
      ScanGroupOrdered(g, next);
      DeletedSublist(st.List, next.List, st.Owned, next.Owned);
      DropElems(st.List, Elems(st.List) - Elems(next.List));
      assert forall id :: id in next.List ==> id in Elems(next.List);
    }
  }

  /** Only a Move group of an element can change the default position. */
  lemma {:induction false} ScanGroupDefaults(g: GroupScope, st: ScanState)
    requires ScanOk(g, st) && !(g.Type == Move && g.IsElement)
    ensures ScanGroup(g, st).DefaultX == st.DefaultX && ScanGroup(g, st).DefaultY == st.DefaultY
    decreases st.Index + 1
  {
    if st.Index > 0 {
      BackstepOk(g, st);
      ScanGroupDefaults(g, Backstep(g, st));
    }
  }

  /** Only events of the scanned group are ever changed. */
  lemma {:induction false} ScanGroupTouches(g: GroupScope, st: ScanState)
    requires ScanOk(g, st)
    ensures var r := ScanGroup(g, st);
      forall id :: id in st.Events && r.Events[id] != st.Events[id] ==> id in st.List
    decreases st.Index + 1
  {
    if st.Index > 0 {
      var next := Backstep(g, st);
      BackstepOk(g, st);
      ScanGroupTouches(g, next);
    }
  }


  /** The state a group scan starts from: the group of kind `t` of the snapshot, scanned from its last event. */
  function StartGroup(eventList: seq<nat>, st: ScanState, t: EventType): ScanState
    requires AllIn(eventList, st.Events)
  {
    var list := Group(eventList, st.Events, t);
    st.(List := list, Index := |list| - 1)
  }

  predicate LogicOk(eventList: seq<nat>, st: ScanState) {
    AllIn(eventList, st.Events) && Distinct(eventList) && Distinct(st.Owned) && EventsOk(st.Events)
  }

  /**
    `RemoveByLogic(container, eventList)` over the group keys `keys`: each
    group of the snapshot `eventList` is scanned in turn.
   */
  function LogicGroups(keys: seq<EventType>, isElement: bool, info: TimeInfo, o: Oracles,
                       eventList: seq<nat>, st: ScanState): (r: ScanState)
    requires LogicOk(eventList, st)
    ensures LogicOk(eventList, r)
    ensures EndTimeOnly(st.Events, r.Events)
  {
    if keys == [] then st
    else
      var g := GroupScope(keys[0], isElement, info, o);
      var start := StartGroup(eventList, st, keys[0]);
      assert ScanOk(g, start);
      var scanned := ScanGroup(g, start);
      var r := LogicGroups(keys[1..], isElement, info, o, eventList, scanned);
      EndTimeOnlyTrans(st.Events, scanned.Events, r.Events);
      r
  }

  /** The whole of `RemoveByLogic`: every group, in order of first appearance. */
  function LogicSpec(isElement: bool, info: TimeInfo, o: Oracles, eventList: seq<nat>, st: ScanState): ScanState
    requires LogicOk(eventList, st)
  {
    LogicGroups(GroupKeys(eventList, st.Events, {}), isElement, info, o, eventList, st)
  }

  /**
    The container's list only loses events, keeps the order of the rest,
    and loses only events of the snapshot it was given.
   */
  lemma {:induction false} LogicGroupsShrinks(keys: seq<EventType>, isElement: bool, info: TimeInfo, o: Oracles,
                                             eventList: seq<nat>, st: ScanState)
    requires LogicOk(eventList, st)
    ensures var r := LogicGroups(keys, isElement, info, o, eventList, st);
      && IsSublist(r.Owned, st.Owned)
      && Elems(st.Owned) - Elems(r.Owned) <= Elems(eventList)
  {
    var r := LogicGroups(keys, isElement, info, o, eventList, st);
    if keys == [] {
      SublistRefl(st.Owned);
    } else {
      var g := GroupScope(keys[0], isElement, info, o);
      var start := StartGroup(eventList, st, keys[0]);
      var scanned := ScanGroup(g, start);
      DeletedSublist(start.List, scanned.List, start.Owned, scanned.Owned);
      LogicGroupsShrinks(keys[1..], isElement, info, o, eventList, scanned);
      SublistTrans(r.Owned, scanned.Owned, st.Owned);
      assert Elems(start.List) <= Elems(eventList);
      DropElems(scanned.Owned, Elems(scanned.Owned) - Elems(r.Owned));
    }
  }

  /** Only events of the snapshot change, and only their `EndTime`. */
  lemma {:induction false} LogicGroupsTouches(keys: seq<EventType>, isElement: bool, info: TimeInfo, o: Oracles,
                                             eventList: seq<nat>, st: ScanState)
    requires LogicOk(eventList, st)
    ensures var r := LogicGroups(keys, isElement, info, o, eventList, st);
      forall id :: id in st.Events && r.Events[id] != st.Events[id] ==> id in eventList
  {
    if keys != [] {
      var g := GroupScope(keys[0], isElement, info, o);
      var start := StartGroup(eventList, st, keys[0]);
      var scanned := ScanGroup(g, start);
      ScanGroupTouches(g, start);
      LogicGroupsTouches(keys[1..], isElement, info, o, eventList, scanned);
    }
  }

  /** A container that is not an element keeps its default position. */
  lemma {:induction false} LogicGroupsDefaults(keys: seq<EventType>, info: TimeInfo, o: Oracles,
                                              eventList: seq<nat>, st: ScanState)
    requires LogicOk(eventList, st)
    ensures var r := LogicGroups(keys, false, info, o, eventList, st);
      r.DefaultX == st.DefaultX && r.DefaultY == st.DefaultY
  {
    if keys != [] {
      var g := GroupScope(keys[0], false, info, o);
      var start := StartGroup(eventList, st, keys[0]);
      ScanGroupDefaults(g, start);
      LogicGroupsDefaults(keys[1..], info, o, eventList, ScanGroup(g, start));
    }
  }

  /** Two states that agree on everything a container holds. */
  predicate SameContainer(a: ScanState, b: ScanState) {
    a.Events == b.Events && a.Owned == b.Owned && a.DefaultX == b.DefaultX && a.DefaultY == b.DefaultY
  }

  /** One unfolding of the group fold: the first group is scanned, then the rest. */
  lemma LogicGroupsStep(keys: seq<EventType>, isElement: bool, info: TimeInfo, o: Oracles,
                        eventList: seq<nat>, st: ScanState)
    requires LogicOk(eventList, st) && keys != []
    ensures var g := GroupScope(keys[0], isElement, info, o);
      var start := StartGroup(eventList, st, keys[0]);
      && ScanOk(g, start)
      && LogicGroups(keys, isElement, info, o, eventList, st)
         == LogicGroups(keys[1..], isElement, info, o, eventList, ScanGroup(g, start))
  {
  }

  /** The group fold ignores the leftover working list of the state it starts from. */
  lemma LogicGroupsSame(keys: seq<EventType>, isElement: bool, info: TimeInfo, o: Oracles,
                        eventList: seq<nat>, a: ScanState, b: ScanState)
    requires LogicOk(eventList, a) && SameContainer(a, b)
    ensures LogicOk(eventList, b)
    ensures SameContainer(LogicGroups(keys, isElement, info, o, eventList, a),
                          LogicGroups(keys, isElement, info, o, eventList, b))
  {
    if keys != [] {
      assert StartGroup(eventList, a, keys[0]) == StartGroup(eventList, b, keys[0]);
    }
  }

  /** Everything one call of the pass does to a container and to the event objects. */
  lemma LogicSpecEffects(isElement: bool, info: TimeInfo, o: Oracles, eventList: seq<nat>, st: ScanState)
    requires LogicOk(eventList, st)
    ensures var r := LogicSpec(isElement, info, o, eventList, st);
      && IsSublist(r.Owned, st.Owned) && Distinct(r.Owned)
      && Elems(st.Owned) - Elems(r.Owned) <= Elems(eventList)
      && EndTimeOnly(st.Events, r.Events) && EventsOk(r.Events)
      && (forall id :: id in st.Events && r.Events[id] != st.Events[id] ==> id in eventList)
      && (!isElement ==> r.DefaultX == st.DefaultX && r.DefaultY == st.DefaultY)
  {
    var keys := GroupKeys(eventList, st.Events, {});
    LogicGroupsShrinks(keys, isElement, info, o, eventList, st);
    LogicGroupsTouches(keys, isElement, info, o, eventList, st);
    if !isElement {
      LogicGroupsDefaults(keys, info, o, eventList, st);
    }
  }

  /** Two listed events of one kind make one group, in list order. */
  lemma PairGroup(events: map<nat, Event>, a: nat, b: nat)
    requires a in events && b in events && events[a].Type == events[b].Type
    ensures GroupKeys([a, b], events, {}) == [events[a].Type]
    ensures Group([a, b], events, events[a].Type) == [a, b]
  {
    var t := events[a].Type;
    var none: set<EventType> := {};
    assert [a, b][1..] == [b] && [b][1..] == [];
    assert GroupKeys([b], events, {t}) == [];
    assert none + {t} == {t};
    assert Group([b], events, t) == [b];
  }

  /**
    `NormalOptimize` hands a loop or trigger child its parent's list. When
    that list is two events `a`, `b` of one kind that merge, and the child
    owns neither, the child's call extends the parent's event `a` to `b`'s
    end, while the parent goes on listing `b`; the child's own list is left
    as it was.
   */
  lemma ChildPassEditsParent(info: TimeInfo, o: Oracles, child: ScanState, a: nat, b: nat)
    requires LogicOk([a, b], child) && a != b && a !in child.Owned && b !in child.Owned
    requires child.Events[a].Type == child.Events[b].Type
    requires MergeCase(GroupScope(child.Events[a].Type, false, info, o), child.Events[a], child.Events[b])
    ensures var r := LogicSpec(false, info, o, [a, b], child);
      && r.Owned == child.Owned
      && r.Events == child.Events[a := child.Events[a].(EndTime := child.Events[b].EndTime)]
  {
    var events := child.Events;
    var t := events[a].Type;
    var g := GroupScope(t, false, info, o);
    PairGroup(events, a, b);
    var start := StartGroup([a, b], child, t);
    assert start == child.(List := [a, b], Index := 1);
    assert RemoveFirst([a, b], b) == [a];
    RemoveFirstDistinct(child.Owned, b);
    DropNothing(child.Owned, {b});
    var merged := Backstep(g, start);
    assert merged.Owned == child.Owned && merged.List == [a] && merged.Index == 0;
    assert ScanGroup(g, start) == FirstEvent(g, merged);
    assert a !in merged.Owned;
    assert FirstEvent(g, merged).Owned == child.Owned && FirstEvent(g, merged).Events == merged.Events;
    assert [t][1..] == [];
    assert LogicGroups([t], false, info, o, [a, b], child) == ScanGroup(g, start);
  }
}
