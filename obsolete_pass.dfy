/**
  The obsolete-driven elimination (`RemoveByObsoletedList`), stated as a
  function of the event list: a forward scan over each non-Fade group that
  deletes an event whose whole effect falls inside an invisible range.
 */
module ObsoletePass {
  import opened Seqs
  import opened Storyboard

  /** What the scan reads: the container's bookkeeping, the predicates and the event objects. */
  datatype Scope = Scope(Info: TimeInfo, O: Oracles, Events: map<nat, Event>)

  /** The scan position `I` in the working group `List`, and the container's `EventList` as `Owned`. */
  datatype ObsState = ObsState(List: seq<nat>, I: int, Owned: seq<nat>)

  predicate ObsOk(sc: Scope, st: ObsState) {
    && 0 <= st.I <= |st.List|
    && Distinct(st.List) && Distinct(st.Owned)
    && AllIn(st.List, sc.Events)
  }

  /** An event that sits on a range boundary and whose kind is listed as unworthy is never removed. */
  predicate Protected(sc: Scope, e: Event) {
    sc.O.OnObsoleteTimingRange(sc.Info, e) && sc.O.Unworthy(e.Type)
  }

  /** The event lies in an obsolete range that lasts until the container ends. */
  predicate InFinalRange(sc: Scope, e: Event) {
    match sc.O.InObsoleteTimingRange(sc.Info, e)
    case Some(range) => range.EndTime == sc.Info.MaxTime
    case None => false
  }

  /** `canRemove` for the event at `i`, given its successor in the working group if any. */
  predicate CanRemove(sc: Scope, list: seq<nat>, i: nat)
    requires i < |list| && AllIn(list, sc.Events)
  {
    var e := sc.Events[list[i]];
    if i == |list| - 1 then InFinalRange(sc, e)
    else sc.O.ContainsTimingPoint(sc.Info.ObsoleteList, e.StartTime, e.EndTime, sc.Events[list[i + 1]].StartTime)
  }

  /**
    The `for` loop over one group. A removal keeps `i` where it is
    (`i--` then `i++`), so the next event is examined at the same position.
   */
  function ObsScan(sc: Scope, st: ObsState): (r: ObsState)
    requires ObsOk(sc, st)
    ensures ObsOk(sc, r) && r.I == |r.List|
    ensures DeletedFromBoth(st.List, r.List, st.Owned, r.Owned)
    decreases |st.List| - st.I
  {
    if st.I == |st.List| then
      DeletedNone(st.List, st.Owned);
      st
    else
      var x := st.List[st.I];
      if !Protected(sc, sc.Events[x]) && CanRemove(sc, st.List, st.I) then
        var next := ObsState(RemoveFirst(st.List, x), st.I, RemoveFirst(st.Owned, x));
        RemoveFirstDistinct(st.List, x);
        RemoveFirstDistinct(st.Owned, x);
        DeletedOne(st.List, st.Owned, x);
        var r := ObsScan(sc, next);
        DeletedTrans(st.List, next.List, r.List, st.Owned, next.Owned, r.Owned);
        r
      else
        ObsScan(sc, st.(I := st.I + 1))
  }

  /** One iteration of the scan at position `I`: remove the event there, or move past it. */
  function ObsNext(sc: Scope, st: ObsState): (r: ObsState)
    requires ObsOk(sc, st) && st.I < |st.List|
    ensures ObsOk(sc, r)
  {
    var x := st.List[st.I];
    if !Protected(sc, sc.Events[x]) && CanRemove(sc, st.List, st.I) then
      RemoveFirstDistinct(st.List, x);
      RemoveFirstDistinct(st.Owned, x);
      ObsState(RemoveFirst(st.List, x), st.I, RemoveFirst(st.Owned, x))
    else
      st.(I := st.I + 1)
  }

  lemma ObsScanNext(sc: Scope, st: ObsState)
    requires ObsOk(sc, st) && st.I < |st.List|
    ensures ObsScan(sc, st) == ObsScan(sc, ObsNext(sc, st))
  {
  }

  /** The group keys the pass visits: every kind present but Fade. */
  function NonFade(keys: seq<EventType>): (r: seq<EventType>)
    ensures forall t :: t in r <==> t in keys && t != Fade
  {
    if keys == [] then []
    else (if keys[0] == Fade then [] else [keys[0]]) + NonFade(keys[1..])
  }

  /** The scan of each group in turn, every group taken from the snapshot `eventList`. */
  function ObsGroups(sc: Scope, keys: seq<EventType>, eventList: seq<nat>, owned: seq<nat>): (r: seq<nat>)
    requires AllIn(eventList, sc.Events) && Distinct(eventList) && Distinct(owned)
    ensures Distinct(r)
  {
    if keys == [] then owned
    else
      var group := Group(eventList, sc.Events, keys[0]);
      var scanned := ObsScan(sc, ObsState(group, 0, owned));
      ObsGroups(sc, keys[1..], eventList, scanned.Owned)
  }

  /** `RemoveByObsoletedList(container, eventList)`: the container's new `EventList`. */
  function ObsoleteSpec(sc: Scope, eventList: seq<nat>, owned: seq<nat>): seq<nat>
    requires AllIn(eventList, sc.Events) && Distinct(eventList) && Distinct(owned)
  {
    if |sc.Info.ObsoleteList| == 0 then owned
    else ObsGroups(sc, NonFade(GroupKeys(eventList, sc.Events, {})), eventList, owned)
  }

  /**
    Whether the scan removes `x` from its group `group`, the group as the
    snapshot gives it: `x` is not protected and `canRemove` holds at its
    own position there, judged against its successor in that group, or,
    when it is the last of its kind, against the container's end.
   */
  predicate Removable(sc: Scope, group: seq<nat>, x: nat)
    requires x in group && AllIn(group, sc.Events)
  {
    !Protected(sc, sc.Events[x]) && CanRemove(sc, group, IndexOf(group, x))
  }

  /** After the event at `i` leaves, the test at a later position reads the same two events as before. */
  lemma CanRemoveShift(sc: Scope, list: seq<nat>, i: nat, j: nat)
    requires i < j < |list| && AllIn(list, sc.Events)
    ensures var next := list[..i] + list[i + 1..];
      AllIn(next, sc.Events) && CanRemove(sc, next, j - 1) == CanRemove(sc, list, j)
  {
    var next := list[..i] + list[i + 1..];
    assert next[j - 1] == list[j];
    if j < |list| - 1 {
      assert next[j] == list[j + 1];
    }
  }

  /**
    `rl`, the list the scan leaves, keeps every event of `list` before `i`,
    and loses an event at or after `i` exactly when the removal condition
    holds for it at its position in `list`.
   */
  predicate ScanExact(sc: Scope, list: seq<nat>, i: nat, rl: seq<nat>)
    requires i <= |list| && AllIn(list, sc.Events)
  {
    && (forall j :: 0 <= j < i ==> list[j] in rl)
    && (forall j :: i <= j < |list| ==>
          (list[j] !in rl <==> !Protected(sc, sc.Events[list[j]]) && CanRemove(sc, list, j)))
  }

  /**
    The scan from position `I` keeps every event before `I`, and removes an
    event at or after `I` exactly when the removal condition holds for it at
    its position in the list as it stands: the events after `I` are not
    touched before the scan reaches them.
   */
  lemma {:induction false} ObsScanExact(sc: Scope, st: ObsState)
    requires ObsOk(sc, st)
    ensures ScanExact(sc, st.List, st.I, ObsScan(sc, st).List)
    decreases |st.List| - st.I, 1
  {
    if st.I < |st.List| {
      var x0 := st.List[st.I];
      if !Protected(sc, sc.Events[x0]) && CanRemove(sc, st.List, st.I) {
        ExactRemoveStep(sc, st);
      } else {
        var next := st.(I := st.I + 1);
        ObsScanExact(sc, next);
        ExactAfterKeep(sc, st.List, st.I, ObsScan(sc, next).List);
      }
    }
  }

  /** The removal step of the scan, for `ObsScanExact`. */
  lemma {:induction false} ExactRemoveStep(sc: Scope, st: ObsState)
    requires ObsOk(sc, st) && st.I < |st.List|
    requires !Protected(sc, sc.Events[st.List[st.I]]) && CanRemove(sc, st.List, st.I)
    ensures ScanExact(sc, st.List, st.I, ObsScan(sc, st).List)
    decreases |st.List| - st.I, 0
  {
    var next := ObsNext(sc, st);
    RemoveFirstAt(st.List, st.I);
    assert next.List == st.List[..st.I] + st.List[st.I + 1..] && next.I == st.I;
    ObsScanExact(sc, next);
    var r := ObsScan(sc, next);
    assert ObsScan(sc, st) == r;
    DeletedSublist(next.List, r.List, next.Owned, r.Owned);
    SublistKeeps(r.List, next.List);
    ExactAfterRemove(sc, st.List, st.I, r.List);
  }

  /** The keeping step of `ObsScanExact`: the event at `i` stays, and it fails the removal condition. */
  lemma ExactAfterKeep(sc: Scope, list: seq<nat>, i: nat, rl: seq<nat>)
    requires i < |list| && AllIn(list, sc.Events)
    requires !(!Protected(sc, sc.Events[list[i]]) && CanRemove(sc, list, i))
    requires ScanExact(sc, list, i + 1, rl)
    ensures ScanExact(sc, list, i, rl)
  {
    forall j | i <= j < |list|
      ensures list[j] !in rl <==> !Protected(sc, sc.Events[list[j]]) && CanRemove(sc, list, j)
    {
      if j == i {
        assert list[j] in rl;
      }
    }
  }

  /** The removal step of `ObsScanExact`: the event at `i` meets the removal condition and is gone, and what holds of the shorter list holds of the original one. */
  lemma ExactAfterRemove(sc: Scope, list: seq<nat>, i: nat, rl: seq<nat>)
    requires i < |list| && AllIn(list, sc.Events) && Distinct(list)
    requires !Protected(sc, sc.Events[list[i]]) && CanRemove(sc, list, i)
    requires var next := list[..i] + list[i + 1..];
      (forall y :: y in rl ==> y in next) && AllIn(next, sc.Events) && ScanExact(sc, next, i, rl)
    ensures ScanExact(sc, list, i, rl) && list[i] !in rl
  {
    var next := list[..i] + list[i + 1..];
    forall j | 0 <= j < i ensures list[j] in rl {
      assert next[j] == list[j];
    }
    forall j | i < j < |list|
      ensures list[j] !in rl <==> !Protected(sc, sc.Events[list[j]]) && CanRemove(sc, list, j)
    {
      CanRemoveShift(sc, list, i, j);
      assert next[j - 1] == list[j];
    }
    assert list[i] !in list[..i] && list[i] !in list[i + 1..];
  }

  /** One group scan removes from the group, and from the container's list, exactly the removable events. */
  lemma ObsScanGroup(sc: Scope, group: seq<nat>, owned: seq<nat>)
    requires AllIn(group, sc.Events) && Distinct(group) && Distinct(owned)
    ensures var r := ObsScan(sc, ObsState(group, 0, owned));
      && (forall x :: x in group ==> (x !in r.List <==> Removable(sc, group, x)))
      && (forall x :: x in owned ==> (x !in r.Owned <==> x in group && Removable(sc, group, x)))
  {
    var st := ObsState(group, 0, owned);
    var r := ObsScan(sc, st);
    ObsScanExact(sc, st);
    forall x | x in group ensures x !in r.List <==> Removable(sc, group, x) {
      var k := IndexOf(group, x);
    }
    var gone := Elems(group) - Elems(r.List);
    DropElems(owned, gone);
    forall x | x in owned ensures x !in r.Owned <==> x in group && Removable(sc, group, x) {
      assert x in Elems(owned);
      assert x !in r.Owned <==> x !in Elems(r.Owned);
      assert x in group <==> x in Elems(group);
      assert x in r.List <==> x in Elems(r.List);
    }
  }

  /** The group scans only delete, keep the order, and delete nothing outside the snapshot. */
  lemma {:induction false} ObsGroupsShrinks(sc: Scope, keys: seq<EventType>, eventList: seq<nat>, owned: seq<nat>)
    requires AllIn(eventList, sc.Events) && Distinct(eventList) && Distinct(owned)
    ensures var r := ObsGroups(sc, keys, eventList, owned);
      IsSublist(r, owned) && Elems(owned) - Elems(r) <= Elems(eventList)
    ensures forall y :: y in ObsGroups(sc, keys, eventList, owned) ==> y in owned
  {
    var r := ObsGroups(sc, keys, eventList, owned);
    if keys == [] {
      SublistRefl(owned);
    } else {
      var group := Group(eventList, sc.Events, keys[0]);
      var scanned := ObsScan(sc, ObsState(group, 0, owned));
      DeletedSublist(group, scanned.List, owned, scanned.Owned);
      ObsGroupsShrinks(sc, keys[1..], eventList, scanned.Owned);
      SublistTrans(r, scanned.Owned, owned);
      assert Elems(group) <= Elems(eventList);
      DropElems(owned, Elems(owned) - Elems(r));
      forall y | y in r ensures y in owned {
        assert y in Elems(r);
      }
    }
  }

  /**
    Over all visited kinds, an event leaves the container's list exactly
    when it is listed in the snapshot, its kind is visited, and it is
    removable within its own group of the snapshot.
   */
  lemma {:induction false} ObsGroupsExact(sc: Scope, keys: seq<EventType>, eventList: seq<nat>, owned: seq<nat>)
    requires AllIn(eventList, sc.Events) && Distinct(eventList) && Distinct(owned)
    ensures var r := ObsGroups(sc, keys, eventList, owned);
      forall x :: x in owned ==>
        (x !in r <==>
          && x in eventList
          && sc.Events[x].Type in keys
          && Removable(sc, Group(eventList, sc.Events, sc.Events[x].Type), x))
  {
    var r := ObsGroups(sc, keys, eventList, owned);
    if keys != [] {
      var group := Group(eventList, sc.Events, keys[0]);
      var scanned := ObsScan(sc, ObsState(group, 0, owned));
      assert r == ObsGroups(sc, keys[1..], eventList, scanned.Owned);
      ObsGroupsExact(sc, keys[1..], eventList, scanned.Owned);
      ObsScanGroup(sc, group, owned);
      ObsGroupsShrinks(sc, keys[1..], eventList, scanned.Owned);
      forall x | x in owned
        ensures x !in r <==>
          && x in eventList
          && sc.Events[x].Type in keys
          && Removable(sc, Group(eventList, sc.Events, sc.Events[x].Type), x)
      {
        if x in eventList {
          var t := sc.Events[x].Type;
          assert t in keys <==> t == keys[0] || t in keys[1..];
        }
      }
    }
  }

  /** With no obsolete range recorded the pass returns at once: nothing changes. */
  lemma ObsoleteSpecNoRanges(sc: Scope, eventList: seq<nat>, owned: seq<nat>)
    requires AllIn(eventList, sc.Events) && Distinct(eventList) && Distinct(owned)
    requires |sc.Info.ObsoleteList| == 0
    ensures ObsoleteSpec(sc, eventList, owned) == owned
  {
  }

  /**
    What the whole pass does to the container's list: it only loses
    events, keeping the order of the rest, and it loses an event exactly
    when there are obsolete ranges, the event is in the snapshot, it is
    not a Fade event, and it is removable within its group of the snapshot.
   */
  lemma ObsoleteSpecRemoves(sc: Scope, eventList: seq<nat>, owned: seq<nat>)
    requires AllIn(eventList, sc.Events) && Distinct(eventList) && Distinct(owned)
    ensures var r := ObsoleteSpec(sc, eventList, owned);
      && IsSublist(r, owned)
      && (forall x :: x in owned ==>
            (x !in r <==>
              && |sc.Info.ObsoleteList| > 0
              && x in eventList
              && sc.Events[x].Type != Fade
              && Removable(sc, Group(eventList, sc.Events, sc.Events[x].Type), x)))
  {
    if |sc.Info.ObsoleteList| == 0 {
      SublistRefl(owned);
    } else {
      var keys := NonFade(GroupKeys(eventList, sc.Events, {}));
      ObsGroupsShrinks(sc, keys, eventList, owned);
      ObsGroupsExact(sc, keys, eventList, owned);
    }
  }
}
