/**
  `Compress` stated as functions: the obsolete-driven pass (`PreOptimize`)
  and then the merge/prune pass (`NormalOptimize`) over an element and its
  loop and trigger sub-containers. A container is a key `K`; what the
  passes read and write of it is its `Part`, and the event objects, which
  every container's list shares, are threaded from one step to the next.
 */
module CompressSpec {
  import opened Seqs
  import opened Storyboard
  import opened ObsoletePass
  import opened LogicPass

  /** A container's own state as the passes see it: its kind, its bookkeeping, its list and its default position. */
  datatype Part = Part(IsElement: bool, Info: TimeInfo, List: seq<nat>, DefaultX: real, DefaultY: real)

  /** The event objects and the part of every container, between two steps of a pass. */
  datatype Stage<K> = Stage(Events: map<nat, Event>, Parts: map<K, Part>)

  /** Every part lists each event once, and only events that exist. */
  predicate PartsOk<K>(events: map<nat, Event>, parts: map<K, Part>) {
    forall k :: k in parts ==> Distinct(parts[k].List) && AllIn(parts[k].List, events)
  }

  predicate StageOk<K>(s: Stage<K>) {
    EventsOk(s.Events) && PartsOk(s.Events, s.Parts)
  }

  /** One part replaced by a shorter list, over event objects with the same ids. */
  lemma PartsOkUpdate<K>(events: map<nat, Event>, events': map<nat, Event>, parts: map<K, Part>, k: K, q: Part)
    requires PartsOk(events, parts) && k in parts && events'.Keys == events.Keys
    requires IsSublist(q.List, parts[k].List) && Distinct(q.List)
    ensures PartsOk(events', parts[k := q])
  {
    SublistKeeps(q.List, parts[k].List);
    forall j | j in parts ensures AllIn(parts[j].List, events') {
      assert AllIn(parts[j].List, events);
    }
  }

  // ----- what the passes do to one list -----

  /** A list that only lost events, never a Fade one. */
  predicate Shrunk(events: map<nat, Event>, before: seq<nat>, after: seq<nat>) {
    IsSublist(after, before) && FadeKept(events, before, after)
  }

  /** Every Fade event listed before is still listed after. */
  predicate FadeKept(events: map<nat, Event>, before: seq<nat>, after: seq<nat>) {
    forall x :: x in before && x in events && events[x].Type == Fade ==> x in after
  }

  lemma ShrunkTrans(events: map<nat, Event>, a: seq<nat>, b: seq<nat>, c: seq<nat>)
    requires Shrunk(events, a, b) && Shrunk(events, b, c)
    ensures Shrunk(events, a, c)
  {
    SublistTrans(c, b, a);
  }

  lemma ShrunkRefl(events: map<nat, Event>, a: seq<nat>)
    ensures Shrunk(events, a, a)
  {
    SublistRefl(a);
  }

  /** `after` only lost events of `before`, and each event it lost is in `snapshot`. */
  predicate Pruned(before: seq<nat>, after: seq<nat>, snapshot: seq<nat>) {
    IsSublist(after, before) && forall x :: x in before && x !in after ==> x in snapshot
  }

  lemma PrunedTrans(a: seq<nat>, b: seq<nat>, c: seq<nat>, snapshot: seq<nat>)
    requires Pruned(a, b, snapshot) && Pruned(b, c, snapshot)
    ensures Pruned(a, c, snapshot)
  {
    SublistTrans(c, b, a);
    SublistKeeps(c, b);
  }

  lemma PrunedFromSpec(before: seq<nat>, after: seq<nat>, snapshot: seq<nat>)
    requires IsSublist(after, before) && Elems(before) - Elems(after) <= Elems(snapshot)
    ensures Pruned(before, after, snapshot)
  {
    forall x | x in before && x !in after ensures x in snapshot {
      assert x in Elems(before) - Elems(after);
    }
  }

  lemma PrunedRefl(a: seq<nat>, snapshot: seq<nat>)
    ensures Pruned(a, a, snapshot)
  {
    SublistRefl(a);
  }

  /** The event objects changed only their `EndTime`, and only those listed in `snapshot`. */
  predicate EventsEdited(before: map<nat, Event>, after: map<nat, Event>, snapshot: seq<nat>) {
    EndTimeOnly(before, after) && forall id :: id in before && after[id] != before[id] ==> id in snapshot
  }

  lemma EventsEditedTrans(a: map<nat, Event>, b: map<nat, Event>, c: map<nat, Event>, snapshot: seq<nat>)
    requires EventsEdited(a, b, snapshot) && EventsEdited(b, c, snapshot)
    ensures EventsEdited(a, c, snapshot)
  {
    EndTimeOnlyTrans(a, b, c);
  }

  // ----- what a pass does to every list of the family -----

  /** Every list only lost events, never a Fade one. */
  predicate AllShrunk<K>(events: map<nat, Event>, before: map<K, Part>, after: map<K, Part>) {
    forall k :: k in before ==> k in after && Shrunk(events, before[k].List, after[k].List)
  }

  /** Every list only lost events, each of them listed in `snapshot`. */
  predicate AllPruned<K>(before: map<K, Part>, after: map<K, Part>, snapshot: seq<nat>) {
    forall k :: k in before ==> k in after && Pruned(before[k].List, after[k].List, snapshot)
  }

  /** Every list only lost events. */
  predicate AllSublists<K>(before: map<K, Part>, after: map<K, Part>) {
    forall k :: k in before ==> k in after && IsSublist(after[k].List, before[k].List)
  }

  /** Nothing but the lists changed. */
  predicate ListsOnly<K>(before: map<K, Part>, after: map<K, Part>) {
    forall k :: k in before ==> k in after && after[k] == before[k].(List := after[k].List)
  }

  /** Every container kept its kind and its bookkeeping. */
  predicate KindsKept<K>(before: map<K, Part>, after: map<K, Part>) {
    forall k :: k in before ==> k in after && after[k].IsElement == before[k].IsElement && after[k].Info == before[k].Info
  }

  /** Every container that is not an element kept its default position. */
  predicate DefaultsKept<K>(before: map<K, Part>, after: map<K, Part>) {
    forall k :: k in before && !before[k].IsElement ==>
      k in after && after[k].DefaultX == before[k].DefaultX && after[k].DefaultY == before[k].DefaultY
  }

  lemma AllShrunkTrans<K>(events: map<nat, Event>, a: map<K, Part>, b: map<K, Part>, c: map<K, Part>)
    requires AllShrunk(events, a, b) && AllShrunk(events, b, c)
    ensures AllShrunk(events, a, c)
  {
    forall k | k in a ensures Shrunk(events, a[k].List, c[k].List) {
      ShrunkTrans(events, a[k].List, b[k].List, c[k].List);
    }
  }

  lemma AllPrunedTrans<K>(a: map<K, Part>, b: map<K, Part>, c: map<K, Part>, snapshot: seq<nat>)
    requires AllPruned(a, b, snapshot) && AllPruned(b, c, snapshot)
    ensures AllPruned(a, c, snapshot)
  {
    forall k | k in a ensures Pruned(a[k].List, c[k].List, snapshot) {
      PrunedTrans(a[k].List, b[k].List, c[k].List, snapshot);
    }
  }

  lemma KeptTrans<K>(a: map<K, Part>, b: map<K, Part>, c: map<K, Part>)
    requires KindsKept(a, b) && KindsKept(b, c) && DefaultsKept(a, b) && DefaultsKept(b, c)
    ensures KindsKept(a, c) && DefaultsKept(a, c)
  {
  }

  lemma EventsEditedWiden(a: map<nat, Event>, b: map<nat, Event>, s1: seq<nat>, s2: seq<nat>)
    requires EventsEdited(a, b, s1) && forall x :: x in s1 ==> x in s2
    ensures EventsEdited(a, b, s2)
  {
  }

  // ----- PreOptimize -----

  /**
    The result of `PreOptimize` on one container's own list: nothing when
    the list is empty, and otherwise the obsolete-driven pass with the list
    as its own snapshot, which removes exactly the non-Fade events its
    test judges removable.
   */
  function PreSpec(info: TimeInfo, o: Oracles, events: map<nat, Event>, list: seq<nat>): (r: seq<nat>)
    requires AllIn(list, events) && Distinct(list)
    ensures IsSublist(r, list) && Distinct(r) && AllIn(r, events)
    ensures forall x :: x in list ==>
      (x !in r <==>
        && |info.ObsoleteList| > 0
        && events[x].Type != Fade
        && Removable(Scope(info, o, events), Group(list, events, events[x].Type), x))
  {
    if list == [] then list
    else
      ObsoleteSpecRemoves(Scope(info, o, events), list, list);
      var r := ObsoleteSpec(Scope(info, o, events), list, list);
      SublistKeeps(r, list);
      r
  }

  /** The pass on one container: its list becomes `PreSpec` of itself, which lost no Fade event. */
  function PrePart(o: Oracles, events: map<nat, Event>, p: Part): (r: Part)
    requires AllIn(p.List, events) && Distinct(p.List)
    ensures Shrunk(events, p.List, r.List)
  {
    p.(List := PreSpec(p.Info, o, events, p.List))
  }

  /** The parts after `PreOptimize` ran on each of `items` in turn; a container listed twice is run twice. */
  function PreFold<K>(o: Oracles, events: map<nat, Event>, parts: map<K, Part>, items: seq<K>): (r: map<K, Part>)
    requires PartsOk(events, parts) && forall k :: k in items ==> k in parts
    ensures r.Keys == parts.Keys && PartsOk(events, r)
    ensures forall k :: k in parts && k !in items ==> r[k] == parts[k]
    decreases |items|
  {
    if items == [] then parts
    else
      var prev := PreFold(o, events, parts, items[..|items| - 1]);
      var k := items[|items| - 1];
      prev[k := PrePart(o, events, prev[k])]
  }

  /** One more item of the fold. */
  lemma PreFoldStep<K>(o: Oracles, events: map<nat, Event>, parts: map<K, Part>, items: seq<K>, i: nat)
    requires PartsOk(events, parts) && (forall k :: k in items ==> k in parts) && i < |items|
    ensures var prev := PreFold(o, events, parts, items[..i]);
      PreFold(o, events, parts, items[..i + 1]) == prev[items[i] := PrePart(o, events, prev[items[i]])]
  {
    assert items[..i + 1][..i] == items[..i];
  }

  /**
    Over the fold, every list only loses events and never a Fade one, and
    nothing but the lists changes.
   */
  lemma {:induction false} PreFoldEffects<K>(o: Oracles, events: map<nat, Event>, parts: map<K, Part>, items: seq<K>)
    requires PartsOk(events, parts) && forall k :: k in items ==> k in parts
    ensures var r := PreFold(o, events, parts, items);
      AllShrunk(events, parts, r) && ListsOnly(parts, r)
    decreases |items|
  {
    var r := PreFold(o, events, parts, items);
    if items == [] {
      forall k | k in parts ensures Shrunk(events, parts[k].List, r[k].List) {
        ShrunkRefl(events, parts[k].List);
      }
    } else {
      var front := items[..|items| - 1];
      var prev := PreFold(o, events, parts, front);
      var item := items[|items| - 1];
      PreFoldEffects(o, events, parts, front);
      forall k | k in parts ensures Shrunk(events, parts[k].List, r[k].List) {
        if k == item {
          ShrunkTrans(events, parts[k].List, prev[k].List, r[k].List);
        }
      }
    }
  }

  /** With no container listed twice, each listed container was run exactly once. */
  lemma {:induction false} PreFoldOnce<K>(o: Oracles, events: map<nat, Event>, parts: map<K, Part>, items: seq<K>)
    requires PartsOk(events, parts) && (forall k :: k in items ==> k in parts) && Distinct(items)
    ensures var r := PreFold(o, events, parts, items);
      forall k :: k in items ==> r[k] == PrePart(o, events, parts[k])
    decreases |items|
  {
    if items != [] {
      var front := items[..|items| - 1];
      var item := items[|items| - 1];
      assert item !in front by {
        assert items[|items| - 1] !in items[..|items| - 1];
      }
      PreFoldOnce(o, events, parts, front);
      forall k | k in items ensures PreFold(o, events, parts, items)[k] == PrePart(o, events, parts[k]) {
        if k != item {
          assert k in front;
        }
      }
    }
  }

  /**
    `PreOptimize(c)`: for an element, each loop and then each trigger
    sub-container, then the container on its own list.
   */
  function PreAll<K>(o: Oracles, events: map<nat, Event>, parts: map<K, Part>, c: K, loops: seq<K>, triggers: seq<K>)
      : (r: map<K, Part>)
    requires PartsOk(events, parts) && c in parts && forall k :: k in loops + triggers ==> k in parts
    ensures r.Keys == parts.Keys && PartsOk(events, r)
    ensures forall k :: k in parts && k != c && (parts[c].IsElement ==> k !in loops + triggers) ==> r[k] == parts[k]
  {
    var subs := if parts[c].IsElement then PreFold(o, events, PreFold(o, events, parts, loops), triggers) else parts;
    subs[c := PrePart(o, events, subs[c])]
  }

  /** `PreOptimize(c)` only shortens lists, never drops a Fade event, and changes nothing but the lists. */
  lemma PreAllEffects<K>(o: Oracles, events: map<nat, Event>, parts: map<K, Part>, c: K, loops: seq<K>, triggers: seq<K>)
    requires PartsOk(events, parts) && c in parts && forall k :: k in loops + triggers ==> k in parts
    ensures var r := PreAll(o, events, parts, c, loops, triggers);
      AllShrunk(events, parts, r) && ListsOnly(parts, r)
  {
    var r := PreAll(o, events, parts, c, loops, triggers);
    if parts[c].IsElement {
      var mid := PreFold(o, events, parts, loops);
      var subs := PreFold(o, events, mid, triggers);
      PreFoldEffects(o, events, parts, loops);
      PreFoldEffects(o, events, mid, triggers);
      forall k | k in parts ensures Shrunk(events, parts[k].List, r[k].List) {
        ShrunkTrans(events, parts[k].List, mid[k].List, subs[k].List);
        if k == c {
          ShrunkTrans(events, parts[k].List, subs[k].List, r[k].List);
        }
      }
    } else {
      forall k | k in parts ensures Shrunk(events, parts[k].List, r[k].List) {
        if k != c {
          ShrunkRefl(events, parts[k].List);
        }
      }
    }
  }

  /**
    With every sub-container listed once and the container not among them,
    `PreOptimize(c)` replaces each list of the family by `PreSpec` of
    itself and changes nothing else.
   */
  lemma PreAllOnce<K>(o: Oracles, events: map<nat, Event>, parts: map<K, Part>, c: K, loops: seq<K>, triggers: seq<K>)
    requires PartsOk(events, parts) && c in parts && forall k :: k in loops + triggers ==> k in parts
    requires parts[c].IsElement ==> Distinct(loops + triggers) && c !in loops + triggers
    ensures var r := PreAll(o, events, parts, c, loops, triggers);
      && r[c] == PrePart(o, events, parts[c])
      && (parts[c].IsElement ==> forall k :: k in loops + triggers ==> r[k] == PrePart(o, events, parts[k]))
  {
    if parts[c].IsElement {
      var mid := PreFold(o, events, parts, loops);
      var subs := PreFold(o, events, mid, triggers);
      DistinctAppend(loops, triggers);
      PreFoldOnce(o, events, parts, loops);
      PreFoldOnce(o, events, mid, triggers);
    }
  }

  // ----- NormalOptimize -----

  /**
    `RemoveByLogic(k, parent.EventList)`: the part of `k` and the event
    objects after one call; nothing else changes.
   */
  function LogicStep<K>(o: Oracles, s: Stage<K>, parent: K, k: K): (r: Stage<K>)
    requires StageOk(s) && parent in s.Parts && k in s.Parts
    ensures StageOk(r) && r.Parts.Keys == s.Parts.Keys
    ensures forall j :: j in s.Parts && j != k ==> r.Parts[j] == s.Parts[j]
    ensures Pruned(s.Parts[k].List, r.Parts[k].List, s.Parts[parent].List)
    ensures EventsEdited(s.Events, r.Events, s.Parts[parent].List)
    ensures r.Parts[k].IsElement == s.Parts[k].IsElement && r.Parts[k].Info == s.Parts[k].Info
    ensures !s.Parts[k].IsElement ==>
      r.Parts[k].DefaultX == s.Parts[k].DefaultX && r.Parts[k].DefaultY == s.Parts[k].DefaultY
  {
    var p := s.Parts[k];
    var before := ScanState([], -1, s.Events, p.List, p.DefaultX, p.DefaultY);
    var st := LogicSpec(p.IsElement, p.Info, o, s.Parts[parent].List, before);
    LogicSpecEffects(p.IsElement, p.Info, o, s.Parts[parent].List, before);
    var q := p.(List := st.Owned, DefaultX := st.DefaultX, DefaultY := st.DefaultY);
    PartsOkUpdate(s.Events, st.Events, s.Parts, k, q);
    PrunedFromSpec(p.List, st.Owned, s.Parts[parent].List);
    Stage(st.Events, s.Parts[k := q])
  }

  /** `RemoveByLogic` on each of `items` in turn, each against the current list of `parent`. */
  function LogicFold<K>(o: Oracles, s: Stage<K>, parent: K, items: seq<K>): (r: Stage<K>)
    requires StageOk(s) && parent in s.Parts && forall k :: k in items ==> k in s.Parts
    ensures StageOk(r) && r.Parts.Keys == s.Parts.Keys
    ensures forall k :: k in s.Parts && k !in items ==> r.Parts[k] == s.Parts[k]
    decreases |items|
  {
    if items == [] then s
    else LogicStep(o, LogicFold(o, s, parent, items[..|items| - 1]), parent, items[|items| - 1])
  }

  /** One more item of the fold. */
  lemma LogicFoldStep<K>(o: Oracles, s: Stage<K>, parent: K, items: seq<K>, i: nat)
    requires StageOk(s) && parent in s.Parts && (forall k :: k in items ==> k in s.Parts) && i < |items|
    ensures LogicFold(o, s, parent, items[..i + 1]) == LogicStep(o, LogicFold(o, s, parent, items[..i]), parent, items[i])
  {
    assert items[..i + 1][..i] == items[..i];
  }

  /** One call changes one list, only by events of the parent's list, and neither the kinds nor the default positions of containers that are not elements. */
  lemma LogicStepEffects<K>(o: Oracles, s: Stage<K>, parent: K, k: K)
    requires StageOk(s) && parent in s.Parts && k in s.Parts
    ensures var r := LogicStep(o, s, parent, k);
      && AllPruned(s.Parts, r.Parts, s.Parts[parent].List)
      && KindsKept(s.Parts, r.Parts) && DefaultsKept(s.Parts, r.Parts)
  {
    var r := LogicStep(o, s, parent, k);
    forall j | j in s.Parts ensures Pruned(s.Parts[j].List, r.Parts[j].List, s.Parts[parent].List) {
      if j != k {
        PrunedRefl(s.Parts[j].List, s.Parts[parent].List);
      }
    }
  }

  /**
    Over the fold, with `parent` not among `items`: each list only loses
    events of the parent's list, only those event objects change and only
    in `EndTime`, and no container changes its kind or, when it is not an
    element, its default position.
   */
  lemma {:induction false} LogicFoldEffects<K>(o: Oracles, s: Stage<K>, parent: K, items: seq<K>)
    requires StageOk(s) && parent in s.Parts && (forall k :: k in items ==> k in s.Parts) && parent !in items
    ensures var r := LogicFold(o, s, parent, items);
      && r.Parts[parent] == s.Parts[parent]
      && AllPruned(s.Parts, r.Parts, s.Parts[parent].List)
      && EventsEdited(s.Events, r.Events, s.Parts[parent].List)
      && KindsKept(s.Parts, r.Parts) && DefaultsKept(s.Parts, r.Parts)
    decreases |items|
  {
    var r := LogicFold(o, s, parent, items);
    if items == [] {
      forall k | k in s.Parts ensures Pruned(s.Parts[k].List, r.Parts[k].List, s.Parts[parent].List) {
        PrunedRefl(s.Parts[k].List, s.Parts[parent].List);
      }
      EndTimeOnlyRefl(s.Events);
    } else {
      var front := items[..|items| - 1];
      var prev := LogicFold(o, s, parent, front);
      var item := items[|items| - 1];
      assert parent !in front;
      LogicFoldEffects(o, s, parent, front);
      assert r == LogicStep(o, prev, parent, item);
      LogicStepEffects(o, prev, parent, item);
      AllPrunedTrans(s.Parts, prev.Parts, r.Parts, s.Parts[parent].List);
      EventsEditedTrans(s.Events, prev.Events, r.Events, s.Parts[parent].List);
      KeptTrans(s.Parts, prev.Parts, r.Parts);
    }
  }

  /** The last step of `NormalOptimize(c)`: a container with events is scanned against its own list. */
  function OwnStep<K>(o: Oracles, s: Stage<K>, c: K): (r: Stage<K>)
    requires StageOk(s) && c in s.Parts
    ensures StageOk(r) && r.Parts.Keys == s.Parts.Keys
    ensures forall k :: k in s.Parts && k != c ==> r.Parts[k] == s.Parts[k]
  {
    if s.Parts[c].List == [] then s else LogicStep(o, s, c, c)
  }

  /**
    `NormalOptimize(c)`: for an element, each loop and then each trigger
    sub-container is scanned against `c`'s list; then `c` against its own.
   */
  function NormalAll<K>(o: Oracles, s: Stage<K>, c: K, loops: seq<K>, triggers: seq<K>): (r: Stage<K>)
    requires StageOk(s) && c in s.Parts && forall k :: k in loops + triggers ==> k in s.Parts
    ensures StageOk(r) && r.Parts.Keys == s.Parts.Keys
    ensures forall k :: k in s.Parts && k != c && (s.Parts[c].IsElement ==> k !in loops + triggers) ==>
      r.Parts[k] == s.Parts[k]
  {
    var subs := if s.Parts[c].IsElement then LogicFold(o, LogicFold(o, s, c, loops), c, triggers) else s;
    OwnStep(o, subs, c)
  }

  /** `Compress(c)`: `PreOptimize`, then `NormalOptimize`. */
  function CompressAll<K>(o: Oracles, s: Stage<K>, c: K, loops: seq<K>, triggers: seq<K>): (r: Stage<K>)
    requires StageOk(s) && c in s.Parts && forall k :: k in loops + triggers ==> k in s.Parts
    ensures StageOk(r) && r.Parts.Keys == s.Parts.Keys
    ensures forall k :: k in s.Parts && k != c && (s.Parts[c].IsElement ==> k !in loops + triggers) ==>
      r.Parts[k] == s.Parts[k]
  {
    var pre := PreAll(o, s.Events, s.Parts, c, loops, triggers);
    NormalAll(o, Stage(s.Events, pre), c, loops, triggers)
  }

  /**
    `NormalOptimize(c)`, with `c` not its own sub-container: every list only
    loses events of `c`'s list, only those event objects change and only in
    `EndTime`, and no container that is not an element moves its default
    position.
   */
  lemma NormalAllEffects<K>(o: Oracles, s: Stage<K>, c: K, loops: seq<K>, triggers: seq<K>)
    requires StageOk(s) && c in s.Parts && forall k :: k in loops + triggers ==> k in s.Parts
    requires s.Parts[c].IsElement ==> c !in loops + triggers
    ensures var r := NormalAll(o, s, c, loops, triggers);
      && AllPruned(s.Parts, r.Parts, s.Parts[c].List)
      && EventsEdited(s.Events, r.Events, s.Parts[c].List)
      && KindsKept(s.Parts, r.Parts) && DefaultsKept(s.Parts, r.Parts)
  {
    var subs := if s.Parts[c].IsElement then LogicFold(o, LogicFold(o, s, c, loops), c, triggers) else s;
    if s.Parts[c].IsElement {
      var mid := LogicFold(o, s, c, loops);
      LogicFoldEffects(o, s, c, loops);
      LogicFoldEffects(o, mid, c, triggers);
      AllPrunedTrans(s.Parts, mid.Parts, subs.Parts, s.Parts[c].List);
      EventsEditedTrans(s.Events, mid.Events, subs.Events, s.Parts[c].List);
      KeptTrans(s.Parts, mid.Parts, subs.Parts);
    } else {
      forall k | k in s.Parts ensures Pruned(s.Parts[k].List, s.Parts[k].List, s.Parts[c].List) {
        PrunedRefl(s.Parts[k].List, s.Parts[c].List);
      }
      EndTimeOnlyRefl(s.Events);
    }
    assert subs.Parts[c] == s.Parts[c];
    var r := OwnStep(o, subs, c);
    if subs.Parts[c].List != [] {
      assert r == LogicStep(o, subs, c, c);
      LogicStepEffects(o, subs, c, c);
      AllPrunedTrans(s.Parts, subs.Parts, r.Parts, s.Parts[c].List);
      EventsEditedTrans(s.Events, subs.Events, r.Events, s.Parts[c].List);
      KeptTrans(s.Parts, subs.Parts, r.Parts);
    }
  }

  /**
    `Compress(c)`, with `c` not its own sub-container: every list only
    loses events, only the event objects of `c`'s starting list change and
    only in `EndTime`, and no container that is not an element moves its
    default position.
   */
  lemma CompressAllEffects<K>(o: Oracles, s: Stage<K>, c: K, loops: seq<K>, triggers: seq<K>)
    requires StageOk(s) && c in s.Parts && forall k :: k in loops + triggers ==> k in s.Parts
    requires s.Parts[c].IsElement ==> c !in loops + triggers
    ensures var r := CompressAll(o, s, c, loops, triggers);
      && AllSublists(s.Parts, r.Parts)
      && EventsEdited(s.Events, r.Events, s.Parts[c].List)
      && DefaultsKept(s.Parts, r.Parts)
  {
    var pre := PreAll(o, s.Events, s.Parts, c, loops, triggers);
    PreAllEffects(o, s.Events, s.Parts, c, loops, triggers);
    var mid := Stage(s.Events, pre);
    var r := NormalAll(o, mid, c, loops, triggers);
    assert pre[c].IsElement == s.Parts[c].IsElement;
    NormalAllEffects(o, mid, c, loops, triggers);
    forall k | k in s.Parts ensures IsSublist(r.Parts[k].List, s.Parts[k].List) {
      SublistTrans(r.Parts[k].List, pre[k].List, s.Parts[k].List);
    }
    SublistKeeps(pre[c].List, s.Parts[c].List);
    EventsEditedWiden(s.Events, r.Events, pre[c].List, s.Parts[c].List);
  }
}
