/**
  The event model the compaction engine works on: one record per event
  object, the container bookkeeping that `Examine` and `FillObsoleteList`
  compute before the passes run, and the event and range predicates that the
  engine calls but whose code lies outside the engine (they are parameters
  of the model, with no body invented for them).
 */
module Storyboard {
  import opened Seqs

  /** The property an event animates; one timeline per kind in a container. */
  datatype EventType = Fade | Move | MoveX | MoveY | Scale | Vector | Rotate | Color | Parameter

  /** Number of values in an event's start and end parameters. */
  function Dim(t: EventType): nat {
    match t
    case Move => 2
    case Vector => 2
    case Color => 3
    case _ => 1
  }

  datatype Option<T> = None | Some(value: T)

  /**
    One event object. `Start`/`End` are its start and end parameter values.
    Times are whole milliseconds here.
   */
  datatype Event = Event(
    Type: EventType,
    Easing: nat,
    StartTime: int,
    EndTime: int,
    Start: seq<real>,
    End: seq<real>)

  predicate WellFormed(e: Event) {
    |e.Start| == Dim(e.Type) && |e.End| == Dim(e.Type)
  }

  /** Every event object in the store has the arity of its kind. */
  predicate EventsOk(events: map<nat, Event>) {
    forall id :: id in events ==> WellFormed(events[id])
  }

  /** An obsolete (invisible) time range of a container. */
  datatype Range = Range(StartTime: int, EndTime: int)

  /** Per-container bookkeeping fixed before the optimisation passes. */
  datatype TimeInfo = TimeInfo(
    MinTime: int,
    MaxTime: int,
    MinTimeCount: nat,
    MaxTimeCount: nat,
    ObsoleteList: seq<Range>)

  /**
    The predicates the engine consults. Their definitions are not part of
    this model, so every statement proved here holds whatever they are.
   */
  datatype Oracles = Oracles(
    OnObsoleteTimingRange: (TimeInfo, Event) -> bool,
    InObsoleteTimingRange: (TimeInfo, Event) -> Option<Range>,
    ContainsTimingPoint: (seq<Range>, int, int, int) -> bool,
    IsTimeInRange: (TimeInfo, Event) -> bool,
    IsStatic: Event -> bool,
    IsStaticAndDefault: Event -> bool,
    IsSmallerThenMaxTime: (TimeInfo, Event) -> bool,
    EqualsMultiMinTime: (TimeInfo, Event) -> bool,
    IsEventSequent: (Event, Event) -> bool,
    EqualsInitialPosition: (Event, real, real) -> bool,
    Unworthy: EventType -> bool)

  /**
    The passes change event objects in one way only: an `EndTime`.
    Every object keeps its kind, easing, start time and values.
   */
  predicate EndTimeOnly(before: map<nat, Event>, after: map<nat, Event>) {
    && after.Keys == before.Keys
    && forall id :: id in before ==> after[id] == before[id].(EndTime := after[id].EndTime)
  }

  lemma EndTimeOnlyTrans(a: map<nat, Event>, b: map<nat, Event>, c: map<nat, Event>)
    requires EndTimeOnly(a, b) && EndTimeOnly(b, c)
    ensures EndTimeOnly(a, c)
  {
  }

  lemma EndTimeOnlyRefl(a: map<nat, Event>)
    ensures EndTimeOnly(a, a)
  {
  }

  lemma EndTimeOnlyKeepsOk(a: map<nat, Event>, b: map<nat, Event>)
    requires EndTimeOnly(a, b) && EventsOk(a)
    ensures EventsOk(b)
  {
    forall id | id in b ensures WellFormed(b[id]) {
      assert b[id] == a[id].(EndTime := b[id].EndTime);
    }
  }

  predicate AllIn(s: seq<nat>, events: map<nat, Event>) {
    forall id :: id in s ==> id in events
  }

  /**
    One group of `GroupBy(k => k.EventType)`: the events of kind `t`, in
    list order.
   */
  function Group(s: seq<nat>, events: map<nat, Event>, t: EventType): (g: seq<nat>)
    requires AllIn(s, events)
    ensures forall id :: id in g ==> id in s && events[id].Type == t
    ensures forall id :: id in s && events[id].Type == t ==> id in g
    ensures IsSublist(g, s)
    ensures Distinct(s) ==> Distinct(g)
  {
    if s == [] then []
    else if events[s[0]].Type == t then
      var rest := Group(s[1..], events, t);
      SublistCons(s[0], rest, s[1..]);
      assert [s[0]] + s[1..] == s;
      [s[0]] + rest
    else
      var rest := Group(s[1..], events, t);
      SublistSkip(s[0], rest, s[1..]);
      assert [s[0]] + s[1..] == s;
      rest
  }

  /** The kinds of the listed events. */
  function Kinds(s: seq<nat>, events: map<nat, Event>): set<EventType> {
    set id | id in s && id in events :: events[id].Type
  }

  /** The kind of the event at position `p`. */
  function KindAt(s: seq<nat>, events: map<nat, Event>, p: nat): EventType
    requires p < |s| && AllIn(s, events)
  {
    events[s[p]].Type
  }

  /** Every listed event of kind `b` has an event of kind `a` somewhere before it. */
  predicate FirstBefore(s: seq<nat>, events: map<nat, Event>, a: EventType, b: EventType)
    requires AllIn(s, events)
  {
    forall p :: 0 <= p < |s| && KindAt(s, events, p) == b ==> a in Kinds(s[..p], events)
  }

  /** An earlier event of kind `a` stays earlier when one more event of another kind goes in front. */
  lemma FirstBeforeShift(s: seq<nat>, events: map<nat, Event>, a: EventType, b: EventType)
    requires s != [] && AllIn(s, events) && events[s[0]].Type != b
    requires FirstBefore(s[1..], events, a, b)
    ensures FirstBefore(s, events, a, b)
  {
    var t := s[1..];
    forall p | 0 <= p < |s| && KindAt(s, events, p) == b
      ensures a in Kinds(s[..p], events)
    {
      assert p != 0 && t[p - 1] == s[p];
      assert KindAt(t, events, p - 1) == b;
      var id :| id in t[..p - 1] && id in events && events[id].Type == a;
      assert t[..p - 1] == s[1..p];
      assert id in s[..p];
    }
  }

  /** The kind of the first event comes first. */
  lemma FirstBeforeHead(s: seq<nat>, events: map<nat, Event>, b: EventType)
    requires s != [] && AllIn(s, events) && events[s[0]].Type != b
    ensures FirstBefore(s, events, events[s[0]].Type, b)
  {
    forall p | 0 <= p < |s| && KindAt(s, events, p) == b
      ensures events[s[0]].Type in Kinds(s[..p], events)
    {
      assert p != 0 && s[..p][0] == s[0];
    }
  }

  /**
    The keys of `GroupBy`, in order of first appearance, skipping those
    already in `seen`.
   */
  function GroupKeys(s: seq<nat>, events: map<nat, Event>, seen: set<EventType>): (keys: seq<EventType>)
    requires AllIn(s, events)
    ensures forall t :: t in keys ==> t !in seen && t in Kinds(s, events)
    ensures forall id :: id in s && events[id].Type !in seen ==> events[id].Type in keys
    ensures Distinct(keys)
    ensures forall i, j :: 0 <= i < j < |keys| ==> FirstBefore(s, events, keys[i], keys[j])
  {
    if s == [] then []
    else
      var t := events[s[0]].Type;
      var rest := GroupKeys(s[1..], events, if t in seen then seen else seen + {t});
      assert forall u :: u in Kinds(s[1..], events) ==> u in Kinds(s, events);
      forall i, j | 0 <= i < j < |rest|
        ensures FirstBefore(s, events, rest[i], rest[j])
      {
        FirstBeforeShift(s, events, rest[i], rest[j]);
      }
      if t in seen then rest
      else
        forall j | 0 <= j < |rest| ensures FirstBefore(s, events, t, rest[j]) {
          FirstBeforeHead(s, events, rest[j]);
        }
        assert t in Kinds(s, events);
        [t] + rest
  }
}
