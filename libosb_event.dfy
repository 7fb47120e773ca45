/**
  The base event of the script writer: its time fields, the in-place time
  shift `_AdjustTime`, and the script line `ToString` writes.
 */
module LibOsbEvent {
  import opened Text

  /** A time shift applied to a start and an end time. */
  function Adjusted(start: real, end: real, time: int): (r: (real, real))
    ensures r.1 - r.0 == end - start
    ensures r.0 - start == time as real && r.1 - end == time as real
  {
    (start + time as real, end + time as real)
  }

  /** Two shifts in a row are one shift by their sum. */
  lemma AdjustedComposes(start: real, end: real, a: int, b: int)
    ensures var once := Adjusted(start, end, a);
      Adjusted(once.0, once.1, b) == Adjusted(start, end, a + b)
  {
  }

  /** The fourth field of the line: empty for an instant event, else the rounded end time. */
  function EndField(start: real, end: real): (f: string)
    ensures f == "" <==> start == end
    ensures f != "" ==> IsIntText(f) && ParseInt(f) == RoundHalfEven(end)
  {
    if start == end then ""
    else
      IntToStringRoundTrip(RoundHalfEven(end));
      IntToString(RoundHalfEven(end))
  }

  class Event {
    var StartTime: real
    var EndTime: real
    /** The ordinal of the easing, which is what `(int)Enum.Parse(...)` yields. */
    var Easing: nat
    var Type: string
    /** What the event type writes for its parameters. */
    var ScriptParams: string

    constructor (eventType: string, easing: nat, startTime: real, endTime: real, scriptParams: string)
      ensures Type == eventType && Easing == easing && StartTime == startTime && EndTime == endTime
      ensures ScriptParams == scriptParams
    {
      Type, Easing, StartTime, EndTime := eventType, easing, startTime, endTime;
      ScriptParams := scriptParams;
    }

    /** `_AdjustTime`: both times move by `time`; nothing else changes. */
    method AdjustTime(time: int)
      modifies this`StartTime, this`EndTime
      ensures (StartTime, EndTime) == Adjusted(old(StartTime), old(EndTime), time)
    {
      StartTime := StartTime + time as real;
      EndTime := EndTime + time as real;
    }

    /**
      The script line: type, easing ordinal, rounded start time, end field
      and parameters, joined by commas. A reader splitting it at commas gets
      the first four fields back, then the pieces of the parameters.
     */
    function ToString(): (line: string)
      reads this
      ensures ',' !in Type ==>
        Split(line, ',') == [Type, NatToString(Easing), IntToString(RoundHalfEven(StartTime)),
                             EndField(StartTime, EndTime)] + Split(ScriptParams, ',')
    {
      var fields := [Type, NatToString(Easing), IntToString(RoundHalfEven(StartTime)),
                     EndField(StartTime, EndTime), ScriptParams];
      if ',' !in Type then
        SplitJoin(fields, ',');
        Join(fields, ',')
      else
        Join(fields, ',')
    }
  }

  /** Each number in the line reads back as the value it was written from. */
  lemma ToStringFields(e: Event)
    requires ',' !in e.Type
    ensures var f := Split(e.ToString(), ',');
      && |f| >= 5
      && AllDigits(f[1]) && f[1] != [] && DigitsValue(f[1]) == e.Easing
      && IsIntText(f[2]) && ParseInt(f[2]) == RoundHalfEven(e.StartTime)
      && (f[3] == "" <==> e.StartTime == e.EndTime)
      && (f[3] != "" ==> ParseInt(f[3]) == RoundHalfEven(e.EndTime))
  {
    NatToStringValue(e.Easing);
    IntToStringRoundTrip(RoundHalfEven(e.StartTime));
  }
}
