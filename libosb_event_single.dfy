/**
  A single-parameter event (Rotate, Fade, Scale, ...): `Init` stores the
  event's fields, and `BuildParams` writes its parameter text.
  Number formatting (`double.ToString()`) is the parameter `fmt`.
 */
module LibOsbEventSingle {
  import opened Text

  /** The parameter text: one value for a static event, else the pre and post values. */
  function ParamsText(p1: real, p2: real, fmt: real -> string): (text: string)
    ensures (forall x :: ',' !in fmt(x)) ==>
      Split(text, ',') == (if p1 == p2 then [fmt(p1)] else [fmt(p1), fmt(p2)])
  {
    if p1 == p2 then
      if ',' !in fmt(p1) then
        SplitNone(fmt(p1), ',');
        fmt(p1)
      else
        fmt(p1)
    else
      if ',' !in fmt(p1) && ',' !in fmt(p2) then
        SplitPrefix(fmt(p1), ',', fmt(p2));
        SplitNone(fmt(p2), ',');
        fmt(p1) + "," + fmt(p2)
      else
        fmt(p1) + "," + fmt(p2)
  }

  class EventSingle {
    var Type: string
    var Easing: nat
    var StartTime: real
    var EndTime: real
    var P1_1: real
    var P2_1: real
    var ScriptParams: string

    /** A fresh object, as the subclass constructor sees it before it calls `Init`. */
    constructor ()
      ensures Type == "" && Easing == 0 && StartTime == 0.0 && EndTime == 0.0
      ensures P1_1 == 0.0 && P2_1 == 0.0 && ScriptParams == ""
    {
      Type, Easing, StartTime, EndTime := "", 0, 0.0, 0.0;
      P1_1, P2_1, ScriptParams := 0.0, 0.0, "";
    }

    /** `Init`: stores every argument unchanged, then builds the parameter text. */
    method Init(eventType: string, easing: nat, startTime: int, endTime: int,
                preParam: real, postParam: real, fmt: real -> string)
      modifies this
      ensures Type == eventType && Easing == easing
      ensures StartTime == startTime as real && EndTime == endTime as real
      ensures P1_1 == preParam && P2_1 == postParam
      ensures ScriptParams == ParamsText(P1_1, P2_1, fmt)
    {
      Type := eventType;
      Easing := easing;
      StartTime := startTime as real;
      EndTime := endTime as real;
      P1_1 := preParam;
      P2_1 := postParam;
      BuildParams(fmt);
    }

    /**
      `BuildParams`: the parameter text follows the current values. It reads
      only fields it does not write, so a second call changes nothing.
     */
    method BuildParams(fmt: real -> string)
      modifies this`ScriptParams
      ensures ScriptParams == ParamsText(P1_1, P2_1, fmt)
    {
      if P1_1 == P2_1 {
        ScriptParams := fmt(P1_1);
      } else {
        ScriptParams := fmt(P1_1) + "," + fmt(P2_1);
      }
    }
  }

  /** The text has one field exactly when the event is static, given comma-free numbers. */
  lemma ParamsTextFieldCount(p1: real, p2: real, fmt: real -> string)
    requires forall x :: ',' !in fmt(x)
    ensures |Split(ParamsText(p1, p2, fmt), ',')| == 1 <==> p1 == p2
    ensures |Split(ParamsText(p1, p2, fmt), ',')| <= 2
  {
  }
}
