/**
 * TasksPanel.jsx: the 12-hour start-time conversion, the two display
 * formatters, the add-task form's validity test and its submit handler.
 *
 * A JavaScript number that can reach these functions is an integer or one
 * of NaN and the two infinities (`JsNum`); fractional values are not part of
 * this model. The form's fields are the strings its inputs hold.
 */
module TasksPanel {
  import opened Wrappers
  import opened Text
  import opened DayTimeline
  import opened Calendar
  import opened Intervals
  import opened App

  datatype JsNum = Num(v: int) | NaN | PosInf | NegInf

  /** `Number.isFinite`. */
  predicate IsFinite(x: JsNum) { x.Num? }

  /** `x < y` on numbers: false whenever NaN is involved. */
  predicate JsLess(x: JsNum, y: JsNum)
  {
    match (x, y)
    case (NaN, _) => false
    case (_, NaN) => false
    case (NegInf, _) => !y.NegInf?
    case (_, PosInf) => !x.PosInf?
    case (Num(a), Num(b)) => a < b
    case (_, _) => false
  }

  /** `Math.min(x, y)`: NaN when either is NaN. */
  function JsMin(x: JsNum, y: JsNum): JsNum
  {
    if x.NaN? || y.NaN? then NaN else if JsLess(y, x) then y else x
  }

  /** `Math.max(x, y)`: NaN when either is NaN. */
  function JsMax(x: JsNum, y: JsNum): JsNum
  {
    if x.NaN? || y.NaN? then NaN else if JsLess(x, y) then y else x
  }

  /** `x + y` where `x` is finite. */
  function JsAddFinite(x: int, y: JsNum): JsNum
  {
    if y.Num? then Num(x + y.v) else y
  }

  // ---------------------------------------------------------------------
  // toMinutesFrom12h

  /**
   * The hour of the day a 12-hour reading names: an hour that is not a
   * finite number reads as 12, and 12 and every hour at or below 0 are the
   * first hour of the half-day; hours above 12 read as 12.
   */
  function Hour24(h12: JsNum, meridiem: string): int
  {
    var h := if h12.Num? then h12.v else 12;
    var half := if meridiem == "PM" then 12 else 0;
    if h <= 0 || h >= 12 then half else h + half
  }

  /** The minute of the day for an hour, a minute and "AM"/"PM" (anything but "PM" is AM). */
  function MinutesFrom12h(h12: JsNum, m: JsNum, meridiem: string): JsNum
  {
    match m
    case NaN => NaN
    case PosInf => Num(Hour24(h12, meridiem) * 60 + 59)
    case NegInf => Num(Hour24(h12, meridiem) * 60)
    case Num(v) => Num(Hour24(h12, meridiem) * 60 + Max(0, Min(59, v)))
  }

  /** `toMinutesFrom12h`: clamp the hour step by step, then combine with the clamped minute. */
  method ToMinutesFrom12h(h12: JsNum, m: JsNum, meridiem: string) returns (r: JsNum)
    ensures r == MinutesFrom12h(h12, m, meridiem)
  {
    var h := h12;
    if !IsFinite(h) {
      h := Num(12);
    }
    if h.v < 0 {
      h := Num(0);
    }
    if h.v > 12 {
      h := Num(12);
    }
    var min := JsMax(Num(0), JsMin(Num(59), m));
    var base := (if h.v == 0 then 12 else h.v) % 12;
    var hours24 := base + (if meridiem == "PM" then 12 else 0);
    r := JsAddFinite(hours24 * 60, min);
  }

  /**
   * Whatever the hour, the result is a minute of the day in [0, 1439],
   * unless the minute is NaN, which `Math.min`/`Math.max` pass on.
   */
  lemma MinutesFrom12hRange(h12: JsNum, m: JsNum, meridiem: string)
    ensures m.NaN? <==> MinutesFrom12h(h12, m, meridiem).NaN?
    ensures !m.NaN? ==>
      MinutesFrom12h(h12, m, meridiem).Num? && 0 <= MinutesFrom12h(h12, m, meridiem).v <= 1439
  {
  }

  /** Every PM result is at or after noon, and every other result before it. */
  lemma MinutesFrom12hMeridiem(h12: JsNum, m: JsNum, meridiem: string)
    requires !m.NaN?
    ensures meridiem == "PM" <==> MinutesFrom12h(h12, m, meridiem).v >= 720
  {
  }

  /** The hour is clamped to [0, 12] and the minute to [0, 59]. */
  lemma MinutesFrom12hClamps(h: int, mv: int, meridiem: string)
    ensures MinutesFrom12h(Num(h), Num(mv), meridiem)
      == MinutesFrom12h(Num(Max(0, Min(12, h))), Num(Max(0, Min(59, mv))), meridiem)
  {
  }

  /** 12 AM and 0 AM are midnight, and 12 PM is noon. */
  lemma MinutesFrom12hLandmarks()
    ensures MinutesFrom12h(Num(12), Num(0), "AM") == Num(0)
    ensures MinutesFrom12h(Num(0), Num(0), "AM") == Num(0)
    ensures MinutesFrom12h(Num(12), Num(0), "PM") == Num(720)
  {
    assert "AM"[0] != "PM"[0];
    assert Hour24(Num(12), "AM") == 0;
    assert Hour24(Num(0), "AM") == 0;
    assert Hour24(Num(12), "PM") == 12;
  }

  /** An hour that is not a finite number is read as 12. */
  lemma MinutesFrom12hNonFiniteHour(h12: JsNum, m: JsNum, meridiem: string)
    requires !IsFinite(h12)
    ensures MinutesFrom12h(h12, m, meridiem) == MinutesFrom12h(Num(12), m, meridiem)
  {
  }

  // ---------------------------------------------------------------------
  // format12h

  /** `format12h`: "—" when not finite, otherwise the same label as `fmt12`. */
  function Format12h(mins: JsNum): string
  {
    if !IsFinite(mins) then "—" else Fmt12(mins.v)
  }

  /** The minute of the day of a 12-hour reading shows its hour, its minute and its meridiem. */
  lemma MinutesFrom12hShown(h: int, mm: int, meridiem: string)
    requires 1 <= h <= 12 && 0 <= mm <= 59
    ensures var r := MinutesFrom12h(Num(h), Num(mm), meridiem).v;
      r >= 0 && ShownHour(r) == h && r % 60 == mm && (r < 720 <==> meridiem != "PM")
  {
    var r := MinutesFrom12h(Num(h), Num(mm), meridiem).v;
    var h24 := Hour24(Num(h), meridiem);
    assert 0 <= h24 < 24;
    assert r == h24 * 60 + mm;
    assert r / 60 == h24;
    assert r % 60 == mm;
    assert h24 % 12 == (if h == 12 then 0 else h);
  }

  /**
   * Converting a 12-hour reading with an hour in 1..12 and a minute in
   * 0..59 and formatting the result shows the same hour, the minute padded
   * to two digits, and the same AM/PM.
   */
  lemma Format12hRoundTrip(h: int, mm: int, meridiem: string)
    requires 1 <= h <= 12 && 0 <= mm <= 59 && (meridiem == "AM" || meridiem == "PM")
    ensures Format12h(MinutesFrom12h(Num(h), Num(mm), meridiem))
      == NatToString(h) + ":" + Pad2(NatToString(mm)) + " " + meridiem
  {
    var r := MinutesFrom12h(Num(h), Num(mm), meridiem).v;
    MinutesFrom12hShown(h, mm, meridiem);
    Fmt12Parts(r);
    assert "AM" != "PM" by {
      assert "AM"[0] != "PM"[0];
    }
    assert Meridiem(r < 720) == meridiem;
  }

  /** A finite non-negative minute count shows an hour in 1..12 and its minute padded to two digits. */
  lemma Format12hShape(mins: JsNum)
    ensures !IsFinite(mins) <==> Format12h(mins) == "—"
    ensures IsFinite(mins) && mins.v >= 0 ==>
      Format12h(mins) == NatToString(ShownHour(mins.v)) + ":" + Pad2(NatToString(mins.v % 60)) + " " + Meridiem(mins.v < 720)
      && 1 <= ShownHour(mins.v) <= 12
  {
    if IsFinite(mins) {
      if mins.v >= 0 {
        Fmt12Parts(mins.v);
      }
      assert Format12h(mins) == Fmt12(mins.v);
      assert Fmt12(mins.v)[|Fmt12(mins.v)| - 1] == 'M';
    }
  }

  // ---------------------------------------------------------------------
  // formatDuration

  /** `formatDuration`: "Xh Ym", "Xh" when the minutes are 0, and "Ym" when the hours are 0. */
  function FormatDuration(mins: int): string
  {
    var h := mins / 60;
    var m := JsRem(mins, 60);
    if h != 0 && m != 0 then IntToString(h) + "h " + IntToString(m) + "m"
    else if h != 0 then IntToString(h) + "h"
    else IntToString(m) + "m"
  }

  /** Reads "Xh Ym", "Xh" or "Ym" back as a number of minutes. */
  function ParseDuration(s: string): Option<int>
  {
    if |s| < 2 then None
    else if s[|s| - 1] == 'h' then ParseCount(s[..|s| - 1], 60)
    else if s[|s| - 1] == 'm' then ParseMinutesPart(s[..|s| - 1])
    else None
  }

  /** A digit string counting units of `unit` minutes. */
  function ParseCount(ds: string, unit: int): Option<int>
  {
    if IsDigits(ds) then Some(DigitsValue(ds) * unit) else None
  }

  /** "Xh Y" or "Y", the text before the final "m". */
  function ParseMinutesPart(body: string): Option<int>
  {
    var i := IndexOf(body, 'h');
    if i.None? then ParseCount(body, 1) else ParseHoursAndMinutes(body[..i.value], body[i.value + 1..])
  }

  /** "X" and " Y" either side of the "h". */
  function ParseHoursAndMinutes(xs: string, rest: string): Option<int>
  {
    if IsDigits(xs) && |rest| >= 2 && rest[0] == ' ' && IsDigits(rest[1..])
    then Some(DigitsValue(xs) * 60 + DigitsValue(rest[1..]))
    else None
  }

  /** For a non-negative duration, the text shows `n / 60` hours and `n % 60` minutes. */
  lemma FormatDurationParts(n: int)
    requires n >= 0
    ensures FormatDuration(n) == DurationText(n / 60, n % 60, NatToString(n / 60), NatToString(n % 60))
  {
  }

  lemma ParseMinutesText(body: string)
    ensures ParseDuration(body + "m") == if body == [] then None else ParseMinutesPart(body)
  {
    var s := body + "m";
    assert s[|s| - 1] == 'm';
    assert s[..|s| - 1] == body;
  }

  lemma ParseMinutesPartSplit(xs: string, rest: string)
    requires IsDigits(xs)
    ensures ParseMinutesPart(xs + ['h'] + rest) == ParseHoursAndMinutes(xs, rest)
  {
    var body := xs + ['h'] + rest;
    IndexOfAfterDigits(xs, 'h', rest);
    assert body[..|xs|] == xs;
    assert body[|xs| + 1..] == rest;
  }

  lemma ParseHoursAndMinutesOf(xs: string, ys: string)
    requires IsDigits(xs) && IsDigits(ys)
    ensures ParseHoursAndMinutes(xs, " " + ys) == Some(DigitsValue(xs) * 60 + DigitsValue(ys))
  {
    assert (" " + ys)[1..] == ys;
  }

  lemma ParseHoursMinutes(xs: string, ys: string)
    requires IsDigits(xs) && IsDigits(ys)
    ensures ParseDuration(xs + "h " + ys + "m") == Some(DigitsValue(xs) * 60 + DigitsValue(ys))
  {
    var body := xs + ['h'] + (" " + ys);
    assert xs + "h " + ys + "m" == body + "m";
    ParseMinutesText(body);
    ParseMinutesPartSplit(xs, " " + ys);
    ParseHoursAndMinutesOf(xs, ys);
  }

  lemma ParseHours(xs: string)
    requires IsDigits(xs)
    ensures ParseDuration(xs + "h") == Some(DigitsValue(xs) * 60)
  {
    var s := xs + "h";
    assert s[..|s| - 1] == xs;
  }

  lemma ParseMinutes(ys: string)
    requires IsDigits(ys)
    ensures ParseDuration(ys + "m") == Some(DigitsValue(ys))
  {
    var s := ys + "m";
    assert s[..|s| - 1] == ys;
    IndexOfInDigits(ys, 'h');
  }

  /** The text `formatDuration` gives `h` hours and `m` minutes, written `xs` and `ys`. */
  function DurationText(h: nat, m: nat, xs: string, ys: string): string
  {
    if h != 0 && m != 0 then xs + "h " + ys + "m"
    else if h != 0 then xs + "h"
    else ys + "m"
  }

  /** Hours and minutes, each a digit string of the right value, read back as their total. */
  lemma ParseDurationText(h: nat, m: nat, xs: string, ys: string)
    requires IsDigits(xs) && DigitsValue(xs) == h && IsDigits(ys) && DigitsValue(ys) == m
    ensures ParseDuration(DurationText(h, m, xs, ys)) == Some(h * 60 + m)
  {
    if h != 0 && m != 0 {
      ParseHoursMinutes(xs, ys);
    } else if h != 0 {
      ParseHours(xs);
    } else {
      ParseMinutes(ys);
    }
  }

  /**
   * Every non-negative duration is read back from its text: the hours and
   * the minutes shown make up exactly the duration.
   */
  lemma ParseFormatDuration(n: int)
    requires n >= 0
    ensures ParseDuration(FormatDuration(n)) == Some(n)
  {
    var h, m := n / 60, n % 60;
    assert h * 60 + m == n;
    FormatDurationParts(n);
    NatToStringValue(h);
    NatToStringValue(m);
    ParseDurationText(h, m, NatToString(h), NatToString(m));
  }

  /** A zero duration shows as "0m", an hour as "1h", and 90 minutes as "1h 30m". */
  lemma FormatDurationExamples()
    ensures FormatDuration(0) == "0m"
    ensures FormatDuration(60) == "1h"
    ensures FormatDuration(90) == "1h 30m"
  {
    assert NatToString(0) == "0" && NatToString(1) == "1" && NatToString(3) == "3";
    assert NatToString(30) == NatToString(3) + "0";
  }

  // ---------------------------------------------------------------------
  // The add-task form

  /** `canAdd`, on the fields' strings. */
  predicate CanAddFields(name: string, startHour: string, startMin: string, durHours: string, durMinutes: string)
  {
    && |Trim(name)| > 0
    && IsDigits(startHour) && DigitsValue(startHour) <= 12
    && IsDigits(startMin) && DigitsValue(startMin) <= 59
    && IsDigits(durHours)
    && IsDigits(durMinutes) && DigitsValue(durMinutes) < 60
    && DigitsValue(durHours) * 60 + DigitsValue(durMinutes) > 0
  }

  /**
   * A name of nothing but white space (the empty name included) never lets
   * the form be added; an addable form's name holds a visible character.
   */
  lemma CanAddNeedsName(name: string, startHour: string, startMin: string, durHours: string, durMinutes: string)
    ensures AllSpace(name) ==> !CanAddFields(name, startHour, startMin, durHours, durMinutes)
    ensures CanAddFields(name, startHour, startMin, durHours, durMinutes) ==>
      exists i :: 0 <= i < |name| && !IsJsSpace(name[i])
  {
    TrimEmpty(name);
  }

  /** The task a valid form submits, given the id `uid()` draws. */
  function FormTask(id: string, name: string, startHour: string, startMin: string, ampm: string,
                    durHours: string, durMinutes: string): Task
    requires CanAddFields(name, startHour, startMin, durHours, durMinutes)
  {
    var start := MinutesFrom12h(Num(DigitsValue(startHour)), Num(DigitsValue(startMin)), ampm);
    Task(id, Trim(name), Some(DigitsValue(durHours) * 60 + DigitsValue(durMinutes)), Some(start.v))
  }

  /**
   * A task the form submits has a name that is neither empty nor padded
   * with white space, a positive duration, and a start in [0, 1439]; so it
   * is timed, and its timeline interval lies within the day and is not
   * empty.
   */
  lemma FormTaskTimed(id: string, name: string, startHour: string, startMin: string, ampm: string,
                      durHours: string, durMinutes: string)
    requires CanAddFields(name, startHour, startMin, durHours, durMinutes)
    ensures var t := FormTask(id, name, startHour, startMin, ampm, durHours, durMinutes);
      && t.name != [] && !IsJsSpace(t.name[0]) && !IsJsSpace(t.name[|t.name| - 1])
      && Timed(t) && 0 <= t.startMin.value <= 1439
      && NonEmpty(TaskInterval(t)) && InDay(TaskInterval(t))
      && TaskIntervals([t]) == [TaskInterval(t)]
  {
    TrimSpec(name);
    MinutesFrom12hRange(Num(DigitsValue(startHour)), Num(DigitsValue(startMin)), ampm);
    var t := FormTask(id, name, startHour, startMin, ampm, durHours, durMinutes);
    assert [t][1..] == [];
  }

  /** The add-task form: the six fields its inputs hold. */
  class TaskForm {
    var name: string
    var startHour: string
    var startMin: string
    var ampm: string
    var durHours: string
    var durMinutes: string

    /** Every field starts empty, and the meridiem at "AM". */
    constructor()
      ensures name == "" && startHour == "" && startMin == "" && ampm == "AM"
      ensures durHours == "" && durMinutes == ""
    {
      name := "";
      startHour := "";
      startMin := "";
      ampm := "AM";
      durHours := "";
      durMinutes := "";
    }

    /** `canAdd`. */
    predicate CanAdd()
      reads this
    {
      CanAddFields(name, startHour, startMin, durHours, durMinutes)
    }

    /**
     * `handleAdd`: nothing happens unless the form can be added; otherwise
     * the task is handed to `onAddTask` (returned here), and every field but
     * the meridiem is cleared, so the form cannot be submitted again.
     */
    method HandleAdd(id: string) returns (added: Option<Task>)
      modifies this
      ensures !old(CanAdd()) ==> added == None && unchanged(this)
      ensures old(CanAdd()) ==>
        && added == Some(FormTask(id, old(name), old(startHour), old(startMin), old(ampm), old(durHours), old(durMinutes)))
        && name == "" && durHours == "" && durMinutes == "" && startHour == "" && startMin == ""
        && ampm == old(ampm)
        && !CanAdd()
    {
      if !CanAdd() {
        return None;
      }
      var startMinTotal := ToMinutesFrom12h(Num(DigitsValue(startHour)), Num(DigitsValue(startMin)), ampm);
      var minutes := DigitsValue(durHours) * 60 + DigitsValue(durMinutes);
      added := Some(Task(id, Trim(name), Some(minutes), Some(startMinTotal.v)));
      name := "";
      durHours := "";
      durMinutes := "";
      startHour := "";
      startMin := "";
    }
  }
}
