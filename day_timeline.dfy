/**
 * `fmt12` of DayTimeline.jsx: a minute of the day as a 12-hour label such
 * as "9:05 AM", used for the tooltip of every timeline bar. The hour is
 * `Math.floor(m / 60)` and the minute JavaScript's `m % 60`; hour 0 of a
 * half-day is shown as 12.
 *
 * `ParseLabel` reads such a label back; it is the inverse the labels are
 * checked against.
 */
module DayTimeline {
  import opened Wrappers
  import opened Text

  function Meridiem(am: bool): string { if am then "AM" else "PM" }

  /** The label `${h}:${mm} ${AM|PM}`, the minute padded to two characters. */
  function Label(h: int, min: int, am: bool): string
  {
    IntToString(h) + ":" + Pad2(IntToString(min)) + " " + Meridiem(am)
  }

  /** `fmt12(m)`. */
  function Fmt12(m: int): string
  {
    var h24 := m / 60;
    var min := JsRem(m, 60);
    var am := h24 < 12;
    var h12 := if JsRem(h24, 12) == 0 then 12 else JsRem(h24, 12);
    Label(h12, min, am)
  }

  /** Reads "h:mm AM" or "h:mm PM" with h in 1..12 and mm in 00..59 as a minute of the day. */
  function ParseLabel(s: string): Option<int>
  {
    var i := IndexOf(s, ':');
    if i.None? then None else ParseParts(s[..i.value], s[i.value + 1..])
  }

  /** The hour before the first ':' and the "mm AM" or "mm PM" after it. */
  function ParseParts(hs: string, rest: string): Option<int>
  {
    if !(IsDigits(hs) && |rest| == 5 && IsDigits(rest[..2]) && rest[2] == ' ' && (rest[3..] == "AM" || rest[3..] == "PM"))
    then None
    else
      var h := DigitsValue(hs);
      var mm := DigitsValue(rest[..2]);
      if !(1 <= h <= 12 && mm < 60) then None
      else Some(MinuteOfLabel(h, mm, rest[3..] == "AM"))
  }

  /** The minute of the day hour `h` (12 standing for 0), minute `mm` and the meridiem name. */
  function MinuteOfLabel(h: int, mm: int, am: bool): int
  {
    (if h == 12 then 0 else h) * 60 + mm + (if am then 0 else 720)
  }

  /** The hour `fmt12` shows for a non-negative minute count. */
  function ShownHour(m: int): int
    requires m >= 0
  {
    if (m / 60) % 12 == 0 then 12 else (m / 60) % 12
  }

  /**
   * For every non-negative minute count the label shows an hour in 1..12
   * (the hour of the day modulo 12, with 0 shown as 12), the minute
   * `m mod 60` zero-padded to two digits, and AM exactly when `m < 720`.
   */
  lemma Fmt12Parts(m: int)
    requires m >= 0
    ensures 1 <= ShownHour(m) <= 12 && ShownHour(m) % 12 == (m / 60) % 12
    ensures Fmt12(m) == NatToString(ShownHour(m)) + ":" + Pad2(NatToString(m % 60)) + " " + Meridiem(m < 720)
    ensures |Pad2(NatToString(m % 60))| == 2 && IsDigits(Pad2(NatToString(m % 60)))
    ensures DigitsValue(Pad2(NatToString(m % 60))) == m % 60
  {
    Pad2Value(m % 60);
  }

  /** The parts of a well-formed label read back as the minute of the day they name. */
  lemma ParsePartsOf(hs: string, p: string, am: bool)
    requires IsDigits(hs) && 1 <= DigitsValue(hs) <= 12
    requires |p| == 2 && IsDigits(p) && DigitsValue(p) < 60
    ensures ParseParts(hs, p + " " + Meridiem(am)) == Some(MinuteOfLabel(DigitsValue(hs), DigitsValue(p), am))
  {
    var rest := p + " " + Meridiem(am);
    assert rest[..2] == p;
    assert rest[2] == ' ';
    assert rest[3..] == Meridiem(am);
  }

  /** A well-formed label reads back as the minute of the day it names. */
  lemma ParseLabelOf(hs: string, p: string, am: bool)
    requires IsDigits(hs) && 1 <= DigitsValue(hs) <= 12
    requires |p| == 2 && IsDigits(p) && DigitsValue(p) < 60
    ensures ParseLabel(hs + ":" + (p + " " + Meridiem(am))) == Some(MinuteOfLabel(DigitsValue(hs), DigitsValue(p), am))
  {
    var rest := p + " " + Meridiem(am);
    var s := hs + ":" + rest;
    IndexOfAfterDigits(hs, ':', rest);
    assert s[..|hs|] == hs;
    assert s[|hs| + 1..] == rest;
    ParsePartsOf(hs, p, am);
  }

  /** The minute of the day the shown hour, minute and meridiem name. */
  lemma ShownMinute(m: int)
    requires 0 <= m <= 1440
    ensures MinuteOfLabel(ShownHour(m), m % 60, m < 720) == (if m == 1440 then 720 else m)
  {
    var q := m / 60;
    assert m == q * 60 + m % 60;
    if q < 12 {
      assert q % 12 == q;
    } else if q < 24 {
      assert q % 12 == q - 12;
    } else {
      assert m == 1440;
    }
  }

  lemma ParseFmt12Parts(m: int)
    requires 0 <= m <= 1440
    ensures ParseLabel(Fmt12(m)) == Some(MinuteOfLabel(ShownHour(m), m % 60, m < 720))
  {
    Fmt12Parts(m);
    var hs := NatToString(ShownHour(m));
    var p := Pad2(NatToString(m % 60));
    NatToStringValue(ShownHour(m));
    assert Fmt12(m) == hs + ":" + (p + " " + Meridiem(m < 720));
    ParseLabelOf(hs, p, m < 720);
  }

  /**
   * Every minute of the day is read back from its label, and so is 1440,
   * which shows as "12:00 PM" and so reads back as noon.
   */
  lemma ParseFmt12(m: int)
    requires 0 <= m <= 1440
    ensures ParseLabel(Fmt12(m)) == Some(if m == 1440 then 720 else m)
  {
    ParseFmt12Parts(m);
    ShownMinute(m);
  }

  /** The two ends and the middle of the day, and the hour 24 of minute 1440. */
  lemma Fmt12Landmarks()
    ensures Fmt12(0) == "12:00 AM"
    ensures Fmt12(720) == "12:00 PM"
    ensures Fmt12(1440) == "12:00 PM"
  {
    LabelTwelve(true);
    LabelTwelve(false);
    assert JsRem(0, 60) == 0 && JsRem(0, 12) == 0;
    assert JsRem(720, 60) == 0 && JsRem(12, 12) == 0;
    assert JsRem(1440, 60) == 0 && JsRem(24, 12) == 0;
  }

  /** The label of hour 12, minute 0. */
  lemma LabelTwelve(am: bool)
    ensures Label(12, 0, am) == "12:00 " + Meridiem(am)
  {
    assert NatToString(1) == "1" && NatToString(0) == "0";
    assert IntToString(12) == "12";
    assert Pad2(IntToString(0)) == "00";
  }

  /**
   * Below zero the label takes JavaScript's signed remainders: minute -30
   * shows as "-1:-30 AM".
   */
  lemma Fmt12Negative()
    ensures Fmt12(-30) == "-1:-30 AM"
  {
    assert JsRem(-30, 60) == -30;
    assert JsRem(-1, 12) == -1;
    assert NatToString(1) == "1";
    assert NatToString(30) == "30";
  }
}
