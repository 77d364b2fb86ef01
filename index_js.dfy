/**
 * The page script data/index.js: parseTimeString, which turns the device's "HH:MM:SS.mmm" into
 * a time value, and timer, which renders a time value with the same zero padding.
 */
module IndexJs {
  import opened Common
  import opened Utils
  import Firmware

  /** The argument of parseTimeString: a string, or a value of any other type. */
  datatype JsValue = JsString(s: string) | NonString

  /** What parseTimeString returns: null, or a Date's time value (which may be NaN). */
  datatype TimeValue = Null | NaN | Millis(ms: int)

  /** The largest time value a Date holds (TimeClip), 8.64e15 milliseconds. */
  const MAX_TIME: int := 8640000000000000

  /**
   * String.prototype.split with a one-character separator: the pieces between separators, so
   * there is always one more piece than there are separators.
   */
  function Split(s: string, sep: char): (r: seq<string>)
    ensures |r| >= 1
  {
    if s == [] then [[]]
    else
      var r := Split(s[..|s| - 1], sep);
      var c := s[|s| - 1];
      if c == sep then r + [[]] else r[..|r| - 1] + [r[|r| - 1] + [c]]
  }

  lemma {:induction false} SplitNoSeparator(s: string, sep: char)
    requires sep !in s
    ensures Split(s, sep) == [s]
    decreases |s|
  {
    if s != [] {
      assert sep !in s[..|s| - 1];
      SplitNoSeparator(s[..|s| - 1], sep);
      assert s[..|s| - 1] + [s[|s| - 1]] == s;
    }
  }

  /** A separator followed by separator-free text adds exactly that text as the last piece. */
  lemma {:induction false} SplitLast(a: string, sep: char, b: string)
    requires sep !in b
    ensures Split(a + [sep] + b, sep) == Split(a, sep) + [b]
    decreases |b|
  {
    var s := a + [sep] + b;
    if b == [] {
      assert s[..|s| - 1] == a;
    } else {
      var b' := b[..|b| - 1];
      assert s[..|s| - 1] == a + [sep] + b';
      assert sep !in b';
      SplitLast(a, sep, b');
      assert b' + [b[|b| - 1]] == b;
    }
  }

  /** ToNumber of a field: a run of decimal digits is its value (the empty run is 0); else NaN. */
  function ToNumber(s: string): Option<nat> {
    if AllDigits(s) then Some(DigitsValue(s)) else None
  }

  /**
   * `new Date(0)` then setUTCHours(h, m, s, ms): day 0 plus the time made of the four
   * numbers; a NaN argument or a result beyond TimeClip's range gives NaN.
   */
  function SetUtcHours(h: Option<nat>, m: Option<nat>, s: Option<nat>, ms: Option<nat>): (r: TimeValue)
    ensures r != Null
    ensures r.Millis? ==> 0 <= r.ms <= MAX_TIME
  {
    if h.None? || m.None? || s.None? || ms.None? then NaN
    else
      var t := h.value * 3600000 + m.value * 60000 + s.value * 1000 + ms.value;
      if t <= MAX_TIME then Millis(t) else NaN
  }

  /**
   * parseTimeString: null for a non-string, for "Unknown" and for a text whose part before the
   * first '.' does not have exactly three ':'-separated fields; otherwise the four fields
   * (the one after the first '.' is `undefined`, hence NaN, when there is no '.') set on day 0.
   */
  function ParseTimeString(time: JsValue): (r: TimeValue)
    ensures r == Null <==> time.NonString? || time.s == "Unknown"
                           || |Split(Split(time.s, '.')[0], ':')| != 3
  {
    match time
    case NonString => Null
    case JsString(s) =>
      if s == "Unknown" then Null
      else
        var split := Split(Split(s, '.')[0], ':');
        if |split| != 3 then Null
        else
          var pieces := Split(s, '.');
          var ms := if |pieces| > 1 then ToNumber(pieces[1]) else None;
          SetUtcHours(ToNumber(split[0]), ToNumber(split[1]), ToNumber(split[2]), ms)
  }

  lemma DigitsHaveNoSeparator(s: string)
    requires AllDigits(s)
    ensures '.' !in s && ':' !in s
  {
    forall k | 0 <= k < |s|
      ensures s[k] != '.' && s[k] != ':'
    {
      assert IsDigit(s[k]);
    }
  }

  /** "HH:MM:SS" splits at ':' into its three fields. */
  lemma SplitClockColons(hh: string, mm: string, ss: string)
    requires AllDigits(hh) && AllDigits(mm) && AllDigits(ss)
    ensures Split(hh + ":" + mm + ":" + ss, ':') == [hh, mm, ss]
  {
    DigitsHaveNoSeparator(hh);
    DigitsHaveNoSeparator(mm);
    DigitsHaveNoSeparator(ss);
    SplitNoSeparator(hh, ':');
    SplitLast(hh, ':', mm);
    SplitLast(hh + [':'] + mm, ':', ss);
  }

  /** "HH:MM:SS.mmm" splits at '.' into the clock and the milliseconds. */
  lemma SplitClockDot(hh: string, mm: string, ss: string, mmm: string)
    requires AllDigits(hh) && AllDigits(mm) && AllDigits(ss) && AllDigits(mmm)
    ensures Split(hh + ":" + mm + ":" + ss + "." + mmm, '.') == [hh + ":" + mm + ":" + ss, mmm]
  {
    var clock := hh + ":" + mm + ":" + ss;
    DigitsHaveNoSeparator(mmm);
    forall k | 0 <= k < |clock|
      ensures clock[k] != '.'
    {
      if k < |hh| {
        assert IsDigit(hh[k]);
      } else if |hh| < k < |hh| + 1 + |mm| {
        assert IsDigit(mm[k - |hh| - 1]);
      } else if |hh| + 1 + |mm| < k {
        assert IsDigit(ss[k - |hh| - 2 - |mm|]);
      }
    }
    SplitNoSeparator(clock, '.');
    SplitLast(clock, '.', mmm);
  }

  /** Any clock text within a day reads back as the time value of its fields. */
  lemma ParseClockText(h: nat, m: nat, s: nat, ms: nat)
    requires h < 100 && m < 100 && s < 100 && ms < 1000
    ensures ParseTimeString(JsString(ClockText(h, m, s, ms)))
            == Millis(h * 3600000 + m * 60000 + s * 1000 + ms)
  {
    var hh, mm, ss, mmm := ZeroPadded(h, 2), ZeroPadded(m, 2), ZeroPadded(s, 2), ZeroPadded(ms, 3);
    ZeroPaddedValue(h, 2);
    ZeroPaddedValue(m, 2);
    ZeroPaddedValue(s, 2);
    ZeroPaddedValue(ms, 3);
    SplitClockDot(hh, mm, ss, mmm);
    SplitClockColons(hh, mm, ss);
    assert ClockText(h, m, s, ms) != "Unknown" by {
      ClockTextShape(h, m, s, ms);
    }
  }

  /** The device's "time" field parses back to the elapsed time within its day. */
  lemma ParseElapsedText(d: nat)
    ensures ParseTimeString(JsString(Firmware.ElapsedText(d))) == Millis(d % Firmware.DAY_MS)
  {
    ParseClockText(Firmware.Hours(d), Firmware.Minutes(d), Firmware.Seconds(d), Firmware.Millis(d));
    Firmware.FieldsAreTimeOfDay(d);
  }

  // ---------------------------------------------------------------- timer

  /** A Number field of a Date: NaN for an invalid date. */
  type Field = Option<nat>

  /** `x < k`; every comparison with NaN is false. */
  predicate Below(x: Field, k: nat) {
    x.Some? && x.value < k
  }

  /** The text `+=` appends for a Number: "NaN", or its decimal digits. */
  function NumberText(x: Field): string {
    if x.None? then "NaN" else Decimal(x.value)
  }

  /**
   * `new Date(Date.now() - update_time + json_time)`: json_time null counts as 0 and NaN stays
   * NaN; a value beyond TimeClip's range gives an invalid date.
   */
  function DateValue(elapsed: int, jsonTime: TimeValue): Option<int> {
    match jsonTime
    case NaN => None
    case Null => if -MAX_TIME <= elapsed <= MAX_TIME then Some(elapsed) else None
    case Millis(t) => if -MAX_TIME <= elapsed + t <= MAX_TIME then Some(elapsed + t) else None
  }

  /** getUTCHours, getUTCMinutes, getUTCSeconds and getUTCMilliseconds: NaN for an invalid date. */
  function UtcHours(t: Option<int>): Field { if t.None? then None else Some(Firmware.Hours(t.value)) }
  function UtcMinutes(t: Option<int>): Field { if t.None? then None else Some(Firmware.Minutes(t.value)) }
  function UtcSeconds(t: Option<int>): Field { if t.None? then None else Some(Firmware.Seconds(t.value)) }
  function UtcMilliseconds(t: Option<int>): Field { if t.None? then None else Some(Firmware.Millis(t.value)) }

  /** A field zero-padded to `width` digits, or "NaN". */
  function Padded(x: Field, width: nat): string {
    if x.None? then "NaN" else ZeroPadded(x.value, width)
  }

  /** What timer shows: the four fields padded and separated as the device prints them. */
  function TimerText(t: Option<int>): string {
    Padded(UtcHours(t), 2) + ":" + Padded(UtcMinutes(t), 2) + ":" + Padded(UtcSeconds(t), 2) + "."
    + Padded(UtcMilliseconds(t), 3)
  }

  /** For a valid date the timer's text is the clock text of its time of day. */
  lemma TimerTextValid(t: int)
    ensures TimerText(Some(t))
            == ClockText(Firmware.Hours(t), Firmware.Minutes(t), Firmware.Seconds(t), Firmware.Millis(t))
  {
  }

  /** An invalid date shows NaN in every field. */
  lemma TimerTextInvalid()
    ensures TimerText(None) == "NaN:NaN:NaN.NaN"
  {
  }

  /** `if (x < 10) timeStr += '0'; timeStr += x`: a two-digit field padded with '0'. */
  method AppendTwoDigits(timeStr: string, x: Field) returns (r: string)
    requires x.Some? ==> x.value < 100
    ensures r == timeStr + Padded(x, 2)
  {
    r := timeStr;
    if Below(x, 10) {
      r := r + "0";
    }
    r := r + NumberText(x);
    if x.Some? {
      assert Pow10(1) == 10 && Pow10(2) == 100;
      DecimalLength(x.value, 1);
      DecimalLength(x.value, 2);
      if x.value < 10 {
        assert seq(1, _ => '0') == "0";
      }
    }
  }

  /** The milliseconds get one '0' below 100 and another below 10. */
  method AppendThreeDigits(timeStr: string, x: Field) returns (r: string)
    requires x.Some? ==> x.value < 1000
    ensures r == timeStr + Padded(x, 3)
  {
    r := timeStr;
    if Below(x, 100) {
      r := r + "0";
      if Below(x, 10) {
        r := r + "0";
      }
    }
    r := r + NumberText(x);
    if x.Some? {
      assert Pow10(1) == 10 && Pow10(2) == 100 && Pow10(3) == 1000;
      DecimalLength(x.value, 1);
      DecimalLength(x.value, 2);
      DecimalLength(x.value, 3);
      if x.value < 10 {
        assert seq(2, _ => '0') == "00";
      } else if x.value < 100 {
        assert seq(1, _ => '0') == "0";
      }
    }
  }

  /**
   * timer: nothing changes while the display shows "Unknown"; otherwise the text built field by
   * field, each padded with '0' to two digits (three for the milliseconds).
   */
  method Timer(display: string, elapsed: int, jsonTime: TimeValue) returns (shown: string)
    ensures display == "Unknown" ==> shown == display
    ensures display != "Unknown" ==> shown == TimerText(DateValue(elapsed, jsonTime))
  {
    if display == "Unknown" {
      return display;
    }
    var date := DateValue(elapsed, jsonTime);
    var timeStr := AppendTwoDigits("", UtcHours(date));
    timeStr := AppendTwoDigits(timeStr + ":", UtcMinutes(date));
    timeStr := AppendTwoDigits(timeStr + ":", UtcSeconds(date));
    timeStr := AppendThreeDigits(timeStr + ".", UtcMilliseconds(date));
    assert "" + Padded(UtcHours(date), 2) == Padded(UtcHours(date), 2);
    shown := timeStr;
  }

  /** The timer's text for a valid date parses back to that date's time of day. */
  lemma ParseTimerText(t: int)
    ensures ParseTimeString(JsString(TimerText(Some(t)))) == Millis(t % Firmware.DAY_MS)
  {
    TimerTextValid(t);
    ParseClockText(Firmware.Hours(t), Firmware.Minutes(t), Firmware.Seconds(t), Firmware.Millis(t));
    Firmware.FieldsAreTimeOfDay(t);
  }
}
