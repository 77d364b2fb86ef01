/** The compile-time string helpers and the timespan formatter of src/utils.h. */
module Utils {
  import opened Common

  /**
   * utility::strlen: the number of characters before the first NUL.
   * A C string always holds its terminator, hence the precondition.
   */
  function StrLen(s: string): (r: nat)
    requires NUL in s
    ensures r < |s| && s[r] == NUL
    ensures forall k :: 0 <= k < r ==> s[k] != NUL
  {
    if s[0] == NUL then 0 else StrLen(s[1..]) + 1
  }

  /** The first NUL in `s[a..b]`, or `b` when there is none. */
  function FirstNul(s: string, a: nat, b: nat): (r: nat)
    requires a <= b <= |s|
    ensures a <= r <= b
    decreases b - a
  {
    if a == b || s[a] == NUL then a else FirstNul(s, a + 1, b)
  }

  /** The scan stops at the first NUL of the range, and runs to its end when there is none. */
  lemma {:induction false} FirstNulSpec(s: string, a: nat, b: nat)
    requires a <= b <= |s|
    ensures NulFree(s[a..FirstNul(s, a, b)])
    ensures FirstNul(s, a, b) < b ==> s[FirstNul(s, a, b)] == NUL
    ensures NulFree(s[a..b]) ==> FirstNul(s, a, b) == b
    decreases b - a
  {
    if a < b && s[a] != NUL {
      FirstNulSpec(s, a + 1, b);
      assert s[a..FirstNul(s, a, b)] == [s[a]] + s[a + 1..FirstNul(s, a + 1, b)];
      if NulFree(s[a..b]) {
        assert s[a + 1..b] == s[a..b][1..];
      }
    }
  }

  /** The text a C string reader (strlen, Arduino's String(char*)) sees in `s`: everything before the first NUL. */
  function CStr(s: string): (r: string)
    ensures |r| <= |s| && r == s[..|r|]
  {
    s[..FirstNul(s, 0, |s|)]
  }

  lemma CStrOfNulFree(s: string)
    ensures NulFree(CStr(s))
    ensures NulFree(s) ==> CStr(s) == s
  {
    FirstNulSpec(s, 0, |s|);
    assert s[0..|s|] == s;
  }

  /** strlen counts exactly the characters String(char*) copies. */
  lemma {:induction false} StrLenIsCStrLength(s: string)
    requires NUL in s
    ensures StrLen(s) == |CStr(s)|
  {
    FirstNulSpec(s, 0, |s|);
    var n := FirstNul(s, 0, |s|);
    forall k | 0 <= k < n
      ensures s[k] != NUL
    {
      assert s[0..n][k] == s[k];
    }
  }

  predicate IsSeparator(c: char) {
    c == '/' || c == '\\'
  }

  /**
   * utility::get_base_name_offset(file, i): looking down from index `i`, the index just past the
   * last directory separator, or 0 when `file[..i+1]` holds none.
   */
  function BaseNameOffset(file: string, i: nat): (r: nat)
    requires i < |file|
    ensures r <= i + 1
    ensures forall k :: r <= k <= i ==> !IsSeparator(file[k])
    ensures r == 0 || IsSeparator(file[r - 1])
  {
    if IsSeparator(file[i]) then i + 1
    else if i > 0 then BaseNameOffset(file, i - 1)
    else 0
  }

  /**
   * The offset FILE_BASE_NAME uses for a string literal `file` of array size |file|: the
   * search starts at S - 1, the terminator, so the base name never includes it.
   */
  function FileBaseNameOffset(file: string): (r: nat)
    requires |file| > 0 && file[|file| - 1] == NUL
    ensures r < |file|
    ensures NulFree(file[..|file| - 1]) ==> NulFree(file[r..|file| - 1])
    ensures forall k :: r <= k < |file| ==> !IsSeparator(file[k])
    ensures r == 0 || IsSeparator(file[r - 1])
  {
    BaseNameOffset(file, |file| - 1)
  }

  /** "HH:MM:SS.mmm", each field zero-padded to its width. */
  function ClockText(h: nat, m: nat, s: nat, ms: nat): string {
    ZeroPadded(h, 2) + ":" + ZeroPadded(m, 2) + ":" + ZeroPadded(s, 2) + "." + ZeroPadded(ms, 3)
  }

  const HOUR_MS: nat := 3600000
  const HUNDRED_HOURS_MS: nat := 100 * HOUR_MS

  /** The four fields of `time_ms % 100h`: hours, minutes, seconds and milliseconds. */
  function SpanHours(timeMs: nat): nat { (timeMs % HUNDRED_HOURS_MS) / HOUR_MS }
  function SpanMinutes(timeMs: nat): nat { ((timeMs % HUNDRED_HOURS_MS) / 60000) % 60 }
  function SpanSeconds(timeMs: nat): nat { ((timeMs % HUNDRED_HOURS_MS) / 1000) % 60 }
  function SpanMillis(timeMs: nat): nat { (timeMs % HUNDRED_HOURS_MS) % 1000 }

  /**
   * utility::timespan_to_string, as its documentation describes it: "Unknown" for a negative
   * timespan, otherwise the timespan modulo 100 hours as "HH:MM:SS.mmm".
   */
  function TimespanToString(timeMs: int): (r: string)
    ensures timeMs < 0 <==> r == "Unknown"
    ensures timeMs >= 0 ==> |r| == 12 && r[2] == ':' && r[5] == ':' && r[8] == '.'
    ensures timeMs >= 0 ==>
      && r[..2] == ZeroPadded(SpanHours(timeMs), 2) && r[3..5] == ZeroPadded(SpanMinutes(timeMs), 2)
      && r[6..8] == ZeroPadded(SpanSeconds(timeMs), 2) && r[9..] == ZeroPadded(SpanMillis(timeMs), 3)
  {
    if timeMs < 0 then "Unknown"
    else
      SpanFields(timeMs);
      ClockTextShape(SpanHours(timeMs), SpanMinutes(timeMs), SpanSeconds(timeMs), SpanMillis(timeMs));
      ClockText(SpanHours(timeMs), SpanMinutes(timeMs), SpanSeconds(timeMs), SpanMillis(timeMs))
  }

  /** The fields are in range and add up to the timespan modulo 100 hours. */
  lemma SpanFields(timeMs: nat)
    ensures SpanHours(timeMs) < 100 && SpanMinutes(timeMs) < 60 && SpanSeconds(timeMs) < 60
    ensures SpanMillis(timeMs) < 1000
    ensures SpanHours(timeMs) * HOUR_MS + SpanMinutes(timeMs) * 60000 + SpanSeconds(timeMs) * 1000
      + SpanMillis(timeMs) == timeMs % HUNDRED_HOURS_MS
  {
    var t := timeMs % HUNDRED_HOURS_MS;
    DivDiv(t, 1000, 60);
    DivDiv(t, 60000, 60);
    assert t == HOUR_MS * (t / HOUR_MS) + t % HOUR_MS;
  }

  /** `q == d / m` and `r == d % m` are the only quotient and remainder with `0 <= r < m`. */
  lemma DivModUnique(d: int, m: nat, q: int, r: int)
    requires 0 <= r < m && d == m * q + r
    ensures d / m == q && d % m == r
  {
    var q0 := d / m;
    if q0 < q {
      MulMonotone(m, q0 + 1, q);
    } else if q < q0 {
      MulMonotone(m, q + 1, q0);
    }
  }

  lemma {:induction false} MulMonotone(m: nat, x: int, y: int)
    requires x <= y
    ensures m * x <= m * y
    decreases y - x
  {
    if x < y {
      MulMonotone(m, x, y - 1);
      assert m * y == m * (y - 1) + m;
    }
  }

  /** Dividing by `a`, then by `b`, is dividing by `a * b`; the remainder combines both. */
  lemma DivDiv(d: int, a: nat, b: nat)
    requires a > 0 && b > 0
    ensures d / a / b == d / (a * b)
    ensures d % (a * b) == a * ((d / a) % b) + d % a
  {
    var q := d / a;
    var r := d % a;
    var q2 := q / b;
    var r2 := q % b;
    assert d == a * q + r;
    assert q == b * q2 + r2;
    assert d == (a * b) * q2 + (a * r2 + r) by {
      calc {
        d;
        a * q + r;
        a * (b * q2 + r2) + r;
        (a * b) * q2 + (a * r2 + r);
      }
    }
    assert a * r2 + r < a * b by {
      MulMonotone(a, r2, b - 1);
      assert a * (b - 1) == a * b - a;
    }
    MulMonotone(a, 0, r2);
    DivModUnique(d, a * b, q2, a * r2 + r);
  }


  lemma ClockTextShape(h: nat, m: nat, s: nat, ms: nat)
    requires h < 100 && m < 100 && s < 100 && ms < 1000
    ensures var c := ClockText(h, m, s, ms);
      |c| == 12 && c[2] == ':' && c[5] == ':' && c[8] == '.'
      && c[..2] == ZeroPadded(h, 2) && c[3..5] == ZeroPadded(m, 2)
      && c[6..8] == ZeroPadded(s, 2) && c[9..] == ZeroPadded(ms, 3)
  {
    DecimalLength(h, 2);
    DecimalLength(m, 2);
    DecimalLength(s, 2);
    DecimalLength(ms, 3);
    assert Pow10(2) == 100 && Pow10(3) == 1000;
  }
}
