/** Wall-clock times of a single day at minute resolution, the only time
    values the agenda stores. A time is written "HH:mm" in the program; the
    model keeps the minute of the day and proves that the "HH:mm" spelling
    and the minute determine each other. */
module Clock {
  import opened Options

  const MinutesPerDay: int := 1440

  /** A minute of the day, 00:00 = 0 up to 23:59 = 1439. */
  type Minute = m: int | 0 <= m < MinutesPerDay

  /** The time every missing time falls back to: 08:00. */
  const DefaultTime: Minute := 480

  /** The fixed step between consecutive default times and the size of the
      collision nudge: 15 minutes. */
  const Step: int := 15

  /** Adding `delta` minutes to a time of the day and reading the result as
      "HH:mm" again: the clock wraps past midnight in both directions. */
  function Shift(t: Minute, delta: int): (r: Minute)
    ensures 0 <= t + delta < MinutesPerDay ==> r == t + delta
    ensures MinutesPerDay <= t + delta < 2 * MinutesPerDay ==> r == t + delta - MinutesPerDay
    ensures -MinutesPerDay <= t + delta < 0 ==> r == t + delta + MinutesPerDay
  {
    (t + delta) % MinutesPerDay
  }

  /** The signed number of minutes from `older` to `newer`, both read on the
      same day: the difference of two parses of "HH:mm" strings. */
  function Delta(newer: Minute, older: Minute): (d: int)
    ensures -MinutesPerDay < d < MinutesPerDay
    ensures d == 0 <==> newer == older
    ensures (d < 0) == (newer < older)
    ensures Shift(older, d) == newer
  {
    newer - older
  }

  /** (x + k * 1440) and x denote the same minute of the day. */
  lemma {:induction false} ModMultiple(x: int, k: int)
    ensures (x + k * MinutesPerDay) % MinutesPerDay == x % MinutesPerDay
  {
    var q := x / MinutesPerDay;
    var m := x % MinutesPerDay;
    assert x == q * MinutesPerDay + m;
    assert x + k * MinutesPerDay == (q + k) * MinutesPerDay + m;
  }

  /** Two shifts in a row are one shift by the sum. */
  lemma {:induction false} ShiftShift(t: Minute, a: int, b: int)
    ensures Shift(Shift(t, a), b) == Shift(t, a + b)
  {
    var q := (t + a) / MinutesPerDay;
    assert Shift(t, a) == t + a - q * MinutesPerDay;
    ModMultiple(t + a + b, -q);
  }

  /** Shifting back by the same amount restores the time. */
  lemma ShiftUndo(t: Minute, d: int)
    ensures Shift(Shift(t, d), -d) == t
  {
    ShiftShift(t, d, -d);
  }

  /** A common shift keeps the clockwise distance between two times. */
  lemma {:induction false} ShiftKeepsDistance(s: Minute, t: Minute, d: int)
    ensures (Shift(s, d) - Shift(t, d)) % MinutesPerDay == (s - t) % MinutesPerDay
  {
    var qs := (s + d) / MinutesPerDay;
    var qt := (t + d) / MinutesPerDay;
    assert Shift(s, d) == s + d - qs * MinutesPerDay;
    assert Shift(t, d) == t + d - qt * MinutesPerDay;
    ModMultiple(s - t, qt - qs);
  }

  // ---------------------------------------------------------------------
  // The "HH:mm" spelling of a time.

  predicate IsDigit(c: char) { '0' <= c <= '9' }

  function DigitValue(c: char): (n: int)
    requires IsDigit(c)
    ensures 0 <= n < 10
  {
    c as int - '0' as int
  }

  function DigitChar(n: int): (c: char)
    requires 0 <= n < 10
    ensures IsDigit(c) && DigitValue(c) == n
  {
    ('0' as int + n) as char
  }

  /** `format(date, "HH:mm")`: two-digit hour, colon, two-digit minute. */
  function Format(t: Minute): (s: string)
    ensures |s| == 5 && s[2] == ':'
    ensures IsDigit(s[0]) && IsDigit(s[1]) && IsDigit(s[3]) && IsDigit(s[4])
  {
    var h := t / 60;
    var m := t % 60;
    [DigitChar(h / 10), DigitChar(h % 10), ':', DigitChar(m / 10), DigitChar(m % 10)]
  }

  /** `parse(s, "HH:mm", day)` on the zero-padded strings the time input
      delivers: None stands for an Invalid Date. */
  function Parse(s: string): (r: Option<Minute>)
    ensures r.Some? ==> |s| == 5 && s[2] == ':'
    ensures r.Some? ==> IsDigit(s[0]) && IsDigit(s[1]) && IsDigit(s[3]) && IsDigit(s[4])
    ensures r.Some? ==> r.value / 60 == 10 * DigitValue(s[0]) + DigitValue(s[1])
    ensures r.Some? ==> r.value % 60 == 10 * DigitValue(s[3]) + DigitValue(s[4])
  {
    if |s| == 5 && s[2] == ':' && IsDigit(s[0]) && IsDigit(s[1]) && IsDigit(s[3]) && IsDigit(s[4]) then
      var h := 10 * DigitValue(s[0]) + DigitValue(s[1]);
      var m := 10 * DigitValue(s[3]) + DigitValue(s[4]);
      if h < 24 && m < 60 then Some(h * 60 + m) else None
    else
      None
  }

  /** Reading back a printed time gives the time. */
  lemma ParseFormat(t: Minute)
    ensures Parse(Format(t)) == Some(t)
  {
    var s := Format(t);
    assert DigitValue(s[0]) == t / 60 / 10;
    assert DigitValue(s[1]) == t / 60 % 10;
    assert DigitValue(s[3]) == t % 60 / 10;
    assert DigitValue(s[4]) == t % 60 % 10;
  }

  /** Printing a parsed time gives back the string: a time has one spelling. */
  lemma FormatParse(s: string)
    requires Parse(s).Some?
    ensures Format(Parse(s).value) == s
  {
    var t := Parse(s).value;
    var h := 10 * DigitValue(s[0]) + DigitValue(s[1]);
    var m := 10 * DigitValue(s[3]) + DigitValue(s[4]);
    assert t / 60 == h && t % 60 == m;
    var f := Format(t);
    assert f[0] == s[0] && f[1] == s[1] && f[3] == s[3] && f[4] == s[4];
  }

  /** Hence comparing two "HH:mm" strings with `===`, as the program does,
      compares the times they denote. */
  lemma FormatInjective(s: Minute, t: Minute)
    ensures Format(s) == Format(t) <==> s == t
  {
    if Format(s) == Format(t) {
      ParseFormat(s);
      ParseFormat(t);
    }
  }
}
