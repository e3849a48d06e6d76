/**
 * Wall-clock text, as `_parse_time` reads it (`datetime.strptime(s, '%H:%M:%S')`) and as
 * `check_all_truck_packages` writes it (`strftime('%H:%M:%S')`). Times are hours since
 * midnight on one axis.
 */
module Clock {
  import opened Wrappers

  predicate IsDigit(c: char) {
    '0' <= c <= '9'
  }

  function DigitValue(c: char): (v: nat)
    requires IsDigit(c)
    ensures v < 10
  {
    c as int - '0' as int
  }

  /** The hours on the time axis of h:m:s. */
  function Hours(h: nat, m: nat, s: nat): real {
    h as real + m as real / 60.0 + s as real / 3600.0
  }

  datatype Field = Field(value: nat, next: nat)

  /**
   * One numeric directive of strptime starting at position i: two digits when a second
   * digit follows, otherwise one. (A one-digit reading followed by a digit can never
   * complete a match, so this agrees with strptime's regular expression.)
   */
  function ReadField(s: string, i: nat): (r: Option<Field>)
    ensures r.Some? ==> i < r.value.next <= |s| && r.value.next <= i + 2 && r.value.value < 100
    ensures r.Some? <==> i < |s| && IsDigit(s[i])
  {
    if i < |s| && IsDigit(s[i]) then
      if i + 1 < |s| && IsDigit(s[i + 1]) then Some(Field(10 * DigitValue(s[i]) + DigitValue(s[i + 1]), i + 2))
      else Some(Field(DigitValue(s[i]), i + 1))
    else None
  }

  /** `datetime.strptime(s, '%H:%M:%S')` reduced to its time of day; None where strptime raises ValueError. */
  function ParseClock(s: string): (r: Option<real>)
    ensures r.Some? ==> 0.0 <= r.value < 24.0
  {
    match ReadField(s, 0)
    case None => None
    case Some(h) =>
      if h.next < |s| && s[h.next] == ':' then
        match ReadField(s, h.next + 1)
        case None => None
        case Some(m) =>
          if m.next < |s| && s[m.next] == ':' then
            match ReadField(s, m.next + 1)
            case None => None
            case Some(sec) =>
              if sec.next == |s| && h.value <= 23 && m.value <= 59 && sec.value <= 59
              then Some(Hours(h.value, m.value, sec.value))
              else None
          else None
      else None
  }

  /** The whole seconds since midnight of a time of day (strftime drops the fraction). */
  function WholeSeconds(t: real): (n: nat)
    requires 0.0 <= t < 24.0
    ensures n < 86400
    ensures n as real <= t * 3600.0 < n as real + 1.0
  {
    (t * 3600.0).Floor
  }

  function TwoDigits(n: nat): (r: string)
    requires n < 100
    ensures |r| == 2 && IsDigit(r[0]) && IsDigit(r[1])
    ensures 10 * DigitValue(r[0]) + DigitValue(r[1]) == n
  {
    [('0' as int + n / 10) as char, ('0' as int + n % 10) as char]
  }

  /** `strftime('%H:%M:%S')` of a time of day. */
  function FormatClock(t: real): (r: string)
    requires 0.0 <= t < 24.0
    ensures |r| == 8 && r[2] == ':' && r[5] == ':'
  {
    var n := WholeSeconds(t);
    TwoDigits(n / 3600) + ":" + TwoDigits(n % 3600 / 60) + ":" + TwoDigits(n % 60)
  }

  /** Parsing formatted text gives back the time truncated to whole seconds. */
  lemma ParseFormatRoundTrip(t: real)
    requires 0.0 <= t < 24.0
    ensures ParseClock(FormatClock(t)) == Some(WholeSeconds(t) as real / 3600.0)
    ensures WholeSeconds(t) as real / 3600.0 <= t < WholeSeconds(t) as real / 3600.0 + 1.0 / 3600.0
  {
    var n := WholeSeconds(t);
    var h, m, s := n / 3600, n % 3600 / 60, n % 60;
    var text := FormatClock(t);
    assert text == TwoDigits(h) + ":" + TwoDigits(m) + ":" + TwoDigits(s);
    assert ReadField(text, 0) == Some(Field(h, 2));
    assert ReadField(text, 3) == Some(Field(m, 5));
    assert ReadField(text, 6) == Some(Field(s, 8));
    assert n == h * 3600 + m * 60 + s;
    assert Hours(h, m, s) == (h * 3600 + m * 60 + s) as real / 3600.0;
  }

  /** Inputs strptime accepts or rejects, as seen in the simulator's menus. */
  lemma ParseClockExamples()
    ensures ParseClock("10:20:00") == Some(10.0 + 20.0 / 60.0)
    ensures ParseClock("9:05:30") == Some(9.0 + 5.5 / 60.0)
    ensures ParseClock("24:00:00") == None
    ensures ParseClock("10:60:00") == None
    ensures ParseClock("10:20") == None
    ensures ParseClock("") == None
  {
    assert ReadField("10:20:00", 0) == Some(Field(10, 2));
    assert ReadField("10:20:00", 3) == Some(Field(20, 5));
    assert ReadField("10:20:00", 6) == Some(Field(0, 8));
    assert ReadField("9:05:30", 0) == Some(Field(9, 1));
    assert ReadField("9:05:30", 2) == Some(Field(5, 4));
    assert ReadField("9:05:30", 5) == Some(Field(30, 7));
    assert ReadField("24:00:00", 0) == Some(Field(24, 2));
    assert ReadField("24:00:00", 3) == Some(Field(0, 5));
    assert ReadField("24:00:00", 6) == Some(Field(0, 8));
    assert ReadField("10:60:00", 0) == Some(Field(10, 2));
    assert ReadField("10:60:00", 3) == Some(Field(60, 5));
    assert ReadField("10:60:00", 6) == Some(Field(0, 8));
    assert ReadField("10:20", 0) == Some(Field(10, 2));
    assert ReadField("10:20", 3) == Some(Field(20, 5));
  }
}
