/**
 * Durations as whole seconds: the `formatTime` display of main.go and todo.go, and the two
 * library calls the program leans on, `time.ParseDuration` and `time.Duration.String`,
 * restricted to whole seconds.
 */
module Durations {
  import opened Wrappers
  import opened Decimal

  /** The largest whole number of seconds an int64 count of nanoseconds can hold (either sign). */
  const MaxSeconds: int := 9223372036

  /** Go's integer division, which truncates toward zero. */
  function Quot(a: int, b: nat): (q: int)
    requires b > 0
    ensures a >= 0 ==> q == a / b
    ensures a < 0 ==> q == -((-a) / b)
  {
    if a >= 0 then a / b else -((-a) / b)
  }

  /** Go's `%`, whose result takes the sign of the dividend. */
  function Rem(a: int, b: nat): (r: int)
    requires b > 0
    ensures a >= 0 ==> r == a % b
    ensures a < 0 ==> r == -((-a) % b)
    ensures -(b as int) < r < b
  {
    a - b * Quot(a, b)
  }

  /**
   * `%02d`: the digits of `n` without leading zeros, a zero in front when that leaves fewer
   * than two characters; a negative number is its sign and the digits of its magnitude.
   */
  function Pad2(n: int): (s: string)
    ensures n >= 0 ==> AllDigits(s) && Value(s) == n
    ensures 0 <= n < 100 ==> |s| == 2
    ensures n >= 100 ==> |s| > 2
    ensures n >= 10 ==> s[0] != '0'
    ensures n < 0 ==> |s| >= 2 && s[0] == '-' && s[1] != '0' && AllDigits(s[1..]) && Value(s[1..]) == -n
  {
    if n < 0 then
      var t := "-" + Dec(-n);
      assert t[1..] == Dec(-n);
      ValueOfDec(-n);
      t
    else if n < 10 then ValueOfDec(n); LeadingZero(Dec(n)); "0" + Dec(n)
    else ValueOfDec(n); DecLengthTwo(n); Dec(n)
  }

  /**
   * `formatTime`: hours, minutes modulo 60 and seconds modulo 60, each printed with `%02d`.
   * The hours are not wrapped; each field is computed with Go's truncating integer arithmetic.
   */
  function FormatTime(d: int): (r: string)
    ensures d >= 0 ==> ParseClock(r) == Some(d)
  {
    var r := Pad2(Quot(d, 3600)) + ":" + Pad2(Rem(Quot(d, 60), 60)) + ":" + Pad2(Rem(d, 60));
    if d >= 0 then
      assert Quot(d, 3600) == d / 3600 && Rem(Quot(d, 60), 60) == (d / 60) % 60 && Rem(d, 60) == d % 60;
      ClockRoundTrip(d);
      r
    else r
  }

  /** Hours, minutes-of-hour and seconds-of-minute, printed and read back, give the duration. */
  lemma ClockRoundTrip(d: nat)
    ensures ParseClock(Pad2(d / 3600) + ":" + Pad2((d / 60) % 60) + ":" + Pad2(d % 60)) == Some(d)
  {
    ParsePadded(d / 3600, (d / 60) % 60, d % 60);
    ClockFields(d);
  }

  /** Reads an `H..H:MM:SS` clock display back to seconds; the reference reading of `FormatTime`. */
  function ParseClock(t: string): Option<nat>
  {
    if |t| < 8 then None
    else
      var hh, mm, ss := t[..|t| - 6], t[|t| - 5..|t| - 3], t[|t| - 2..];
      if t[|t| - 6] == ':' && t[|t| - 3] == ':' && AllDigits(hh) && AllDigits(mm) && AllDigits(ss)
         && Value(mm) < 60 && Value(ss) < 60
      then Some(Value(hh) * 3600 + Value(mm) * 60 + Value(ss))
      else None
  }

  /** Zero-padded hour, minute and second fields read back to the seconds they stand for. */
  lemma ParsePadded(h: nat, m: nat, s: nat)
    requires m < 60 && s < 60
    ensures ParseClock(Pad2(h) + ":" + Pad2(m) + ":" + Pad2(s)) == Some(h * 3600 + m * 60 + s)
  {
    ParseClockFields(Pad2(h), Pad2(m), Pad2(s));
  }

  /** One second left displays as "00:00:01". */
  lemma FormatOneSecond()
    ensures FormatTime(1) == "00:00:01"
  {
    assert Quot(1, 3600) == 0 && Rem(Quot(1, 60), 60) == 0 && Rem(1, 60) == 1;
    PadDigit(0);
    PadDigit(1);
  }

  /** A single digit is printed with a zero in front. */
  lemma PadDigit(n: nat)
    requires n < 10
    ensures Pad2(n) == ['0', DigitChar(n)]
  {
    assert Dec(n) == [DigitChar(n)];
  }

  /** `ParseClock` takes apart a display made of digit fields of the right widths. */
  lemma ParseClockFields(hh: string, mm: string, ss: string)
    requires |hh| >= 2 && |mm| == 2 && |ss| == 2
    requires AllDigits(hh) && AllDigits(mm) && AllDigits(ss) && Value(mm) < 60 && Value(ss) < 60
    ensures ParseClock(hh + ":" + mm + ":" + ss) == Some(Value(hh) * 3600 + Value(mm) * 60 + Value(ss))
  {
    var t := hh + ":" + mm + ":" + ss;
    ClockSlices(hh, mm, ss, t);
    ParseClockAt(hh, mm, ss, t);
  }

  lemma ClockSlices(hh: string, mm: string, ss: string, t: string)
    requires |mm| == 2 && |ss| == 2 && t == hh + ":" + mm + ":" + ss
    ensures |t| == |hh| + 6 && t[|t| - 6] == ':' && t[|t| - 3] == ':'
    ensures t[..|t| - 6] == hh && t[|t| - 5..|t| - 3] == mm && t[|t| - 2..] == ss
  {
  }

  lemma ParseClockAt(hh: string, mm: string, ss: string, t: string)
    requires |hh| >= 2 && AllDigits(hh) && AllDigits(mm) && AllDigits(ss) && Value(mm) < 60 && Value(ss) < 60
    requires |t| == |hh| + 6 && t[|t| - 6] == ':' && t[|t| - 3] == ':'
    requires t[..|t| - 6] == hh && t[|t| - 5..|t| - 3] == mm && t[|t| - 2..] == ss
    ensures ParseClock(t) == Some(Value(hh) * 3600 + Value(mm) * 60 + Value(ss))
  {
  }

  /** Hours, minutes-of-hour and seconds-of-minute add back up to the duration. */
  lemma ClockFields(d: nat)
    ensures (d / 3600) * 3600 + ((d / 60) % 60) * 60 + d % 60 == d
  {
    var q := d / 60;
    assert d == q * 60 + d % 60;
    assert q == (q / 60) * 60 + q % 60;
    assert d / 3600 == q / 60;
  }

  /**
   * The display of a non-negative duration is exactly eight characters iff it is under 100
   * hours; from 100 hours on the hours field has no leading zero.
   */
  lemma FormatTimeWidth(d: int)
    requires d >= 0
    ensures |FormatTime(d)| == 8 <==> d < 360000
    ensures d >= 360000 ==> FormatTime(d)[0] != '0'
  {
    var h := Pad2(d / 3600);
    assert FormatTime(d) == h + ":" + Pad2((d / 60) % 60) + ":" + Pad2(d % 60);
    assert FormatTime(d)[0] == h[0];
  }

  // ---------------------------------------------------------------------------------------
  // time.Duration.String for whole seconds

  /** One printed component: a count and its unit. */
  function Component(n: nat, unit: string): (c: string)
    ensures |c| == |Dec(n)| + |unit| && IsDigit(c[0])
    ensures n > 0 ==> c[0] != '0'
  {
    Dec(n) + unit
  }

  /** The unsigned part of `Duration.String` for a positive number of seconds. */
  function Magnitude(u: nat): (s: string)
    requires u > 0
    ensures |s| >= 2 && IsDigit(s[0]) && s[0] != '0' && s[|s| - 1] == 's'
  {
    if u < 60 then Component(u, "s")
    else if u < 3600 then Component(u / 60, "m") + Component(u % 60, "s")
    else Component(u / 3600, "h") + (Component((u / 60) % 60, "m") + Component(u % 60, "s"))
  }

  /** `Duration.String`: "0s", or an optional "-" and then `72h3m0s`-style text. */
  function DurationString(d: int): (s: string)
    ensures |s| >= 2 && s[|s| - 1] == 's'
    ensures s[0] == '-' <==> d < 0
    ensures d >= 0 ==> IsDigit(s[0]) && (s[0] == '0' <==> d == 0)
  {
    if d == 0 then "0s"
    else if d < 0 then "-" + Magnitude(-d)
    else Magnitude(d)
  }

  // ---------------------------------------------------------------------------------------
  // time.ParseDuration for whole seconds

  /** Seconds per unit, for the units that denote whole seconds. */
  function UnitSeconds(c: char): Option<nat>
  {
    if c == 'h' then Some(3600)
    else if c == 'm' then Some(60)
    else if c == 's' then Some(1)
    else None
  }

  /**
   * Scans `<digits><unit>` components left to right. `digits` holds the digits of the
   * component being read and `total` the seconds of the components already read. A unit
   * name is the run of characters that are neither digits nor '.', so a one-letter unit must
   * be followed by a digit or the end; a unit without digits, digits without a unit and an
   * unknown unit are errors.
   */
  function Scan(s: string, digits: string, total: nat): Option<nat>
    requires AllDigits(digits)
    decreases |s|
  {
    if s == [] then
      if digits == [] then Some(total) else None
    else if IsDigit(s[0]) then
      Scan(s[1..], digits + [s[0]], total)
    else if digits == [] || s[0] == '.' || UnitSeconds(s[0]).None? then
      None
    else if |s| > 1 && !IsDigit(s[1]) && s[1] != '.' then
      None
    else
      Scan(s[1..], [], total + Value(digits) * UnitSeconds(s[0]).value)
  }

  /**
   * `time.ParseDuration`: an optional sign, then "0" alone or one or more components;
   * the empty string, a missing unit and a total beyond the int64 range are errors.
   */
  function ParseDuration(t: string): (r: Option<int>)
    ensures t == "" ==> r == None
    ensures r.Some? ==> -MaxSeconds <= r.value <= MaxSeconds
  {
    var signed := |t| > 0 && (t[0] == '-' || t[0] == '+');
    var negative := |t| > 0 && t[0] == '-';
    var body := if signed then t[1..] else t;
    if body == "0" then Some(0)
    else if body == "" then None
    else
      match Scan(body, [], 0)
      case None => None
      case Some(u) => if u > MaxSeconds then None else Some(if negative then -(u as int) else u)
  }

  /** `d, _ := time.ParseDuration(t)`: the error is dropped and the zero duration used instead. */
  function ParseOrZero(t: string): (d: int)
    ensures ParseDuration(t).Some? ==> d == ParseDuration(t).value
    ensures ParseDuration(t).None? ==> d == 0
    ensures -MaxSeconds <= d <= MaxSeconds
  {
    match ParseDuration(t)
    case Some(d) => d
    case None => 0
  }

  /** Scanning a run of digits only collects them. */
  lemma {:induction false} ScanDigits(p: string, rest: string, digits: string, total: nat)
    requires AllDigits(p) && AllDigits(digits)
    ensures AllDigits(digits + p)
    ensures Scan(p + rest, digits, total) == Scan(rest, digits + p, total)
  {
    if p != [] {
      assert (p + rest)[1..] == p[1..] + rest;
      ScanDigits(p[1..], rest, digits + [p[0]], total);
      assert digits + [p[0]] + p[1..] == digits + p;
    } else {
      assert p + rest == rest;
      assert digits + p == digits;
    }
  }

  /** A one-letter unit after some digits closes the component. */
  lemma ScanUnit(t: string, digits: string, total: nat)
    requires |t| >= 1 && UnitSeconds(t[0]).Some? && (|t| == 1 || IsDigit(t[1]))
    requires digits != [] && AllDigits(digits)
    ensures Scan(t, digits, total) == Scan(t[1..], [], total + Value(digits) * UnitSeconds(t[0]).value)
  {
  }

  lemma ComponentSlices(n: nat, unit: string, rest: string, t: string)
    requires |unit| == 1 && t == Component(n, unit) + rest
    ensures t == Dec(n) + (unit + rest)
    ensures (unit + rest)[0] == unit[0] && (unit + rest)[1..] == rest
  {
  }

  /** One printed component `<n><unit>` in front of text that starts a new component (or ends). */
  lemma ScanComponent(n: nat, unit: string, rest: string, total: nat)
    requires |unit| == 1 && UnitSeconds(unit[0]).Some?
    requires rest == [] || IsDigit(rest[0])
    ensures Scan(Component(n, unit) + rest, [], total) ==
            Scan(rest, [], total + n * UnitSeconds(unit[0]).value)
  {
    var p, tail := Dec(n), unit + rest;
    ComponentSlices(n, unit, rest, Component(n, unit) + rest);
    ScanDigits(p, tail, [], total);
    assert [] + p == p;
    ScanUnit(tail, p, total);
    ValueOfDec(n);
  }

  /** The last component, seconds, ends the text. */
  lemma ScanSeconds(s: nat, total: nat)
    ensures Scan(Component(s, "s"), [], total) == Some(total + s)
  {
    ScanComponent(s, "s", [], total);
    assert Component(s, "s") + [] == Component(s, "s");
  }

  /** Minutes then seconds. */
  lemma ScanMinutes(m: nat, s: nat)
    ensures Scan(Component(m, "m") + Component(s, "s"), [], 0) == Some(m * 60 + s)
  {
    ScanComponent(m, "m", Component(s, "s"), 0);
    ScanSeconds(s, m * 60);
  }

  /** Hours, minutes, then seconds. */
  lemma ScanHours(h: nat, m: nat, s: nat)
    ensures Scan(Component(h, "h") + (Component(m, "m") + Component(s, "s")), [], 0) == Some(h * 3600 + m * 60 + s)
  {
    var ss := Component(s, "s");
    ScanComponent(h, "h", Component(m, "m") + ss, 0);
    ScanComponent(m, "m", ss, h * 3600);
    ScanSeconds(s, h * 3600 + m * 60);
  }

  /** The text `Magnitude` prints scans back to the seconds it was printed from. */
  lemma MagnitudeParses(u: nat)
    requires u > 0
    ensures Scan(Magnitude(u), [], 0) == Some(u)
  {
    if u < 60 {
      MagnitudeSeconds(u);
    } else if u < 3600 {
      MagnitudeMinutes(u);
    } else {
      MagnitudeHours(u);
    }
  }

  lemma MagnitudeSeconds(u: nat)
    requires 0 < u < 60
    ensures Scan(Magnitude(u), [], 0) == Some(u)
  {
    ScanSeconds(u, 0);
  }

  lemma MagnitudeMinutes(u: nat)
    requires 60 <= u < 3600
    ensures Scan(Magnitude(u), [], 0) == Some(u)
  {
    ScanMinutes(u / 60, u % 60);
  }

  lemma MagnitudeHours(u: nat)
    requires 3600 <= u
    ensures Scan(Magnitude(u), [], 0) == Some(u)
  {
    ScanHours(u / 3600, (u / 60) % 60, u % 60);
    ClockFields(u);
  }

  /** A magnitude that scans to `u` parses to `u`, and with a leading '-' to `-u`. */
  lemma ParseMagnitude(t: string, u: nat)
    requires |t| >= 2 && IsDigit(t[0]) && Scan(t, [], 0) == Some(u) && u <= MaxSeconds
    ensures ParseDuration(t) == Some(u)
    ensures ParseDuration("-" + t) == Some(-(u as int))
  {
    assert ("-" + t)[0] == '-' && ("-" + t)[1..] == t;
  }

  /** What `Duration.String` prints, `ParseDuration` reads back, over the whole int64 range. */
  lemma DurationRoundTrip(d: int)
    requires -MaxSeconds <= d <= MaxSeconds
    ensures ParseDuration(DurationString(d)) == Some(d)
  {
    if d == 0 {
      ScanSeconds(0, 0);
      assert Component(0, "s") == "0s";
      ParseMagnitude("0s", 0);
    } else if d < 0 {
      NegativeRoundTrip(d);
    } else {
      MagnitudeParses(d);
      ParseMagnitude(Magnitude(d), d);
    }
  }

  lemma NegativeRoundTrip(d: int)
    requires -MaxSeconds <= d < 0
    ensures ParseDuration(DurationString(d)) == Some(d)
  {
    var u: nat := -d;
    MagnitudeParses(u);
    ParseMagnitude(Magnitude(u), u);
  }

  /** A two-digit count followed by one unit letter parses to that count of units. */
  lemma TwoDigitComponent(a: char, b: char, u: char)
    requires IsDigit(a) && IsDigit(b) && UnitSeconds(u).Some? && a != '0'
    ensures ParseDuration([a, b, u]) == Some((DigitValue(a) * 10 + DigitValue(b)) * UnitSeconds(u).value)
  {
    assert [a, b, u][1..] == [b, u] && [b, u][1..] == [u] && [u][1..] == [];
    assert [] + [a] == [a] && [a] + [b] == [a, b];
    assert [a, b][..1] == [a] && [a][..0] == [];
    assert Scan([a, b, u], [], 0) == Scan([b, u], [a], 0);
    assert Scan([b, u], [a], 0) == Scan([u], [a, b], 0);
    assert Scan([u], [a, b], 0) == Scan([], [], Value([a, b]) * UnitSeconds(u).value);
    assert Value([a, b]) == DigitValue(a) * 10 + DigitValue(b) <= 99;
    assert [a, b, u] != "0";
  }

  /** The six choices the new-task window offers all parse, to the seconds they name. */
  lemma SelectOptions()
    ensures ParseDuration("10s") == Some(10)
    ensures ParseDuration("1m") == Some(60)
    ensures ParseDuration("15m") == Some(900)
    ensures ParseDuration("30m") == Some(1800)
    ensures ParseDuration("1h") == Some(3600)
    ensures ParseDuration("3h") == Some(10800)
  {
    TwoDigitComponent('1', '0', 's');
    TwoDigitComponent('1', '5', 'm');
    TwoDigitComponent('3', '0', 'm');
  }
}
