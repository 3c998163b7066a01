/**
 * Elapsed-time formatting (`_fmt_duration` in api.py): seconds below a minute
 * as `"Ns"`, whole minutes below an hour as `"Nm"`, and from an hour on
 * `"Nh"`, or `"Nh Mm"` when the minutes are not zero. Seconds are dropped
 * once a minute has passed. Both the plain and the JSON presence output
 * contain this text byte for byte.
 *
 * `ParseDuration` reads such a text back to a number of seconds; the
 * round-trip lemma ties the two together.
 */
module Duration {
  import opened Wrappers
  import opened Text

  /** `_fmt_duration(seconds)`. Seconds are an integer here; the caller's
      float difference and its `int()` truncation are not modelled. A
      negative input (an arrival after `now`) takes the first branch, as in
      the source. */
  function FmtDuration(seconds: int): (r: string)
    ensures |r| >= 2
    ensures r[|r| - 1] == 's' <==> seconds < 60
    ensures r[|r| - 1] == 'h' <==> seconds >= 3600 && (seconds / 60) % 60 == 0
    ensures r[|r| - 1] == 'm' <==> 60 <= seconds && ((seconds / 60) < 60 || (seconds / 60) % 60 != 0)
  {
    if seconds < 60 then IntToDecimal(seconds) + "s"
    else
      var minutes := seconds / 60;
      if minutes < 60 then NatToDecimal(minutes) + "m"
      else
        var hours := minutes / 60;
        var mins := minutes % 60;
        if mins != 0 then NatToDecimal(hours) + "h " + NatToDecimal(mins) + "m"
        else NatToDecimal(hours) + "h"
  }

  /** The elapsed time the text shows: exact below a minute, whole minutes
      from a minute on. */
  function Shown(seconds: int): int {
    if seconds < 60 then seconds else seconds / 60 * 60
  }

  /** Reads back exactly the texts `FmtDuration` prints, as seconds:
      `"-Ns"` with N > 0, `"Ns"` with N < 60, `"Nm"` with 0 < N < 60, `"Nh"`
      with N > 0, and `"Nh Mm"` with N > 0 and 0 < M < 60, every numeral
      without a leading zero. Anything else is `None`. */
  function ParseDuration(t: string): Option<int> {
    if t != [] && t[0] == '-' then ParseNegative(t[1..]) else ParseUnsigned(t)
  }

  /** The text after a minus sign: `"Ns"` with N > 0. */
  function ParseNegative(u: string): Option<int> {
    var k := DigitRun(u);
    if k + 1 == |u| && u[k] == 's' && IsNumeral(u[..k]) && DecimalValue(u[..k]) > 0 then
      var n: int := DecimalValue(u[..k]);
      Some(-n)
    else None
  }

  /** A numeral, then a unit letter and what follows it. */
  function ParseUnsigned(t: string): Option<int> {
    var k := DigitRun(t);
    if k == |t| || !IsNumeral(t[..k]) then None
    else ParseAfterNumeral(DecimalValue(t[..k]), t[k], t[k + 1..])
  }

  function ParseAfterNumeral(v: nat, unit: char, rest: string): Option<int> {
    if rest == [] then UnitValue(v, unit)
    else if unit == 'h' && 0 < v && rest[0] == ' ' then ParseMinutesAfterHours(v, rest[1..])
    else None
  }

  /** A lone `"Ns"`, `"Nm"` or `"Nh"` within its range. */
  function UnitValue(v: nat, unit: char): Option<int> {
    if unit == 's' && v < 60 then Some(v)
    else if unit == 'm' && 0 < v < 60 then Some(v * 60)
    else if unit == 'h' && 0 < v then Some(v * 3600)
    else None
  }

  /** The `"Mm"` after `"Nh "`. */
  function ParseMinutesAfterHours(h: nat, u: string): Option<int> {
    var k := DigitRun(u);
    if k + 1 == |u| && u[k] == 'm' && IsNumeral(u[..k]) && 0 < DecimalValue(u[..k]) < 60 then
      Some(h * 3600 + DecimalValue(u[..k]) * 60)
    else None
  }

  /** Reading `NatToDecimal(n)` followed by a unit and more text. */
  lemma ReadNumber(n: nat, unit: char, rest: string)
    requires !IsDigit(unit)
    ensures var t := NatToDecimal(n) + [unit] + rest;
      DigitRun(t) == |NatToDecimal(n)| &&
      t[..|NatToDecimal(n)|] == NatToDecimal(n) &&
      t[|NatToDecimal(n)|] == unit &&
      t[|NatToDecimal(n)| + 1..] == rest &&
      DecimalValue(t[..|NatToDecimal(n)|]) == n
  {
    var d := NatToDecimal(n);
    var t := d + [unit] + rest;
    assert t == d + ([unit] + rest);
    DigitRunOfDigits(d, [unit] + rest);
    assert t[..|d|] == d;
    DecimalRoundTrip(n);
  }

  /** The `"Nh Mm"` branch of the parser, in terms of positions. */
  lemma ParseHoursAndMinutesAt(t: string, k: nat, u: string, k2: nat, h: nat, m: nat)
    requires 0 < k < |t| && t[0] != '-' && DigitRun(t) == k && t[k] == 'h'
    requires IsNumeral(t[..k]) && DecimalValue(t[..k]) == h && h > 0
    requires t[k + 1..] == [' '] + u
    requires DigitRun(u) == k2 && k2 + 1 == |u| && u[k2] == 'm'
    requires IsNumeral(u[..k2]) && DecimalValue(u[..k2]) == m && 0 < m < 60
    ensures ParseDuration(t) == Some(h * 3600 + m * 60)
  {
    var rest := t[k + 1..];
    assert rest != [] && rest[0] == ' ' && rest[1..] == u by {
      assert ([' '] + u)[1..] == u;
    }
    MinutesAfterHours(h, u, k2, m);
    assert ParseUnsigned(t) == ParseAfterNumeral(h, 'h', rest);
  }

  lemma MinutesAfterHours(h: nat, u: string, k2: nat, m: nat)
    requires DigitRun(u) == k2 && k2 + 1 == |u| && u[k2] == 'm'
    requires IsNumeral(u[..k2]) && DecimalValue(u[..k2]) == m && 0 < m < 60
    ensures ParseMinutesAfterHours(h, u) == Some(h * 3600 + m * 60)
  {
  }

  lemma HoursAndMinutesLayout(dh: string, dm: string)
    ensures dh + "h " + dm + "m" == dh + ['h'] + ([' '] + (dm + ['m'] + []))
  {
  }

  lemma RoundTripHoursAndMinutes(hours: nat, mins: nat)
    requires hours > 0 && 0 < mins < 60
    ensures ParseDuration(NatToDecimal(hours) + "h " + NatToDecimal(mins) + "m") ==
      Some(hours * 3600 + mins * 60)
  {
    var dh, dm := NatToDecimal(hours), NatToDecimal(mins);
    var u := dm + ['m'] + [];
    var t := dh + ['h'] + ([' '] + u);
    HoursAndMinutesLayout(dh, dm);
    var k := |dh|;
    assert DigitRun(t) == k && t[k] == 'h' && t[..k] == dh && DecimalValue(t[..k]) == hours && t[k + 1..] == [' '] + u by {
      ReadNumber(hours, 'h', [' '] + u);
    }
    assert DigitRun(u) == |dm| && u[|dm|] == 'm' && |u| == |dm| + 1 && u[..|dm|] == dm && DecimalValue(u[..|dm|]) == mins by {
      ReadNumber(mins, 'm', []);
    }
    assert t[0] == dh[0];
    ParseHoursAndMinutesAt(t, k, u, |dm|, hours, mins);
  }

  lemma RoundTripUnit(n: nat, unit: char)
    requires unit == 's' || unit == 'm' || unit == 'h'
    requires unit == 's' ==> n < 60
    requires unit == 'm' ==> 0 < n < 60
    requires unit == 'h' ==> 0 < n
    ensures ParseDuration(NatToDecimal(n) + [unit]) ==
      Some(if unit == 's' then n else if unit == 'm' then n * 60 else n * 3600)
  {
    var d := NatToDecimal(n);
    ReadNumber(n, unit, []);
    assert d + [unit] == d + [unit] + [];
    assert (d + [unit])[0] == d[0];
  }

  lemma ReadNegative(n: nat)
    requires n > 0
    ensures ParseNegative(NatToDecimal(n) + "s") == Some(-(n as int))
  {
    var d := NatToDecimal(n);
    ReadNumber(n, 's', []);
    assert d + "s" == d + ['s'] + [];
  }

  /** A negative elapsed time (an arrival after `now`) prints as `"-Ns"`. */
  lemma RoundTripNegative(seconds: int)
    requires seconds < 0
    ensures ParseDuration(FmtDuration(seconds)) == Some(seconds)
  {
    var d := NatToDecimal(-seconds);
    var u := d + "s";
    var t := FmtDuration(seconds);
    assert t == "-" + d + "s" by {
      assert IntToDecimal(seconds) == "-" + d;
    }
    ConcatAssoc("-", d, "s");
    assert t[0] == '-' && t[1..] == u by {
      assert ("-" + u)[1..] == u;
    }
    ReadNegative(-seconds);
  }

  lemma RoundTripBelowHour(seconds: int)
    requires 0 <= seconds && seconds / 60 < 60
    ensures ParseDuration(FmtDuration(seconds)) == Some(Shown(seconds))
  {
    var r := FmtDuration(seconds);
    if seconds < 60 {
      assert r == NatToDecimal(seconds) + ['s'];
      RoundTripUnit(seconds, 's');
    } else {
      assert r == NatToDecimal(seconds / 60) + ['m'];
      RoundTripUnit(seconds / 60, 'm');
    }
  }

  lemma RoundTripFromHour(seconds: int)
    requires seconds / 60 >= 60
    ensures ParseDuration(FmtDuration(seconds)) == Some(Shown(seconds))
  {
    var minutes := seconds / 60;
    var r := FmtDuration(seconds);
    var h, m := minutes / 60, minutes % 60;
    assert h * 3600 + m * 60 == minutes * 60 by {
      assert minutes == h * 60 + m;
    }
    if m != 0 {
      assert r == NatToDecimal(h) + "h " + NatToDecimal(m) + "m";
      RoundTripHoursAndMinutes(h, m);
    } else {
      assert r == NatToDecimal(h) + ['h'];
      RoundTripUnit(h, 'h');
    }
  }

  /** Formatting then parsing recovers the elapsed time as the text shows
      it: exactly below a minute (negative times included), truncated to
      whole minutes from a minute on. */
  lemma FmtDurationRoundTrip(seconds: int)
    ensures ParseDuration(FmtDuration(seconds)) == Some(Shown(seconds))
  {
    if seconds < 0 {
      RoundTripNegative(seconds);
    } else if seconds / 60 < 60 {
      RoundTripBelowHour(seconds);
    } else {
      RoundTripFromHour(seconds);
    }
  }

  // The converse: every text the parser accepts is the one `FmtDuration`
  // prints for the value read, one lemma per branch of the parser.

  lemma ExactNegative(t: string)
    requires t != [] && t[0] == '-' && ParseDuration(t).Some?
    ensures FmtDuration(ParseDuration(t).value) == t
  {
    var u := t[1..];
    var k := DigitRun(u);
    var ds := u[..k];
    NumeralRoundTrip(ds);
    assert u == ds + "s";
    assert t == "-" + u;
  }

  /** What the parser's one-unit branch has read. */
  lemma UnitRead(t: string) returns (ds: string, unit: char)
    requires t != [] && t[0] != '-' && ParseDuration(t).Some?
    requires DigitRun(t) + 1 == |t|
    ensures IsNumeral(ds) && t == ds + [unit]
    ensures var v := DecimalValue(ds); var r := ParseDuration(t).value;
      (unit == 's' && v < 60 && r == v) ||
      (unit == 'm' && 0 < v < 60 && r == v * 60) ||
      (unit == 'h' && 0 < v && r == v * 3600)
  {
    var k := DigitRun(t);
    ds := t[..k];
    unit := t[k];
    assert t[k + 1..] == [];
    assert t == ds + [unit];
  }

  lemma FmtMinutes(x: int, v: nat)
    requires 0 < v < 60 && x == v * 60
    ensures FmtDuration(x) == NatToDecimal(v) + "m"
  {
    assert x / 60 == v;
  }

  lemma FmtHours(x: int, v: nat)
    requires 0 < v && x == v * 3600
    ensures FmtDuration(x) == NatToDecimal(v) + "h"
  {
    assert x / 60 == v * 60;
    assert (v * 60) / 60 == v && (v * 60) % 60 == 0;
  }

  lemma ExactUnit(t: string)
    requires t != [] && t[0] != '-' && ParseDuration(t).Some?
    requires DigitRun(t) + 1 == |t|
    ensures FmtDuration(ParseDuration(t).value) == t
  {
    var ds, unit := UnitRead(t);
    var v := DecimalValue(ds);
    var r := ParseDuration(t).value;
    assert NatToDecimal(v) == ds by {
      NumeralRoundTrip(ds);
    }
    if unit == 's' {
      assert FmtDuration(r) == NatToDecimal(v) + "s";
    } else if unit == 'm' {
      FmtMinutes(r, v);
    } else {
      FmtHours(r, v);
    }
  }

  /** What the parser's `"Nh Mm"` branch has read. */
  lemma HoursAndMinutesRead(t: string) returns (dh: string, dm: string)
    requires t != [] && t[0] != '-' && ParseDuration(t).Some?
    requires DigitRun(t) + 1 < |t|
    ensures IsNumeral(dh) && IsNumeral(dm)
    ensures t == dh + "h " + dm + "m"
    ensures DecimalValue(dh) > 0 && 0 < DecimalValue(dm) < 60
    ensures ParseDuration(t).value == DecimalValue(dh) * 3600 + DecimalValue(dm) * 60
  {
    var k := DigitRun(t);
    dh := t[..k];
    var rest := t[k + 1..];
    var h := DecimalValue(dh);
    assert t[k] == 'h' && h > 0 && rest[0] == ' ' && ParseDuration(t) == ParseMinutesAfterHours(h, rest[1..]) by {
      assert ParseDuration(t) == ParseUnsigned(t);
    }
    var u := rest[1..];
    dm := MinutesRead(h, u);
    assert t == dh + "h" + rest;
    LayoutOfHoursAndMinutes(t, dh, rest, dm);
  }

  /** The pieces `dh`, `"h"`, `" "`, `dm`, `"m"` read in order make up `t`. */
  lemma LayoutOfHoursAndMinutes(t: string, dh: string, rest: string, dm: string)
    requires t == dh + "h" + rest && rest == " " + (dm + "m")
    ensures t == dh + "h " + dm + "m"
  {
    assert rest == " " + dm + "m";
  }

  lemma MinutesRead(h: nat, u: string) returns (dm: string)
    requires ParseMinutesAfterHours(h, u).Some?
    ensures IsNumeral(dm) && u == dm + "m" && 0 < DecimalValue(dm) < 60
    ensures ParseMinutesAfterHours(h, u).value == h * 3600 + DecimalValue(dm) * 60
  {
    var k := DigitRun(u);
    dm := u[..k];
    assert u == dm + "m";
  }

  lemma FmtHoursAndMinutes(v: int, h: nat, m: nat)
    requires h > 0 && 0 < m < 60 && v == h * 3600 + m * 60
    ensures FmtDuration(v) == NatToDecimal(h) + "h " + NatToDecimal(m) + "m"
  {
    var minutes := h * 60 + m;
    assert v / 60 == minutes;
    assert minutes / 60 == h && minutes % 60 == m;
  }

  lemma ExactHoursAndMinutes(t: string)
    requires t != [] && t[0] != '-' && ParseDuration(t).Some?
    requires DigitRun(t) + 1 < |t|
    ensures FmtDuration(ParseDuration(t).value) == t
  {
    var dh, dm := HoursAndMinutesRead(t);
    var h, m := DecimalValue(dh), DecimalValue(dm);
    assert NatToDecimal(h) == dh && NatToDecimal(m) == dm by {
      NumeralRoundTrip(dh);
      NumeralRoundTrip(dm);
    }
    var v := ParseDuration(t).value;
    assert v == h * 3600 + m * 60;
    FmtHoursAndMinutes(v, h, m);
  }

  /** Every text the parser accepts is exactly what `FmtDuration` prints
      for the value it reads. */
  lemma ParseDurationExact(t: string)
    requires ParseDuration(t).Some?
    ensures FmtDuration(ParseDuration(t).value) == t
  {
    if t != [] && t[0] == '-' {
      ExactNegative(t);
    } else if DigitRun(t) + 1 == |t| {
      ExactUnit(t);
    } else {
      ExactHoursAndMinutes(t);
    }
  }

  /** Two elapsed times format alike exactly when they agree below a minute,
      or agree in whole minutes from a minute on. */
  lemma FmtDurationDistinguishes(a: int, b: int)
    ensures FmtDuration(a) == FmtDuration(b) <==>
      (if a < 60 || b < 60 then a == b else a / 60 == b / 60)
  {
    assert FmtDuration(a) == FmtDuration(b) ==> Shown(a) == Shown(b) by {
      FmtDurationRoundTrip(a);
      FmtDurationRoundTrip(b);
    }
    assert Shown(a) == Shown(b) ==> (if a < 60 || b < 60 then a == b else a / 60 == b / 60) by {
      assert a >= 60 ==> Shown(a) >= 60;
      assert b >= 60 ==> Shown(b) >= 60;
    }
    if a >= 60 && b >= 60 && a / 60 == b / 60 {
      assert FmtDuration(a) == FmtDuration(b);
    }
  }

  /** The text for an elapsed time is fixed byte for byte: it is the one
      and only text the parser reads back as the time shown. */
  lemma FmtDurationUnique(seconds: int, t: string)
    ensures ParseDuration(t) == Some(Shown(seconds)) <==> t == FmtDuration(seconds)
  {
    FmtDurationRoundTrip(seconds);
    if ParseDuration(t) == Some(Shown(seconds)) {
      ParseDurationExact(t);
      assert FmtDuration(Shown(seconds)) == FmtDuration(seconds) by {
        FmtDurationDistinguishes(Shown(seconds), seconds);
      }
    }
  }

  /** The examples the rendering layer relies on. */
  lemma FmtDurationExamples()
    ensures FmtDuration(45) == "45s"
    ensures FmtDuration(125) == "2m"
    ensures FmtDuration(3661) == "1h 1m"
    ensures FmtDuration(7200) == "2h"
  {
    assert NatToDecimal(45) == NatToDecimal(4) + [DigitChar(5)];
  }
}
