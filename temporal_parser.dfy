/**
  Conversion of raw cells into call lengths and call start times, and the
  rendering of second counts as `HH:MM:SS` (src/App.jsx, `parseTime`,
  `parseDateTime`, `formatDuration`).
*/
module TemporalParser {
  import opened Wrappers
  import opened JsBuiltins
  import opened Cells

  const SecondsPerMinute: int := 60
  const SecondsPerHour: int := 3600
  const SecondsPerDay: int := 86400
  const MsPerDay: int := 86400 * 1000

  /** The spreadsheet date serial of 1970-01-01, the Unix epoch. */
  const EpochSerial: int := 25569

  /** The largest magnitude of a valid JavaScript time value, in milliseconds. */
  const MaxTimeValue: int := 8_640_000_000_000_000

  /**
    What `parseTime` returns: `null`, a number of seconds, or NaN (a
    colon-separated part that `parseInt` cannot read).
  */
  datatype TimeValue = Null | Seconds(secs: int) | NotANumber

  // ---------------------------------------------------------------------------
  // parseTime
  // ---------------------------------------------------------------------------

  /**
    The colon branch of `parseTime`: three parts are hours, minutes and
    seconds, two parts are minutes and seconds, each read by `parseInt`;
    any other number of parts gives `null`.
  */
  function ColonTime(parts: seq<string>): (r: TimeValue)
    ensures |parts| != 2 && |parts| != 3 ==> r == Null
    ensures |parts| == 2 || |parts| == 3 ==> r != Null
  {
    if |parts| == 3 then
      match (ParseInt(parts[0]), ParseInt(parts[1]), ParseInt(parts[2]))
      case (Some(h), Some(m), Some(s)) => Seconds(h * 3600 + m * 60 + s)
      case _ => NotANumber
    else if |parts| == 2 then
      match (ParseInt(parts[0]), ParseInt(parts[1]))
      case (Some(m), Some(s)) => Seconds(m * 60 + s)
      case _ => NotANumber
    else Null
  }

  /**
    `parseTime`: a call-length cell in seconds. A falsy cell gives `null`.
    A number, or a text whose trimmed form `parseFloat` reads and that holds
    no colon, is a fraction of a day, rounded to whole seconds. A text with a
    colon goes to `ColonTime`. Anything else gives `null`.
  */
  function ParseTime(c: Cell): (r: TimeValue)
    ensures Falsy(c) ==> r == Null
    ensures r.NotANumber? ==> c.Text? && ':' in Trim(c.text)
  {
    match c
    case Blank => Null
    case Number(x) => if x == 0.0 then Null else Seconds(Round(x * SecondsPerDay as real))
    case Text(s) =>
      if s == "" then Null
      else
        var t := Trim(s);
        if ':' in t then ColonTime(Split(t, ':'))
        else
          var f := ParseFloat(t);
          if f.Some? then Seconds(RoundScaled(f.value, SecondsPerDay)) else Null
  }

  /**
    A trimmed text that holds a colon but splits into neither two nor three
    parts (no colon-count of 1 or 2) gives `null`.
  */
  lemma {:induction false} ParseTimeColonShape(s: string)
    requires ':' in Trim(s)
    requires Occurrences(Trim(s), ':') != 1 && Occurrences(Trim(s), ':') != 2
    ensures ParseTime(Text(s)) == Null
  {
    SplitSpec(Trim(s), ':');
  }

  /** A text with one or two colons never gives `null`: it is a number of seconds or NaN. */
  lemma {:induction false} ParseTimeColonNotNull(s: string)
    requires ':' in Trim(s)
    requires Occurrences(Trim(s), ':') == 1 || Occurrences(Trim(s), ':') == 2
    ensures ParseTime(Text(s)) != Null
  {
    SplitSpec(Trim(s), ':');
  }

  /** A non-empty text whose trimmed form holds a colon is read by the colon branch. */
  lemma {:induction false} ParseTimeColon(s: string)
    requires ':' in Trim(s)
    ensures ParseTime(Text(s)) == ColonTime(Split(Trim(s), ':'))
  {
  }

  lemma {:induction false} ColonTime3(a: string, b: string, c: string, h: int, m: int, s: int)
    requires ParseInt(a) == Some(h) && ParseInt(b) == Some(m) && ParseInt(c) == Some(s)
    ensures ColonTime([a, b, c]) == Seconds(h * 3600 + m * 60 + s)
  {
  }

  lemma {:induction false} ColonTime2(a: string, b: string, m: int, s: int)
    requires ParseInt(a) == Some(m) && ParseInt(b) == Some(s)
    ensures ColonTime([a, b]) == Seconds(m * 60 + s)
  {
  }

  /** The colon branch on two numerals, with their values named `a` and `b`. */
  lemma {:induction false} ColonTimeDigits2(m: string, s: string, a: nat, b: nat)
    requires m != [] && s != [] && IsDigits(m) && IsDigits(s)
    requires a == DigitsValue(m, 10) && b == DigitsValue(s, 10)
    ensures ColonTime([m, s]) == Seconds(a * 60 + b)
  {
    ParseIntDigits(m);
    ParseIntDigits(s);
    ColonTime2(m, s, a, b);
  }

  /** The colon branch on three numerals, with their values named `a`, `b` and `c`. */
  lemma {:induction false} ColonTimeDigits3(h: string, m: string, s: string, a: nat, b: nat, c: nat)
    requires h != [] && m != [] && s != [] && IsDigits(h) && IsDigits(m) && IsDigits(s)
    requires a == DigitsValue(h, 10) && b == DigitsValue(m, 10) && c == DigitsValue(s, 10)
    ensures ColonTime([h, m, s]) == Seconds(a * 3600 + b * 60 + c)
  {
    ParseIntDigits(h);
    ParseIntDigits(m);
    ParseIntDigits(s);
    ColonTime3(h, m, s, a, b, c);
  }

  /** A text `h:m:s` of three numerals is read by the colon branch on its three parts. */
  lemma {:induction false} HmsParts(h: string, m: string, s: string)
    requires h != [] && m != [] && s != []
    requires IsDigits(h) && IsDigits(m) && IsDigits(s)
    ensures ParseTime(Text(h + ":" + m + ":" + s)) == ColonTime([h, m, s])
  {
    var t := h + ":" + m + ":" + s;
    assert t[0] == h[0] && t[|t| - 1] == s[|s| - 1];
    TrimVisible(t);
    assert ':' in Trim(t) by { assert t[|h|] == ':'; }
    ParseTimeColon(t);
    NoColonInDigits(h);
    NoColonInDigits(m);
    NoColonInDigits(s);
    Join3(h, m, s, ':');
    SplitJoin([h, m, s], ':');
  }

  /** A text `m:s` of two numerals is read by the colon branch on its two parts. */
  lemma {:induction false} MsParts(m: string, s: string)
    requires m != [] && s != []
    requires IsDigits(m) && IsDigits(s)
    ensures ParseTime(Text(m + ":" + s)) == ColonTime([m, s])
  {
    var t := m + ":" + s;
    assert t[0] == m[0] && t[|t| - 1] == s[|s| - 1];
    TrimVisible(t);
    assert ':' in Trim(t) by { assert t[|m|] == ':'; }
    ParseTimeColon(t);
    NoColonInDigits(m);
    NoColonInDigits(s);
    Join2(m, s, ':');
    SplitJoin([m, s], ':');
  }

  /** `"h:m:s"` with decimal digits only reads as h·3600 + m·60 + s seconds. */
  lemma {:induction false} ParseTimeHms(h: string, m: string, s: string)
    requires h != [] && m != [] && s != []
    requires IsDigits(h) && IsDigits(m) && IsDigits(s)
    ensures ParseTime(Text(h + ":" + m + ":" + s))
         == Seconds(DigitsValue(h, 10) * 3600 + DigitsValue(m, 10) * 60 + DigitsValue(s, 10))
  {
    HmsParts(h, m, s);
    ColonTimeDigits3(h, m, s, DigitsValue(h, 10), DigitsValue(m, 10), DigitsValue(s, 10));
  }

  /** `"m:s"` with decimal digits only reads as m·60 + s seconds. */
  lemma {:induction false} ParseTimeMs(m: string, s: string)
    requires m != [] && s != []
    requires IsDigits(m) && IsDigits(s)
    ensures ParseTime(Text(m + ":" + s)) == Seconds(DigitsValue(m, 10) * 60 + DigitsValue(s, 10))
  {
    MsParts(m, s);
    ColonTimeDigits2(m, s, DigitsValue(m, 10), DigitsValue(s, 10));
  }

  lemma {:induction false} NoColonInDigits(z: string)
    requires IsDigits(z)
    ensures ':' !in z
  {
    forall i | 0 <= i < |z|
      ensures z[i] != ':'
    {
      assert '0' <= z[i] <= '9';
    }
  }

  /** A number cell holding a whole number k of seconds as a fraction of a day reads back as k. */
  lemma {:induction false} ParseTimeDayFraction(k: int)
    requires k != 0
    ensures ParseTime(Number(k as real / 86400.0)) == Seconds(k)
  {
    var x := k as real / 86400.0;
    assert x != 0.0;
    assert x * SecondsPerDay as real == k as real;
  }

  /** The spreadsheet fraction 0.0028472222222222223 of a day is 246 seconds. */
  lemma {:induction false} ParseTimeDecimalExample()
    ensures ParseTime(Number(0.0028472222222222223)) == Seconds(246)
  {
  }

  /**
    A text without a colon that `parseFloat` reads as the decimal `d` is `d`
    days, rounded half up to whole seconds.
  */
  lemma {:induction false} ParseTimeDecimalText(s: string, d: Decimal)
    requires s != "" && ':' !in Trim(s) && ParseFloat(Trim(s)) == Some(d)
    ensures ParseTime(Text(s)) == Seconds(Round(DecimalValue(d) * SecondsPerDay as real))
  {
    RoundScaledValue(d, SecondsPerDay);
  }

  /** Malformed text, non-empty but without any digit or colon ("abc", "n/a"), gives `null`. */
  lemma {:induction false} ParseTimeNoDigits(s: string)
    requires s != ""
    requires forall i :: 0 <= i < |s| ==> !('0' <= s[i] <= '9') && s[i] != ':'
    ensures ParseTime(Text(s)) == Null
  {
    var t := Trim(s);
    TrimSpec(s);
    var k := |s| - |TrimStart(s)|;
    assert forall j :: 0 <= j < |t| ==> t[j] == s[k + j];
    ParseFloatNoDigits(t);
  }

  // ---------------------------------------------------------------------------
  // formatDuration
  // ---------------------------------------------------------------------------

  /**
    `formatDuration`: hours `⌊s/3600⌋`, minutes `⌊(s % 3600)/60⌋` and seconds
    `s % 60` (JavaScript's `%`), each written in decimal and padded with
    zeros to at least two characters, joined by colons.
  */
  function FormatDuration(seconds: int): string {
    var hours := seconds / SecondsPerHour;
    var minutes := Rem(seconds, SecondsPerHour) / SecondsPerMinute;
    var secs := Rem(seconds, SecondsPerMinute);
    PadStart2(IntText(hours)) + ":" + PadStart2(IntText(minutes)) + ":" + PadStart2(IntText(secs))
  }

  /** Quotient and remainder by 60 are determined by any decomposition with a remainder below 60. */
  lemma {:induction false} DivMod60(x: int, q: int, r: int)
    requires 0 <= r < 60 && x == q * 60 + r
    ensures x / 60 == q && x % 60 == r
  {
  }

  /** Hours, minutes and seconds of a non-negative count recombine to it. */
  lemma {:induction false} ClockArithmetic(s: nat)
    ensures (s % 3600) / 60 < 60 && s % 60 < 60
    ensures (s / 3600) * 3600 + ((s % 3600) / 60) * 60 + s % 60 == s
  {
    var h, r := s / 3600, s % 3600;
    var m, q := r / 60, r % 60;
    assert r == m * 60 + q && 0 <= q < 60;
    DivMod60(s, h * 60 + m, q);
  }

  /**
    For a non-negative count, the text has three colon-separated fields of
    decimal digits, at least two characters each; minutes and seconds are
    exactly two characters and below 60; and h·3600 + m·60 + s is the count.
  */
  lemma {:induction false} FormatDurationFields(s: nat)
    ensures var parts := Split(FormatDuration(s), ':');
      && |parts| == 3
      && (forall i :: 0 <= i < 3 ==> |parts[i]| >= 2 && IsDigits(parts[i]))
      && |parts[1]| == 2 && |parts[2]| == 2
      && DigitsValue(parts[1], 10) < 60 && DigitsValue(parts[2], 10) < 60
      && DigitsValue(parts[0], 10) * 3600 + DigitsValue(parts[1], 10) * 60 + DigitsValue(parts[2], 10) == s
  {
    var h, m, sec := FormatFields(s);
    FormatSplit(h, m, sec);
    ClockArithmetic(s);
  }

  /** Three numerals joined by colons split back into the same three numerals. */
  lemma {:induction false} FormatSplit(h: string, m: string, sec: string)
    requires IsDigits(h) && IsDigits(m) && IsDigits(sec)
    ensures Split(h + ":" + m + ":" + sec, ':') == [h, m, sec]
  {
    NoColonInDigits(h);
    NoColonInDigits(m);
    NoColonInDigits(sec);
    Join3(h, m, sec, ':');
    SplitJoin([h, m, sec], ':');
  }

  /** For a non-negative count, `FormatDuration` pads the numerals of ⌊s/3600⌋, ⌊(s mod 3600)/60⌋ and s mod 60. */
  lemma {:induction false} FormatDurationNat(s: nat)
    ensures FormatDuration(s)
         == PadStart2(NatText(s / 3600)) + ":" + PadStart2(NatText((s % 3600) / 60)) + ":" + PadStart2(NatText(s % 60))
  {
    assert Rem(s, SecondsPerHour) == s % 3600 && Rem(s, SecondsPerMinute) == s % 60;
  }

  /** A padded numeral is a numeral of the same value, two characters long below 100. */
  lemma {:induction false} PaddedField(n: nat)
    ensures var f := PadStart2(NatText(n));
      |f| >= 2 && IsDigits(f) && DigitsValue(f, 10) == n && (n < 100 ==> |f| == 2)
  {
    NatTextSpec(n);
    PadStart2Value(NatText(n));
    if n < 100 {
      TwoDigits(n);
    }
  }

  /** The three padded fields `FormatDuration` joins, with their values. */
  lemma {:induction false} FormatFields(s: nat) returns (h: string, m: string, sec: string)
    ensures FormatDuration(s) == h + ":" + m + ":" + sec
    ensures |h| >= 2 && |m| == 2 && |sec| == 2
    ensures IsDigits(h) && IsDigits(m) && IsDigits(sec)
    ensures DigitsValue(h, 10) == s / 3600
    ensures DigitsValue(m, 10) == (s % 3600) / 60
    ensures DigitsValue(sec, 10) == s % 60
  {
    FormatDurationNat(s);
    h, m, sec := PadStart2(NatText(s / 3600)), PadStart2(NatText((s % 3600) / 60)), PadStart2(NatText(s % 60));
    PaddedField(s / 3600);
    PaddedField((s % 3600) / 60);
    PaddedField(s % 60);
  }

  lemma {:induction false} TwoDigits(n: nat)
    requires n < 100
    ensures |NatText(n)| <= 2
  {
    if n >= 10 {
      assert NatText(n) == NatText(n / 10) + [DigitChar(n % 10)];
    }
  }

  /** Formatting a non-negative count and parsing the text back gives the count. */
  lemma {:induction false} FormatParseRoundTrip(s: nat)
    ensures ParseTime(Text(FormatDuration(s))) == Seconds(s)
  {
    var h, m, sec := FormatFields(s);
    HmsParts(h, m, sec);
    ColonTimeDigits3(h, m, sec, s / 3600, (s % 3600) / 60, s % 60);
    ClockArithmetic(s);
  }

  // ---------------------------------------------------------------------------
  // parseDateTime
  // ---------------------------------------------------------------------------

  /** `new Date(v).getTime()`: NaN (None) beyond ±8.64·10^15 ms, else truncated toward zero. */
  function TimeClip(v: real): (r: Option<int>)
    ensures r.Some? <==> -MaxTimeValue as real <= v <= MaxTimeValue as real
    ensures r.Some? ==> -MaxTimeValue <= r.value <= MaxTimeValue
    ensures r.Some? ==> r.value == Trunc(v)
  {
    if v < -MaxTimeValue as real || v > MaxTimeValue as real then None else Some(Trunc(v))
  }

  /**
    `parseDateTime`: a call start time in milliseconds since the Unix epoch.
    A falsy cell gives `null`; a number is a spreadsheet date serial,
    `(serial - 25569) · 86400 · 1000` ms; a text is handed to the host's date
    parser `hostDate` (JavaScript's `new Date(text)`, None for an invalid date).
  */
  function ParseDateTime(c: Cell, hostDate: string -> Option<int>): (r: Option<int>)
    ensures Falsy(c) ==> r == None
    ensures c.Number? && r.Some? ==> -MaxTimeValue <= r.value <= MaxTimeValue
  {
    match c
    case Blank => None
    case Text(s) => if s == "" then None else hostDate(s)
    case Number(x) => if x == 0.0 then None else TimeClip((x - EpochSerial as real) * MsPerDay as real)
  }

  /** A whole-day serial n is n - 25569 days after the epoch; serial 25569 is the epoch itself. */
  lemma {:induction false} SerialWholeDays(n: int, hostDate: string -> Option<int>)
    requires n != 0
    requires -MaxTimeValue <= (n - EpochSerial) * MsPerDay <= MaxTimeValue
    ensures ParseDateTime(Number(n as real), hostDate) == Some((n - EpochSerial) * MsPerDay)
  {
    var k := (n - EpochSerial) * MsPerDay;
    assert (n as real - EpochSerial as real) * MsPerDay as real == k as real;
    TruncWhole(k);
  }

  /** Later serials never give earlier times. */
  lemma {:induction false} SerialMonotone(x: real, y: real, hostDate: string -> Option<int>)
    requires x <= y
    requires ParseDateTime(Number(x), hostDate).Some? && ParseDateTime(Number(y), hostDate).Some?
    ensures ParseDateTime(Number(x), hostDate).value <= ParseDateTime(Number(y), hostDate).value
  {
    var u := (x - EpochSerial as real) * MsPerDay as real;
    var v := (y - EpochSerial as real) * MsPerDay as real;
    assert u <= v;
    TruncMonotone(u, v);
  }

  lemma {:induction false} TruncWhole(k: int)
    ensures Trunc(k as real) == k
  {
  }

  lemma {:induction false} TruncMonotone(u: real, v: real)
    requires u <= v
    ensures Trunc(u) <= Trunc(v)
  {
    if u >= 0.0 {
      assert u.Floor <= v.Floor;
    } else if v < 0.0 {
      assert (-v).Floor <= (-u).Floor;
    }
  }
}
