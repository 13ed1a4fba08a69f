/**
  The JavaScript built-ins the call analyzer relies on, as pure functions over
  Dafny strings and exact numbers: `trim`, `split`, `toLowerCase`, `includes`,
  `parseInt`, `parseFloat`, `padStart`, `Math.round`, the `%` operator on
  integers and the decimal rendering of numbers.
*/
module JsBuiltins {
  import opened Wrappers

  // ---------------------------------------------------------------------------
  // White space
  // ---------------------------------------------------------------------------

  /** The white-space and line-terminator characters `trim`, `parseInt` and `parseFloat` skip. */
  predicate IsSpace(c: char) {
    var n := c as int;
    if n < 0xA0 then n == 0x20 || 0x09 <= n <= 0x0D
    else
      || n == 0xA0 || n == 0x1680 || 0x2000 <= n <= 0x200A || n == 0x2028 || n == 0x2029
      || n == 0x202F || n == 0x205F || n == 0x3000 || n == 0xFEFF
  }

  /** The first index at or after `i` whose character is not white space; `|s|` when there is none. */
  function SkipSpaces(s: string, i: nat): (k: nat)
    requires i <= |s|
    ensures i <= k <= |s|
    decreases |s| - i
  {
    if i < |s| && IsSpace(s[i]) then SkipSpaces(s, i + 1) else i
  }

  /** `SkipSpaces` passes over white space only, and stops at a visible character or the end. */
  lemma {:induction false} SkipSpacesSpec(s: string, i: nat)
    requires i <= |s|
    ensures forall j :: i <= j < SkipSpaces(s, i) ==> IsSpace(s[j])
    ensures SkipSpaces(s, i) < |s| ==> !IsSpace(s[SkipSpaces(s, i)])
    decreases |s| - i
  {
    if i < |s| && IsSpace(s[i]) {
      SkipSpacesSpec(s, i + 1);
    }
  }

  /** `s` without its leading white space. */
  function TrimStart(s: string): (r: string)
    ensures |r| <= |s|
  {
    var k := SkipSpaces(s, 0);
    seq(|s| - k, i requires 0 <= i < |s| - k => s[k + i])
  }

  /** `TrimStart` keeps a suffix, drops only white space, and stops at a visible character. */
  lemma TrimStartSpec(s: string)
    ensures var r := TrimStart(s);
      && r == s[|s| - |r|..]
      && (forall i :: 0 <= i < |s| - |r| ==> IsSpace(s[i]))
      && (r == [] || !IsSpace(r[0]))
  {
    SkipSpacesSpec(s, 0);
  }

  /** The end of `s[..j]` once its trailing white space is dropped. */
  function EndOfVisible(s: string, j: nat): (k: nat)
    requires j <= |s|
    ensures k <= j
  {
    if j > 0 && IsSpace(s[j - 1]) then EndOfVisible(s, j - 1) else j
  }

  /** `EndOfVisible` drops white space only, and stops after a visible character or at the start. */
  lemma {:induction false} EndOfVisibleSpec(s: string, j: nat)
    requires j <= |s|
    ensures forall i :: EndOfVisible(s, j) <= i < j ==> IsSpace(s[i])
    ensures EndOfVisible(s, j) > 0 ==> !IsSpace(s[EndOfVisible(s, j) - 1])
  {
    if j > 0 && IsSpace(s[j - 1]) {
      EndOfVisibleSpec(s, j - 1);
    }
  }

  /** `s` without its trailing white space. */
  function TrimEnd(s: string): (r: string)
    ensures |r| <= |s|
  {
    s[..EndOfVisible(s, |s|)]
  }

  /** `TrimEnd` keeps a prefix, drops only white space, and stops at a visible character. */
  lemma TrimEndSpec(s: string)
    ensures var r := TrimEnd(s);
      && r == s[..|r|]
      && (forall i :: |r| <= i < |s| ==> IsSpace(s[i]))
      && (r == [] || !IsSpace(r[|r| - 1]))
  {
    EndOfVisibleSpec(s, |s|);
  }

  /** `String.prototype.trim`: white space removed at both ends. */
  function Trim(s: string): (r: string)
    ensures |r| <= |s|
  {
    TrimEnd(TrimStart(s))
  }

  /**
    `trim` keeps a contiguous part of `s`, drops only white space on either
    side of it, and the part neither starts nor ends with white space.
  */
  lemma TrimSpec(s: string)
    ensures var r, k := Trim(s), |s| - |TrimStart(s)|;
      && k + |r| <= |s| && r == s[k..k + |r|]
      && (forall i :: 0 <= i < k ==> IsSpace(s[i]))
      && (forall i :: k + |r| <= i < |s| ==> IsSpace(s[i]))
      && (r == [] || (!IsSpace(r[0]) && !IsSpace(r[|r| - 1])))
  {
    var u := TrimStart(s);
    TrimStartSpec(s);
    TrimEndSpec(u);
    var r := TrimEnd(u);
    if r != [] {
      assert r[0] == u[0];
    }
  }

  /** A string that starts and ends with a visible character is left alone by `trim`. */
  lemma TrimVisible(s: string)
    requires s != [] && !IsSpace(s[0]) && !IsSpace(s[|s| - 1])
    ensures Trim(s) == s
  {
  }

  // ---------------------------------------------------------------------------
  // Splitting on a separator
  // ---------------------------------------------------------------------------

  /** The number of occurrences of `c` in `s`. */
  function Occurrences(s: string, c: char): nat {
    if s == [] then 0 else (if s[0] == c then 1 else 0) + Occurrences(s[1..], c)
  }

  /** `String.prototype.split` with a one-character separator. */
  function Split(s: string, sep: char): (parts: seq<string>)
    ensures |parts| >= 1
  {
    if s == [] then [[]]
    else
      var rest := Split(s[1..], sep);
      if s[0] == sep then [[]] + rest else [[s[0]] + rest[0]] + rest[1..]
  }

  /** `split` gives one more part than there are separators, and no part holds one. */
  lemma {:induction false} SplitSpec(s: string, sep: char)
    ensures |Split(s, sep)| == Occurrences(s, sep) + 1
    ensures forall i :: 0 <= i < |Split(s, sep)| ==> sep !in Split(s, sep)[i]
  {
    if s != [] {
      SplitSpec(s[1..], sep);
      var rest := Split(s[1..], sep);
      if s[0] != sep {
        var parts := [[s[0]] + rest[0]] + rest[1..];
        forall i | 0 <= i < |parts|
          ensures sep !in parts[i]
        {
          if i > 0 {
            assert parts[i] == rest[i];
          }
        }
      } else {
        var parts := [[]] + rest;
        forall i | 0 <= i < |parts|
          ensures sep !in parts[i]
        {
          if i > 0 {
            assert parts[i] == rest[i - 1];
          }
        }
      }
    }
  }

  /** `Array.prototype.join` with a one-character separator: the inverse of `Split`. */
  function Join(parts: seq<string>, sep: char): string
    requires |parts| >= 1
  {
    if |parts| == 1 then parts[0] else parts[0] + [sep] + Join(parts[1..], sep)
  }

  /** Joining two parts puts one separator between them. */
  lemma Join2(a: string, b: string, sep: char)
    ensures Join([a, b], sep) == a + [sep] + b
  {
    assert [a, b][1..] == [b];
  }

  /** Joining three parts puts one separator between each two. */
  lemma Join3(a: string, b: string, c: string, sep: char)
    ensures Join([a, b, c], sep) == a + [sep] + b + [sep] + c
  {
    assert [a, b, c][1..] == [b, c];
    Join2(b, c, sep);
    assert a + [sep] + (b + [sep] + c) == a + [sep] + b + [sep] + c;
  }

  /** Splitting a piece that holds no separator, followed by more text, extends the first part. */
  lemma {:induction false} SplitPrefix(a: string, rest: string, sep: char)
    requires sep !in a
    ensures Split(a + rest, sep) == [a + Split(rest, sep)[0]] + Split(rest, sep)[1..]
  {
    if a != [] {
      assert (a + rest)[1..] == a[1..] + rest;
      SplitPrefix(a[1..], rest, sep);
      assert [a[0]] + (a[1..] + Split(rest, sep)[0]) == a + Split(rest, sep)[0];
    } else {
      var parts := Split(rest, sep);
      assert a + rest == rest;
      assert a + parts[0] == parts[0];
      assert [parts[0]] + parts[1..] == parts;
    }
  }

  /** Joining parts that hold no separator and splitting again gives the parts back. */
  lemma {:induction false} SplitJoin(parts: seq<string>, sep: char)
    requires |parts| >= 1
    requires forall i :: 0 <= i < |parts| ==> sep !in parts[i]
    ensures Split(Join(parts, sep), sep) == parts
  {
    if |parts| == 1 {
      SplitPrefix(parts[0], [], sep);
      assert parts[0] + [] == parts[0];
    } else {
      var tail := Join(parts[1..], sep);
      SplitJoin(parts[1..], sep);
      assert parts[0] + [sep] + tail == parts[0] + ([sep] + tail);
      SplitPrefix(parts[0], [sep] + tail, sep);
      assert ([sep] + tail)[1..] == tail;
      assert parts[0] + [] == parts[0];
      assert [parts[0]] + parts[1..] == parts;
    }
  }

  /** Splitting and joining again gives the text back. */
  lemma {:induction false} JoinSplit(s: string, sep: char)
    ensures Join(Split(s, sep), sep) == s
  {
    if s != [] {
      JoinSplit(s[1..], sep);
      var rest := Split(s[1..], sep);
      if s[0] == sep {
        assert ([[]] + rest)[1..] == rest;
      } else {
        var parts := [[s[0]] + rest[0]] + rest[1..];
        if |rest| > 1 {
          assert parts[1..] == rest[1..];
        }
      }
    }
  }

  // ---------------------------------------------------------------------------
  // Case conversion
  // ---------------------------------------------------------------------------

  /** Lower case of an ASCII letter; every other character is unchanged. */
  function LowerChar(c: char): char {
    if 'A' <= c <= 'Z' then (c as int - 'A' as int + 'a' as int) as char else c
  }

  /** `String.prototype.toLowerCase`, restricted to the ASCII letters. */
  function Lower(s: string): (r: string)
    ensures |r| == |s| && forall i :: 0 <= i < |s| ==> r[i] == LowerChar(s[i])
    ensures NoUpper(r) && SameUpToCase(s, r)
  {
    seq(|s|, i requires 0 <= i < |s| => LowerChar(s[i]))
  }

  /** No ASCII capital letter occurs in `s`. */
  predicate NoUpper(s: string) {
    forall i :: 0 <= i < |s| ==> !('A' <= s[i] <= 'Z')
  }

  /** `s` is `w` with some of its ASCII small letters written as capitals. */
  predicate SameUpToCase(s: string, w: string) {
    && |s| == |w|
    && forall i :: 0 <= i < |s| ==>
         s[i] == w[i] || ('a' <= w[i] <= 'z' && s[i] as int == w[i] as int - 32)
  }

  /**
    A text lower-cases to a text `w` without capitals exactly when it is `w`
    up to the case of ASCII letters: "Outbound" and "OUTBOUND" both become
    "outbound", and nothing else does.
  */
  lemma {:induction false} LowerMatches(s: string, w: string)
    requires NoUpper(w)
    ensures Lower(w) == w
    ensures Lower(s) == w <==> SameUpToCase(s, w)
  {
    if SameUpToCase(s, w) {
      forall i | 0 <= i < |s|
        ensures Lower(s)[i] == w[i]
      {
        if s[i] != w[i] {
          assert 'A' <= s[i] <= 'Z';
        }
      }
    }
  }

  // ---------------------------------------------------------------------------
  // Digits and numerals
  // ---------------------------------------------------------------------------

  /** The value of `c` as a digit in the bases up to 36 (`0-9`, then `a-z` or `A-Z`); 36 when it is none. */
  function CharDigit(c: char): (d: nat)
    ensures d <= 36
  {
    if '0' <= c <= '9' then c as int - '0' as int
    else if 'a' <= c <= 'z' then c as int - 'a' as int + 10
    else if 'A' <= c <= 'Z' then c as int - 'A' as int + 10
    else 36
  }

  /** The decimal digit character for `d`. */
  function DigitChar(d: nat): (c: char)
    requires d < 10
    ensures '0' <= c <= '9' && CharDigit(c) == d
  {
    ('0' as int + d) as char
  }

  /** Every character of `s` is a decimal digit. */
  predicate IsDigits(s: string) {
    forall i :: 0 <= i < |s| ==> '0' <= s[i] <= '9'
  }

  /** The first index at or after `i` whose character is not a digit of base `radix`; `|s|` when there is none. */
  function DigitsEnd(s: string, radix: nat, i: nat): (k: nat)
    requires i <= |s|
    ensures i <= k <= |s|
    decreases |s| - i
  {
    if i < |s| && CharDigit(s[i]) < radix then DigitsEnd(s, radix, i + 1) else i
  }

  /** `DigitsEnd` passes over digits only, and stops at a character that is not one or at the end. */
  lemma {:induction false} DigitsEndSpec(s: string, radix: nat, i: nat)
    requires i <= |s|
    ensures forall j :: i <= j < DigitsEnd(s, radix, i) ==> CharDigit(s[j]) < radix
    ensures DigitsEnd(s, radix, i) < |s| ==> CharDigit(s[DigitsEnd(s, radix, i)]) >= radix
    decreases |s| - i
  {
    if i < |s| && CharDigit(s[i]) < radix {
      DigitsEndSpec(s, radix, i + 1);
    }
  }

  /** Over a string of digits only, `DigitsEnd` runs to the end. */
  lemma {:induction false} DigitsEndAll(z: string, radix: nat, i: nat)
    requires i <= |z|
    requires forall j :: 0 <= j < |z| ==> CharDigit(z[j]) < radix
    ensures DigitsEnd(z, radix, i) == |z|
    decreases |z| - i
  {
    if i < |z| {
      DigitsEndAll(z, radix, i + 1);
    }
  }

  /** The value of the numeral `z` in base `radix`, most significant digit first. */
  function DigitsValue(z: string, radix: nat): nat {
    if z == [] then 0 else DigitsValue(z[..|z| - 1], radix) * radix + CharDigit(z[|z| - 1])
  }

  /** The value of the numeral `s[lo..hi]` in base `radix`, read in place. */
  function RangeValue(s: string, radix: nat, lo: nat, hi: nat): nat
    requires lo <= hi <= |s|
    decreases hi - lo
  {
    if hi == lo then 0 else RangeValue(s, radix, lo, hi - 1) * radix + CharDigit(s[hi - 1])
  }

  /** Read in place from the start, a numeral has the value of the prefix it covers. */
  lemma {:induction false} RangeValuePrefix(s: string, radix: nat, hi: nat)
    requires hi <= |s|
    ensures RangeValue(s, radix, 0, hi) == DigitsValue(s[..hi], radix)
  {
    if hi > 0 {
      RangeValuePrefix(s, radix, hi - 1);
      assert s[..hi][..hi - 1] == s[..hi - 1];
    }
  }

  /** A leading zero does not change the value of a numeral. */
  lemma {:induction false} LeadingZero(z: string, radix: nat)
    ensures DigitsValue("0" + z, radix) == DigitsValue(z, radix)
  {
    if z != [] {
      var z' := z[..|z| - 1];
      assert ("0" + z)[..|"0" + z| - 1] == "0" + z';
      LeadingZero(z', radix);
    }
  }

  /** The decimal numeral of a natural number, as `Number.prototype.toString` writes it. */
  function NatText(n: nat): (r: string)
    ensures |r| >= 1
  {
    if n < 10 then [DigitChar(n)] else NatText(n / 10) + [DigitChar(n % 10)]
  }

  /** The numeral of `n` is made of decimal digits, reads back as `n`, and has one digit exactly below 10. */
  lemma {:induction false} NatTextSpec(n: nat)
    ensures IsDigits(NatText(n))
    ensures DigitsValue(NatText(n), 10) == n
    ensures n < 10 <==> |NatText(n)| == 1
  {
    if n >= 10 {
      NatTextSpec(n / 10);
      var r := NatText(n);
      assert r[..|r| - 1] == NatText(n / 10);
    }
  }

  /** The decimal numeral of an integer, with a leading `-` when it is negative. */
  function IntText(n: int): string {
    if n < 0 then "-" + NatText(-n) else NatText(n)
  }

  /**
    `String.prototype.padStart(2, '0')`: strings shorter than two characters
    are filled with `0` on the left up to two characters.
  */
  function PadStart2(s: string): (r: string)
  {
    if |s| >= 2 then s else if |s| == 1 then "0" + s else "00"
  }

  /** The padded text is at least two characters long, ends with `s` and has only `0` before it. */
  lemma PadStart2Spec(s: string)
    ensures var r := PadStart2(s);
      && |r| == (if |s| >= 2 then |s| else 2)
      && r[|r| - |s|..] == s
      && (forall i :: 0 <= i < |r| - |s| ==> r[i] == '0')
  {
  }

  /** Padding a numeral with zeros keeps it a numeral of the same value. */
  lemma PadStart2Value(s: string)
    requires IsDigits(s)
    ensures IsDigits(PadStart2(s)) && DigitsValue(PadStart2(s), 10) == DigitsValue(s, 10)
  {
    if |s| == 1 {
      LeadingZero(s, 10);
    } else if |s| == 0 {
      assert DigitsValue("00", 10) == DigitsValue("0", 10) == 0;
    }
  }

  // ---------------------------------------------------------------------------
  // parseInt and parseFloat (NaN is None)
  // ---------------------------------------------------------------------------

  /**
    `parseInt(s)` with no radix: leading white space is skipped, one sign is
    taken, a `0x`/`0X` prefix selects base 16, and the longest run of digits
    that follows is read; with no digit the result is NaN (None).
  */
  function ParseInt(s: string): Option<int> {
    var k := SkipSpaces(s, 0);
    var negative := k < |s| && s[k] == '-';
    var i := if k < |s| && (s[k] == '-' || s[k] == '+') then k + 1 else k;
    var hex := i + 2 <= |s| && s[i] == '0' && (s[i + 1] == 'x' || s[i + 1] == 'X');
    var radix := if hex then 16 else 10;
    var start := if hex then i + 2 else i;
    var end := DigitsEnd(s, radix, start);
    if end == start then None
    else
      var v: int := RangeValue(s, radix, start, end);
      Some(if negative then -v else v)
  }

  /** `parseInt` reads a non-empty string of decimal digits as its decimal value. */
  lemma ParseIntDigits(z: string)
    requires z != [] && IsDigits(z)
    ensures ParseInt(z) == Some(DigitsValue(z, 10))
  {
    assert !IsSpace(z[0]);
    assert SkipSpaces(z, 0) == 0;
    assert !(z[0] == '-' || z[0] == '+');
    assert !(2 <= |z| && z[0] == '0' && (z[1] == 'x' || z[1] == 'X')) by {
      if |z| >= 2 {
        assert '0' <= z[1] <= '9';
      }
    }
    DigitsEndAll(z, 10, 0);
    RangeValuePrefix(z, 10, |z|);
    assert z[..|z|] == z;
  }

  /** A decimal number written out: ±mantissa · 10^exponent. */
  datatype Decimal = Decimal(negative: bool, mantissa: nat, exponent: int)

  /** ±mantissa, the decimal's digits with its sign. */
  function Signed(d: Decimal): int {
    if d.negative then -(d.mantissa as int) else d.mantissa
  }

  /**
    The exponent an exponent part (`e` or `E`, an optional sign, at least one
    digit) starting at index `p` of `t` contributes to a `parseFloat` result;
    0 when there is none.
  */
  function ExponentPart(t: string, p: nat): int
    requires p <= |t|
  {
    if p + 2 <= |t| && (t[p] == 'e' || t[p] == 'E') then
      var q := if t[p + 1] == '-' || t[p + 1] == '+' then p + 2 else p + 1;
      var e := DigitsEnd(t, 10, q);
      if e == q then 0
      else if t[p + 1] == '-' then -(RangeValue(t, 10, q, e) as int)
      else RangeValue(t, 10, q, e)
    else 0
  }

  /**
    `parseFloat(s)`: leading white space is skipped, then the longest prefix of
    the form sign? digits? (`.` digits?)? exponent? with at least one digit in
    the mantissa is read, exactly, as a `Decimal`; with no such prefix the
    result is NaN (None). The mantissa is the whole digits followed by the
    fraction digits, and the exponent is lowered by the number of fraction
    digits.
  */
  function ParseFloat(s: string): Option<Decimal> {
    var k := SkipSpaces(s, 0);
    var negative := k < |s| && s[k] == '-';
    var i := if k < |s| && (s[k] == '-' || s[k] == '+') then k + 1 else k;
    var w := DigitsEnd(s, 10, i);
    var dot := w < |s| && s[w] == '.';
    var f := if dot then DigitsEnd(s, 10, w + 1) else w;
    var fracLen := if dot then f - (w + 1) else 0;
    if w == i && fracLen == 0 then None
    else
      var mantissa := ScaleUp(RangeValue(s, 10, i, w), fracLen) + (if dot then RangeValue(s, 10, w + 1, f) else 0);
      Some(Decimal(negative, mantissa, ExponentPart(s, f) - fracLen))
  }

  /** A text without a decimal digit is NaN to `parseFloat`. */
  lemma {:induction false} ParseFloatNoDigits(t: string)
    requires forall i :: 0 <= i < |t| ==> !('0' <= t[i] <= '9')
    ensures ParseFloat(t) == None
  {
    var k := SkipSpaces(t, 0);
    var i := if k < |t| && (t[k] == '-' || t[k] == '+') then k + 1 else k;
    assert DigitsEnd(t, 10, i) == i;
    if i < |t| && t[i] == '.' {
      assert DigitsEnd(t, 10, i + 1) == i + 1;
    }
  }

  /** n · 10^e. */
  function ScaleUp(n: int, e: nat): (r: int)
    ensures n >= 0 ==> r >= 0
    decreases e
  {
    if e == 0 then n else ScaleUp(n * 10, e - 1)
  }

  /** ⌊n / 10^e⌋, one digit at a time. */
  function ScaleDown(n: int, e: nat): int
    decreases e
  {
    if e == 0 then n else ScaleDown(n / 10, e - 1)
  }

  /**
    `Math.round(d * factor)` for a decimal `d`, computed exactly: with a
    negative exponent the value is num / 10^k, and rounding half up is
    ⌊⌊(2·num + 10^k) / 10^k⌋ / 2⌋.
  */
  function RoundScaled(d: Decimal, factor: nat): int {
    var num := Signed(d) * factor;
    if d.exponent >= 0 then ScaleUp(num, d.exponent)
    else ScaleDown(2 * num + ScaleUp(1, -d.exponent), -d.exponent) / 2
  }

  /** 10^e. */
  function Pow10(e: nat): (r: nat)
    ensures r >= 1
  {
    if e == 0 then 1 else 10 * Pow10(e - 1)
  }

  /** The exact value of a decimal: ±mantissa · 10^exponent. */
  function DecimalValue(d: Decimal): real {
    if d.exponent >= 0 then Signed(d) as real * Pow10(d.exponent) as real
    else Signed(d) as real / Pow10(-d.exponent) as real
  }

  /**
    `RoundScaled(d, factor)` is `Math.round` of the exact product of `d`'s
    value and `factor`: the integer arithmetic rounds as rounding the real
    number would.
  */
  lemma {:induction false} RoundScaledValue(d: Decimal, factor: nat)
    ensures RoundScaled(d, factor) == Round(DecimalValue(d) * factor as real)
  {
    if d.exponent >= 0 {
      RoundScaledWhole(d, factor);
    } else {
      RoundScaledFraction(d, factor);
    }
  }

  /** `RoundScaledValue` for a decimal without fraction digits. */
  lemma {:induction false} RoundScaledWhole(d: Decimal, factor: nat)
    requires d.exponent >= 0
    ensures RoundScaled(d, factor) == Round(DecimalValue(d) * factor as real)
  {
    ScaleUpValue(Signed(d) * factor, d.exponent);
    WholeTimes(d, factor);
    RoundWhole(Signed(d) * factor * Pow10(d.exponent));
  }

  /** A decimal without fraction digits, times `factor`, is a whole number. */
  lemma WholeTimes(d: Decimal, factor: nat)
    requires d.exponent >= 0
    ensures DecimalValue(d) * factor as real == (Signed(d) * factor * Pow10(d.exponent)) as real
  {
    CastMul(Signed(d), factor);
    CastMul(Signed(d) * factor, Pow10(d.exponent));
  }

  /** `RoundScaledValue` for a decimal with fraction digits. */
  lemma {:induction false} RoundScaledFraction(d: Decimal, factor: nat)
    requires d.exponent < 0
    ensures RoundScaled(d, factor) == Round(DecimalValue(d) * factor as real)
  {
    var num := Signed(d) * factor;
    var k := -d.exponent;
    var p := Pow10(k);
    ScaleUpValue(1, k);
    ScaleDownValue(2 * num + p, k);
    FractionTimes(d, factor);
    RoundQuotient(num, p);
  }

  /** A decimal with fraction digits, times `factor`, is an exact quotient of integers. */
  lemma FractionTimes(d: Decimal, factor: nat)
    requires d.exponent < 0
    ensures DecimalValue(d) * factor as real == (Signed(d) * factor) as real / Pow10(-d.exponent) as real
  {
    CastMul(Signed(d), factor);
    QuotientTimes(Signed(d) as real, Pow10(-d.exponent) as real, factor as real);
  }

  /** Converting a product to a real is multiplying the converted factors. */
  lemma CastMul(a: int, b: int)
    ensures (a * b) as real == a as real * b as real
  {
  }

  /** (m / p) · f == (m · f) / p. */
  lemma QuotientTimes(m: real, p: real, f: real)
    requires p > 0.0
    ensures (m / p) * f == (m * f) / p
  {
  }

  /** n / p + 1/2 == (2·n + p) / (2·p). */
  lemma HalfStep(n: real, p: real)
    requires p > 0.0
    ensures n / p + 0.5 == (2.0 * n + p) / (2.0 * p)
  {
    var x, y := n / p + 0.5, (2.0 * n + p) / (2.0 * p);
    assert (n / p) * p == n;
    assert y * (2.0 * p) == 2.0 * n + p;
    assert x * (2.0 * p) == 2.0 * n + p;
    RealMulCancel(x, y, 2.0 * p);
    RealMulCancel(y, x, 2.0 * p);
  }

  /** Rounding num / p half up is ⌊⌊(2·num + p) / p⌋ / 2⌋. */
  lemma {:induction false} RoundQuotient(num: int, p: int)
    requires p > 0
    ensures Round(num as real / p as real) == (2 * num + p) / p / 2
  {
    DivDiv(2 * num + p, p, 2);
    RealFloorDiv(2 * num + p, p * 2);
    HalfStep(num as real, p as real);
    assert (2 * num + p) as real == 2.0 * num as real + p as real;
    assert (p * 2) as real == 2.0 * p as real;
  }

  /** `ScaleUp` multiplies by 10^e. */
  lemma {:induction false} ScaleUpValue(n: int, e: nat)
    ensures ScaleUp(n, e) == n * Pow10(e)
    decreases e
  {
    if e > 0 {
      ScaleUpValue(n * 10, e - 1);
      assert (n * 10) * Pow10(e - 1) == n * (10 * Pow10(e - 1));
    }
  }

  /** `ScaleDown` divides by 10^e, rounding down. */
  lemma {:induction false} ScaleDownValue(n: int, e: nat)
    ensures ScaleDown(n, e) == n / Pow10(e)
    decreases e
  {
    if e > 0 {
      ScaleDownValue(n / 10, e - 1);
      DivDiv(n, 10, Pow10(e - 1));
    }
  }

  /** Rounding a whole number leaves it unchanged. */
  lemma RoundWhole(k: int)
    ensures Round(k as real) == k
  {
  }

  /** Multiplying by a non-negative number keeps the order. */
  lemma MulMonotone(a: int, b: int, d: int)
    requires a <= b && d >= 0
    ensures a * d <= b * d
  {
    assert b * d - a * d == (b - a) * d;
  }

  /** Multiplying by a positive number reflects the strict order. */
  lemma MulCancel(a: int, b: int, d: int)
    requires d > 0
    ensures a * d < b * d ==> a < b
  {
    if b <= a {
      MulMonotone(b, a, d);
    }
  }

  /** The quotient is the `q` with `q · d <= n < (q + 1) · d`. */
  lemma {:induction false} DivUnique(n: int, d: int, q: int)
    requires d > 0 && q * d <= n < q * d + d
    ensures n / d == q
  {
    var q' := n / d;
    assert q' * d <= n < q' * d + d;
    assert (q' + 1) * d == q' * d + d;
    assert (q + 1) * d == q * d + d;
    MulCancel(q, q' + 1, d);
    MulCancel(q', q + 1, d);
  }

  /** Dividing by `b` and then by `c` is dividing by `b · c`. */
  lemma {:induction false} DivDiv(n: int, b: int, c: int)
    requires b > 0 && c > 0
    ensures n / b / c == n / (b * c)
  {
    var q, r := n / b, n % b;
    var q2, r2 := q / c, q % c;
    assert n == q * b + r;
    assert q == q2 * c + r2;
    assert q * b == q2 * (b * c) + r2 * b;
    MulMonotone(0, r2, b);
    MulMonotone(r2, c - 1, b);
    assert (c - 1) * b == b * c - b;
    DivUnique(n, b * c, q2);
  }

  /** Multiplying by a positive real reflects the order. */
  lemma RealMulCancel(x: real, y: real, z: real)
    requires z > 0.0
    ensures x * z <= y * z ==> x <= y
    ensures x * z < y * z ==> x < y
  {
    assert y * z - x * z == (y - x) * z;
  }

  /** The floor of an exact quotient of integers is their integer quotient. */
  lemma {:induction false} RealFloorDiv(a: int, d: int)
    requires d > 0
    ensures (a as real / d as real).Floor == a / d
  {
    var q := a / d;
    var x := a as real / d as real;
    assert q * d <= a < q * d + d;
    assert x * d as real == a as real;
    assert (q * d) as real == q as real * d as real;
    assert (q + 1) as real * d as real == q as real * d as real + d as real;
    RealMulCancel(q as real, x, d as real);
    RealMulCancel(x, (q + 1) as real, d as real);
    assert q as real <= x < q as real + 1.0;
  }

  // ---------------------------------------------------------------------------
  // Numbers
  // ---------------------------------------------------------------------------

  /** `Math.round`: the nearest integer, halves rounded up. */
  function Round(x: real): (n: int)
    ensures x - 0.5 < n as real <= x + 0.5
  {
    (x + 0.5).Floor
  }

  /** Truncation toward zero, as `ToIntegerOrInfinity` does. */
  function Trunc(x: real): (n: int)
    ensures 0.0 <= x ==> 0 <= n && n as real <= x < n as real + 1.0
    ensures x < 0.0 ==> n <= 0 && n as real - 1.0 < x <= n as real
  {
    if x >= 0.0 then x.Floor else -((-x).Floor)
  }

  /** JavaScript's `a % b` on integers with `b > 0`: the remainder takes the sign of `a`. */
  function Rem(a: int, b: int): (r: int)
    requires b > 0
    ensures a >= 0 ==> 0 <= r < b
    ensures a < 0 ==> -b < r <= 0
  {
    if a >= 0 then a % b else -((-a) % b)
  }

  /** `a % b` is what is left of `a` once a whole multiple of `b` is taken away. */
  lemma {:induction false} RemValue(a: int, b: int) returns (q: int)
    requires b > 0
    ensures a == q * b + Rem(a, b)
  {
    if a >= 0 {
      q := a / b;
    } else {
      q := -((-a) / b);
      assert -a == ((-a) / b) * b + (-a) % b;
    }
  }

  /** The first `n` decimal digits of a fraction `f` in [0, 1), stopping early once nothing is left. */
  function FractionDigits(f: real, n: nat): (r: string)
    requires 0.0 <= f < 1.0
    ensures IsDigits(r) && |r| <= n
    decreases n
  {
    if n == 0 || f == 0.0 then []
    else
      var d := (f * 10.0).Floor;
      [DigitChar(d)] + FractionDigits(f * 10.0 - d as real, n - 1)
  }

  /**
    The decimal rendering of a number: exact for integers (as
    `Number.prototype.toString` prints them below 10^21); fractions are
    written with at most 17 digits after the point.
  */
  function NumberText(x: real): (r: string)
    ensures r != []
  {
    if x == x.Floor as real then IntText(x.Floor)
    else
      var m := if x < 0.0 then -x else x;
      var w := m.Floor;
      (if x < 0.0 then "-" else "") + NatText(w) + "." + FractionDigits(m - w as real, 17)
  }
}
