/** The string operations the calendar applies: String.prototype.trim on form input,
    and Number.prototype.toString followed by padStart(2, "0") when the clock is
    formatted as "HH:MM". */
module Text {
  import opened Wrappers

  /** WhiteSpace and LineTerminator code points of ECMA-262 (sections 12.2 and 12.3),
      which String.prototype.trim removes; the Zs category is listed out. */
  predicate IsWhitespace(c: char) {
    c == '\t' || c == '\n' || c == '\U{000B}' || c == '\U{000C}' || c == '\r' || c == ' '
    || c == '\U{00A0}' || c == '\U{1680}' || ('\U{2000}' <= c <= '\U{200A}')
    || c == '\U{2028}' || c == '\U{2029}' || c == '\U{202F}' || c == '\U{205F}'
    || c == '\U{3000}' || c == '\U{FEFF}'
  }

  /** A string holding nothing but whitespace (the empty string among them). */
  ghost predicate AllWhitespace(s: string) {
    forall i :: 0 <= i < |s| ==> IsWhitespace(s[i])
  }

  /** Drops leading whitespace: the result is the suffix of s that starts at its first
      non-whitespace character. */
  function TrimStart(s: string): (r: string)
    ensures |r| <= |s| && r == s[|s| - |r|..]
    ensures forall i :: 0 <= i < |s| - |r| ==> IsWhitespace(s[i])
    ensures r == [] || !IsWhitespace(r[0])
    decreases |s|
  {
    if s != [] && IsWhitespace(s[0]) then TrimStart(s[1..]) else s
  }

  /** Drops trailing whitespace: the result is the prefix of s that ends at its last
      non-whitespace character. */
  function TrimEnd(s: string): (r: string)
    ensures |r| <= |s| && r == s[..|r|]
    ensures forall i :: |r| <= i < |s| ==> IsWhitespace(s[i])
    ensures r == [] || !IsWhitespace(r[|r| - 1])
    decreases |s|
  {
    if s != [] && IsWhitespace(s[|s| - 1]) then TrimEnd(s[..|s| - 1]) else s
  }

  /** String.prototype.trim (TrimString with "start+end", ECMA-262 section 22.1.3.32.1). */
  function Trim(s: string): string {
    TrimEnd(TrimStart(s))
  }

  /** Trim keeps one contiguous slice of s, and everything cut off on either side is whitespace. */
  lemma TrimSlice(s: string)
    ensures exists i, j ::
              && 0 <= i <= j <= |s| && Trim(s) == s[i..j]
              && (forall k :: 0 <= k < i ==> IsWhitespace(s[k]))
              && (forall k :: j <= k < |s| ==> IsWhitespace(s[k]))
  {
    var i := |s| - |TrimStart(s)|;
    TrimSliceEnd(s, i, Trim(s));
  }

  /** The trimmed string is empty or begins and ends with a non-whitespace character. */
  lemma TrimEnds(s: string)
    ensures Trim(s) == [] || (!IsWhitespace(Trim(s)[0]) && !IsWhitespace(Trim(s)[|Trim(s)| - 1]))
  {
    var t := TrimStart(s);
    var r := TrimEnd(t);
    if r != [] {
      assert r[0] == t[0];
    }
  }

  /** What TrimEnd cuts from the suffix s[i..] is whitespace of s. */
  lemma TrimSliceEnd(s: string, i: nat, r: string)
    requires i <= |s| && r == TrimEnd(s[i..])
    ensures i + |r| <= |s| && r == s[i..i + |r|]
    ensures forall k :: i + |r| <= k < |s| ==> IsWhitespace(s[k])
  {
    var t := s[i..];
    forall k | i + |r| <= k < |s|
      ensures IsWhitespace(s[k])
    {
      assert s[k] == t[k - i];
    }
  }

  /** The trimmed string is empty exactly when the input holds only whitespace. */
  lemma TrimEmptyIff(s: string)
    ensures Trim(s) == [] <==> AllWhitespace(s)
  {
  }

  /** Trimming twice changes nothing more than trimming once. */
  lemma TrimIdempotent(s: string)
    ensures Trim(Trim(s)) == Trim(s)
  {
    var r := Trim(s);
    TrimSlice(s);
    assert TrimStart(r) == r;
    assert TrimEnd(r) == r;
  }

  /** The ASCII digit of d. */
  function Digit(d: int): (c: char)
    requires 0 <= d <= 9
    ensures '0' <= c <= '9'
  {
    (48 + d) as char
  }

  /** The value of an ASCII digit. */
  function DigitValue(c: char): (d: int)
    requires '0' <= c <= '9'
    ensures 0 <= d <= 9 && Digit(d) == c
  {
    c as int - 48
  }

  /** Number.prototype.toString() of a non-negative integer: its decimal digits, no leading zero. */
  function DecimalString(n: nat): (s: string)
    ensures 1 <= |s|
    ensures forall i :: 0 <= i < |s| ==> '0' <= s[i] <= '9'
    ensures |s| == 1 <==> n < 10
    ensures |s| > 1 ==> s[0] != '0'
    decreases n
  {
    if n < 10 then [Digit(n)] else DecimalString(n / 10) + [Digit(n % 10)]
  }

  /** The number a string of decimal digits denotes. */
  function DecimalValue(s: string): nat
    requires forall i :: 0 <= i < |s| ==> '0' <= s[i] <= '9'
    decreases |s|
  {
    if s == [] then 0 else 10 * DecimalValue(s[..|s| - 1]) + DigitValue(s[|s| - 1])
  }

  /** Reading back the decimal string of n gives n. */
  lemma {:induction false} DecimalRoundTrip(n: nat)
    ensures DecimalValue(DecimalString(n)) == n
    decreases n
  {
    var s := DecimalString(n);
    if n >= 10 {
      DecimalRoundTrip(n / 10);
      assert s[..|s| - 1] == DecimalString(n / 10);
    }
  }

  /** `count` copies of c. */
  function Repeat(c: char, count: nat): string {
    seq(count, _ => c)
  }

  /** String.prototype.padStart with a one-character filler (StringPad, ECMA-262 section 22.1.3.17.2):
      a string already `maxLength` long or longer is returned as it is; a shorter one gets
      fill characters in front until it is exactly `maxLength` long. */
  function PadStart(s: string, maxLength: nat, fill: char): (r: string)
    ensures |s| >= maxLength ==> r == s
    ensures |s| < maxLength ==> |r| == maxLength
    ensures r[|r| - |s|..] == s
    ensures forall i :: 0 <= i < |r| - |s| ==> r[i] == fill
  {
    if |s| >= maxLength then s else Repeat(fill, maxLength - |s|) + s
  }

  /** `n.toString().padStart(2, "0")`. */
  function TwoDigits(n: nat): string {
    PadStart(DecimalString(n), 2, '0')
  }

  /** For n below 100 the padded string is exactly the tens digit followed by the units digit. */
  lemma TwoDigitsOf(n: nat)
    requires n < 100
    ensures TwoDigits(n) == [Digit(n / 10), Digit(n % 10)]
  {
    if n >= 10 {
      assert DecimalString(n) == DecimalString(n / 10) + [Digit(n % 10)];
      assert DecimalString(n / 10) == [Digit(n / 10)];
    }
  }

  /** The "HH:MM" string the due check builds from the hours and minutes of the clock. */
  function ClockString(hours: nat, minutes: nat): string {
    TwoDigits(hours) + ":" + TwoDigits(minutes)
  }

  /** A reference reader for "HH:MM" strings with hours 00..23 and minutes 00..59 (anything else
      is None). The calendar never parses times: it compares strings with `==`. This reader
      exists to state what the formatted string means. */
  function ParseClock(s: string): Option<(nat, nat)> {
    if |s| == 5 && s[2] == ':'
       && '0' <= s[0] <= '9' && '0' <= s[1] <= '9' && '0' <= s[3] <= '9' && '0' <= s[4] <= '9'
    then
      var h := 10 * DigitValue(s[0]) + DigitValue(s[1]);
      var m := 10 * DigitValue(s[3]) + DigitValue(s[4]);
      if h <= 23 && m <= 59 then Some((h, m)) else None
    else None
  }

  /** The formatted clock, character by character. */
  lemma ClockChars(hours: nat, minutes: nat)
    requires hours <= 23 && minutes <= 59
    ensures ClockString(hours, minutes)
         == [Digit(hours / 10), Digit(hours % 10), ':', Digit(minutes / 10), Digit(minutes % 10)]
  {
    TwoDigitsOf(hours);
    TwoDigitsOf(minutes);
  }

  /** ParseClock on five characters of the "HH:MM" shape reads the digits' values. */
  lemma ParseDigits(h0: int, h1: int, m0: int, m1: int)
    requires 0 <= h0 <= 9 && 0 <= h1 <= 9 && 0 <= m0 <= 9 && 0 <= m1 <= 9
    ensures var h, m := 10 * h0 + h1, 10 * m0 + m1;
      ParseClock([Digit(h0), Digit(h1), ':', Digit(m0), Digit(m1)])
      == if h <= 23 && m <= 59 then Some((h, m)) else None
  {
    var s := [Digit(h0), Digit(h1), ':', Digit(m0), Digit(m1)];
    DigitRoundTrip(h0);
    DigitRoundTrip(h1);
    DigitRoundTrip(m0);
    DigitRoundTrip(m1);
    assert DigitValue(s[0]) == h0 && DigitValue(s[1]) == h1;
    assert DigitValue(s[3]) == m0 && DigitValue(s[4]) == m1;
  }

  /** Formatting a clock time and reading it back gives the same hours and minutes, and the
      formatted string is five characters long with the colon in the middle. */
  lemma ClockRoundTrip(hours: nat, minutes: nat)
    requires hours <= 23 && minutes <= 59
    ensures |ClockString(hours, minutes)| == 5 && ClockString(hours, minutes)[2] == ':'
    ensures ParseClock(ClockString(hours, minutes)) == Some((hours, minutes))
  {
    ClockChars(hours, minutes);
    ParseDigits(hours / 10, hours % 10, minutes / 10, minutes % 10);
  }

  lemma DigitRoundTrip(d: int)
    requires 0 <= d <= 9
    ensures DigitValue(Digit(d)) == d
  {
  }

  /** Every string ParseClock accepts is the formatted form of what it reads. */
  lemma ParseClockExact(s: string, hours: nat, minutes: nat)
    requires ParseClock(s) == Some((hours, minutes))
    ensures ClockString(hours, minutes) == s
  {
    var h0, h1, m0, m1 := ParseClockShape(s);
    ClockOfDigits(h0, h1, m0, m1);
  }

  /** A string ParseClock accepts is two digits, a colon and two digits, and it reads their
      values as hours and minutes. */
  lemma ParseClockShape(s: string) returns (h0: int, h1: int, m0: int, m1: int)
    requires ParseClock(s).Some?
    ensures 0 <= h0 <= 9 && 0 <= h1 <= 9 && 0 <= m0 <= 9 && 0 <= m1 <= 9
    ensures 10 * h0 + h1 <= 23 && 10 * m0 + m1 <= 59
    ensures s == [Digit(h0), Digit(h1), ':', Digit(m0), Digit(m1)]
    ensures ParseClock(s) == Some((10 * h0 + h1, 10 * m0 + m1))
  {
    h0, h1, m0, m1 := DigitValue(s[0]), DigitValue(s[1]), DigitValue(s[3]), DigitValue(s[4]);
    assert s == [s[0], s[1], s[2], s[3], s[4]];
  }

  /** The clock formatted from two-digit hours and minutes is those four digits and a colon. */
  lemma ClockOfDigits(h0: int, h1: int, m0: int, m1: int)
    requires 0 <= h0 <= 9 && 0 <= h1 <= 9 && 0 <= m0 <= 9 && 0 <= m1 <= 9
    requires 10 * h0 + h1 <= 23 && 10 * m0 + m1 <= 59
    ensures ClockString(10 * h0 + h1, 10 * m0 + m1) == [Digit(h0), Digit(h1), ':', Digit(m0), Digit(m1)]
  {
    DigitsOfTwo(h0, h1);
    DigitsOfTwo(m0, m1);
    ClockChars(10 * h0 + h1, 10 * m0 + m1);
  }

  /** The tens and units digits of 10 * d0 + d1 are d0 and d1. */
  lemma DigitsOfTwo(d0: int, d1: int)
    requires 0 <= d0 <= 9 && 0 <= d1 <= 9
    ensures (10 * d0 + d1) / 10 == d0 && (10 * d0 + d1) % 10 == d1
  {
  }

  /** So a string equals the formatted clock exactly when it reads back as that clock time. */
  lemma ClockStringIff(s: string, hours: nat, minutes: nat)
    requires hours <= 23 && minutes <= 59
    ensures s == ClockString(hours, minutes) <==> ParseClock(s) == Some((hours, minutes))
  {
    ClockRoundTrip(hours, minutes);
    if ParseClock(s) == Some((hours, minutes)) {
      ParseClockExact(s, hours, minutes);
    }
  }
}
