/** The two string helpers of `src/lib/utils.ts`: phone-number cleaning and
    validation, and the `m:ss` countdown formatter, together with the decimal
    digit conversions they rely on. */
module Utils {
  import opened Common

  // ---------------------------------------------------------------------
  // Decimal digits
  // ---------------------------------------------------------------------

  /** The regular-expression class `\d` (ASCII digits only, no `u` flag). */
  predicate IsDigit(c: char) { '0' <= c <= '9' }

  predicate AllDigits(s: string) { forall i :: 0 <= i < |s| ==> IsDigit(s[i]) }

  function DigitChar(d: int): (c: char)
    requires 0 <= d <= 9
    ensures IsDigit(c) && DigitValue(c) == d
  {
    ('0' as int + d) as char
  }

  function DigitValue(c: char): int requires IsDigit(c) { c as int - '0' as int }

  /** Value of a string of decimal digits, most significant first. */
  function DigitsValue(s: string): (v: nat)
    requires AllDigits(s)
  {
    if s == [] then 0 else DigitsValue(s[..|s| - 1]) * 10 + DigitValue(s[|s| - 1])
  }

  /** `Number.prototype.toString()` for a non-negative integer. */
  function NatToString(n: nat): (s: string)
    ensures |s| >= 1 && AllDigits(s)
    ensures n < 10 <==> |s| == 1
  {
    if n < 10 then [DigitChar(n)] else NatToString(n / 10) + [DigitChar(n % 10)]
  }

  /** `Number.prototype.toString()` for any integer. */
  function IntToString(i: int): (s: string)
    ensures |s| >= 1
    ensures i >= 0 ==> AllDigits(s) && DigitsValue(s) == i
    ensures i < 0 ==> s[0] == '-' && AllDigits(s[1..]) && DigitsValue(s[1..]) == -i
  {
    if i < 0 then
      NatToStringRoundTrip(-i);
      assert ("-" + NatToString(-i))[1..] == NatToString(-i);
      "-" + NatToString(-i)
    else
      NatToStringRoundTrip(i);
      NatToString(i)
  }

  /** Reading back the digits `NatToString` writes gives the number. */
  lemma {:induction false} NatToStringRoundTrip(n: nat)
    ensures DigitsValue(NatToString(n)) == n
  {
    if n >= 10 {
      var s := NatToString(n / 10) + [DigitChar(n % 10)];
      assert s[..|s| - 1] == NatToString(n / 10);
      NatToStringRoundTrip(n / 10);
    }
  }

  // ---------------------------------------------------------------------
  // validatePhoneNumber
  // ---------------------------------------------------------------------

  /** The characters the class `[\d+]` keeps. */
  predicate IsPhoneChar(c: char) { IsDigit(c) || c == '+' }

  predicate AllPhoneChars(s: string) { forall i :: 0 <= i < |s| ==> IsPhoneChar(s[i]) }

  /** `phone.replace(/[^\d+]/g, "")`: every character outside `[\d+]` is
      removed, so the result holds only digits and `+`. */
  function Clean(s: string): (r: string)
    ensures AllPhoneChars(r)
    ensures |r| <= |s|
  {
    if s == [] then [] else (if IsPhoneChar(s[0]) then [s[0]] else []) + Clean(s[1..])
  }

  /** Every digit and `+` of the input survives cleaning, as often as it
      occurs in the input. */
  lemma {:induction false} CleanKeepsPhoneChars(s: string, c: char)
    requires IsPhoneChar(c)
    ensures multiset(Clean(s))[c] == multiset(s)[c]
  {
    if s != [] {
      assert s == [s[0]] + s[1..];
      CleanKeepsPhoneChars(s[1..], c);
    }
  }

  /** Cleaning works character by character and keeps the order: together
      with `Clean([c])` being `[c]` or `[]`, this pins the result down as the
      input with the other characters deleted. */
  lemma {:induction false} CleanAppend(a: string, b: string)
    ensures Clean(a + b) == Clean(a) + Clean(b)
  {
    if a != [] {
      assert (a + b)[0] == a[0];
      assert (a + b)[1..] == a[1..] + b;
      CleanAppend(a[1..], b);
    } else {
      assert a + b == b;
    }
  }

  /** A string made only of digits and `+` is left as it is. */
  lemma {:induction false} CleanKeepsPhoneStrings(t: string)
    requires AllPhoneChars(t)
    ensures Clean(t) == t
  {
    if t != [] {
      CleanKeepsPhoneStrings(t[1..]);
    }
  }

  /** Cleaning twice is cleaning once. */
  lemma CleanIdempotent(s: string)
    ensures Clean(Clean(s)) == Clean(s)
  {
    CleanKeepsPhoneStrings(Clean(s));
  }

  /** `/^\+\d{11,15}$/`: a `+` followed by 11 to 15 digits and nothing else. */
  ghost predicate MatchesPhonePattern(t: string)
  {
    exists digits :: t == "+" + digits && 11 <= |digits| <= 15 && AllDigits(digits)
  }

  datatype PhoneCheck = PhoneCheck(isValid: bool, formattedNumber: string)

  /** `validatePhoneNumber`: the cleaned string, and whether it matches the
      pattern. The formatted number is the cleaned string whether or not it
      is valid; a valid one is 12 to 16 characters long and holds exactly
      one `+`, in front. */
  function ValidatePhoneNumber(phone: string): (r: PhoneCheck)
    ensures r.formattedNumber == Clean(phone)
    ensures r.isValid <==> MatchesPhonePattern(Clean(phone))
    ensures r.isValid <==>
              12 <= |r.formattedNumber| <= 16 && r.formattedNumber[0] == '+' &&
              multiset(r.formattedNumber)['+'] == 1
  {
    var cleaned := Clean(phone);
    var isValid := PatternTest(cleaned);
    PatternShape(cleaned);
    PhoneCheck(isValid, cleaned)
  }

  /** The pattern test as a scan of the string. */
  function PatternTest(t: string): (b: bool)
    ensures b <==> MatchesPhonePattern(t)
  {
    if |t| >= 1 && t[0] == '+' && 12 <= |t| <= 16 && AllDigits(t[1..]) then
      assert t == "+" + t[1..];
      true
    else
      assert forall d :: t == "+" + d ==> d == t[1..];
      false
  }

  /** For a cleaned string, matching the pattern is a matter of its length and
      of holding a single `+`, which comes first. */
  lemma PatternShape(t: string)
    requires AllPhoneChars(t)
    ensures MatchesPhonePattern(t) <==>
              12 <= |t| <= 16 && t[0] == '+' && multiset(t)['+'] == 1
  {
    if |t| >= 1 && t[0] == '+' {
      assert t == [t[0]] + t[1..];
      assert multiset(t)['+'] == 1 + multiset(t[1..])['+'];
      if AllDigits(t[1..]) {
        assert '+' !in t[1..];
      } else {
        var i :| 0 <= i < |t[1..]| && !IsDigit(t[1..][i]);
        assert t[1..][i] == '+';
        assert '+' in multiset(t[1..]);
      }
      assert PatternTest(t) == MatchesPhonePattern(t);
    } else {
      assert !PatternTest(t);
    }
  }

  /** Formatting characters in the input never change the verdict. */
  lemma ValidationIgnoresFormatting(phone: string)
    ensures ValidatePhoneNumber(Clean(phone)) == ValidatePhoneNumber(phone)
  {
    CleanIdempotent(phone);
  }

  // ---------------------------------------------------------------------
  // formatTimeLeft
  // ---------------------------------------------------------------------

  /** JavaScript's `%`: the remainder takes the sign of the dividend. */
  function JsRem(a: int, b: int): (r: int)
    requires b > 0
    ensures a >= 0 ==> r == a % b
    ensures (a - r) % b == 0
    ensures -b < r < b && (a >= 0 ==> r >= 0) && (a < 0 ==> r <= 0)
  {
    if a >= 0 then
      assert a == (a / b) * b + a % b;
      MultipleMod(a / b, b);
      a % b
    else
      var q, m := (-a) / b, (-a) % b;
      assert -a == q * b + m;
      assert (-q) * b == -(q * b);
      MultipleMod(-q, b);
      -m
  }

  /** `s.padStart(2, "0")`. */
  function PadStart2(s: string): (r: string)
    ensures |r| == if |s| < 2 then 2 else |s|
    ensures r[|r| - |s|..] == s
    ensures forall i :: 0 <= i < |r| - |s| ==> r[i] == '0'
  {
    if |s| == 0 then "00" else if |s| == 1 then "0" + s else s
  }

  /** Two decimal digits, tens first. */
  function TwoDigits(n: int): (s: string)
    requires 0 <= n < 100
    ensures |s| == 2 && AllDigits(s) && DigitsValue(s) == n
  {
    var s := [DigitChar(n / 10), DigitChar(n % 10)];
    assert s[..1] == [DigitChar(n / 10)] && s[..1][..0] == [];
    assert DigitsValue(s[..1]) == n / 10;
    assert DigitsValue(s) == (n / 10) * 10 + n % 10;
    s
  }

  /** `formatTimeLeft(seconds)`: `Math.floor(seconds / 60)`, a colon, and the
      remainder padded to two characters. For a non-negative count this is
      the whole minutes and exactly two digits of seconds below 60. */
  function FormatTimeLeft(seconds: int): (r: string)
    ensures seconds >= 0 ==> r == NatToString(seconds / 60) + ":" + TwoDigits(seconds % 60)
  {
    PadTwoDigits(JsRem(seconds, 60));
    IntToString(seconds / 60) + ":" + PadStart2(IntToString(JsRem(seconds, 60)))
  }

  /** A remainder below 100 is padded to exactly its two digits. */
  lemma PadTwoDigits(n: int)
    ensures 0 <= n < 100 ==> PadStart2(IntToString(n)) == TwoDigits(n)
  {
    if 10 <= n < 100 {
      assert NatToString(n / 10) == [DigitChar(n / 10)];
    }
  }

  /** Reads an `m:ss` string back into seconds. */
  function ParseTimeLeft(t: string): Option<int>
  {
    if |t| >= 4 && t[|t| - 3] == ':' && AllDigits(t[..|t| - 3]) && AllDigits(t[|t| - 2..]) then
      var ss := DigitsValue(t[|t| - 2..]);
      if ss < 60 then Some(DigitsValue(t[..|t| - 3]) * 60 + ss) else None
    else None
  }

  /** Parsing the formatted countdown gives back the number of seconds. */
  lemma FormatTimeLeftRoundTrip(seconds: nat)
    ensures ParseTimeLeft(FormatTimeLeft(seconds)) == Some(seconds)
  {
    var minutes, rest := seconds / 60, seconds % 60;
    var t := NatToString(minutes) + ":" + TwoDigits(rest);
    NatToStringRoundTrip(minutes);
    ParseJoined(NatToString(minutes), TwoDigits(rest));
    assert ParseTimeLeft(t) == Some(seconds);
    assert FormatTimeLeft(seconds) == t;
  }

  /** Digits, a colon and two digits of seconds read back as minutes and
      seconds. */
  lemma ParseJoined(m: string, ss: string)
    requires |m| >= 1 && AllDigits(m) && |ss| == 2 && AllDigits(ss) && DigitsValue(ss) < 60
    ensures ParseTimeLeft(m + ":" + ss) == Some(DigitsValue(m) * 60 + DigitsValue(ss))
  {
    var t := m + ":" + ss;
    assert t[..|t| - 3] == m;
    assert t[|t| - 2..] == ss;
  }

  /** A negative count is formatted with a floored minute and a negative
      remainder, as JavaScript computes them. */
  lemma FormatTimeLeftNegative()
    ensures FormatTimeLeft(-5) == "-1:-5"
  {
    assert -5 / 60 == -1;
    assert NatToString(1) == "1";
    assert NatToString(5) == "5";
  }
  // ---------------------------------------------------------------------
  // String.prototype.trim
  // ---------------------------------------------------------------------

  /** The white space and line terminators `trim` removes: tab, vertical
      tab, form feed, space, no-break space, byte order mark, the other
      space separators of Unicode, and the four line terminators. */
  predicate IsJsWhitespace(c: char)
  {
    c == '\t' || c == '\n' || c == '\U{000B}' || c == '\U{000C}' || c == '\r' || c == ' ' ||
    c == '\U{00A0}' || c == '\U{1680}' || ('\U{2000}' <= c <= '\U{200A}') ||
    c == '\U{2028}' || c == '\U{2029}' || c == '\U{202F}' || c == '\U{205F}' ||
    c == '\U{3000}' || c == '\U{FEFF}'
  }

  /** The index of the first character at or after `i` that is not white
      space, or `|s|`. */
  function SkipLeading(s: string, i: nat): (k: nat)
    requires i <= |s|
    ensures i <= k <= |s|
    ensures forall j :: i <= j < k ==> IsJsWhitespace(s[j])
    ensures k < |s| ==> !IsJsWhitespace(s[k])
    decreases |s| - i
  {
    if i < |s| && IsJsWhitespace(s[i]) then SkipLeading(s, i + 1) else i
  }

  /** The end of `s[..e]` once its trailing white space is dropped. */
  function SkipTrailing(s: string, e: nat): (k: nat)
    requires e <= |s|
    ensures k <= e
    ensures forall j :: k <= j < e ==> IsJsWhitespace(s[j])
    ensures k > 0 ==> !IsJsWhitespace(s[k - 1])
  {
    if e > 0 && IsJsWhitespace(s[e - 1]) then SkipTrailing(s, e - 1) else e
  }

  /** `s.trimStart()`: the suffix left after the leading white space. */
  function TrimStart(s: string): (r: string)
    ensures |r| <= |s| && r == s[|s| - |r|..]
    ensures forall i :: 0 <= i < |s| - |r| ==> IsJsWhitespace(s[i])
    ensures r != [] ==> !IsJsWhitespace(r[0])
  {
    s[SkipLeading(s, 0)..]
  }

  /** White space followed by text that does not start with white space
      trims to that text. */
  lemma TrimStartAfterBlanks(w: string, rest: string)
    requires forall i :: 0 <= i < |w| ==> IsJsWhitespace(w[i])
    requires rest == [] || !IsJsWhitespace(rest[0])
    ensures TrimStart(w + rest) == rest
  {
    var s := w + rest;
    assert s[|w|..] == rest;
  }

  /** `s.trim()`: white space removed from both ends. The result is the
      infix of `s` that starts at its first character that is not white space
      and ends after its last one; all of `s` outside it is white space. */
  function Trim(s: string): (r: string)
    ensures var a := SkipLeading(s, 0); a + |r| <= |s| && r == s[a..a + |r|]
    ensures forall i :: 0 <= i < SkipLeading(s, 0) ==> IsJsWhitespace(s[i])
    ensures forall i :: SkipLeading(s, 0) + |r| <= i < |s| ==> IsJsWhitespace(s[i])
    ensures r != [] ==> !IsJsWhitespace(r[0]) && !IsJsWhitespace(r[|r| - 1])
  {
    var a, b := SkipLeading(s, 0), SkipTrailing(s, |s|);
    if b <= a then [] else s[a..b]
  }

  /** Trimming leaves nothing exactly when the string is all white space. */
  lemma TrimEmptyIffBlank(s: string)
    ensures Trim(s) == "" <==> forall i :: 0 <= i < |s| ==> IsJsWhitespace(s[i])
  {
    if !forall i :: 0 <= i < |s| ==> IsJsWhitespace(s[i]) {
      var i :| 0 <= i < |s| && !IsJsWhitespace(s[i]);
      assert SkipLeading(s, 0) <= i < SkipTrailing(s, |s|);
    }
  }
}
