/**
 * Decimal formatting and parsing of 32-bit integers as the program uses them:
 * `Convert.ToString(n)`, `String.Format("{0:00}", n)`, `Convert.ToInt32(s)`
 * (which throws on bad input) and `Int32.TryParse(s, out n)` (which yields 0).
 * Only the invariant-culture signs `+` and `-` and ASCII digits are modelled.
 */
module Numbers {
  import opened Wrappers
  import opened Text

  const INT32_MIN: int := -0x8000_0000
  const INT32_MAX: int := 0x7fff_ffff

  predicate IsDigit(c: char) {
    '0' <= c <= '9'
  }

  predicate AllDigits(s: string) {
    forall i :: 0 <= i < |s| ==> IsDigit(s[i])
  }

  function DigitChar(d: nat): (c: char)
    requires d < 10
    ensures IsDigit(c)
  {
    ('0' as int + d) as char
  }

  /** The length of the run of digits at the front of `s`. */
  function DigitRun(s: string): (n: nat)
    ensures n <= |s|
    ensures n < |s| ==> !IsDigit(s[n])
    decreases |s|
  {
    if |s| == 0 || !IsDigit(s[0]) then 0 else 1 + DigitRun(s[1..])
  }

  /** The run holds digits only. */
  lemma {:induction false} DigitRunDigits(s: string)
    ensures AllDigits(s[..DigitRun(s)])
    decreases |s|
  {
    if |s| > 0 && IsDigit(s[0]) {
      DigitRunDigits(s[1..]);
      assert forall k :: 1 <= k < DigitRun(s) ==> s[..DigitRun(s)][k] == s[1..][..DigitRun(s[1..])][k - 1];
    }
  }

  /** A non-empty run of digits and nothing else. */
  predicate Numeral(s: string)
    decreases |s|
  {
    |s| > 0 && IsDigit(s[0]) && (|s| == 1 || Numeral(s[1..]))
  }

  lemma {:induction false} NumeralDigits(s: string)
    ensures Numeral(s) <==> |s| > 0 && AllDigits(s)
    decreases |s|
  {
    if |s| > 1 {
      NumeralDigits(s[1..]);
      assert forall i :: 1 <= i < |s| ==> s[i] == s[1..][i - 1];
    }
  }

  /** The value of a string of decimal digits, most significant first. */
  function DigitsValue(s: string): nat
    requires AllDigits(s)
    decreases |s|
  {
    if |s| == 0 then 0 else DigitsValue(s[..|s| - 1]) * 10 + (s[|s| - 1] as int - '0' as int)
  }

  /** The shortest decimal form of `n`: no leading zero except for 0 itself. */
  function NatToString(n: nat): (r: string)
    ensures |r| > 0 && AllDigits(r) && DigitsValue(r) == n
    ensures r[0] == '0' ==> n == 0 && |r| == 1
    decreases n
  {
    if n < 10 then [DigitChar(n)]
    else
      var r := NatToString(n / 10) + [DigitChar(n % 10)];
      assert r[..|r| - 1] == NatToString(n / 10);
      r
  }

  /** `Convert.ToString(n)`. */
  function IntToString(n: int): string {
    if n < 0 then "-" + NatToString(-n) else NatToString(n)
  }

  /** `String.Format("{0:00}", n)` for a non-negative `n`. */
  function Pad2Nat(n: nat): (r: string)
    ensures |r| >= 2 && AllDigits(r) && DigitsValue(r) == n
    ensures |r| == if n < 10 then 2 else |NatToString(n)|
  {
    if n < 10 then
      var r := "0" + NatToString(n);
      assert r[..|r| - 1] == "0";
      assert DigitsValue("0") == 0 by { assert "0"[..0] == ""; }
      r
    else NatToString(n)
  }

  /** `String.Format("{0:00}", n)`: at least two digits, a minus sign in front when negative. */
  function Pad2(n: int): string {
    if n < 0 then "-" + Pad2Nat(-n) else Pad2Nat(n)
  }

  /** `Int32.Parse(s)` with `NumberStyles.Integer`: white space around an optional
      sign and at least one digit, the value within 32 bits; `None` where .NET throws. */
  function ParseInt32(s: string): (r: Option<int>)
    ensures r.Some? ==> INT32_MIN <= r.value <= INT32_MAX
  {
    ReadSigned(Trim(s))
  }

  /** The parse of the trimmed text: an optional sign, then digits only. */
  function ReadSigned(t: string): (r: Option<int>)
    ensures r.Some? ==> INT32_MIN <= r.value <= INT32_MAX
  {
    var signed := |t| > 0 && (t[0] == '-' || t[0] == '+');
    var body := if signed then t[1..] else t;
    if !Numeral(body) then None
    else
      NumeralDigits(body);
      var d: int := DigitsValue(body);
      var v := if signed && t[0] == '-' then -d else d;
      if INT32_MIN <= v <= INT32_MAX then Some(v) else None
  }

  /** `Int32.TryParse(s, out n)` where the program ignores the success flag: 0 on failure. */
  function TryParseInt32(s: string): int {
    ParseInt32(s).GetOr(0)
  }

  // ---------------------------------------------------------------------------

  lemma DigitsAreNotWhite(s: string)
    requires |s| > 0 && AllDigits(s)
    ensures s[0] !in WHITESPACE && s[|s| - 1] !in WHITESPACE
  {
  }

  /** A bare run of digits parses to its value. */
  lemma ParseDigits(s: string)
    requires |s| > 0 && AllDigits(s) && DigitsValue(s) <= INT32_MAX
    ensures ParseInt32(s) == Some(DigitsValue(s))
  {
    DigitsAreNotWhite(s);
    TrimUntouched(s, WHITESPACE);
    NumeralDigits(s);
  }

  /** A minus sign followed by digits parses to the negated value. */
  lemma ParseNegativeDigits(s: string)
    requires |s| > 0 && AllDigits(s) && DigitsValue(s) <= -INT32_MIN
    ensures ParseInt32("-" + s) == Some(0 - DigitsValue(s) as int)
  {
    var m := "-" + s;
    DigitsAreNotWhite(s);
    assert m[0] == '-' && m[|m| - 1] == s[|s| - 1];
    TrimUntouched(m, WHITESPACE);
    assert m[1..] == s;
    NumeralDigits(s);
  }

  /** Formatting and then parsing gives the number back, in the 32-bit range. */
  lemma ParseIntToString(n: int)
    requires INT32_MIN <= n <= INT32_MAX
    ensures ParseInt32(IntToString(n)) == Some(n)
  {
    if n < 0 {
      ParseNegativeDigits(NatToString(-n));
    } else {
      ParseDigits(NatToString(n));
    }
  }

  /** The zero-padded form parses back to the same number. */
  lemma ParsePad2(n: int)
    requires INT32_MIN <= n <= INT32_MAX
    ensures ParseInt32(Pad2(n)) == Some(n)
  {
    if n < 0 {
      ParseNegativeDigits(Pad2Nat(-n));
    } else {
      ParseDigits(Pad2Nat(n));
    }
  }

  /** Padding only adds a leading zero to a single digit: 3 becomes "03", 12 stays "12". */
  lemma Pad2Shape(n: nat)
    ensures Pad2(n) == if n < 10 then "0" + IntToString(n) else IntToString(n)
  {
  }

  /** A number field holding a character that is neither a digit, a sign nor white space reads as 0. */
  lemma TryParseNonNumeric(s: string, i: nat)
    requires i < |s| && !IsDigit(s[i]) && s[i] !in WHITESPACE && s[i] != '-' && s[i] != '+'
    ensures TryParseInt32(s) == 0
  {
    var t := Trim(s);
    TrimKeeps(s, WHITESPACE, s[i]);
    assert ParseInt32(s) == ReadSigned(t);
    var k :| 0 <= k < |t| && t[k] == s[i];
    var signed := |t| > 0 && (t[0] == '-' || t[0] == '+');
    var body := if signed then t[1..] else t;
    if signed {
      assert k > 0 && body[k - 1] == s[i];
    } else {
      assert body[k] == s[i];
    }
    NumeralDigits(body);
  }

  lemma PercentNotInNumbers(n: int)
    ensures '%' !in IntToString(n) && '%' !in Pad2(n)
  {
  }
}
