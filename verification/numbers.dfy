/** Decimal formatting and parsing of integers: `Int32.ToString()` as used
    by string interpolation, and `int.TryParse` with the default
    `NumberStyles.Integer` (surrounding white space, one sign, digits, and
    the 32-bit range). */
module Numbers {
  import opened Wrappers

  const MinInt32: int := -0x8000_0000
  const MaxInt32: int := 0x7FFF_FFFF

  predicate IsDigit(c: char) {
    '0' <= c <= '9'
  }

  predicate AllDigits(s: string) {
    forall k :: 0 <= k < |s| ==> IsDigit(s[k])
  }

  function DigitChar(d: nat): (c: char)
    requires d < 10
    ensures IsDigit(c)
  {
    (48 + d) as char
  }

  function DigitValue(c: char): (d: nat)
    requires IsDigit(c)
    ensures d < 10 && DigitChar(d) == c
  {
    c as int - 48
  }

  /** The decimal digits of `n`, most significant first, with no leading
      zero. */
  function NatToString(n: nat): (s: string)
    ensures |s| >= 1 && AllDigits(s)
    ensures |s| > 1 ==> s[0] != '0'
  {
    if n < 10 then [DigitChar(n)] else NatToString(n / 10) + [DigitChar(n % 10)]
  }

  /** The number a string of decimal digits denotes. */
  function DigitsValue(s: string): nat
    requires AllDigits(s)
  {
    if |s| == 0 then 0 else DigitsValue(s[..|s| - 1]) * 10 + DigitValue(s[|s| - 1])
  }

  lemma {:induction false} DigitsOfNat(n: nat)
    ensures DigitsValue(NatToString(n)) == n
  {
    if n >= 10 {
      var s := NatToString(n);
      assert s[..|s| - 1] == NatToString(n / 10);
      DigitsOfNat(n / 10);
    }
  }

  /** `n.ToString()`: a minus sign for negative numbers, then the digits. */
  function IntToString(n: int): (s: string)
    ensures |s| >= 1
    ensures n >= 0 <==> AllDigits(s)
  {
    if n < 0 then
      var s := "-" + NatToString(-n);
      assert !IsDigit(s[0]);
      s
    else NatToString(n)
  }

  /** Reads back what `IntToString` writes: an optional minus sign followed
      by at least one digit. */
  function ParseInt(s: string): Option<int> {
    if |s| > 0 && s[0] == '-' then
      if |s| > 1 && AllDigits(s[1..]) then Some(-(DigitsValue(s[1..]) as int)) else None
    else if |s| > 0 && AllDigits(s) then Some(DigitsValue(s))
    else None
  }

  lemma IntToStringRoundTrip(n: int)
    ensures ParseInt(IntToString(n)) == Some(n)
  {
    var s := IntToString(n);
    if n < 0 {
      assert s[0] == '-' && s[1..] == NatToString(-n);
      DigitsOfNat(-n);
    } else {
      assert s == NatToString(n);
      assert s[0] != '-';
      DigitsOfNat(n);
    }
  }

  /** `IntToString` writes digits and, for a negative number, one leading
      minus sign: no other character. */
  lemma IntToStringAlphabet(n: int)
    ensures forall k :: 0 <= k < |IntToString(n)| ==> IsDigit(IntToString(n)[k]) || IntToString(n)[k] == '-'
  {
    if n < 0 {
      var d := NatToString(-n);
      assert IntToString(n) == "-" + d;
      assert forall k :: 1 <= k < |d| + 1 ==> ("-" + d)[k] == d[k - 1];
    }
  }

  /** The white space `NumberStyles.AllowLeadingWhite`/`AllowTrailingWhite`
      admit: U+0009..U+000D and U+0020. */
  predicate IsNumberWhite(c: char) {
    c == ' ' || ('\t' <= c <= '\r')
  }

  function StripNumberWhite(s: string): (r: string)
    ensures |r| <= |s|
    ensures (forall k :: 0 <= k < |s| ==> !IsNumberWhite(s[k])) ==> r == s
    decreases |s|
  {
    if |s| > 0 && IsNumberWhite(s[0]) then StripNumberWhite(s[1..])
    else if |s| > 0 && IsNumberWhite(s[|s| - 1]) then StripNumberWhite(s[..|s| - 1])
    else s
  }

  /** `int.TryParse(s, out v)`: the value when `s` is white space, one
      optional sign and at least one digit, and the value fits 32 bits. */
  function TryParseInt32(s: Option<string>): (r: Option<int>)
    ensures r.Some? ==> MinInt32 <= r.value <= MaxInt32
  {
    if s.None? then None
    else
      var t := StripNumberWhite(s.value);
      var negative := |t| > 0 && t[0] == '-';
      var body := if |t| > 0 && (t[0] == '-' || t[0] == '+') then t[1..] else t;
      if |body| == 0 || !AllDigits(body) then None
      else
        var v: int := if negative then -(DigitsValue(body) as int) else DigitsValue(body);
        if MinInt32 <= v <= MaxInt32 then Some(v) else None
  }

  /** What `Int32.ToString()` writes, `int.TryParse` reads back. */
  lemma TryParseInt32RoundTrip(n: int)
    requires MinInt32 <= n <= MaxInt32
    ensures TryParseInt32(Some(IntToString(n))) == Some(n)
  {
    var s := IntToString(n);
    if n < 0 {
      assert s[1..] == NatToString(-n);
      assert forall k :: 0 <= k < |s| ==> !IsNumberWhite(s[k]);
      DigitsOfNat(-n);
    } else {
      DigitsOfNat(n);
    }
  }
}
