/** Rust's decimal rendering `format!("{:04}", n)` and parsing `str::parse`
    for the small integers that appear in property names. */
module Decimal {
  import opened Base

  predicate IsDigit(c: char) { '0' <= c <= '9' }

  predicate AllDigits(s: string) { forall i :: 0 <= i < |s| ==> IsDigit(s[i]) }

  function DigitChar(d: nat): (c: char)
    requires d < 10
    ensures IsDigit(c) && c as int == '0' as int + d
  {
    (('0' as int) + d) as char
  }

  function DigitVal(c: char): (d: nat)
    requires IsDigit(c)
    ensures d < 10 && d == c as int - '0' as int
  {
    (c as int) - ('0' as int)
  }

  /** The number a string of decimal digits denotes (most significant first). */
  function DigitsValue(s: string): nat
    requires AllDigits(s)
  {
    if |s| == 0 then 0 else DigitsValue(s[..|s| - 1]) * 10 + DigitVal(s[|s| - 1])
  }

  /** `format!("{:04}", n)` for `n < 10000`: exactly four digits, zero padded. */
  function Pad4(n: nat): (s: string)
    requires n < 10000
    ensures |s| == 4 && AllDigits(s)
  {
    var tens := n / 10;
    var hundreds := tens / 10;
    [DigitChar(hundreds / 10), DigitChar(hundreds % 10), DigitChar(tens % 10), DigitChar(n % 10)]
  }

  /** The unsigned part of Rust's integer `from_str`: an optional leading `+`,
      then at least one decimal digit and nothing else. A lone sign, the empty
      string and any other character are errors. */
  function ParseDigits(s: string): Option<nat>
  {
    if |s| == 0 || ((s[0] == '+' || s[0] == '-') && |s| == 1) then None
    else
      var digits := if s[0] == '+' then s[1..] else s;
      if AllDigits(digits) then Some(DigitsValue(digits)) else None
  }

  /** `s.parse::<u8>()`: as `ParseDigits`, failing on values above 255. */
  function ParseU8(s: string): (r: Option<u8>)
    ensures r.Some? <==> ParseDigits(s).Some? && ParseDigits(s).value < 0x100
    ensures r.Some? ==> r.value == ParseDigits(s).value
  {
    match ParseDigits(s)
    case Some(v) => if v < 0x100 then Some(v) else None
    case None => None
  }

  /** `s.parse::<i64>()`: a leading `-` negates; out-of-range values fail. */
  function ParseI64(s: string): (r: Option<int>)
    ensures r.Some? ==> -0x8000_0000_0000_0000 <= r.value < 0x8000_0000_0000_0000
    ensures 1 < |s| && s[0] == '-' ==>
      (r.Some? <==> s[1] != '+' && ParseDigits(s[1..]).Some? && ParseDigits(s[1..]).value <= 0x8000_0000_0000_0000) &&
      (r.Some? ==> r.value == -(ParseDigits(s[1..]).value as int))
    ensures !(1 < |s| && s[0] == '-') ==>
      (r.Some? <==> ParseDigits(s).Some? && ParseDigits(s).value < 0x8000_0000_0000_0000) &&
      (r.Some? ==> r.value == ParseDigits(s).value)
  {
    var v: Option<int> :=
      if 1 < |s| && s[0] == '-' then
        match ParseDigits(s[1..])
        case Some(m) => if s[1] == '+' then None else Some(0 - m as int)
        case None => None
      else
        match ParseDigits(s)
        case Some(m) => Some(m as int)
        case None => None;
    if v.Some? && -0x8000_0000_0000_0000 <= v.value < 0x8000_0000_0000_0000 then v else None
  }

  /** Decimal digits parse to the number they denote. */
  lemma ParseAllDigits(s: string)
    requires 0 < |s| && AllDigits(s)
    ensures ParseDigits(s) == Some(DigitsValue(s))
  {
    assert IsDigit(s[0]);
  }

  lemma FourDigitsValue(s: string)
    requires |s| == 4 && AllDigits(s)
    ensures DigitsValue(s) ==
      ((DigitVal(s[0]) * 10 + DigitVal(s[1])) * 10 + DigitVal(s[2])) * 10 + DigitVal(s[3])
  {
    assert DigitsValue(s[..1]) == DigitVal(s[0]) by { assert s[..1][..0] == []; }
    assert DigitsValue(s[..2]) == DigitsValue(s[..1]) * 10 + DigitVal(s[1]) by { assert s[..2][..1] == s[..1]; }
    assert DigitsValue(s[..3]) == DigitsValue(s[..2]) * 10 + DigitVal(s[2]) by { assert s[..3][..2] == s[..2]; }
    assert s[..4] == s;
    assert s[..4][..3] == s[..3];
  }

  /** Parsing a padded rendering gives the number back. */
  lemma ParsePad4(n: nat)
    requires n < 10000
    ensures ParseDigits(Pad4(n)) == Some(n)
    ensures n < 0x100 ==> ParseU8(Pad4(n)) == Some(n)
    ensures ParseI64(Pad4(n)) == Some(n)
  {
    var s := Pad4(n);
    FourDigitsValue(s);
    var tens := n / 10;
    var hundreds := tens / 10;
    assert n == tens * 10 + n % 10;
    assert tens == hundreds * 10 + tens % 10;
    assert hundreds == hundreds / 10 * 10 + hundreds % 10;
    assert DigitsValue(s) == n;
  }

  /** Rendering a parsed four-digit string gives the string back. */
  lemma Pad4Parse(s: string)
    requires |s| == 4 && AllDigits(s)
    ensures DigitsValue(s) < 10000 && Pad4(DigitsValue(s)) == s
  {
    FourDigitsValue(s);
    var a, b, c, d := DigitVal(s[0]), DigitVal(s[1]), DigitVal(s[2]), DigitVal(s[3]);
    var hundreds := a * 10 + b;
    var tens := hundreds * 10 + c;
    var n := tens * 10 + d;
    assert n / 10 == tens && n % 10 == d;
    assert tens / 10 == hundreds && tens % 10 == c;
    assert hundreds / 10 == a && hundreds % 10 == b;
    assert Pad4(n) == [DigitChar(a), DigitChar(b), DigitChar(c), DigitChar(d)];
  }

  /** Four decimal digits that parse as a byte are that byte's padded text. */
  lemma ParsedPad4(s: string, v: u8)
    requires |s| == 4 && AllDigits(s) && ParseU8(s) == Some(v)
    ensures Pad4(v as nat) == s
  {
    ParseAllDigits(s);
    Pad4Parse(s);
  }

  /** A string that ends in `.` never parses as a number. */
  lemma ParseFailsOnTrailingDot(s: string)
    requires 0 < |s| && s[|s| - 1] == '.'
    ensures ParseDigits(s) == None && ParseU8(s) == None
  {
    if |s| > 1 || s[0] != '+' {
      var digits := if s[0] == '+' then s[1..] else s;
      assert digits[|digits| - 1] == '.';
    }
  }
}
