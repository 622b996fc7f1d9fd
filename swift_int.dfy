/**
  Swift's failable conversion `Int(_: String)` on a 64-bit platform: an
  optional `+` or `-`, then one or more ASCII decimal digits and nothing else;
  a value outside the range of `Int` gives `nil`. `Format` (what `String(n)`
  writes) is its partner: reading back what was written gives the number.
*/
module SwiftInt {
  import opened Wrappers

  const INT_MIN: int := -0x8000_0000_0000_0000
  const INT_MAX: int := 0x7FFF_FFFF_FFFF_FFFF

  predicate InRange(n: int)
  {
    INT_MIN <= n <= INT_MAX
  }

  predicate IsDigit(c: char)
  {
    '0' <= c <= '9'
  }

  predicate AllDigits(s: string)
  {
    forall i :: 0 <= i < |s| ==> IsDigit(s[i])
  }

  /** The value of a run of decimal digits, most significant first. */
  function DigitsValue(ds: string): nat
    requires AllDigits(ds)
  {
    if ds == [] then 0
    else DigitsValue(ds[..|ds| - 1]) * 10 + (ds[|ds| - 1] as int - '0' as int)
  }

  /** `Int(s)`: `None` where Swift gives `nil`. */
  function Parse(s: string): (r: Option<int>)
    ensures r.Some? ==> InRange(r.value)
    ensures r.Some? ==> |s| >= 1 && IsDigit(s[|s| - 1])
    ensures r.Some? ==> AllDigits(s[1..]) && (IsDigit(s[0]) || s[0] == '+' || s[0] == '-')
  {
    var negative := |s| > 0 && s[0] == '-';
    var digits := if |s| > 0 && (s[0] == '-' || s[0] == '+') then s[1..] else s;
    if digits == [] || !AllDigits(digits) then None
    else
      var magnitude: int := DigitsValue(digits);
      var v := if negative then -magnitude else magnitude;
      if InRange(v) then Some(v) else None
  }

  function DigitChar(d: int): (c: char)
    requires 0 <= d < 10
    ensures IsDigit(c) && c as int - '0' as int == d
  {
    (d + '0' as int) as char
  }

  /** The shortest decimal digits of `n`. */
  function FormatNat(n: nat): (ds: string)
    ensures |ds| >= 1 && AllDigits(ds)
  {
    if n < 10 then [DigitChar(n)] else FormatNat(n / 10) + [DigitChar(n % 10)]
  }

  /** `String(n)`: a `-` for negative numbers, then the digits of the magnitude. */
  function Format(n: int): string
  {
    if n < 0 then "-" + FormatNat(-n) else FormatNat(n)
  }

  lemma {:induction false} DigitsValueFormatNat(n: nat)
    ensures DigitsValue(FormatNat(n)) == n
  {
    if n >= 10 {
      var ds := FormatNat(n);
      DigitsValueFormatNat(n / 10);
      assert ds[..|ds| - 1] == FormatNat(n / 10);
    }
  }

  /** Reading back the decimal text of any `Int` gives that `Int`. */
  lemma ParseFormat(n: int)
    requires InRange(n)
    ensures Parse(Format(n)) == Some(n)
  {
    DigitsValueFormatNat(if n < 0 then -n else n);
    if n < 0 {
      assert Format(n)[1..] == FormatNat(-n);
    }
  }

  /** The text `String(n)` writes is never empty and never holds a line break. */
  lemma FormatHasNoNewline(n: int)
    ensures Format(n) != "" && '\n' !in Format(n)
  {
    var ds := FormatNat(if n < 0 then -n else n);
    assert forall i :: 0 <= i < |ds| ==> ds[i] != '\n';
    if n < 0 {
      assert forall i :: 1 <= i < |Format(n)| ==> Format(n)[i] == ds[i - 1];
    }
  }
}
