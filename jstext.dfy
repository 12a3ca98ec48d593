/** The few JavaScript string operations the popup uses on numbers:
    `parseInt`, `Number.prototype.toString` (for integers) and `padStart`. */
module JsText {
  import opened Chrome

  predicate IsDigit(c: char)
  {
    '0' <= c <= '9'
  }

  predicate AllDigits(s: string)
  {
    forall i :: 0 <= i < |s| ==> IsDigit(s[i])
  }

  /** The white space `parseInt` skips before the number (the ASCII part of it). */
  predicate IsSpace(c: char)
  {
    c == ' ' || 9 <= c as int <= 13
  }

  function DigitChar(d: int): (c: char)
    requires 0 <= d <= 9
    ensures IsDigit(c)
  {
    ('0' as int + d) as char
  }

  function DigitValue(c: char): (d: int)
    requires IsDigit(c)
    ensures 0 <= d <= 9
  {
    c as int - '0' as int
  }

  /** Decimal notation of a natural number, without leading zeros. */
  function NatToString(n: nat): (s: string)
    ensures |s| >= 1 && AllDigits(s)
    ensures (|s| == 1) == (n < 10)
    decreases n
  {
    if n < 10 then [DigitChar(n)] else NatToString(n / 10) + [DigitChar(n % 10)]
  }

  /** `n.toString()` for an integral number: a minus sign exactly for
      negative numbers, then decimal digits. */
  function IntToString(n: int): (r: string)
    ensures |r| >= 1 && (r[0] == '-' <==> n < 0)
    ensures n >= 0 ==> AllDigits(r)
    ensures n < 0 ==> |r| >= 2 && AllDigits(r[1..])
  {
    if n < 0 then "-" + NatToString(-n) else NatToString(n)
  }

  /** The number a run of decimal digits denotes. */
  function DigitsValue(s: string): nat
    requires AllDigits(s)
  {
    if s == [] then 0 else DigitsValue(s[..|s| - 1]) * 10 + DigitValue(s[|s| - 1])
  }

  /** The longest prefix of `s` made of digits. */
  function LeadingDigits(s: string): (r: string)
    ensures AllDigits(r) && r <= s
    ensures |r| < |s| ==> !IsDigit(s[|r|])
  {
    if s == [] || !IsDigit(s[0]) then [] else [s[0]] + LeadingDigits(s[1..])
  }

  /** `s` without its leading white space: only white space is removed, and
      what is left does not start with any. */
  function TrimStart(s: string): (r: string)
    ensures |r| <= |s|
    ensures forall i :: 0 <= i < |s| - |r| ==> IsSpace(s[i])
    ensures r != [] ==> !IsSpace(r[0])
  {
    if s != [] && IsSpace(s[0]) then TrimStart(s[1..]) else s
  }

  /** The value of the leading run of digits of `s`, or None when `s` does
      not start with a digit. */
  function ParseDigits(s: string): Option<int>
  {
    var ds := LeadingDigits(s);
    if ds == [] then None else Some(DigitsValue(ds))
  }

  /** `parseInt(s)` with radix 10: skip leading white space, take an optional
      sign and then the leading run of digits; no digits gives NaN (`None`). */
  function ParseInt(s: string): (r: Option<int>)
    ensures TrimStart(s) == [] ==> r == None
    ensures r.Some? && r.value < 0 ==> TrimStart(s)[0] == '-'
    ensures r.Some? && TrimStart(s)[0] != '-' && TrimStart(s)[0] != '+' ==> IsDigit(TrimStart(s)[0])
  {
    var t := TrimStart(s);
    if t != [] && t[0] == '-' then
      match ParseDigits(t[1..])
      case None => None
      case Some(v) => Some(-v)
    else if t != [] && t[0] == '+' then ParseDigits(t[1..])
    else ParseDigits(t)
  }

  /** `s.padStart(2, "0")`. */
  function PadStart2(s: string): (r: string)
    ensures |r| == if |s| >= 2 then |s| else 2
  {
    if |s| >= 2 then s else if |s| == 1 then "0" + s else "00"
  }

  /** What TrimStart leaves is the rest of `s` after the skipped white space. */
  lemma {:induction false} TrimStartSuffix(s: string)
    ensures TrimStart(s) == s[|s| - |TrimStart(s)|..]
    decreases |s|
  {
    if s != [] && IsSpace(s[0]) {
      TrimStartSuffix(s[1..]);
      assert s[1..][|s| - 1 - |TrimStart(s)|..] == s[|s| - |TrimStart(s)|..];
    }
  }

  lemma {:induction false} DigitsValueOfNatToString(n: nat)
    ensures DigitsValue(NatToString(n)) == n
    decreases n
  {
    if n >= 10 {
      var s := NatToString(n);
      assert s[..|s| - 1] == NatToString(n / 10);
      DigitsValueOfNatToString(n / 10);
    }
  }

  /** Distinct numbers have distinct decimal notations. */
  lemma NatToStringInjective(a: nat, b: nat)
    requires NatToString(a) == NatToString(b)
    ensures a == b
  {
    DigitsValueOfNatToString(a);
    DigitsValueOfNatToString(b);
  }

  lemma {:induction false} LeadingDigitsOfDigitsThen(ds: string, rest: string)
    requires AllDigits(ds)
    requires rest == [] || !IsDigit(rest[0])
    ensures LeadingDigits(ds + rest) == ds
    decreases |ds|
  {
    if ds != [] {
      assert (ds + rest)[1..] == ds[1..] + rest;
      LeadingDigitsOfDigitsThen(ds[1..], rest);
    } else {
      assert ds + rest == rest;
    }
  }

  /** The digits of a numeral are read back up to the first non-digit. */
  lemma ParseDigitsOfNumeral(n: nat, rest: string)
    requires rest == [] || !IsDigit(rest[0])
    ensures ParseDigits(NatToString(n) + rest) == Some(n)
  {
    LeadingDigitsOfDigitsThen(NatToString(n), rest);
    DigitsValueOfNatToString(n);
  }

  /** `parseInt` reads a decimal numeral up to the first character that is not
      a digit, so `parseInt("25")`, `parseInt("25.5")` and `parseInt("25e1")` are 25. */
  lemma ParseIntOfNumeral(n: nat, rest: string)
    requires rest == [] || !IsDigit(rest[0])
    ensures ParseInt(NatToString(n) + rest) == Some(n)
  {
    var ds := NatToString(n);
    var s := ds + rest;
    assert s[0] == ds[0] && IsDigit(ds[0]);
    assert TrimStart(s) == s;
    ParseDigitsOfNumeral(n, rest);
  }

  /** `parseInt` reads a minus sign followed by a numeral as the negative number. */
  lemma ParseIntOfNegative(m: nat)
    ensures ParseInt("-" + NatToString(m)) == Some(-(m as int))
  {
    var ds := NatToString(m);
    var s := "-" + ds;
    assert TrimStart(s) == s;
    assert s[1..] == ds + [];
    ParseDigitsOfNumeral(m, []);
  }

  /** `parseInt` reads a numeral on its own as its number. */
  lemma ParseIntOfNatToString(n: nat)
    ensures ParseInt(NatToString(n)) == Some(n)
  {
    ParseIntOfNumeral(n, []);
    assert NatToString(n) + [] == NatToString(n);
  }

  /** `parseInt` inverts `toString` on every integer. */
  lemma ParseIntOfIntToString(n: int)
    ensures ParseInt(IntToString(n)) == Some(n)
  {
    if n < 0 {
      assert IntToString(n) == "-" + NatToString(-n);
      ParseIntOfNegative(-n);
    } else {
      assert IntToString(n) == NatToString(n);
      ParseIntOfNatToString(n);
    }
  }
}
