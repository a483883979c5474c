/** Decimal text of integers: what JavaScript's String(n) and string
    concatenation produce for an integral number of magnitude below 1e21
    (exactly so below 2^53), and what Python's int() accepts back when the
    digits are ASCII. */
module Decimal {
  import opened Wrappers

  predicate IsDigit(c: char)
  {
    '0' <= c <= '9'
  }

  predicate AllDigits(s: string)
  {
    forall i :: 0 <= i < |s| ==> IsDigit(s[i])
  }

  function DigitChar(d: nat): (c: char)
    requires d < 10
    ensures IsDigit(c) && (c == '0' <==> d == 0)
  {
    ('0' as int + d) as char
  }

  function DigitValue(c: char): nat
    requires IsDigit(c)
  {
    c as int - '0' as int
  }

  /** The shortest decimal form of `n`: only digits, and no leading zero. */
  function NatToString(n: nat): (s: string)
    ensures |s| >= 1 && AllDigits(s)
    ensures s[0] == '0' <==> n == 0
    decreases n
  {
    if n < 10 then [DigitChar(n)] else NatToString(n / 10) + [DigitChar(n % 10)]
  }

  /** String(i) for an integral JavaScript number below 1e21 in magnitude;
      larger numbers print in exponent notation, which is not modelled. */
  function IntToString(i: int): string
  {
    if i < 0 then "-" + NatToString(-i) else NatToString(i)
  }

  /** The value of a run of decimal digits. */
  function DigitsValue(s: string): nat
    requires AllDigits(s)
  {
    if s == [] then 0 else DigitsValue(s[..|s| - 1]) * 10 + DigitValue(s[|s| - 1])
  }

  /** Python's int() on text: an optional sign followed by at least one ASCII
      digit; anything else raises ValueError. */
  function ParseInt(s: string): (r: Option<int>)
    ensures r.Some? <==>
      (AllDigits(s) && |s| > 0) || (|s| > 1 && (s[0] == '-' || s[0] == '+') && AllDigits(s[1..]))
  {
    if |s| > 1 && (s[0] == '-' || s[0] == '+') && AllDigits(s[1..]) then
      var magnitude: int := DigitsValue(s[1..]);
      Some(if s[0] == '-' then -magnitude else magnitude)
    else if |s| > 0 && AllDigits(s) then
      Some(DigitsValue(s))
    else
      None
  }

  lemma {:induction false} NatToStringRoundTrip(n: nat)
    ensures DigitsValue(NatToString(n)) == n
    decreases n
  {
    if n >= 10 {
      var inner := NatToString(n / 10);
      NatToStringRoundTrip(n / 10);
      assert (inner + [DigitChar(n % 10)])[..|inner|] == inner;
    }
  }

  /** Reading back the decimal text of an integer gives that integer. */
  lemma IntToStringRoundTrip(i: int)
    ensures ParseInt(IntToString(i)) == Some(i)
  {
    var s := IntToString(i);
    if i < 0 {
      var digits := NatToString(-i);
      assert s == "-" + digits && s[0] == '-' && s[1..] == digits;
      NatToStringRoundTrip(-i);
      assert ParseInt(s) == Some(i);
    } else {
      assert s == NatToString(i) && IsDigit(s[0]);
      NatToStringRoundTrip(i);
      assert ParseInt(s) == Some(DigitsValue(s));
    }
  }

  /** A run of digits without its leading zeros; a run of zeros keeps one. */
  function StripZeros(d: string): (r: string)
    requires AllDigits(d) && |d| > 0
    ensures AllDigits(r) && |r| > 0 && (r[0] == '0' ==> |r| == 1)
    ensures |r| <= |d| && r == d[|d| - |r|..]
  {
    if |d| > 1 && d[0] == '0' then StripZeros(d[1..]) else d
  }

  /** The text int() reads a number from, in its shortest form: no '+', no
      leading zeros, and no sign on zero. */
  function Normalized(s: string): string
    requires ParseInt(s).Some?
  {
    if AllDigits(s) then StripZeros(s)
    else if s[0] == '+' then StripZeros(s[1..])
    else if StripZeros(s[1..]) == "0" then "0"
    else "-" + StripZeros(s[1..])
  }

  lemma {:induction false} LeadingZeroValue(d: string)
    requires AllDigits(d) && |d| > 0 && d[0] == '0'
    ensures DigitsValue(d) == DigitsValue(d[1..])
    decreases |d|
  {
    if |d| > 1 {
      var init := d[..|d| - 1];
      LeadingZeroValue(init);
      assert d[1..][..|d[1..]| - 1] == init[1..];
    }
  }

  lemma {:induction false} StripZerosValue(d: string)
    requires AllDigits(d) && |d| > 0
    ensures DigitsValue(StripZeros(d)) == DigitsValue(d)
    decreases |d|
  {
    if |d| > 1 && d[0] == '0' {
      LeadingZeroValue(d);
      StripZerosValue(d[1..]);
    }
  }

  lemma {:induction false} LeadingNonzeroValue(d: string)
    requires AllDigits(d) && |d| > 0 && d[0] != '0'
    ensures DigitsValue(d) >= 1
    decreases |d|
  {
    if |d| > 1 {
      LeadingNonzeroValue(d[..|d| - 1]);
    }
  }

  /** A run of digits without leading zeros is the decimal text of its value. */
  lemma {:induction false} ShortestDigitsRoundTrip(d: string)
    requires AllDigits(d) && |d| > 0 && (d[0] == '0' ==> |d| == 1)
    ensures NatToString(DigitsValue(d)) == d
    decreases |d|
  {
    var init, last := d[..|d| - 1], d[|d| - 1];
    if |d| == 1 {
      assert d == [last];
    } else {
      LeadingNonzeroValue(init);
      ShortestDigitsRoundTrip(init);
      var v := DigitsValue(d);
      assert v / 10 == DigitsValue(init) && v % 10 == DigitValue(last);
      assert d == init + [last];
    }
  }

  /** int() followed by String(): the text comes back in its shortest form. */
  lemma ParseIntNormalForm(s: string)
    requires ParseInt(s).Some?
    ensures IntToString(ParseInt(s).value) == Normalized(s)
  {
    if AllDigits(s) {
      StripZerosValue(s);
      ShortestDigitsRoundTrip(StripZeros(s));
    } else {
      var z := StripZeros(s[1..]);
      StripZerosValue(s[1..]);
      ShortestDigitsRoundTrip(z);
      if s[0] == '-' && DigitsValue(z) != 0 {
        assert z[0] != '0';
      }
    }
  }

  /** Two texts read as the same number exactly when their shortest forms are
      equal. */
  lemma SameValueSameNormalForm(s: string, t: string)
    requires ParseInt(s).Some? && ParseInt(t).Some?
    ensures ParseInt(s) == ParseInt(t) <==> Normalized(s) == Normalized(t)
  {
    ParseIntNormalForm(s);
    ParseIntNormalForm(t);
    IntToStringRoundTrip(ParseInt(s).value);
    IntToStringRoundTrip(ParseInt(t).value);
  }

  /** The decimal text of an integer holds only a sign and digits. */
  lemma IntToStringCharacters(i: int)
    ensures |IntToString(i)| >= 1
    ensures forall k :: 0 <= k < |IntToString(i)| ==>
      IsDigit(IntToString(i)[k]) || (k == 0 && IntToString(i)[k] == '-')
  {
  }
}
