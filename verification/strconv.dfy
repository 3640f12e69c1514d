/**
 Decimal integer parsing and formatting as done by Go's `strconv.Atoi` and
 `strconv.Itoa` on a 64-bit platform (where Go's `int` has 64 bits).
 */
module Strconv {
  import opened Wrappers

  /** Bounds of Go's 64-bit `int`. */
  const MaxInt: int := 0x7fff_ffff_ffff_ffff
  const MinInt: int := -0x8000_0000_0000_0000

  predicate InIntRange(v: int) {
    MinInt <= v <= MaxInt
  }

  predicate IsDigit(c: char) {
    '0' <= c <= '9'
  }

  /** Every character is an ASCII decimal digit (the empty string qualifies). */
  predicate AllDigits(s: string) {
    forall i | 0 <= i < |s| :: IsDigit(s[i])
  }

  function DigitValue(c: char): (d: nat)
    requires IsDigit(c)
    ensures d < 10
  {
    c as int - '0' as int
  }

  function DigitChar(d: nat): (c: char)
    requires d < 10
    ensures IsDigit(c) && DigitValue(c) == d
  {
    ('0' as int + d) as char
  }

  /** The value of a string of decimal digits, most significant digit first. */
  function DigitsValue(s: string): nat
    requires AllDigits(s)
  {
    if |s| == 0 then 0 else 10 * DigitsValue(s[..|s| - 1]) + DigitValue(s[|s| - 1])
  }

  /**
   Go's `strconv.Atoi`: an optional '+' or '-' sign followed by one or more
   ASCII digits (leading zeros allowed, no underscores, no spaces), whose value
   fits in a 64-bit `int`. Any other string is an error (`None`), including a
   value out of range.
   */
  function Atoi(s: string): (r: Option<int>)
    ensures r.Some? ==> InIntRange(r.value)
    ensures r.Some? ==> |s| > 0 && (IsDigit(s[0]) || s[0] == '+' || s[0] == '-')
    ensures r.Some? ==> AllDigits(s[1..])
    ensures r.Some? && (s[0] == '+' || s[0] == '-') ==> |s| >= 2
    ensures r.Some? && IsDigit(s[0]) ==> r.value == DigitsValue(s)
    ensures r.Some? && s[0] == '-' ==> r.value == -(DigitsValue(s[1..]) as int)
    ensures r.Some? && s[0] == '+' ==> r.value == DigitsValue(s[1..])
  {
    if |s| == 0 then None
    else
      var negative := s[0] == '-';
      var digits := if s[0] == '+' || s[0] == '-' then s[1..] else s;
      if |digits| == 0 || !AllDigits(digits) then None
      else
        var v: int := if negative then -(DigitsValue(digits) as int) else DigitsValue(digits);
        if InIntRange(v) then Some(v) else None
  }

  /** The canonical decimal digits of n: no leading zero unless n is 0. */
  function NatDigits(n: nat): (s: string)
    ensures |s| > 0 && AllDigits(s)
    ensures DigitsValue(s) == n
    ensures |s| > 1 ==> s[0] != '0'
  {
    if n < 10 then [DigitChar(n)]
    else
      var prefix := NatDigits(n / 10);
      var s := prefix + [DigitChar(n % 10)];
      assert s[..|s| - 1] == prefix;
      s
  }

  /** Go's `strconv.Itoa` (equivalently `fmt.Sprintf("%d", v)`). */
  function Itoa(v: int): (s: string)
    ensures |s| > 0
    ensures v >= 0 ==> AllDigits(s)
    ensures v < 0 ==> s[0] == '-' && AllDigits(s[1..])
  {
    if v < 0 then "-" + NatDigits(-v) else NatDigits(v)
  }

  /** Parsing the formatted value gives it back, for every 64-bit integer. */
  lemma AtoiItoa(v: int)
    requires InIntRange(v)
    ensures Atoi(Itoa(v)) == Some(v)
  {
  }

  /**
   Digits whose value exceeds the 64-bit range are rejected; with a '-' sign
   only the one value whose negation is the smallest 64-bit integer is accepted.
   */
  lemma AtoiRange(s: string)
    requires |s| > 0 && AllDigits(s) && DigitsValue(s) > MaxInt
    ensures Atoi(s) == None
    ensures Atoi("-" + s) == if DigitsValue(s) == MaxInt + 1 then Some(MinInt) else None
  {
  }

  /**
   The converse of Atoi's contract: every optional sign ("", "+" or "-")
   followed by one or more digits, with leading zeros allowed and a signed
   value within 64 bits, is accepted with that value ("-0", "-007" included).
   */
  lemma AtoiAccepts(sign: string, digits: string)
    requires sign == "" || sign == "+" || sign == "-"
    requires |digits| > 0 && AllDigits(digits)
    requires InIntRange(if sign == "-" then -(DigitsValue(digits) as int) else DigitsValue(digits))
    ensures Atoi(sign + digits) ==
      Some(if sign == "-" then -(DigitsValue(digits) as int) else DigitsValue(digits))
  {
    if sign == "" {
      assert sign + digits == digits;
    } else {
      assert (sign + digits)[0] == sign[0];
      assert (sign + digits)[1..] == digits;
    }
  }

  /** Leading zeros do not change the parsed value. */
  lemma AtoiLeadingZero(s: string)
    requires |s| > 0 && AllDigits(s)
    ensures Atoi("0" + s) == Atoi(s)
  {
    LeadingZeroValue(s);
  }

  /** An explicit '+' sign does not change the parsed value. */
  lemma AtoiPlusSign(s: string)
    requires |s| > 0 && AllDigits(s)
    ensures Atoi("+" + s) == Atoi(s)
  {
  }

  lemma {:induction false} LeadingZeroValue(s: string)
    requires AllDigits(s)
    ensures AllDigits("0" + s) && DigitsValue("0" + s) == DigitsValue(s)
  {
    var z := "0" + s;
    if |s| > 0 {
      assert z[..|z| - 1] == "0" + s[..|s| - 1];
      LeadingZeroValue(s[..|s| - 1]);
    } else {
      assert z[..|z| - 1] == "";
    }
  }
}
