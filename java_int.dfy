/**
 * Java's 32-bit `int`: its range, wrap-around on overflow, and the two
 * conversions the book codec relies on, `Integer.toString` (through string
 * concatenation) and `Integer.parseInt`.
 */
module JavaInt {
  import opened Wrappers

  const MinInt: int := -0x8000_0000
  const MaxInt: int := 0x7fff_ffff
  const Modulus: int := 0x1_0000_0000

  predicate IsInt32(x: int) { MinInt <= x <= MaxInt }

  /** The value Java's `int` arithmetic gives for the exact result `x`. */
  function Wrap(x: int): (r: int)
    ensures IsInt32(r)
    ensures IsInt32(x) ==> r == x
    ensures x == MaxInt + 1 ==> r == MinInt
  {
    (x - MinInt) % Modulus + MinInt
  }

  function Max(a: int, b: int): int { if a < b then b else a }

  predicate IsDigit(c: char) { '0' <= c <= '9' }

  predicate AllDigits(s: string) { forall i :: 0 <= i < |s| ==> IsDigit(s[i]) }

  function DigitChar(d: int): (c: char)
    requires 0 <= d < 10
    ensures IsDigit(c) && c as int - '0' as int == d
  {
    ('0' as int + d) as char
  }

  /** Decimal digits of `n`, most significant first, without leading zeros. */
  function NatToString(n: nat): (s: string)
    ensures |s| >= 1 && AllDigits(s)
    ensures s[0] == '0' ==> n == 0
  {
    if n < 10 then [DigitChar(n)] else NatToString(n / 10) + [DigitChar(n % 10)]
  }

  /** The number a string of decimal digits denotes. */
  function DigitsValue(s: string): nat
    requires AllDigits(s)
  {
    if s == [] then 0 else DigitsValue(s[..|s| - 1]) * 10 + (s[|s| - 1] as int - '0' as int)
  }

  /** `Integer.toString`: a minus sign for negative numbers, then the magnitude. */
  function IntToString(n: int): (s: string)
    ensures s != [] && (s[0] == '-' <==> n < 0)
    ensures forall i :: 0 <= i < |s| ==> s[i] == '-' || IsDigit(s[i])
    ensures forall i :: 1 <= i < |s| ==> IsDigit(s[i])
  {
    if n < 0 then "-" + NatToString(-n) else NatToString(n)
  }

  /**
   * After its sign, `Integer.toString` writes the magnitude in decimal
   * without leading zeros.
   */
  lemma IntToStringDigits(n: int)
    ensures var s := IntToString(n); var d := if n < 0 then s[1..] else s;
      d != [] && AllDigits(d) && (d[0] == '0' ==> n == 0)
      && DigitsValue(d) == if n < 0 then -n else n
  {
    if n < 0 {
      DigitsRoundTrip(-n);
      assert IntToString(n)[1..] == NatToString(-n);
    } else {
      DigitsRoundTrip(n);
    }
  }

  /**
   * `Integer.parseInt`: an optional `-` or `+`, then at least one decimal
   * digit, and a value inside the `int` range; anything else is the
   * `NumberFormatException` case, here `None`.
   */
  function ParseInt(s: string): (r: Option<int>)
    ensures r.Some? ==> IsInt32(r.value)
    ensures r.Some? ==> s != [] && (r.value < 0 ==> s[0] == '-')
  {
    if s == [] then None
    else
      var digits := if s[0] == '-' || s[0] == '+' then s[1..] else s;
      if digits == [] || !AllDigits(digits) then None
      else
        var v: int := if s[0] == '-' then 0 - DigitsValue(digits) as int else DigitsValue(digits);
        if IsInt32(v) then Some(v) else None
  }

  /**
   * The texts `Integer.parseInt` accepts: a sign (none, `-` or `+`) and then
   * one or more digits give the signed value of the digits when it fits in
   * an `int`, and `None` when it does not.
   */
  lemma ParseIntAccepts(sign: string, digits: string)
    requires sign == "" || sign == "-" || sign == "+"
    requires digits != [] && AllDigits(digits)
    ensures var v := if sign == "-" then -(DigitsValue(digits) as int) else DigitsValue(digits) as int;
      ParseInt(sign + digits) == (if IsInt32(v) then Some(v) else None)
  {
    var s := sign + digits;
    if sign == "" {
      assert s == digits;
    } else {
      assert s[0] == sign[0] && s[1..] == digits;
    }
  }

  /**
   * A character that is neither a digit nor a sign in first position makes
   * `Integer.parseInt` throw.
   */
  lemma ParseIntRejectsNonDigit(s: string, i: int)
    requires 0 <= i < |s| && !IsDigit(s[i])
    requires i == 0 ==> s[0] != '-' && s[0] != '+'
    ensures ParseInt(s) == None
  {
  }

  /** A text without any digit (the empty text, a lone sign) makes `Integer.parseInt` throw. */
  lemma ParseIntRejectsNoDigit(s: string)
    requires forall i :: 0 <= i < |s| ==> !IsDigit(s[i])
    ensures ParseInt(s) == None
  {
  }

  lemma {:induction false} DigitsRoundTrip(n: nat)
    ensures DigitsValue(NatToString(n)) == n
  {
    if n >= 10 {
      DigitsRoundTrip(n / 10);
      var s := NatToString(n);
      assert s[..|s| - 1] == NatToString(n / 10);
    }
  }

  /** Every `int` survives `Integer.toString` followed by `Integer.parseInt`. */
  lemma ParseIntRoundTrip(n: int)
    requires IsInt32(n)
    ensures ParseInt(IntToString(n)) == Some(n)
  {
    var s := IntToString(n);
    if n < 0 {
      DigitsRoundTrip(-n);
      assert s[1..] == NatToString(-n);
    } else {
      DigitsRoundTrip(n);
    }
  }
}
