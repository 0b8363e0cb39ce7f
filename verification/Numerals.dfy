/**
 * Integers as text in base 10 or 16, the way Go's big.Int prints and reads
 * them: an optional sign, then one or more digits and nothing else.
 */
module Numerals {
  import opened Prelude

  predicate IsBase(base: int) {
    base == 10 || base == 16
  }

  function DigitChar(d: int): char
    requires 0 <= d < 16
  {
    if d < 10 then '0' + d as char else 'a' + (d - 10) as char
  }

  /** The value of a digit, -1 for any other character; letters may be of either case. */
  function DigitValue(c: char): int {
    if '0' <= c <= '9' then c as int - '0' as int
    else if 'a' <= c <= 'f' then c as int - 'a' as int + 10
    else if 'A' <= c <= 'F' then c as int - 'A' as int + 10
    else -1
  }

  /** The digits above the last one. */
  function Upper(base: int, n: nat): nat {
    if base == 10 then n / 10 else n / 16
  }

  function Last(base: int, n: nat): nat {
    if base == 10 then n % 10 else n % 16
  }

  function Joined(base: int, upper: nat, last: nat): nat {
    if base == 10 then 10 * upper + last else 16 * upper + last
  }

  function Digits(base: int, n: nat): (s: string)
    requires IsBase(base)
    ensures |s| > 0
    decreases n
  {
    if n < base then [DigitChar(n)] else Digits(base, Upper(base, n)) + [DigitChar(Last(base, n))]
  }

  /** big.Int's Text(base). */
  function Text(base: int, x: int): string
    requires IsBase(base)
  {
    if x < 0 then "-" + Digits(base, -x) else Digits(base, x)
  }

  function ParseDigits(base: int, s: string): Option<nat>
    requires IsBase(base)
  {
    if |s| == 0 then Some(0) else
      var front := ParseDigits(base, s[..|s| - 1]);
      var d := DigitValue(s[|s| - 1]);
      if front.None? || d < 0 || d >= base then None else Some(Joined(base, front.value, d))
  }

  /** big.Int's SetString(s, base). */
  function Parse(base: int, s: string): Option<int>
    requires IsBase(base)
  {
    var signed := |s| > 0 && (s[0] == '-' || s[0] == '+');
    var digits := if signed then s[1..] else s;
    if |digits| == 0 then None else
      match ParseDigits(base, digits)
      case None => None
      case Some(n) =>
        var value: int := n;
        Some(if signed && s[0] == '-' then -value else value)
  }

  lemma DigitRoundTrip(d: int)
    requires 0 <= d < 16
    ensures DigitValue(DigitChar(d)) == d
    ensures DigitChar(d) != '-' && DigitChar(d) != '+'
  {
  }

  lemma ParseOneMore(base: int, front: string, n: nat, c: char)
    requires IsBase(base) && ParseDigits(base, front) == Some(n) && 0 <= DigitValue(c) < base
    ensures ParseDigits(base, front + [c]) == Some(Joined(base, n, DigitValue(c)))
  {
    assert (front + [c])[..|front|] == front;
  }

  lemma {:induction false} DigitsRoundTrip(base: int, n: nat)
    requires IsBase(base)
    ensures ParseDigits(base, Digits(base, n)) == Some(n)
    decreases n
  {
    if n < base {
      DigitRoundTrip(n);
      ParseOneMore(base, "", 0, DigitChar(n));
      assert "" + [DigitChar(n)] == Digits(base, n);
    } else {
      DigitRoundTrip(Last(base, n));
      DigitsRoundTrip(base, Upper(base, n));
      ParseOneMore(base, Digits(base, Upper(base, n)), Upper(base, n), DigitChar(Last(base, n)));
    }
  }

  const DIGITS := "0123456789abcdef"

  const CAPITALS := "0123456789ABCDEF"

  lemma DigitCharIsPlain(d: int)
    requires 0 <= d < 16
    ensures DigitChar(d) in DIGITS && (DigitChar(d) == '0' <==> d == 0)
  {
    assert DigitChar(d) == DIGITS[d];
  }

  /** Printed digits are lower-case, and only 0 starts with '0'. */
  lemma {:induction false} DigitsArePlain(base: int, n: nat)
    requires IsBase(base)
    ensures forall c :: c in Digits(base, n) ==> c in DIGITS
    ensures Digits(base, n)[0] == '0' ==> n == 0
    ensures |Digits(base, 0)| == 1
    decreases n
  {
    if n < base {
      DigitCharIsPlain(n);
    } else {
      DigitCharIsPlain(Last(base, n));
      DigitsArePlain(base, Upper(base, n));
    }
  }

  lemma DigitsUnsigned(base: int, n: nat)
    requires IsBase(base)
    ensures Digits(base, n)[0] != '-' && Digits(base, n)[0] != '+'
  {
    DigitsArePlain(base, n);
    assert Digits(base, n)[0] in Digits(base, n);
  }

  /** Reading what was printed gives the number back, whatever its sign. */
  lemma RoundTrip(base: int, x: int)
    requires IsBase(base)
    ensures Parse(base, Text(base, x)) == Some(x)
  {
    var n: nat := if x < 0 then -x else x;
    DigitsRoundTrip(base, n);
    DigitsUnsigned(base, n);
    if x < 0 {
      assert Text(base, x)[1..] == Digits(base, n);
    }
  }

  lemma {:induction false} ZeroDigits(base: int, s: string)
    requires IsBase(base) && ParseDigits(base, s).Some?
    ensures ParseDigits(base, s).value == 0 <==> forall k :: 0 <= k < |s| ==> s[k] == '0'
  {
    if |s| == 0 {
    } else {
      var n := |s| - 1;
      ZeroDigits(base, s[..n]);
      assert DigitValue(s[n]) == 0 <==> s[n] == '0';
      assert forall k :: 0 <= k < n ==> s[..n][k] == s[k];
    }
  }

  /** The text begins with a minus sign and has a character other than '0' after it. */
  predicate SignedNonZero(s: string) {
    |s| > 0 && s[0] == '-' && exists k :: 1 <= k < |s| && s[k] != '0'
  }

  /** A text that reads as a number reads as a negative one exactly when it is signed and not all zeros. */
  lemma SignDecides(base: int, s: string)
    requires IsBase(base) && Parse(base, s).Some?
    ensures Parse(base, s).value < 0 <==> SignedNonZero(s)
  {
    if s[0] == '-' {
      ZeroDigits(base, s[1..]);
      assert forall k :: 1 <= k < |s| ==> s[k] == s[1..][k - 1];
    }
  }

  /** Printing is injective: two numbers are equal exactly when their texts are. */
  lemma TextInjective(base: int, x: int, y: int)
    requires IsBase(base) && Text(base, x) == Text(base, y)
    ensures x == y
  {
    RoundTrip(base, x);
    RoundTrip(base, y);
  }

  // ------------------------------------------------- what a text says, digit by digit

  /** The character is the digit d, a letter of either case. */
  predicate IsDigitOf(c: char, d: int)
    requires 0 <= d < 16
  {
    c == DIGITS[d] || c == CAPITALS[d]
  }

  /** The text is x in the base, padded with zeros to the text's length. */
  predicate Writes(base: int, t: string, x: nat)
    requires IsBase(base)
  {
    if |t| == 0 then x == 0 else
      var n := |t| - 1;
      if base == 10 then IsDigitOf(t[n], x % 10) && Writes(10, t[..n], x / 10)
      else IsDigitOf(t[n], x % 16) && Writes(16, t[..n], x / 16)
  }

  /** The text is x in the base, with an optional sign before one or more digits. */
  predicate IsNumeral(base: int, t: string, x: int)
    requires IsBase(base)
  {
    && |t| > 0
    && if t[0] == '-' then |t| > 1 && x <= 0 && Writes(base, t[1..], -x)
       else if t[0] == '+' then |t| > 1 && x >= 0 && Writes(base, t[1..], x)
       else x >= 0 && Writes(base, t, x)
  }

  lemma DigitIsExact(c: char, d: int)
    requires 0 <= d < 16
    ensures DigitValue(c) == d <==> IsDigitOf(c, d)
  {
  }

  lemma JoinedSplits(base: int, upper: nat, last: nat, x: nat)
    requires IsBase(base) && last < base
    ensures Joined(base, upper, last) == x <==> upper == Upper(base, x) && last == Last(base, x)
  {
  }

  lemma OneMoreDigit(base: int, t: string, x: nat)
    requires IsBase(base) && |t| > 0
    ensures ParseDigits(base, t) == Some(x)
            <==> ParseDigits(base, t[..|t| - 1]) == Some(Upper(base, x)) && DigitValue(t[|t| - 1]) == Last(base, x)
  {
    var front, d := ParseDigits(base, t[..|t| - 1]), DigitValue(t[|t| - 1]);
    if front.Some? && 0 <= d < base {
      JoinedSplits(base, front.value, d, x);
    }
  }

  lemma {:induction false} DigitsAreExact(base: int, t: string, x: nat)
    requires IsBase(base)
    ensures ParseDigits(base, t) == Some(x) <==> Writes(base, t, x)
  {
    if |t| == 0 {
    } else {
      var n := |t| - 1;
      OneMoreDigit(base, t, x);
      DigitsAreExact(base, t[..n], Upper(base, x));
      DigitIsExact(t[n], Last(base, x));
    }
  }

  /** A text reads as x exactly when it is a numeral of x. */
  lemma ParseIsExact(base: int, t: string, x: int)
    requires IsBase(base)
    ensures Parse(base, t) == Some(x) <==> IsNumeral(base, t, x)
  {
    if |t| > 0 {
      var signed := t[0] == '-' || t[0] == '+';
      var digits := if signed then t[1..] else t;
      var n: nat := if x < 0 then -x else x;
      DigitsAreExact(base, digits, n);
    }
  }

  /** A number prints as its only numeral without a plus sign, a capital or a leading zero. */
  lemma TextIsPlain(base: int, x: int)
    requires IsBase(base)
    ensures var t := Text(base, x);
            && IsNumeral(base, t, x)
            && (forall k :: (if x < 0 then 1 else 0) <= k < |t| ==> t[k] in DIGITS)
            && (t[if x < 0 then 1 else 0] == '0' ==> x == 0 && |t| == 1)
  {
    var n: nat := if x < 0 then -x else x;
    RoundTrip(base, x);
    ParseIsExact(base, Text(base, x), x);
    DigitsArePlain(base, n);
  }
}
