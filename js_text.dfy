/**
 * The JavaScript number and string primitives the display helpers rely on,
 * restricted to integer values: Math.floor of a quotient, the `%` operator,
 * Number.prototype.toString and String.prototype.padStart.
 * Decimal parsing is the partner of toString, used to state round trips.
 */
module JsText {

  /** Math.floor(a / b) for a positive divisor. Dafny's `/` is Euclidean,
      which coincides with floor division whenever b > 0. */
  function FloorDiv(a: int, b: int): (q: int)
    requires b > 0
    ensures q * b <= a < q * b + b
  {
    a / b
  }

  /** The integer quotient of a / b truncated toward zero (the quotient
      that ECMAScript's `%` is defined against). */
  function TruncDiv(a: int, b: int): (q: int)
    requires b > 0
    ensures a >= 0 ==> 0 <= q && q * b <= a < q * b + b
    ensures a < 0 ==> q <= 0 && q * b - b < a <= q * b
  {
    if a >= 0 then QuotientBounds(a, b); a / b
    else
      var n := -a;
      QuotientBounds(n, b);
      NegatedProduct(n / b, b);
      -(n / b)
  }

  lemma QuotientBounds(n: int, b: int)
    requires n >= 0 && b > 0
    ensures 0 <= n / b && n / b * b <= n < n / b * b + b
  {
  }

  lemma NegatedProduct(q: int, b: int)
    ensures (-q) * b == -(q * b)
  {
  }

  /** `a % b` in JavaScript: what is left of a after the truncated quotient,
      so the remainder takes the sign of the dividend. */
  function JsRem(a: int, b: int): (r: int)
    requires b > 0
    ensures r == a - TruncDiv(a, b) * b
    ensures -b < r < b
    ensures a >= 0 ==> r >= 0
    ensures a < 0 ==> r <= 0
  {
    if a >= 0 then a % b else -((-a) % b)
  }

  predicate IsDigit(c: char) {
    '0' <= c <= '9'
  }

  predicate AllDigits(s: string) {
    forall i :: 0 <= i < |s| ==> IsDigit(s[i])
  }

  function DigitChar(d: nat): (c: char)
    requires d < 10
    ensures IsDigit(c) && DigitValue(c) == d
  {
    ('0' as int + d) as char
  }

  /** Value of a decimal digit character (0 for any other character). */
  function DigitValue(c: char): (d: nat)
    ensures d < 10
  {
    if IsDigit(c) then c as int - '0' as int else 0
  }

  /** Decimal digits of a natural number, most significant first. */
  function NatToString(n: nat): (s: string)
    ensures |s| >= 1 && AllDigits(s)
    ensures (|s| == 1) == (n < 10)
    ensures n < 100 ==> |s| <= 2
    ensures s[0] == '0' ==> n == 0
    decreases n
  {
    if n < 10 then [DigitChar(n)] else NatToString(n / 10) + [DigitChar(n % 10)]
  }

  /** Number.prototype.toString on an integer value. */
  function IntToString(i: int): (s: string)
    ensures |s| >= 1
    ensures i >= 0 ==> AllDigits(s)
    ensures i < 0 ==> s[0] == '-' && forall j :: 1 <= j < |s| ==> IsDigit(s[j])
  {
    if i < 0 then "-" + NatToString(-i) else NatToString(i)
  }

  /** `fill` repeated n times. */
  function Repeat(fill: char, n: nat): (r: string)
    ensures |r| == n
    ensures forall i :: 0 <= i < n ==> r[i] == fill
  {
    seq(n, _ => fill)
  }

  /** String.prototype.padStart(width, fill) with a one-character fill. */
  function PadStart(s: string, width: nat, fill: char): (r: string)
    ensures |r| == if |s| >= width then |s| else width
    ensures r == Repeat(fill, |r| - |s|) + s
  {
    if |s| >= width then s else Repeat(fill, width - |s|) + s
  }

  /** Value of a string of decimal digits (leading zeros allowed); the
      parsers below only apply it to strings they have checked are digits. */
  function ParseNat(s: string): nat
    decreases |s|
  {
    if s == [] then 0 else ParseNat(s[..|s| - 1]) * 10 + DigitValue(s[|s| - 1])
  }

  /** Length of the longest prefix of s that consists of digits. */
  function DigitPrefixLen(s: string): (k: nat)
    ensures k <= |s| && forall i :: 0 <= i < k ==> IsDigit(s[i])
    ensures k < |s| ==> !IsDigit(s[k])
    decreases |s|
  {
    if s == [] || !IsDigit(s[0]) then 0 else 1 + DigitPrefixLen(s[1..])
  }

  lemma {:induction false} ParseNatToString(n: nat)
    ensures ParseNat(NatToString(n)) == n
    decreases n
  {
    if n >= 10 {
      var s := NatToString(n);
      assert s[..|s| - 1] == NatToString(n / 10);
      ParseNatToString(n / 10);
    }
  }

  lemma {:induction false} ParseZeros(z: nat)
    ensures AllDigits(Repeat('0', z)) && ParseNat(Repeat('0', z)) == 0
  {
    if z > 0 {
      assert Repeat('0', z)[..z - 1] == Repeat('0', z - 1);
      ParseZeros(z - 1);
    }
  }

  /** Leading zeros do not change the value of a digit string. */
  lemma {:induction false} ParseLeadingZeros(z: nat, s: string)
    requires AllDigits(s)
    ensures AllDigits(Repeat('0', z) + s)
    ensures ParseNat(Repeat('0', z) + s) == ParseNat(s)
    decreases |s|
  {
    var t := Repeat('0', z) + s;
    if s == [] {
      assert t == Repeat('0', z);
      ParseZeros(z);
    } else {
      assert t[..|t| - 1] == Repeat('0', z) + s[..|s| - 1];
      ParseLeadingZeros(z, s[..|s| - 1]);
    }
  }

  /** A digit string followed by a non-digit is split exactly at its end. */
  lemma DigitPrefixOfConcat(d: string, rest: string)
    requires AllDigits(d)
    requires rest == [] || !IsDigit(rest[0])
    ensures DigitPrefixLen(d + rest) == |d|
  {
    var s := d + rest;
    var k := DigitPrefixLen(s);
    assert forall i :: 0 <= i < |d| ==> s[i] == d[i];
    assert |d| < |s| ==> s[|d|] == rest[0];
  }

  /** toString reads back as its integer: the digits of a non-negative i
      are i, and the digits after the '-' of a negative i are -i. */
  lemma IntToStringValue(i: int)
    ensures i >= 0 ==> ParseNat(IntToString(i)) == i
    ensures i < 0 ==> IntToString(i)[0] == '-' && ParseNat(IntToString(i)[1..]) == -i
  {
    if i >= 0 {
      ParseNatToString(i);
    } else {
      assert IntToString(i)[1..] == NatToString(-i);
      ParseNatToString(-i);
    }
  }

  /** The zero-padded decimal form of n reads back as n. */
  lemma PaddedRoundTrip(n: nat, width: nat)
    ensures AllDigits(PadStart(NatToString(n), width, '0'))
    ensures ParseNat(PadStart(NatToString(n), width, '0')) == n
  {
    var s := NatToString(n);
    var p := PadStart(s, width, '0');
    ParseLeadingZeros(|p| - |s|, s);
    ParseNatToString(n);
  }
}
