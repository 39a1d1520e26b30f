/** Digit strings in a radix between 2 and 36, with the digit alphabet
    0-9 followed by a-z. Decimal text (printf/scanf "%d") and the base-36
    text of FSX node-revision IDs are both built on it. */
module Radix {

  /** The value of one digit character, or 36 for a character that is no digit. */
  function DigitValue(c: char): nat
  {
    if '0' <= c <= '9' then c as nat - '0' as nat
    else if 'a' <= c <= 'z' then c as nat - 'a' as nat + 10
    else 36
  }

  predicate IsDigit(c: char, base: nat)
  {
    DigitValue(c) < base
  }

  function DigitChar(d: nat): (c: char)
    requires d < 36
    ensures DigitValue(c) == d
  {
    if d < 10 then ('0' as nat + d) as char else ('a' as nat + d - 10) as char
  }

  predicate AllDigits(s: string, base: nat)
  {
    forall i :: 0 <= i < |s| ==> IsDigit(s[i], base)
  }

  /** The most-significant-first digits of n, with no leading zeros ("0" for 0). */
  function Digits(n: nat, base: nat): (s: string)
    requires 2 <= base <= 36
    ensures |s| >= 1 && AllDigits(s, base)
    decreases n
  {
    if n < base then [DigitChar(n)]
    else
      DivMod(n, base);
      Digits(n / base, base) + [DigitChar(n % base)]
  }

  lemma DivMod(n: nat, base: nat)
    requires 2 <= base && base <= n
    ensures n == n / base * base + n % base && n / base < n && n % base < base
  {
    var q, r := n / base, n % base;
    assert n == q * base + r;
    MulAtLeastDouble(q, base);
  }

  lemma MulAtLeastDouble(q: nat, base: nat)
    requires 2 <= base
    ensures q * 2 <= q * base
  {
    assert q * base == q * 2 + q * (base - 2);
  }

  /** The number a digit string denotes (most significant digit first). */
  function Value(s: string, base: nat): nat
    requires AllDigits(s, base)
  {
    if s == [] then 0 else Value(s[..|s| - 1], base) * base + DigitValue(s[|s| - 1])
  }

  /** The length of the longest prefix of s made of digits. */
  function DigitRun(s: string, base: nat): (k: nat)
    ensures k <= |s| && AllDigits(s[..k], base)
    ensures k < |s| ==> !IsDigit(s[k], base)
  {
    if s == [] || !IsDigit(s[0], base) then 0
    else
      var k := 1 + DigitRun(s[1..], base);
      assert s[..k] == [s[0]] + s[1..][..k - 1];
      k
  }

  lemma {:induction false} ValueOfDigits(n: nat, base: nat)
    requires 2 <= base <= 36
    ensures Value(Digits(n, base), base) == n
    decreases n
  {
    if n >= base {
      var s := Digits(n, base);
      var q, r := n / base, n % base;
      DivMod(n, base);
      assert s[..|s| - 1] == Digits(q, base);
      assert DigitValue(s[|s| - 1]) == r;
      ValueOfDigits(q, base);
      assert Value(s, base) == q * base + r;
    }
  }

  lemma {:induction false} DigitRunOfDigits(s: string, rest: string, base: nat)
    requires AllDigits(s, base)
    requires rest == [] || !IsDigit(rest[0], base)
    ensures DigitRun(s + rest, base) == |s|
    decreases |s|
  {
    if s != [] {
      assert (s + rest)[1..] == s[1..] + rest;
      DigitRunOfDigits(s[1..], rest, base);
    }
  }

  lemma {:induction false} LeadingZeroValue(s: string, base: nat)
    requires 2 <= base <= 36 && AllDigits(s, base)
    ensures AllDigits(['0'] + s, base) && Value(['0'] + s, base) == Value(s, base)
    decreases |s|
  {
    var t := ['0'] + s;
    if s != [] {
      assert t[..|t| - 1] == ['0'] + s[..|s| - 1];
      LeadingZeroValue(s[..|s| - 1], base);
    }
  }

  /** Zeros in front of a digit string do not change its value. */
  lemma {:induction false} ZerosValue(z: nat, s: string, base: nat)
    requires 2 <= base <= 36 && AllDigits(s, base)
    ensures AllDigits(Zeros(z) + s, base) && Value(Zeros(z) + s, base) == Value(s, base)
    decreases z
  {
    if z > 0 {
      var t := Zeros(z - 1) + s;
      ZerosValue(z - 1, s, base);
      assert Zeros(z) + s == ['0'] + t;
      LeadingZeroValue(t, base);
    } else {
      assert Zeros(z) + s == s;
    }
  }

  function Zeros(z: nat): (s: string)
    ensures |s| == z && forall i :: 0 <= i < z ==> s[i] == '0'
  {
    if z == 0 then [] else ['0'] + Zeros(z - 1)
  }

  function Pow(base: nat, k: nat): nat
  {
    if k == 0 then 1 else base * Pow(base, k - 1)
  }

  /** A number below base^k has at most k digits (and always at least one). */
  lemma {:induction false} DigitsLength(n: nat, base: nat, k: nat)
    requires 2 <= base <= 36 && 1 <= k && n < Pow(base, k)
    ensures |Digits(n, base)| <= k
    decreases k
  {
    if n >= base {
      assert Pow(base, 1) == base;
      assert k > 1;
      DivMod(n, base);
      QuotientBelow(n / base, n % base, base, Pow(base, k - 1));
      DigitsLength(n / base, base, k - 1);
    }
  }

  /** q*base + r < base*p bounds the quotient: q < p. */
  lemma QuotientBelow(q: nat, r: nat, base: nat, p: nat)
    requires 2 <= base && q * base + r < base * p
    ensures q < p
  {
    assert q * base == (q - p) * base + p * base;
  }
}
