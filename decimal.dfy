/** Decimal text as the C library writes it with printf("%d") and
    printf("%03d") and reads it back with fscanf("%d"). The shelf store keeps
    its version pointer in this form and builds patch file names with it. */
module Decimal {
  import opened Wrappers
  import opened Radix

  /** printf("%0<width>d", v): an optional minus sign, then zeros, then the
      digits of |v|, the zeros filling the text up to width characters.
      Width 0 is plain printf("%d"). */
  function FormatInt(v: int, width: nat := 0): string
  {
    var sign := if v < 0 then "-" else "";
    var digits := Digits(if v < 0 then -v else v, 10);
    var pad := if |sign| + |digits| < width then width - |sign| - |digits| else 0;
    sign + Zeros(pad) + digits
  }

  predicate IsSpace(c: char)
  {
    c == ' ' || '\t' <= c <= '\r'
  }

  function SkipSpace(s: string): (t: string)
    ensures |t| <= |s| && t == s[|s| - |t|..]
    ensures t == [] || !IsSpace(t[0])
  {
    if s != [] && IsSpace(s[0]) then SkipSpace(s[1..]) else s
  }

  /** fscanf("%d"): skip white space, read an optional sign and the longest
      run of decimal digits after it. None when no digit follows, in which case
      fscanf assigns nothing. */
  function ScanInt(s: string): Option<int>
  {
    ScanSigned(SkipSpace(s))
  }

  /** The number at the start of t, which holds no leading white space. */
  function ScanSigned(t: string): Option<int>
  {
    if |t| > 0 && t[0] == '-' then
      match ScanDigits(t[1..])
      case Some(n) => Some(-n)
      case None => None
    else if |t| > 0 && t[0] == '+' then ScanDigits(t[1..])
    else ScanDigits(t)
  }

  /** The longest run of decimal digits at the start of u, as a number. */
  function ScanDigits(u: string): Option<int>
  {
    var k := DigitRun(u, 10);
    if k == 0 then None else Some(Value(u[..k], 10))
  }

  /** What printf("%0<width>d") writes, fscanf("%d") reads back: the pointer
      file round-trips, and leading zeros of a padded version are harmless. */
  lemma ScanFormatted(v: int, width: nat)
    ensures ScanInt(FormatInt(v, width)) == Some(v)
  {
    if v < 0 {
      ScanNegative(v, width);
    } else {
      ScanNonNegative(v, width);
    }
  }

  lemma ScanNegative(v: int, width: nat)
    requires v < 0
    ensures ScanInt(FormatInt(v, width)) == Some(v)
  {
    var digits := Digits(-v, 10);
    var pad := if 1 + |digits| < width then width - 1 - |digits| else 0;
    var u := Zeros(pad) + digits;
    assert FormatInt(v, width) == ['-'] + u;
    ScanUnsigned(pad, -v);
    ScanDigitsWhole(u, -v);
    ScanMinus(u, v);
  }

  /** A minus sign followed by digits only reads as the negated digits. */
  lemma ScanMinus(u: string, v: int)
    requires ScanDigits(u) == Some(-v)
    requires SkipSpace(['-'] + u) == ['-'] + u
    ensures ScanInt(['-'] + u) == Some(v)
  {
    ScanMinusSigned(u, -v);
  }

  /** After the white space, a minus sign negates the digits that follow. */
  lemma ScanMinusSigned(u: string, n: int)
    requires ScanDigits(u) == Some(n)
    ensures ScanSigned(['-'] + u) == Some(-n)
  {
    var s := ['-'] + u;
    assert s[0] == '-' && s[1..] == u;
  }

  /** A string made only of digits is read whole. */
  lemma ScanDigitsWhole(u: string, m: int)
    requires 0 < |u| && DigitRun(u, 10) == |u| && Value(u[..|u|], 10) == m
    ensures ScanDigits(u) == Some(m)
  {
  }

  lemma ScanNonNegative(v: int, width: nat)
    requires v >= 0
    ensures ScanInt(FormatInt(v, width)) == Some(v)
  {
    var digits := Digits(v, 10);
    var pad := if |digits| < width then width - |digits| else 0;
    var u := Zeros(pad) + digits;
    var s := FormatInt(v, width);
    assert s == u;
    ScanUnsigned(pad, v);
  }

  /** The zero-padded digits of m: a digit comes first, and all of it reads back as m. */
  lemma ScanUnsigned(pad: nat, m: nat)
    ensures var u := Zeros(pad) + Digits(m, 10);
      DigitRun(u, 10) == |u| && Value(u[..|u|], 10) == m && IsDigit(u[0], 10) && !IsSpace(u[0])
      && u[0] != '-' && u[0] != '+'
      && SkipSpace(u) == u && SkipSpace(['-'] + u) == ['-'] + u
  {
    var digits := Digits(m, 10);
    var u := Zeros(pad) + digits;
    ZerosValue(pad, digits, 10);
    ValueOfDigits(m, 10);
    assert u + [] == u;
    DigitRunOfDigits(u, [], 10);
    assert u[..|u|] == u;
    assert IsDigit(u[0], 10);
    assert DigitValue('-') == 36 && DigitValue('+') == 36;
  }

  /** Different values never print to the same text, whatever the widths. */
  lemma FormatInjective(v: int, w: int, width: nat)
    requires FormatInt(v, width) == FormatInt(w, width)
    ensures v == w
  {
    ScanFormatted(v, width);
    ScanFormatted(w, width);
  }
}
