/** Decimal digit strings: their value, the shortest rendering of a number,
    zero padding, and the longest run of digits at the front of a string. */
module Numerals {

  predicate IsDigit(c: char) { '0' <= c <= '9' }

  predicate AllDigits(s: string) { forall i :: 0 <= i < |s| ==> IsDigit(s[i]) }

  function DigitValue(c: char): (d: nat)
    requires IsDigit(c)
    ensures d < 10
  {
    (c as int) - ('0' as int)
  }

  function DigitChar(d: nat): (c: char)
    requires d < 10
    ensures IsDigit(c) && DigitValue(c) == d
  {
    ('0' as int + d) as char
  }

  function Pow10(n: nat): (p: nat)
    ensures p >= 1
  {
    if n == 0 then 1 else 10 * Pow10(n - 1)
  }

  /** The number a string of digits denotes, most significant digit first. */
  function Value(s: string): nat
    requires AllDigits(s)
  {
    if s == [] then 0 else Value(s[..|s| - 1]) * 10 + DigitValue(s[|s| - 1])
  }

  /** A string of `n` digits denotes less than `10^n`. */
  lemma {:induction false} ValueBound(s: string)
    requires AllDigits(s)
    ensures Value(s) < Pow10(|s|)
  {
    if s != [] {
      ValueBound(s[..|s| - 1]);
    }
  }

  /** Reading `a` then `b` shifts `a` left by `|b|` digits. */
  lemma {:induction false} ValueConcat(a: string, b: string)
    requires AllDigits(a) && AllDigits(b)
    ensures AllDigits(a + b)
    ensures Value(a + b) == Value(a) * Pow10(|b|) + Value(b)
  {
    assert AllDigits(a + b);
    if b == [] {
      assert a + b == a;
    } else {
      var b', c := b[..|b| - 1], b[|b| - 1];
      assert b == b' + [c];
      assert a + b == (a + b') + [c];
      ValueConcat(a, b');
      ValueSnoc(a + b', c);
      ValueSnoc(b', c);
      assert Pow10(|b|) == 10 * Pow10(|b'|);
      ShiftArith(Value(a), Pow10(|b'|), Value(b'), DigitValue(c));
    }
  }

  lemma ShiftArith(x: int, p: int, y: int, d: int)
    ensures (x * p + y) * 10 + d == x * (10 * p) + (y * 10 + d)
  {
  }

  lemma ValueSnoc(s: string, c: char)
    requires AllDigits(s) && IsDigit(c)
    ensures AllDigits(s + [c]) && Value(s + [c]) == Value(s) * 10 + DigitValue(c)
  {
    assert (s + [c])[..|s|] == s;
  }

  /** `n` zeros. */
  function Zeros(n: nat): (z: string)
    ensures |z| == n && AllDigits(z)
  {
    if n == 0 then [] else Zeros(n - 1) + ['0']
  }

  lemma {:induction false} ZerosValue(n: nat)
    ensures Value(Zeros(n)) == 0
  {
    if n > 0 {
      assert Zeros(n)[..n - 1] == Zeros(n - 1);
      ZerosValue(n - 1);
    }
  }

  /** The shortest decimal rendering of `n` (Python's `str(n)`). */
  function Digits(n: nat): (s: string)
    ensures AllDigits(s) && 1 <= |s|
    ensures |s| > 1 ==> s[0] != '0'
    ensures Value(s) == n
  {
    if n < 10 then [DigitChar(n)]
    else
      var s := Digits(n / 10) + [DigitChar(n % 10)];
      assert s[..|s| - 1] == Digits(n / 10);
      s
  }

  /** `n` rendered in at least `width` digits, padded with leading zeros
      (the `%02d` / `%04d` forms of day, hour and year). */
  function Padded(n: nat, width: nat): (s: string)
    ensures AllDigits(s) && Value(s) == n
    ensures |s| == if |Digits(n)| < width then width else |Digits(n)|
  {
    var d := Digits(n);
    if |d| < width then
      var z := Zeros(width - |d|);
      ValueConcat(z, d);
      ZerosValue(width - |d|);
      z + d
    else d
  }

  /** Padding a number below `10^w` to width `w` gives exactly `w` digits. */
  lemma {:induction false} PaddedWidth(n: nat, width: nat)
    requires 1 <= width && n < Pow10(width)
    ensures |Padded(n, width)| == width
  {
    ValueBoundShort(Digits(n), width);
  }

  /** A numeral without leading zero that is below `10^w` has at most `w` digits. */
  lemma {:induction false} ValueBoundShort(s: string, width: nat)
    requires AllDigits(s) && 1 <= |s| && (|s| > 1 ==> s[0] != '0')
    requires 1 <= width && Value(s) < Pow10(width)
    ensures |s| <= width
  {
    if |s| > width {
      LeadingDigitLowerBound(s);
      PowMonotone(width, |s| - 1);
      assert false;
    }
  }

  /** A numeral of `n > 1` digits without leading zero is at least `10^(n-1)`. */
  lemma {:induction false} LeadingDigitLowerBound(s: string)
    requires AllDigits(s) && 1 < |s| && s[0] != '0'
    ensures Value(s) >= Pow10(|s| - 1)
  {
    var init := s[..|s| - 1];
    if |init| == 1 {
      assert DigitValue(init[0]) >= 1;
      assert Value(init) == DigitValue(init[0]);
    } else {
      LeadingDigitLowerBound(init);
    }
  }

  lemma {:induction false} PowMonotone(a: nat, b: nat)
    requires a <= b
    ensures Pow10(a) <= Pow10(b)
  {
    if a < b {
      PowMonotone(a, b - 1);
    }
  }

  /** The longest prefix of `s` made of digits, and what follows it. */
  function DigitRun(s: string): (r: (string, string))
    ensures AllDigits(r.0) && r.0 + r.1 == s
    ensures r.1 == [] || !IsDigit(r.1[0])
  {
    if s != [] && IsDigit(s[0]) then
      var rest := DigitRun(s[1..]);
      ([s[0]] + rest.0, rest.1)
    else ([], s)
  }

  /** The run found in front of a non-digit is the whole digit prefix. */
  lemma {:induction false} DigitRunOf(a: string, b: string)
    requires AllDigits(a) && (b == [] || !IsDigit(b[0]))
    ensures DigitRun(a + b) == (a, b)
  {
    if a != [] {
      assert (a + b)[0] == a[0] && (a + b)[1..] == a[1..] + b;
      DigitRunOf(a[1..], b);
      assert [a[0]] + a[1..] == a;
    } else {
      assert a + b == b;
    }
  }
}
