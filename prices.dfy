/** The `Price` column: launch prices in USD millions, stored as text with
    thousands separators (`"5,000.0"`) and missing for most launches.
    `.str.replace(',', '')` removes the separators and `.astype(float)`
    converts what remains with Python's `float`. */
module Prices {
  import opened Wrappers
  import opened Text
  import opened Numerals

  /** `.str.replace(',', '')`. */
  function StripCommas(s: string): string {
    if s == [] then []
    else (if s[0] == ',' then [] else [s[0]]) + StripCommas(s[1..])
  }

  /** No separator survives. */
  lemma {:induction false} StripCommasRemovesSeparators(s: string)
    ensures ',' !in StripCommas(s) && |StripCommas(s)| <= |s|
  {
    if s != [] {
      StripCommasRemovesSeparators(s[1..]);
    }
  }

  /** A text without separators is left as it is. */
  lemma {:induction false} StripCommasKeepsPlainText(s: string)
    requires ',' !in s
    ensures StripCommas(s) == s
  {
    if s != [] {
      StripCommasKeepsPlainText(s[1..]);
    }
  }

  /** Removing separators from two pieces and joining them is the same as
      removing them from the joined text: the other characters keep their
      order. */
  lemma {:induction false} StripCommasConcat(a: string, b: string)
    ensures StripCommas(a + b) == StripCommas(a) + StripCommas(b)
  {
    if a == [] {
      assert a + b == b;
    } else {
      assert (a + b)[0] == a[0] && (a + b)[1..] == a[1..] + b;
      StripCommasConcat(a[1..], b);
    }
  }

  lemma StripCommasIdempotent(s: string)
    ensures StripCommas(StripCommas(s)) == StripCommas(s)
  {
    StripCommasRemovesSeparators(s);
    StripCommasKeepsPlainText(StripCommas(s));
  }

  /** A number printed with a comma between each group of three digits,
      as the data set prints prices of a thousand and more. */
  function Grouped(n: nat): (s: string)
    ensures s != []
  {
    if n < 1000 then Digits(n) else Grouped(n / 1000) + "," + Padded(n % 1000, 3)
  }

  /** Removing the separators from a grouped number leaves the plain digits of that number. */
  lemma {:induction false} UngroupedValue(n: nat)
    ensures StripCommas(Grouped(n)) != []
    ensures AllDigits(StripCommas(Grouped(n))) && Value(StripCommas(Grouped(n))) == n
  {
    if n < 1000 {
      assert ',' !in Digits(n) by {
        forall i | 0 <= i < |Digits(n)| ensures Digits(n)[i] != ',' {
          assert IsDigit(Digits(n)[i]);
        }
      }
      StripCommasKeepsPlainText(Digits(n));
    } else {
      var hi, lo := Grouped(n / 1000), Padded(n % 1000, 3);
      assert StripCommas(Grouped(n)) == StripCommas(hi) + lo by {
        UngroupedPieces(hi, lo);
      }
      UngroupedValue(n / 1000);
      assert |lo| == 3 by {
        assert Pow10(3) == 1000;
        PaddedWidth(n % 1000, 3);
      }
      ValueConcat(StripCommas(hi), lo);
      assert Pow10(3) == 1000;
      assert Value(StripCommas(hi) + lo) == (n / 1000) * 1000 + n % 1000;
    }
  }

  lemma UngroupedPieces(hi: string, lo: string)
    requires ',' !in lo
    ensures StripCommas(hi + "," + lo) == StripCommas(hi) + lo
  {
    assert StripCommas(hi + ",") == StripCommas(hi) by {
      StripCommasConcat(hi, ",");
      assert StripCommas(",") == [] by {
        assert ","[1..] == [];
      }
      assert StripCommas(hi) + [] == StripCommas(hi);
    }
    StripCommasConcat(hi + ",", lo);
    StripCommasKeepsPlainText(lo);
  }

  /** The price conversion's failure (`ValueError` from `astype(float)`). */
  datatype PriceError = UnparsablePrice(text: string)

  // Python's `float(text)` on a decimal literal: surrounding whitespace,
  // an optional sign, digits with an optional fraction, and an optional
  // exponent. The literal is kept as its pieces; `Amount` is its value.

  /** A decimal literal: its sign, the digits before and after the point, and its exponent. */
  datatype Decimal = Decimal(negative: bool, whole: string, frac: string, exponent: int)

  predicate WellFormed(d: Decimal) {
    AllDigits(d.whole) && AllDigits(d.frac) && (d.whole != [] || d.frac != [])
  }

  /** `x * 10^e`. */
  function Scale(x: real, e: int): real
    decreases if e < 0 then -e else e
  {
    if e == 0 then x
    else if e > 0 then 10.0 * Scale(x, e - 1)
    else Scale(x, e + 1) / 10.0
  }

  /** The value of the digits after a decimal point: `0.d1d2...`. */
  function FractionValue(frac: string): (r: real)
    requires AllDigits(frac)
    ensures 0.0 <= r <= 1.0
  {
    if frac == [] then 0.0 else (DigitValue(frac[0]) as real + FractionValue(frac[1..])) / 10.0
  }

  /** The exact number a literal denotes (Python rounds it to the nearest `float`). */
  function Amount(d: Decimal): real
    requires WellFormed(d)
  {
    var magnitude := Scale(Value(d.whole) as real + FractionValue(d.frac), d.exponent);
    if d.negative then -magnitude else magnitude
  }

  /** An optional `+` or `-`: whether it was `-`, and what follows. */
  function Sign(s: string): (r: (bool, string))
    ensures |r.1| <= |s|
  {
    if s != [] && s[0] == '-' then (true, s[1..])
    else if s != [] && s[0] == '+' then (false, s[1..])
    else (false, s)
  }

  /** The exponent part `e<sign><digits>`, or nothing. */
  function Exponent(s: string): Option<int> {
    if s == [] then Some(0)
    else if s[0] == 'e' || s[0] == 'E' then
      var (negative, rest) := Sign(s[1..]);
      if rest != [] && AllDigits(rest) then Some(if negative then -(Value(rest) as int) else Value(rest)) else None
    else None
  }

  /** `float(text)` for texts that are decimal literals. */
  function ParseDecimal(text: string): (r: Option<Decimal>)
    ensures r.Some? ==> WellFormed(r.value)
  {
    var (negative, unsigned) := Sign(Strip(text));
    var (whole, afterWhole) := DigitRun(unsigned);
    if afterWhole != [] && afterWhole[0] == '.' then
      var (frac, afterFrac) := DigitRun(afterWhole[1..]);
      var e :- Exponent(afterFrac);
      if whole == [] && frac == [] then None else Some(Decimal(negative, whole, frac, e))
    else
      var e :- Exponent(afterWhole);
      if whole == [] then None else Some(Decimal(negative, whole, [], e))
  }

  /** `.str.replace(',', '').astype(float)` on one price. */
  function PriceValue(text: string): (r: Result<real, PriceError>)
  {
    match ParseDecimal(StripCommas(text)) {
      case Some(d) => Ok(Amount(d))
      case None => Err(UnparsablePrice(text))
    }
  }

  /** A price printed as the data set prints it, `<grouped digits>.<digits>`,
      converts to the number it shows. */
  lemma GroupedPriceValue(n: nat, frac: string)
    requires AllDigits(frac)
    ensures PriceValue(Grouped(n) + "." + frac).Ok?
    ensures PriceValue(Grouped(n) + "." + frac).value == n as real + FractionValue(frac)
  {
    UngroupedValue(n);
    SeparatedPriceValue(Grouped(n), frac, n, n as real + FractionValue(frac));
  }

  /** Any text whose digits, once the separators are gone, denote `n`. */
  lemma SeparatedPriceValue(g: string, frac: string, n: nat, x: real)
    requires AllDigits(frac)
    requires StripCommas(g) != [] && AllDigits(StripCommas(g)) && Value(StripCommas(g)) == n
    requires x == n as real + FractionValue(frac)
    ensures PriceValue(g + "." + frac) == Ok(x)
  {
    SeparatedLiteral(g, frac);
    PriceOfDigits(g + "." + frac, StripCommas(g), frac, n, x);
  }

  /** A price whose comma-free text is the literal `<whole>.<frac>` converts to its value. */
  lemma PriceOfDigits(text: string, whole: string, frac: string, n: nat, x: real)
    requires ParseDecimal(StripCommas(text)) == Some(Decimal(false, whole, frac, 0)) && Value(whole) == n
    requires AllDigits(frac) && x == n as real + FractionValue(frac)
    ensures PriceValue(text) == Ok(x)
  {
    var d := Decimal(false, whole, frac, 0);
    PlainAmount(d, n);
    PriceOfLiteral(text, d, x);
  }

  /** With the separators gone, `<g>.<frac>` is the literal of `g`'s digits and `frac`. */
  lemma SeparatedLiteral(g: string, frac: string)
    requires AllDigits(frac)
    requires StripCommas(g) != [] && AllDigits(StripCommas(g))
    ensures ParseDecimal(StripCommas(g + "." + frac)) == Some(Decimal(false, StripCommas(g), frac, 0))
  {
    UngroupedFraction(g, frac);
    PlainDecimalValue(StripCommas(g), frac);
  }

  lemma PriceOfLiteral(text: string, d: Decimal, x: real)
    requires ParseDecimal(StripCommas(text)) == Some(d) && Amount(d) == x
    ensures PriceValue(text) == Ok(x)
  {
  }

  lemma PlainAmount(d: Decimal, n: nat)
    requires WellFormed(d) && !d.negative && d.exponent == 0 && Value(d.whole) == n
    ensures Amount(d) == n as real + FractionValue(d.frac)
  {
  }

  lemma UngroupedFraction(g: string, frac: string)
    requires AllDigits(frac)
    ensures StripCommas(g + "." + frac) == StripCommas(g) + "." + frac
  {
    StripCommasConcat(g + ".", frac);
    StripCommasConcat(g, ".");
    assert StripCommas(".") == "." by {
      assert "."[1..] == [];
    }
    assert ',' !in frac by {
      forall i | 0 <= i < |frac| ensures frac[i] != ',' {
        assert IsDigit(frac[i]);
      }
    }
    StripCommasKeepsPlainText(frac);
  }

  /** `float("<digits>.<digits>")`. */
  lemma PlainDecimalValue(whole: string, frac: string)
    requires whole != [] && AllDigits(whole) && AllDigits(frac)
    ensures ParseDecimal(whole + "." + frac) == Some(Decimal(false, whole, frac, 0))
  {
    var t := whole + "." + frac;
    assert IsDigit(t[0]) by {
      assert t[0] == whole[0];
    }
    assert t[|t| - 1] == '.' || IsDigit(t[|t| - 1]) by {
      assert t[|t| - 1] == (if frac == [] then '.' else frac[|frac| - 1]);
    }
    StripUnpadded(t);
    assert t == whole + ("." + frac);
    DigitRunOf(whole, "." + frac);
    assert ("." + frac)[1..] == frac;
    DigitRunOf(frac, []);
    assert frac + [] == frac;
    FractionLiteral(t, whole, frac);
  }

  /** The steps of `ParseDecimal` on an unsigned, unpadded `<digits>.<digits>`. */
  lemma FractionLiteral(t: string, whole: string, frac: string)
    requires whole != [] && Strip(t) == t && t != [] && IsDigit(t[0])
    requires DigitRun(t) == (whole, "." + frac) && DigitRun(frac) == (frac, [])
    ensures ParseDecimal(t) == Some(Decimal(false, whole, frac, 0))
  {
    assert Sign(t) == (false, t);
    assert ("." + frac)[1..] == frac;
    assert Exponent([]) == Some(0);
  }
}
