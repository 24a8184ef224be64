/**
 Coefficients of the oscillator and pilot-tone tables (software/src/localOscillator.c and
 ptGen.c): fractions between -1 and 1 kept as integers, and printed with six decimals.
 */
module Coefficients {
  import opened Common
  import opened NumberText
  import opened CNumbers
  import opened Numerals

  /* Scale factors of the two table formats. */
  const OSCILLATOR_SCALE := 0x1FFFF
  const GENERATOR_SCALE := 0x7FFF
  const MILLION := 1_000_000

  /** Conversion to an integer: the magnitude is scaled, rounded half up and cut off. */
  function Scale(x: real, scale: nat): int {
    if x < 0.0 then -(-x * scale as real + 0.5).Floor else (x * scale as real + 0.5).Floor
  }

  /** The quantiser never errs by more than half a step, and treats both signs alike. */
  lemma ScaleIsNearest(x: real, scale: nat)
    ensures -0.5 <= Scale(x, scale) as real - x * scale as real <= 0.5
    ensures Scale(-x, scale) == -Scale(x, scale)
  {
    if x < 0.0 {
      assert -x * scale as real == -(x * scale as real);
    }
  }

  lemma ScaleIsMonotone(x: real, y: real, scale: nat)
    requires x <= y
    ensures Scale(x, scale) <= Scale(y, scale)
  {
    var s := scale as real;
    Grows(x, y, s);
    if x < 0.0 {
      Grows(x, 0.0, s);
      assert -x * s == -(x * s) && -y * s == -(y * s);
    }
    if 0.0 <= y {
      Grows(0.0, y, s);
    }
  }

  lemma Grows(x: real, y: real, s: real)
    requires x <= y && 0.0 <= s
    ensures x * s <= y * s
  {
  }

  /** The magnitude of n / scale in millionths, to the nearest one. */
  function Millionths(n: nat, scale: nat): nat
    requires 0 < scale
  {
    (2 * MILLION * n + scale) / (2 * scale)
  }

  /** With an odd scale factor no value lies halfway, so every way of rounding gives the same. */
  lemma NothingLiesHalfway(n: nat, k: nat, scale: nat)
    requires scale % 2 == 1
    ensures 2 * MILLION * n != (2 * k + 1) * scale
  {
    Odd(k, scale);
  }

  lemma Odd(k: nat, scale: nat)
    requires scale % 2 == 1
    ensures (2 * k + 1) * scale % 2 == 1
  {
    var h := scale / 2;
    assert (2 * k + 1) * scale == 2 * (k * scale + h) + 1;
  }

  /** `m` millionths are as close to n / scale as millionths can be. */
  predicate Nearest(m: nat, n: nat, scale: nat) {
    2 * MILLION * n <= 2 * (m * scale) + scale && 2 * (m * scale) <= 2 * MILLION * n + scale
  }

  lemma MillionthsIsNearest(n: nat, scale: nat)
    requires 0 < scale
    ensures Nearest(Millionths(n, scale), n, scale)
  {
    var m, d := Millionths(n, scale), 2 * scale;
    assert m * d <= 2 * MILLION * n + scale < m * d + d;
    assert m * d == 2 * (m * scale);
  }

  /** The text of "%9.6f" for a table entry. */
  function Printed(v: int, scale: nat): string
    requires 0 < scale
  {
    PrintedMillionths(v < 0, Millionths(Abs(v), scale))
  }

  function PrintedMillionths(negative: bool, m: nat): string {
    var number := NumeralText(MillionthsNumeral(negative, m));
    Blanks(Missing(|number|)) + number
  }

  /** Six decimals. */
  function MillionthsNumeral(negative: bool, m: nat): (n: Numeral)
    ensures n.Complete()
  {
    Numeral(negative, Digits(m / MILLION, 10, 'a'), true, Padded(m % MILLION, 10, 'a', 6), NoExponent)
  }

  function Missing(n: nat): nat {
    if n < 9 then 9 - n else 0
  }

  /** Entries no larger than one always take nine characters. */
  lemma PrintedIsNineWide(v: int, scale: nat)
    requires 0 < scale && Abs(v) <= scale
    ensures |Printed(v, scale)| == 9
  {
    AtMostOne(Abs(v), scale);
    var m := Millionths(Abs(v), scale);
    assert |Digits(m / MILLION, 10, 'a')| == 1;
    hide Millionths, Digits, Padded;
  }

  lemma AtMostOne(n: nat, scale: nat)
    requires 0 < scale && n <= scale
    ensures Millionths(n, scale) <= MILLION
  {
    MillionthsIsNearest(n, scale);
    var m := Millionths(n, scale);
    hide Millionths;
    assert m * scale == MILLION * scale + (m - MILLION) * scale;
    Beyond(m - MILLION, scale);
  }

  lemma Beyond(k: int, scale: nat)
    ensures 1 <= k ==> scale <= k * scale
  {
  }

  lemma MillionIsSixDigits()
    ensures Pow(10, 6) == MILLION
  {
    assert Pow(10, 3) == 1000;
    PowAdd(10, 3, 3);
  }

  /** Nothing follows a number that would be taken for a part of it. */
  predicate EndsNumber(rest: string) {
    (rest != "" ==> !IsDigit(rest[0], 10)) && ReadExponent(rest).length == 0
  }

  /** Reading a printed entry gives its value to the nearest millionth, using all of the text. */
  lemma PrintedReads(negative: bool, m: nat, rest: string)
    requires EndsNumber(rest)
    ensures Strtod(PrintedMillionths(negative, m) + rest)
            == Parsed(OfMillionths(negative, m), |PrintedMillionths(negative, m)|)
  {
    FractionOfMillionths(m);
    hide Digits, Padded, Fraction, Strtod, Blanks, NumeralText, ReadExponent;
    var n := MillionthsNumeral(negative, m);
    var k := Missing(|NumeralText(n)|);
    StrtodReads(k, n, rest);
    BlanksThenMore(k, NumeralText(n), rest);
  }

  function OfMillionths(negative: bool, m: nat): real {
    if negative then -(m as real / 1000000.0) else m as real / 1000000.0
  }

  lemma BlanksThenMore(k: nat, number: string, rest: string)
    ensures Blanks(k) + number + rest == Blanks(k) + (number + rest) && |Blanks(k)| == k
  {
  }

  /** If an exponent follows a printed entry directly, it is read as a part of the number. */
  lemma ExponentIsTaken(negative: bool, m: nat, rest: string)
    requires rest != "" ==> !IsDigit(rest[0], 10)
    ensures Strtod(PrintedMillionths(negative, m) + rest).length
            == |PrintedMillionths(negative, m)| + ReadExponent(rest).length
  {
    hide Digits, Padded, NumberOf, Blanks, NumeralText, ReadExponent, ReadNumeral;
    var n := MillionthsNumeral(negative, m);
    var k := Missing(|NumeralText(n)|);
    MantissaThenExponent(k, n, rest);
    BlanksThenMore(k, NumeralText(n), rest);
  }

  lemma FractionOfMillionths(m: nat)
    ensures Fraction(Digits(m / MILLION, 10, 'a'), Padded(m % MILLION, 10, 'a', 6)) == m as real / 1000000.0
  {
    MillionIsSixDigits();
    var whole, digits := Digits(m / MILLION, 10, 'a'), Padded(m % MILLION, 10, 'a', 6);
    ValueOfDigits(m / MILLION, 10, 'a');
    ValueOfPadded(m % MILLION, 10, 'a', 6);
    hide Digits, Padded, Value, Pow;
    ValueOfBoth(whole, digits, 10);
  }

  /** Printing and reading back loses nothing as long as a millionth is finer than half a step:
      the rounding error in steps is at most scale / 2000000. */
  lemma MillionthsAreFineEnough(v: int, scale: nat)
    requires 0 < scale < MILLION
    ensures Scale(OfMillionths(v < 0, Millionths(Abs(v), scale)), scale) == v
  {
    var n := Abs(v);
    var m := Millionths(n, scale);
    MillionthsIsNearest(n, scale);
    ReadsBack(m, n, scale);
    assert v < 0 ==> 0 < n;
    if v < 0 {
      ScaleIsNearest(m as real / 1000000.0, scale);
    }
  }

  lemma ReadsBack(m: nat, n: nat, scale: nat)
    requires 0 < scale < MILLION && Nearest(m, n, scale)
    ensures Scale(m as real / 1000000.0, scale) == n
  {
    var p := m * scale;
    assert m as real / 1000000.0 * scale as real == p as real / 1000000.0;
    assert n as real <= p as real / 1000000.0 + 0.5 < n as real + 1.0;
  }

  /** Exactly the text of a printed entry is used, whatever comes behind it, if and only if that is
      no exponent; and then the entry survives. */
  lemma EntryRoundTrip(v: int, scale: nat, rest: string)
    requires 0 < scale < MILLION
    requires rest != [] ==> !IsDigit(rest[0], 10)
    ensures var p := Strtod(Printed(v, scale) + rest);
            && (p.length == |Printed(v, scale)| <==> EndsNumber(rest))
            && (EndsNumber(rest) ==>
                  Scale(p.value, scale) == v && (p.value < -1.0 <==> v < -(scale as int)))
  {
    hide Strtod, PrintedMillionths, Scale, Millionths, ReadExponent;
    ExponentIsTaken(v < 0, Millionths(Abs(v), scale), rest);
    if EndsNumber(rest) {
      PrintedReads(v < 0, Millionths(Abs(v), scale), rest);
    }
    MillionthsAreFineEnough(v, scale);
    BelowMinusOne(v, scale);
  }

  lemma BelowMinusOne(v: int, scale: nat)
    requires 0 < scale < MILLION
    ensures OfMillionths(v < 0, Millionths(Abs(v), scale)) < -1.0 <==> v < -(scale as int)
  {
    var n := Abs(v);
    if n <= scale {
      AtMostOne(n, scale);
    } else {
      MillionthsIsNearest(n, scale);
      var m := Millionths(n, scale);
      hide Millionths;
      assert m * scale == MILLION * scale - (MILLION - m) * scale;
      NotBelow(MILLION - m, scale);
    }
  }

  lemma NotBelow(k: int, scale: nat)
    ensures 0 <= k ==> 0 <= k * scale
  {
  }
}
