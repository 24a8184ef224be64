/** Decimal numerals, with or without point and exponent: writing them and reading them back. */
module Numerals {
  import opened Common
  import opened NumberText

  datatype Exponent = NoExponent | Exponent(negative: bool, digits: string)

  /** A numeral as it is written; there need not be digits on both sides of the point. */
  datatype Numeral = Numeral(negative: bool, whole: string, point: bool, digits: string, exponent: Exponent)
  {
    predicate Valid() {
      && AllDigits(whole, 10) && AllDigits(digits, 10) && (!point ==> digits == "")
      && (exponent.Exponent? ==> AllDigits(exponent.digits, 10))
    }

    /** Nothing is a numeral without digits. */
    predicate Complete() {
      Valid() && whole + digits != "" && (exponent.Exponent? ==> exponent.digits != "")
    }
  }

  const NOTHING := Numeral(false, "", false, "", NoExponent)

  /** The digits before and behind the point, as one number over a power of ten. */
  function Fraction(whole: string, digits: string): real
    requires AllDigits(whole, 10) && AllDigits(digits, 10)
  {
    PowPositive(10, |digits|);
    Value(whole + digits, 10) as real / Pow(10, |digits|) as real
  }

  function Scaled(x: real, e: Exponent): real
    requires e.Exponent? ==> AllDigits(e.digits, 10)
  {
    match e
    case NoExponent => x
    case Exponent(negative, digits) =>
      PowPositive(10, Value(digits, 10));
      if negative then x / Pow(10, Value(digits, 10)) as real else x * Pow(10, Value(digits, 10)) as real
  }

  /** The number a numeral stands for. */
  function NumberOf(n: Numeral): real
    requires n.Valid()
  {
    var x := Scaled(Fraction(n.whole, n.digits), n.exponent);
    if n.negative then -x else x
  }

  function Signed(negative: bool, s: string): string {
    if negative then "-" + s else s
  }

  function MantissaText(n: Numeral): string {
    n.whole + if n.point then "." + n.digits else ""
  }

  function ExponentText(e: Exponent): string {
    match e
    case NoExponent => ""
    case Exponent(negative, digits) => (if negative then "e-" else "e+") + digits
  }

  function NumeralText(n: Numeral): string {
    Signed(n.negative, MantissaText(n) + ExponentText(n.exponent))
  }

  /** Reads the digits and the point. */
  function ReadMantissa(s: string): (p: Parsed<Numeral>)
    ensures p.length <= |s| && p.value.Valid() && (0 < p.length ==> p.value.Complete())
  {
    var whole := Run(s, 10);
    if CharAt(s, whole) == '.' then
      var digits := Run(s[whole + 1..], 10);
      if whole + digits == 0 then Parsed(NOTHING, 0)
      else Parsed(Numeral(false, s[..whole], true, s[whole + 1..][..digits], NoExponent), whole + 1 + digits)
    else
      Parsed(Numeral(false, s[..whole], false, "", NoExponent), whole)
  }

  /** Reads an exponent, which needs at least one digit to be one. */
  function ReadExponent(s: string): (p: Parsed<Exponent>)
    ensures p.length <= |s| && (p.length == 0 <==> p.value == NoExponent)
    ensures p.value.Exponent? ==> AllDigits(p.value.digits, 10) && p.value.digits != ""
  {
    if CharAt(s, 0) != 'e' && CharAt(s, 0) != 'E' then Parsed(NoExponent, 0)
    else
      var sign := if CharAt(s, 1) == '-' || CharAt(s, 1) == '+' then 2 else 1;
      var n := Run(s[sign..], 10);
      if n == 0 then Parsed(NoExponent, 0)
      else Parsed(Exponent(CharAt(s, 1) == '-', s[sign..][..n]), sign + n)
  }

  function ReadUnsigned(s: string): (p: Parsed<Numeral>)
    ensures p.length <= |s| && p.value.Valid() && (0 < p.length ==> p.value.Complete())
  {
    var m := ReadMantissa(s);
    if m.length == 0 then m
    else
      var e := ReadExponent(s[m.length..]);
      Parsed(m.value.(exponent := e.value), m.length + e.length)
  }

  function ReadSigned(s: string): (p: Parsed<Numeral>)
    ensures p.length <= |s| && p.value.Valid() && (0 < p.length ==> p.value.Complete())
  {
    if CharAt(s, 0) == '-' || CharAt(s, 0) == '+' then
      var p := ReadUnsigned(s[1..]);
      if p.length == 0 then p else Parsed(p.value.(negative := CharAt(s, 0) == '-'), p.length + 1)
    else
      ReadUnsigned(s)
  }

  /** Reads a numeral after any white space; length 0 says there is none. */
  function ReadNumeral(s: string): (p: Parsed<Numeral>)
    ensures p.length <= |s| && p.value.Valid() && (0 < p.length ==> p.value.Complete())
  {
    var p := ReadSigned(s[Spaces(s)..]);
    if p.length == 0 then p else Parsed(p.value, Spaces(s) + p.length)
  }

  /** A numeral written before `rest` ends where it was meant to: neither a digit nor a point nor
      an exponent follows that would be taken for a part of it. */
  predicate Ends(n: Numeral, rest: string) {
    && (rest != "" ==> !IsDigit(rest[0], 10))
    && (n.exponent == NoExponent ==>
          && ReadExponent(rest).length == 0
          && (rest != "" && !n.point ==> rest[0] != '.'))
  }

  lemma MantissaReads(n: Numeral, rest: string)
    requires n.Complete() && n.exponent == NoExponent
    requires rest != "" ==> !IsDigit(rest[0], 10) && (!n.point ==> rest[0] != '.')
    ensures ReadMantissa(MantissaText(n) + rest) == Parsed(n.(negative := false), |MantissaText(n)|)
  {
    hide ReadMantissa, DigitOf;
    if n.point {
      PointReads(n.whole, n.digits, rest);
      assert MantissaText(n) + rest == n.whole + ("." + (n.digits + rest));
    } else {
      WholeReads(n.whole, rest);
      assert MantissaText(n) == n.whole;
    }
  }

  lemma PointReads(whole: string, digits: string, rest: string)
    requires AllDigits(whole, 10) && AllDigits(digits, 10) && whole + digits != ""
    requires rest != "" ==> !IsDigit(rest[0], 10)
    ensures ReadMantissa(whole + ("." + (digits + rest)))
            == Parsed(Numeral(false, whole, true, digits, NoExponent), |whole| + 1 + |digits|)
  {
    hide Run, DigitOf;
    PointIsNoDigit();
    var after := "." + (digits + rest);
    RunEnds(whole, after, 10);
    RunEnds(digits, rest, 10);
    assert (whole + after)[|whole| + 1..] == digits + rest;
  }

  lemma WholeReads(whole: string, rest: string)
    requires AllDigits(whole, 10)
    requires rest != "" ==> !IsDigit(rest[0], 10) && rest[0] != '.'
    ensures ReadMantissa(whole + rest) == Parsed(Numeral(false, whole, false, "", NoExponent), |whole|)
  {
    hide Run, DigitOf;
    RunEnds(whole, rest, 10);
  }

  lemma PointIsNoDigit()
    ensures !IsDigit('.', 10) && !IsDigit('e', 10)
  {
  }

  lemma ExponentReads(e: Exponent, rest: string)
    requires e.Exponent? && AllDigits(e.digits, 10) && e.digits != ""
    requires rest != "" ==> !IsDigit(rest[0], 10)
    ensures ReadExponent(ExponentText(e) + rest) == Parsed(e, |ExponentText(e)|)
  {
    hide Run, IsDigit, AllDigits, ExponentText;
    RunEnds(e.digits, rest, 10);
    ExponentBegins(e, rest);
  }

  lemma ExponentBegins(e: Exponent, rest: string)
    requires e.Exponent?
    ensures var s := ExponentText(e) + rest;
            && |ExponentText(e)| == 2 + |e.digits| && s[2..] == e.digits + rest
            && s[0] == 'e' && s[1] == if e.negative then '-' else '+'
  {
  }

  lemma MantissaEnds(n: Numeral, rest: string)
    requires n.Complete() && Ends(n, rest)
    ensures var after := ExponentText(n.exponent) + rest;
            && (after != "" ==> !IsDigit(after[0], 10) && (!n.point ==> after[0] != '.'))
            && ReadExponent(after) == Parsed(n.exponent, |ExponentText(n.exponent)|)
  {
    hide ReadExponent, DigitOf, Run;
    PointIsNoDigit();
    if n.exponent == NoExponent {
      assert ExponentText(n.exponent) + rest == rest;
    } else {
      ExponentReads(n.exponent, rest);
    }
  }

  /** After the mantissa comes whatever exponent the text goes on with. */
  lemma UnsignedReads(n: Numeral, after: string)
    requires n.Complete() && !n.negative && n.exponent == NoExponent
    requires after != "" ==> !IsDigit(after[0], 10) && (!n.point ==> after[0] != '.')
    ensures ReadUnsigned(NumeralText(n) + after)
            == Parsed(n.(exponent := ReadExponent(after).value), |NumeralText(n)| + ReadExponent(after).length)
    ensures NumeralText(n) != ""
  {
    hide ReadMantissa, ReadExponent, DigitOf, MantissaText;
    SameMantissa(n);
    MantissaReads(n, after);
    assert NumeralText(n) == MantissaText(n);
    assert (MantissaText(n) + after)[|MantissaText(n)|..] == after;
  }

  lemma SameMantissa(n: Numeral)
    requires n.Complete()
    ensures var m := n.(exponent := NoExponent);
            m.Complete() && MantissaText(m) == MantissaText(n) && 0 < |MantissaText(n)|
  {
  }

  function Blanks(k: nat): string {
    seq(k, i => ' ')
  }

  lemma {:induction false} SpacesEnd(k: nat, s: string)
    requires s != [] ==> !IsSpace(s[0])
    ensures Spaces(Blanks(k) + s) == k && (Blanks(k) + s)[k..] == s
  {
    if k == 0 {
      assert Blanks(k) + s == s;
    } else {
      SpacesEnd(k - 1, s);
      assert (Blanks(k) + s)[1..] == Blanks(k - 1) + s;
    }
  }

  lemma NumeralBegins(n: Numeral, rest: string)
    requires n.Complete()
    ensures var s := NumeralText(n) + rest;
            s != "" && (n.negative <==> s[0] == '-') && s[0] != '+' && !IsSpace(s[0])
  {
    hide Run;
    var s := NumeralText(n) + rest;
    if !n.negative {
      if n.whole != "" {
        assert s[0] == n.whole[0] && IsDigit(s[0], 10);
      } else {
        assert s[0] == '.';
      }
    }
  }

  /** A numeral without exponent, padded or not, takes on any exponent that follows it. */
  lemma MantissaThenExponent(k: nat, n: Numeral, after: string)
    requires n.Complete() && n.exponent == NoExponent
    requires after != "" ==> !IsDigit(after[0], 10) && (!n.point ==> after[0] != '.')
    ensures ReadNumeral(Blanks(k) + (NumeralText(n) + after))
            == Parsed(n.(exponent := ReadExponent(after).value),
                      k + |NumeralText(n)| + ReadExponent(after).length)
  {
    hide ReadUnsigned, ReadExponent, Spaces, NumeralText, DigitOf;
    var s, m := NumeralText(n) + after, n.(negative := false);
    NumeralBegins(n, after);
    SpacesEnd(k, s);
    UnsignedReads(m, after);
    WithoutSign(n, after);
  }

  lemma WithoutSign(n: Numeral, after: string)
    ensures var m := n.(negative := false);
            && (n.negative ==> |NumeralText(n)| == 1 + |NumeralText(m)|
                               && (NumeralText(n) + after)[1..] == NumeralText(m) + after)
            && (!n.negative ==> n == m)
  {
  }

  /** A numeral is read back from its text, and exactly its text is used. */
  lemma NumeralReads(k: nat, n: Numeral, rest: string)
    requires n.Complete() && Ends(n, rest)
    ensures ReadNumeral(Blanks(k) + (NumeralText(n) + rest)) == Parsed(n, k + |NumeralText(n)|)
  {
    hide ReadNumeral, ReadExponent, Ends, MantissaText, ExponentText;
    var m, after := n.(exponent := NoExponent), ExponentText(n.exponent) + rest;
    MantissaEnds(n, rest);
    SameMantissa(n);
    MantissaThenExponent(k, m, after);
    TextInTwoParts(n, rest);
  }

  /** An exponent may be written with a capital letter, and without a sign. */
  lemma ExponentForms(letter: char, sign: string, digits: string, rest: string)
    requires letter in {'e', 'E'} && sign in {"", "+", "-"} && AllDigits(digits, 10) && digits != ""
    requires rest != "" ==> !IsDigit(rest[0], 10)
    ensures ReadExponent([letter] + sign + digits + rest)
            == Parsed(Exponent(sign == "-", digits), 1 + |sign| + |digits|)
  {
    hide Run, IsDigit, AllDigits;
    RunEnds(digits, rest, 10);
    BehindSign(letter, sign, digits, rest);
    SignsAreNoDigits(digits);
  }

  lemma SignsAreNoDigits(digits: string)
    requires AllDigits(digits, 10) && digits != ""
    ensures digits[0] != '-' && digits[0] != '+'
  {
    assert IsDigit(digits[0], 10);
  }

  lemma BehindSign(letter: char, sign: string, digits: string, rest: string)
    requires sign in {"", "+", "-"} && digits != ""
    ensures var s := [letter] + sign + digits + rest;
            && |sign| <= 1 && 2 <= |s| && s[0] == letter && s[1 + |sign|..] == digits + rest
            && s[1] == (if sign == "+" then '+' else if sign == "-" then '-' else digits[0])
  {
    var s := [letter] + sign + digits + rest;
    if sign == "" {
      assert s == [letter] + digits + rest;
    }
    assert s[1 + |sign|..] == digits + rest;
  }

  /** And a numeral may have a plus sign. */
  lemma PlusIsIgnored(n: Numeral, rest: string)
    requires n.Complete() && !n.negative && Ends(n, rest)
    ensures ReadNumeral("+" + (NumeralText(n) + rest)) == Parsed(n, 1 + |NumeralText(n)|)
  {
    hide ReadUnsigned, Ends, NumeralText;
    NumeralReads(0, n, rest);
    NumeralBegins(n, rest);
    var s := NumeralText(n) + rest;
    assert Blanks(0) + s == s && s[0..] == s;
    assert Spaces(s) == 0 && ReadSigned(s) == ReadUnsigned(s) == Parsed(n, |NumeralText(n)|);
    var t := "+" + s;
    assert Spaces(t) == 0 && t[0..] == t && t[1..] == s && CharAt(t, 0) == '+';
    NumeralBegins(n, "");
    assert n.(negative := false) == n && NumeralText(n) + "" == NumeralText(n);
  }

  /** Nothing is read where no digit, sign or point begins. */
  lemma NothingIsRead(s: string)
    requires s != "" ==> !IsSpace(s[0]) && !IsDigit(s[0], 10) && s[0] !in {'+', '-', '.'}
    ensures ReadNumeral(s).length == 0
  {
    assert s[Spaces(s)..] == s;
    assert Run(s, 10) == 0;
  }

  lemma TextInTwoParts(n: Numeral, rest: string)
    ensures var m := n.(exponent := NoExponent);
            && NumeralText(n) + rest == NumeralText(m) + (ExponentText(n.exponent) + rest)
            && |NumeralText(n)| == |NumeralText(m)| + |ExponentText(n.exponent)|
  {
    var m := n.(exponent := NoExponent);
    assert MantissaText(m) + "" == MantissaText(n);
    assert NumeralText(n) == NumeralText(m) + ExponentText(n.exponent);
  }
}
