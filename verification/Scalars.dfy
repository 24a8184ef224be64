/**
 Integers, hexadecimal numbers and attenuator trims as text (software/src/serdes.c,
 systemParameters.c:123-163).
 */
module Scalars {
  import opened Common
  import opened NumberText
  import opened CNumbers
  import opened Numerals
  import opened Serdes

  /** The text of "%d". */
  function FormatInt(v: int): string {
    Signed(v < 0, Digits(Abs(v), 10, 'a'))
  }

  /** The text of "%04d": zeros up to a width of four, the sign included. */
  function FormatInt4(v: int): string {
    var digits := Digits(Abs(v), 10, 'a');
    var width := if v < 0 then 3 else 4;
    Signed(v < 0, Zeros(if |digits| < width then width - |digits| else 0) + digits)
  }

  /** Reads a number into an int field that holds `held`. A number that is no int is accepted too,
      but leaves the field as it is. */
  function ParseInt(str: string, held: int): (r: Option<Parsed<int>>)
    ensures r.Some? ==> 0 < r.value.length <= |str| && (IsInt(held) ==> IsInt(r.value.value))
  {
    var d := Strtod(str);
    if d.length == 0 || !EndsValue(CharAt(str, d.length)) then None
    else Some(Parsed(Kept(d.value, held), d.length))
  }

  /** What an int field that holds `held` keeps of a number. */
  function Kept(x: real, held: int): int {
    if x.Floor as real == x && IsInt(x.Floor) then x.Floor else held
  }

  /** What a double can be that stands for a number: within half a unit of 53 bits of it, and exact
      where the number is an int. */
  ghost predicate IsDoubleFor(d: real, x: real) {
    && -Size(x) <= (d - x) * TWO_53 <= Size(x)
    && (x.Floor as real == x && IsInt(x.Floor) ==> d == x)
  }

  const TWO_53 := 9007199254740992.0

  function Size(x: real): real {
    if x < 0.0 then -x else x
  }

  /** That numbers are read as doubles makes no difference where the digits, taken together, make
      less than 2^53: fifteen of them always do. */
  lemma RoundingIsHarmless(n: Numeral, d: real, held: int)
    requires n.Complete() && Value(n.whole + n.digits, 10) as real < TWO_53
    requires IsDoubleFor(d, NumberOf(n))
    ensures Kept(d, held) == Kept(NumberOf(n), held)
  {
    hide NumberOf, Value, IsDoubleFor, Kept;
    var m, e, whole := AsPower(n);
    var x := NumberOf(n);
    if whole {
      hide Pow;
      WholeIsApart(d, x, m * Pow(10, e));
    } else {
      PowPositive(10, e);
      FractionIsApart(d, x, m, Pow(10, e));
    }
  }

  lemma WholeIsApart(d: real, x: real, v: int)
    requires x == v as real && IsDoubleFor(d, x)
    ensures forall held :: Kept(d, held) == Kept(x, held)
  {
  }

  lemma FractionIsApart(d: real, x: real, m: int, q: nat)
    requires 0 < q && x * q as real == m as real && Abs(m) as real < TWO_53 && IsDoubleFor(d, x)
    ensures forall held :: Kept(d, held) == Kept(x, held)
  {
    if d.Floor as real == d && IsInt(d.Floor) {
      NoFractionIsThatNear(d, d.Floor, x, m, q);
    }
  }

  lemma NoFractionIsThatNear(d: real, v: int, x: real, m: int, q: nat)
    requires d == v as real && 0 < q && x * q as real == m as real && Abs(m) as real < TWO_53
    requires -Size(x) <= (d - x) * TWO_53 <= Size(x)
    ensures d == x
  {
    hide *;
    var k := v * q - m;
    RealProduct(v, q);
    Distributed(d, x, q as real);
    SizeOfProduct(x, q as real, m);
    Multiplied((d - x) * TWO_53, Size(x), q as real);
    Reordered(d - x, TWO_53, q as real);
    IsZero(k, Abs(m) as real);
    NoFactor(d - x, q as real);
  }

  lemma RealProduct(a: int, b: int)
    ensures (a * b) as real == a as real * b as real
  {
  }

  lemma Distributed(a: real, b: real, q: real)
    ensures (a - b) * q == a * q - b * q
  {
  }

  lemma SizeOfProduct(x: real, q: real, m: int)
    requires 0.0 < q && x * q == m as real
    ensures Size(x) * q == Abs(m) as real
  {
    assert x < 0.0 ==> -x * q == -(x * q);
  }

  lemma IsZero(k: int, m: real)
    requires -m <= k as real * TWO_53 <= m < TWO_53
    ensures k == 0
  {
  }

  lemma Multiplied(a: real, b: real, q: real)
    requires -b <= a <= b && 0.0 < q
    ensures -(b * q) <= a * q <= b * q
  {
  }

  lemma Reordered(a: real, b: real, c: real)
    ensures a * b * c == a * c * b
  {
  }

  lemma NoFactor(a: real, b: real)
    requires a * b == 0.0 && b != 0.0
    ensures a == 0.0
  {
  }

  /** A numeral is a whole number times or over a power of ten. */
  lemma AsPower(n: Numeral) returns (m: int, e: nat, whole: bool)
    requires n.Complete()
    ensures Abs(m) == Value(n.whole + n.digits, 10)
    ensures if whole then NumberOf(n) == (m * Pow(10, e)) as real else NumberOf(n) * Pow(10, e) as real == m as real
  {
    hide Pow, Value, Scaled;
    var v: int := Value(n.whole + n.digits, 10);
    e, whole := ScaledAsPower(v, |n.digits|, n.exponent);
    m := if n.negative then -v else v;
    var x, p := Scaled(Fraction(n.whole, n.digits), n.exponent), Pow(10, e);
    assert -x * p as real == -(x * p as real) && -v * p == -(v * p);
  }

  lemma ScaledAsPower(v: int, a: nat, exponent: Exponent) returns (e: nat, whole: bool)
    requires exponent.Exponent? ==> AllDigits(exponent.digits, 10)
    ensures Pow(10, a) != 0
    ensures var x := Scaled(v as real / Pow(10, a) as real, exponent);
            if whole then x == (v * Pow(10, e)) as real else x * Pow(10, e) as real == v as real
  {
    hide Pow, Value;
    PowPositive(10, a);
    match exponent
    case NoExponent =>
      e, whole := a, false;
      TimesSame(v as real, Pow(10, a) as real);
    case Exponent(negative, digits) =>
      var b := Value(digits, 10);
      if negative {
        e, whole := a + b, false;
        OverPower(v, a, b);
      } else if a <= b {
        e, whole := b - a, true;
        TimesLarger(v, a, b);
      } else {
        e, whole := a - b, false;
        TimesSmaller(v, a, b);
      }
  }

  lemma OverPower(v: int, a: nat, b: nat)
    ensures Pow(10, a) != 0 && Pow(10, b) != 0
    ensures v as real / Pow(10, a) as real / Pow(10, b) as real * Pow(10, a + b) as real == v as real
  {
    hide *;
    RealPower(a, b);
    Cancel(v as real, Pow(10, a) as real, Pow(10, b) as real);
  }

  lemma TimesLarger(v: int, a: nat, b: nat)
    requires a <= b
    ensures Pow(10, a) != 0
    ensures v as real / Pow(10, a) as real * Pow(10, b) as real == (v * Pow(10, b - a)) as real
  {
    hide *;
    RealPower(a, b - a);
    Reduce(v as real, Pow(10, a) as real, Pow(10, b - a) as real);
    RealProduct(v, Pow(10, b - a));
  }

  lemma TimesSmaller(v: int, a: nat, b: nat)
    requires b < a
    ensures Pow(10, a) != 0
    ensures v as real / Pow(10, a) as real * Pow(10, b) as real * Pow(10, a - b) as real == v as real
  {
    hide *;
    PowPositive(10, a);
    RealPower(b, a - b);
    Cancel(v as real, Pow(10, b) as real, Pow(10, a - b) as real);
  }

  lemma RealPower(a: nat, b: nat)
    ensures 0 < Pow(10, a) && 0 < Pow(10, b)
    ensures Pow(10, a + b) as real == Pow(10, a) as real * Pow(10, b) as real
  {
    PowPositive(10, a);
    PowPositive(10, b);
    PowAdd(10, a, b);
    RealProduct(Pow(10, a), Pow(10, b));
  }

  lemma TimesSame(v: real, a: real)
    requires 0.0 < a
    ensures v / a * a == v
  {
  }

  lemma Cancel(v: real, a: real, b: real)
    requires 0.0 < a && 0.0 < b
    ensures v / a * a == v && v / a / b * (a * b) == v && v / (a * b) * a * b == v
  {
    var x, y := v / a / b, v / (a * b);
    assert x * (a * b) == x * b * a && y * a * b == y * (a * b);
  }

  lemma Reduce(v: real, a: real, b: real)
    requires 0.0 < a && 0.0 < b
    ensures v / a * (a * b) == v * b
  {
    var x := v / a;
    assert x * (a * b) == x * a * b;
  }

  lemma ValueEnds(n: Numeral, rest: string)
    requires rest != "" && EndsValue(rest[0])
    ensures Ends(n, rest)
  {
  }

  /** Every decimal number is accepted in an int field, with or without point and exponent; it is
      stored if and only if it is an int, and otherwise leaves the field as it is. */
  lemma NumberIsStoredIff(n: Numeral, rest: string, held: int)
    requires n.Complete() && rest != "" && EndsValue(rest[0])
    ensures forall v :: IsInt(v) && NumberOf(n) == v as real ==>
              ParseInt(NumeralText(n) + rest, held) == Some(Parsed(v, |NumeralText(n)|))
    ensures (forall v :: IsInt(v) ==> NumberOf(n) != v as real) ==>
              ParseInt(NumeralText(n) + rest, held) == Some(Parsed(held, |NumeralText(n)|))
  {
    hide Strtod, NumberOf, NumeralText, Ends;
    ValueEnds(n, rest);
    StrtodReadsPlain(n, rest);
  }

  /** A number is only taken if the value ends behind it; and nothing is taken where no number begins. */
  lemma NumberIsTakenIff(n: Numeral, rest: string, held: int)
    requires n.Complete() && Ends(n, rest)
    ensures ParseInt(NumeralText(n) + rest, held).Some? <==> rest != "" && EndsValue(rest[0])
  {
    hide Strtod, NumberOf, Ends, NumeralText;
    StrtodReadsPlain(n, rest);
    assert CharAt(NumeralText(n) + rest, |NumeralText(n)|) == CharAt(rest, 0);
  }

  lemma NoNumberIsRefused(s: string, held: int)
    requires s != "" ==> !IsSpace(s[0]) && !IsDigit(s[0], 10) && s[0] !in {'+', '-', '.'}
    ensures ParseInt(s, held) == None
  {
    hide ReadNumeral;
    NothingIsRead(s);
  }

  /** A whole numeral, of any sign and with any leading zeros. */
  function WholeNumeral(negative: bool, whole: string): Numeral {
    Numeral(negative, whole, false, "", NoExponent)
  }

  lemma WholeNumber(negative: bool, whole: string)
    requires AllDigits(whole, 10) && whole != ""
    ensures var n := WholeNumeral(negative, whole);
            && n.Complete() && NumeralText(n) == Signed(negative, whole)
            && NumberOf(n) == if negative then -(Value(whole, 10) as real) else Value(whole, 10) as real
  {
    assert whole + "" == whole && Pow(10, 0) == 1;
    hide Value, Pow;
  }

  lemma FractionNumber(negative: bool, whole: string, digits: string)
    requires AllDigits(whole, 10) && AllDigits(digits, 10) && whole != ""
    ensures var n := Numeral(negative, whole, true, digits, NoExponent);
            && n.Complete() && NumeralText(n) == Signed(negative, whole + "." + digits)
            && NumberOf(n) == if negative then -Fraction(whole, digits) else Fraction(whole, digits)
  {
    hide Fraction;
    assert whole + ("." + digits) + "" == whole + "." + digits;
  }

  /** An unsigned number's text, with any leading zeros and a sign, is read as the int it shows. */
  lemma WholeReads(v: int, digits: string, rest: string, held: int)
    requires IsInt(v) && AllDigits(digits, 10) && digits != [] && Value(digits, 10) == Abs(v)
    requires rest != [] && EndsValue(rest[0])
    ensures ParseInt(Signed(v < 0, digits) + rest, held) == Some(Parsed(v, |Signed(v < 0, digits)|))
  {
    hide ParseInt, Value, NumberOf, NumeralText, Signed;
    WholeNumber(v < 0, digits);
    NumberIsStoredIff(WholeNumeral(v < 0, digits), rest, held);
    IntIsWhole(v);
  }

  lemma SignedIsNotEmpty(negative: bool, s: string)
    requires s != ""
    ensures Signed(negative, s) != ""
  {
  }

  lemma IntIsWhole(v: int)
    ensures (if v < 0 then -(Abs(v) as real) else Abs(v) as real) == v as real
    ensures (v as real).Floor == v
  {
  }

  lemma IntRoundTrip(v: int, rest: string, held: int)
    requires IsInt(v) && rest != [] && EndsValue(rest[0])
    ensures ParseInt(FormatInt(v) + rest, held) == Some(Parsed(v, |FormatInt(v)|)) && FormatInt(v) != ""
  {
    hide ParseInt, Value;
    ValueOfDigits(Abs(v), 10, 'a');
    WholeReads(v, Digits(Abs(v), 10, 'a'), rest, held);
  }

  lemma Int4RoundTrip(v: int, rest: string, held: int)
    requires IsInt(v) && rest != [] && EndsValue(rest[0])
    ensures ParseInt(FormatInt4(v) + rest, held) == Some(Parsed(v, |FormatInt4(v)|)) && FormatInt4(v) != ""
  {
    hide ParseInt, Value;
    var digits := Digits(Abs(v), 10, 'a');
    var width := if v < 0 then 3 else 4;
    var k := if |digits| < width then width - |digits| else 0;
    ValueOfDigits(Abs(v), 10, 'a');
    ZerosBefore(k, digits, 10);
    WholeReads(v, Zeros(k) + digits, rest, held);
  }

  /** It takes at least four characters, and no more than it needs; the padding is zeros behind the
      sign. */
  lemma Int4IsFourWide(v: int)
    ensures if 4 <= |FormatInt(v)| then FormatInt4(v) == FormatInt(v) else |FormatInt4(v)| == 4
    ensures v < 0 ==> FormatInt4(v)[..1] == "-"
  {
    var digits := Digits(Abs(v), 10, 'a');
    var width := if v < 0 then 3 else 4;
    var k := if |digits| < width then width - |digits| else 0;
    ZerosAreMany(k);
    assert k == 0 ==> Zeros(k) + digits == digits;
    hide Digits;
  }

  lemma {:induction false} ZerosAreMany(k: nat)
    ensures |Zeros(k)| == k && forall i :: 0 <= i < k ==> Zeros(k)[i] == '0'
  {
    if k != 0 {
      ZerosAreMany(k - 1);
    }
  }

  /** In particular a fraction is accepted, and ignored, whatever its sign. */
  lemma FractionIsIgnored(negative: bool, whole: string, digits: string, rest: string, held: int)
    requires AllDigits(whole, 10) && AllDigits(digits, 10) && whole != []
    requires rest != [] && EndsValue(rest[0])
    requires Fraction(whole, digits).Floor as real != Fraction(whole, digits)
    ensures var text := Signed(negative, whole + "." + digits);
            ParseInt(text + rest, held) == Some(Parsed(held, |text|))
  {
    hide ParseInt, Fraction, NumberOf, NumeralText, Signed;
    FractionNumber(negative, whole, digits);
    var n := Numeral(negative, whole, true, digits, NoExponent);
    forall v | IsInt(v)
      ensures NumberOf(n) != v as real
    {
      assert (v as real).Floor == v && ((-v) as real).Floor == -v;
    }
    NumberIsStoredIff(n, rest, held);
  }

  /** The int with the given low 32 bits. */
  function LowWord(v: int): (r: int)
    ensures IsInt(r) && (r - v) % U32 == 0
    ensures IsInt(v) ==> r == v
  {
    var w := v % U32;
    if INT_MAX < w then w - U32 else w
  }

  /** The text of "0x%x", which shows the bits of an int. */
  function FormatHex(v: int): string {
    "0x" + Digits(v % U32, 16, 'a')
  }

  function ParseHex(str: string): (r: Option<Parsed<int>>)
    ensures r.Some? ==> 0 < r.value.length <= |str| && IsInt(r.value.value)
  {
    var x := Strtol(str, 16);
    if x.length == 0 || !EndsValue(CharAt(str, x.length)) then None
    else Some(Parsed(LowWord(x.value), x.length))
  }

  lemma HexRoundTrip(v: int, rest: string)
    requires IsInt(v) && rest != [] && EndsValue(rest[0])
    ensures ParseHex(FormatHex(v) + rest) == Some(Parsed(v, |FormatHex(v)|)) && FormatHex(v) != ""
  {
    hide Strtol, Digits, Value;
    var digits := Digits(v % U32, 16, 'a');
    ValueOfDigits(v % U32, 16, 'a');
    StrtolReadsHex(digits, rest);
    assert FormatHex(v) + rest == "0x" + (digits + rest);
  }

  lemma HexIsTakenIff(digits: string, rest: string)
    requires AllDigits(digits, 16) && digits != [] && (rest != "" ==> !IsDigit(rest[0], 16))
    requires Value(digits, 16) <= LONG_MAX
    ensures ParseHex("0x" + (digits + rest)).Some? <==> rest != "" && EndsValue(rest[0])
  {
    hide Strtol, Value;
    StrtolReadsHex(digits, rest);
    var s := "0x" + (digits + rest);
    assert CharAt(s, 2 + |digits|) == CharAt(rest, 0);
  }

  /** A trim in quarters of a decibel as "%g" prints it; six digits are enough for all that a
      trim can be read as. */
  function FormatTrim(v: int): string {
    Signed(v < 0, QuarterText(Abs(v)))
  }

  function QuarterText(m: nat): string {
    Digits(m / 4, 10, 'a') + QuarterDigits(m % 4)
  }

  function QuarterDigits(q: nat): string
    requires q < 4
  {
    match q
    case 0 => ""
    case 1 => ".25"
    case 2 => ".5"
    case 3 => ".75"
  }

  /** Trims are separated by blanks. */
  function FormatTrims(trims: seq<int>): string
    requires trims != []
  {
    if |trims| == 1 then FormatTrim(trims[0]) else FormatTrim(trims[0]) + ([' '] + FormatTrims(trims[1..]))
  }

  /** Concretely. */
  lemma PrintedTrims()
    ensures FormatTrim(1) == "0.25" && FormatTrim(7) == "1.75" && FormatTrim(-6) == "-1.5"
  {
    assert Digits(0, 10, 'a') == "0" && Digits(1, 10, 'a') == "1";
  }

  const TRIMS := 4

  /** Reads the trims after `got`: a number counts when the right character follows, and anything
      else on the line is passed over. */
  function ParseTrims(s: string, got: seq<int>): (r: Option<Parsed<seq<int>>>)
    requires |got| < TRIMS
    ensures r.Some? ==> 0 < r.value.length <= |s| && |r.value.value| == TRIMS
    decreases |s|
  {
    var x := Strtod(s);
    var end := CharAt(s, x.length);
    if x.value < 0.0 || 1.8 <= x.value then None
    else
      var now := if TrimCounts(x.length, end, |got|) then got + [(x.value * 4.0 + 0.5).Floor] else got;
      if |now| == TRIMS then Some(Parsed(now, x.length))
      else if EndsLine(end) || end == '\0' then None
      else Further(x.length + 1, ParseTrims(s[x.length + 1..], now))
  }

  /** The trims that are stored before the line is complete or refused. */
  function TrimsRead(s: string, got: seq<int>): (r: seq<int>)
    requires |got| < TRIMS
    ensures |r| <= TRIMS && got <= r
    decreases |s|
  {
    var x := Strtod(s);
    var end := CharAt(s, x.length);
    if x.value < 0.0 || 1.8 <= x.value then got
    else
      var now := if TrimCounts(x.length, end, |got|) then got + [(x.value * 4.0 + 0.5).Floor] else got;
      if |now| == TRIMS || EndsLine(end) || end == '\0' then now else TrimsRead(s[x.length + 1..], now)
  }

  /** A number counts when a blank follows it, or the end of the line if it is the last. */
  predicate TrimCounts(length: nat, end: char, got: nat) {
    0 < length && (end == '\0' || if got == TRIMS - 1 then EndsLine(end) else end == ' ')
  }

  predicate EndsLine(c: char) {
    c == '\r' || c == '\n'
  }

  function Further(used: nat, rest: Option<Parsed<seq<int>>>): Option<Parsed<seq<int>>> {
    match rest
    case None => None
    case Some(p) => Some(Parsed(p.value, used + p.length))
  }

  predicate EndsTrim(c: char) {
    c == ' ' || EndsLine(c)
  }

  lemma TrimEnds(n: Numeral, rest: string)
    requires rest != "" && EndsTrim(rest[0])
    ensures Ends(n, rest)
  {
  }

  /** A printed trim is read exactly. */
  lemma TrimReads(v: int, rest: string)
    requires rest != [] && EndsTrim(rest[0])
    ensures Strtod(FormatTrim(v) + rest) == Parsed(v as real / 4.0, |FormatTrim(v)|)
    ensures FormatTrim(v) != ""
  {
    hide Strtod, Digits, QuarterDigits, Signed;
    QuarterTextReads(v < 0, Abs(v), rest);
    SignedIsNotEmpty(v < 0, QuarterText(Abs(v)));
  }

  lemma QuarterTextReads(negative: bool, m: nat, rest: string)
    requires rest != [] && EndsTrim(rest[0])
    ensures var text := Signed(negative, Digits(m / 4, 10, 'a') + QuarterDigits(m % 4));
            Strtod(text + rest) == Parsed(if negative then -(m as real / 4.0) else m as real / 4.0, |text|)
  {
    hide *;
    var whole := Digits(m / 4, 10, 'a');
    ValueOfDigits(m / 4, 10, 'a');
    QuartersAsDecimals(whole, m);
    if m % 4 == 0 {
      WholeNumber(negative, whole);
      TrimEnds(WholeNumeral(negative, whole), rest);
      StrtodReadsPlain(WholeNumeral(negative, whole), rest);
    } else {
      var n := Numeral(negative, whole, true, Hundredths(m % 4), NoExponent);
      FractionNumber(negative, whole, Hundredths(m % 4));
      TrimEnds(n, rest);
      StrtodReadsPlain(n, rest);
    }
  }

  /** The digits after the point. */
  function Hundredths(q: nat): (digits: string)
    ensures AllDigits(digits, 10)
  {
    if q == 1 then "25" else if q == 2 then "5" else "75"
  }

  lemma QuartersAsDecimals(whole: string, m: nat)
    requires AllDigits(whole, 10) && Value(whole, 10) == m / 4
    ensures m % 4 == 0 ==> whole + QuarterDigits(m % 4) == whole && Value(whole, 10) as real == m as real / 4.0
    ensures m % 4 != 0 ==> whole + QuarterDigits(m % 4) == whole + "." + Hundredths(m % 4)
    ensures m % 4 != 0 ==> Fraction(whole, Hundredths(m % 4)) == m as real / 4.0
  {
    hide Value, Fraction;
    if m % 4 == 0 {
      assert whole + "" == whole;
    } else {
      var digits := Hundredths(m % 4);
      TwoDigits();
      FractionOf(whole, digits);
      TenAndHundred();
      assert whole + "." + digits == whole + QuarterDigits(m % 4);
      hide Pow;
      Quarters(m / 4, m % 4);
    }
  }

  lemma TenAndHundred()
    ensures Pow(10, 1) == 10 && Pow(10, 2) == 100
  {
  }

  lemma Quarters(w: nat, q: nat)
    requires q < 4
    ensures var m := 4 * w + q;
            && (q == 1 ==> (w * 100 + 25) as real / 100.0 == m as real / 4.0)
            && (q == 2 ==> (w * 10 + 5) as real / 10.0 == m as real / 4.0)
            && (q == 3 ==> (w * 100 + 75) as real / 100.0 == m as real / 4.0)
  {
  }

  lemma FractionOf(whole: string, digits: string)
    requires AllDigits(whole, 10) && AllDigits(digits, 10)
    ensures Pow(10, |digits|) != 0
    ensures Fraction(whole, digits)
            == (Value(whole, 10) * Pow(10, |digits|) + Value(digits, 10)) as real / Pow(10, |digits|) as real
  {
    hide Value;
    PowPositive(10, |digits|);
    ValueOfBoth(whole, digits, 10);
  }

  lemma TwoDigits()
    ensures AllDigits("25", 10) && AllDigits("5", 10) && AllDigits("75", 10)
    ensures Value("25", 10) == 25 && Value("5", 10) == 5 && Value("75", 10) == 75
  {
    assert "5"[..0] == "" && "2"[..0] == "" && "7"[..0] == "";
    assert "25"[..1] == "2" && "75"[..1] == "7";
    assert Value("2", 10) == 2 && Value("7", 10) == 7;
  }

  lemma TrimValue(t: int)
    ensures var x := t as real / 4.0;
            && (x < 0.0 || 1.8 <= x <==> t < 0 || 7 < t)
            && (x * 4.0 + 0.5).Floor == t
  {
  }

  /** One trim of a line. */
  lemma TrimIsRead(t: int, end: char, tail: string, got: seq<int>)
    requires |got| < TRIMS && (EndsLine(end) || end == ' ')
    ensures var n := |FormatTrim(t)|;
            ParseTrims(FormatTrim(t) + ([end] + tail), got)
            == if t < 0 || 7 < t then None
               else if |got| == TRIMS - 1 then
                 if EndsLine(end) then Some(Parsed(got + [t], n)) else Further(n + 1, ParseTrims(tail, got))
               else if EndsLine(end) then None
               else Further(n + 1, ParseTrims(tail, got + [t]))
    ensures FormatTrim(t) != ""
  {
    hide Strtod, FormatTrim, Further, ParseTrims, TrimsRead;
    TrimReads(t, [end] + tail);
    TrimValue(t);
    TextBehind(FormatTrim(t), end, tail);
    TrimStep(FormatTrim(t) + ([end] + tail), got);
  }

  /** Any number counts as a trim if it is not negative and below 1.8, to the nearest quarter; otherwise
      the line is refused. */
  lemma AnyTrimIsRead(n: Numeral, tail: string, got: seq<int>)
    requires n.Complete() && |got| < TRIMS - 1
    ensures var x := NumberOf(n);
            var read := ParseTrims(NumeralText(n) + ([' '] + tail), got);
            if x < 0.0 || 1.8 <= x then read == None
            else exists q: int ::
              && -0.5 <= q as real - 4.0 * x <= 0.5
              && read == Further(|NumeralText(n)| + 1, ParseTrims(tail, got + [q]))
  {
    hide Strtod, NumberOf, NumeralText, ParseTrims, TrimsRead, Further, Ends;
    var x := NumberOf(n);
    TrimEnds(n, [' '] + tail);
    StrtodReadsPlain(n, [' '] + tail);
    TextBehind(NumeralText(n), ' ', tail);
    TrimStep(NumeralText(n) + ([' '] + tail), got);
    if 0.0 <= x < 1.8 {
      var q := (x * 4.0 + 0.5).Floor;
      assert -0.5 <= q as real - 4.0 * x <= 0.5;
    }
  }

  predicate Readable(trims: seq<int>) {
    forall i :: 0 <= i < |trims| ==> 0 <= trims[i] <= 7
  }

  /** Printed trims are read back exactly when all are between 0 and 1.75 dB; otherwise the line
      is refused. */
  lemma {:induction false} TrimsRoundTrip(trims: seq<int>, got: seq<int>, rest: string)
    requires trims != [] && |got| + |trims| == TRIMS && rest != [] && EndsLine(rest[0])
    ensures ParseTrims(FormatTrims(trims) + rest, got)
            == if Readable(trims) then Some(Parsed(got + trims, |FormatTrims(trims)|)) else None
    ensures FormatTrims(trims) != ""
  {
    hide ParseTrims, FormatTrim;
    var t, tail := trims[0], trims[1..];
    if |trims| == 1 {
      assert rest == [rest[0]] + rest[1..] && trims == [t];
      TrimIsRead(t, rest[0], rest[1..], got);
    } else {
      TrimIsRead(t, ' ', FormatTrims(tail) + rest, got);
      assert FormatTrims(trims) + rest == FormatTrim(t) + ([' '] + (FormatTrims(tail) + rest));
      TrimsRoundTrip(tail, got + [t], rest);
      assert got + trims == got + [t] + tail;
      assert Readable(trims) <==> 0 <= t <= 7 && Readable(tail);
    }
  }

  lemma {:induction false} AcceptedTrimsRead(s: string, got: seq<int>)
    requires |got| < TRIMS && ParseTrims(s, got).Some?
    ensures TrimsRead(s, got) == ParseTrims(s, got).value.value
    decreases |s|
  {
    hide Strtod;
    var x := Strtod(s);
    var end := CharAt(s, x.length);
    var now := if TrimCounts(x.length, end, |got|) then got + [(x.value * 4.0 + 0.5).Floor] else got;
    if |now| < TRIMS && !EndsLine(end) && end != '\0' {
      AcceptedTrimsRead(s[x.length + 1..], now);
    }
  }

  /** One step through the line, at position `cp`. */
  lemma TrimAt(str: string, cp: nat, got: seq<int>)
    requires cp <= |str| && |got| < TRIMS
    ensures var x := Strtod(str[cp..]);
            var endp := cp + x.length;
            var end := CharAt(str, endp);
            var now := if TrimCounts(x.length, end, |got|) then got + [(x.value * 4.0 + 0.5).Floor] else got;
            && endp <= |str|
            && Further(cp, ParseTrims(str[cp..], got))
               == (if x.value < 0.0 || 1.8 <= x.value then None
                   else if |now| == TRIMS then Some(Parsed(now, endp))
                   else if EndsLine(end) || end == '\0' then None
                   else Further(endp + 1, ParseTrims(str[endp + 1..], now)))
            && TrimsRead(str[cp..], got)
               == (if x.value < 0.0 || 1.8 <= x.value then got
                   else if |now| == TRIMS || EndsLine(end) || end == '\0' then now
                   else TrimsRead(str[endp + 1..], now))
  {
    hide Strtod;
    var s := str[cp..];
    var n := Strtod(s).length;
    assert CharAt(str, cp + n) == CharAt(s, n);
    assert n + 1 <= |s| ==> s[n + 1..] == str[cp + n + 1..];
  }

  lemma NothingBefore(rest: Option<Parsed<seq<int>>>)
    ensures Further(0, rest) == rest
  {
  }

  /** Reads the trims into `val`, where those read before a failure stay. */
  method ParseAtrim(str: string, val: array<int>) returns (length: Option<nat>)
    requires val.Length == TRIMS
    modifies val
    ensures match ParseTrims(str, [])
            case Some(p) => length == Some(p.length) && val[..] == p.value
            case None => length == None
    ensures val[..] == Overwritten(old(val[..]), TrimsRead(str, []))
  {
    hide Strtod, ParseTrims, TrimsRead, Overwritten;
    ghost var all, trims := ParseTrims(str, []), TrimsRead(str, []);
    ghost var was, got: seq<int> := val[..], [];
    OverwrittenByNothing(was);
    NothingBefore(all);
    assert str[0..] == str;
    var cp, i := 0, 0;
    while true
      invariant 0 <= cp <= |str| && 0 <= i < TRIMS && |got| == i
      invariant val[..] == Overwritten(was, got)
      invariant all == Further(cp, ParseTrims(str[cp..], got)) && trims == TrimsRead(str[cp..], got)
      decreases |str| - cp
    {
      TrimAt(str, cp, got);
      var d := Strtod(str[cp..]);
      var endp := cp + d.length;
      var end := CharAt(str, endp);
      if d.value < 0.0 || 1.8 <= d.value {
        return None;
      }
      if endp != cp && (end == '\0' || if i == TRIMS - 1 then EndsLine(end) else end == ' ') {
        OverwrittenOneMore(was, got, (d.value * 4.0 + 0.5).Floor);
        ghost var before := val[..];
        val[i] := (d.value * 4.0 + 0.5).Floor;
        assert val[..] == before[i := (d.value * 4.0 + 0.5).Floor];
        got := got + [(d.value * 4.0 + 0.5).Floor];
        i := i + 1;
        if i == TRIMS {
          OverwrittenBegins(was, got);
          return Some(endp);
        }
      }
      if EndsLine(end) || end == '\0' {
        return None;
      }
      cp := endp + 1;
    }
  }

  /** Trims up to the first that is out of range. */
  function ReadablePrefix(trims: seq<int>): (r: seq<int>)
    ensures |r| <= |trims| && r == trims[..|r|] && Readable(r)
    ensures |r| < |trims| ==> trims[|r|] < 0 || 7 < trims[|r|]
  {
    if trims == [] || trims[0] < 0 || 7 < trims[0] then [] else [trims[0]] + ReadablePrefix(trims[1..])
  }

  /** Of printed trims that are refused those before the first bad one have been stored. */
  lemma {:induction false} PrintedTrimsRead(trims: seq<int>, got: seq<int>, rest: string)
    requires trims != [] && |got| + |trims| == TRIMS && rest != [] && EndsLine(rest[0])
    ensures TrimsRead(FormatTrims(trims) + rest, got) == got + ReadablePrefix(trims)
  {
    hide *;
    PrefixBegins(trims);
    TrimsBegin(trims, rest);
    var t, tail := trims[0], trims[1..];
    if |trims| == 1 {
      TrimIsStored(t, rest[0], rest[1..], got);
    } else {
      TrimIsStored(t, ' ', FormatTrims(tail) + rest, got);
      PrintedTrimsRead(tail, got + [t], rest);
      InFront(got, t, ReadablePrefix(tail));
    }
  }

  lemma TrimsBegin(trims: seq<int>, rest: string)
    requires trims != [] && rest != []
    ensures FormatTrims(trims) + rest
            == FormatTrim(trims[0])
               + if |trims| == 1 then [rest[0]] + rest[1..] else [' '] + (FormatTrims(trims[1..]) + rest)
  {
    hide *;
    if |trims| == 1 {
      OneTrim(trims);
      assert rest == [rest[0]] + rest[1..];
    } else {
      MoreTrims(trims);
      Regrouped(FormatTrim(trims[0]), ' ', FormatTrims(trims[1..]), rest);
    }
  }

  lemma OneTrim(trims: seq<int>)
    requires |trims| == 1
    ensures FormatTrims(trims) == FormatTrim(trims[0])
  {
    hide FormatTrim;
  }

  lemma MoreTrims(trims: seq<int>)
    requires 1 < |trims|
    ensures FormatTrims(trims) == FormatTrim(trims[0]) + ([' '] + FormatTrims(trims[1..]))
  {
    hide FormatTrim;
  }

  lemma Regrouped(first: string, c: char, next: string, rest: string)
    ensures first + ([c] + next) + rest == first + ([c] + (next + rest))
  {
  }

  lemma TextBehind(first: string, c: char, rest: string)
    ensures var s := first + ([c] + rest);
            |first| < |s| && s[|first|] == c && s[|first| + 1..] == rest
  {
  }

  lemma InFront(got: seq<int>, t: int, more: seq<int>)
    ensures got + [t] + more == got + ([t] + more)
  {
  }

  lemma PrefixBegins(trims: seq<int>)
    requires trims != []
    ensures var t := trims[0];
            ReadablePrefix(trims) == if t < 0 || 7 < t then [] else [t] + ReadablePrefix(trims[1..])
    ensures |trims| == 1 ==> ReadablePrefix(trims[1..]) == []
  {
    hide Readable;
  }

  lemma TrimIsStored(t: int, end: char, tail: string, got: seq<int>)
    requires |got| < TRIMS && (if |got| == TRIMS - 1 then EndsLine(end) else end == ' ')
    ensures TrimsRead(FormatTrim(t) + ([end] + tail), got)
            == if t < 0 || 7 < t then got
               else if |got| == TRIMS - 1 then got + [t]
               else TrimsRead(tail, got + [t])
  {
    hide Strtod, FormatTrim, ParseTrims, TrimsRead;
    TrimReads(t, [end] + tail);
    TrimValue(t);
    TextBehind(FormatTrim(t), end, tail);
    TrimStep(FormatTrim(t) + ([end] + tail), got);
  }

  lemma TrimStep(s: string, got: seq<int>)
    requires |got| < TRIMS
    ensures var x := Strtod(s);
            var end := CharAt(s, x.length);
            var now := if TrimCounts(x.length, end, |got|) then got + [(x.value * 4.0 + 0.5).Floor] else got;
            && TrimsRead(s, got)
               == (if x.value < 0.0 || 1.8 <= x.value then got
                   else if |now| == TRIMS || EndsLine(end) || end == '\0' then now
                   else TrimsRead(s[x.length + 1..], now))
            && ParseTrims(s, got)
               == (if x.value < 0.0 || 1.8 <= x.value then None
                   else if |now| == TRIMS then Some(Parsed(now, x.length))
                   else if EndsLine(end) || end == '\0' then None
                   else Further(x.length + 1, ParseTrims(s[x.length + 1..], now)))
  {
    hide Strtod;
  }
}
