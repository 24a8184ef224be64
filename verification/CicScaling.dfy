/**
 Scaling of the fast-acquisition CIC filter (software/src/localOscillator.c): a filter of n
 stages that decimates by D has gain D^n, and the accumulator is shifted to make up for it.
 */
module CicScaling {
  import opened Common

  lemma {:induction false} PowTwoMonotone(m: nat, n: nat)
    requires m <= n
    ensures Pow(2, m) <= Pow(2, n)
    decreases n
  {
    if m < n {
      PowTwoMonotone(m, n - 1);
    }
  }

  lemma {:induction false} ExponentBelowPower(e: nat)
    ensures e < Pow(2, e)
  {
    if e != 0 {
      ExponentBelowPower(e - 1);
    }
  }

  /** `s` is the least shift whose power of two reaches the gain. */
  ghost predicate LeastShift(gain: nat, s: nat) {
    gain <= Pow(2, s) && forall r :: 0 <= r < s ==> Pow(2, r) < gain
  }

  ghost function ShiftFor(gain: nat): (s: nat)
    ensures LeastShift(gain, s)
  {
    ShiftFrom(gain, 0)
  }

  ghost function ShiftFrom(gain: nat, s: nat): (r: nat)
    requires forall r :: 0 <= r < s ==> Pow(2, r) < gain
    ensures LeastShift(gain, r)
    decreases gain - s
  {
    ExponentBelowPower(s);
    if gain <= Pow(2, s) then s else ShiftFrom(gain, s + 1)
  }

  lemma LeastShiftIsUnique(gain: nat, r: nat, s: nat)
    requires LeastShift(gain, r) && LeastShift(gain, s)
    ensures r == s
  {
  }

  /** The filter's gain is found by multiplying up, the shift by halving down to one. */
  method CicShift(decimationFactor: nat, nStages: nat) returns (shift: nat)
    ensures shift == ShiftFor(Pow(decimationFactor, nStages))
  {
    hide Pow, LeastShift;
    ghost var gain := Pow(decimationFactor, nStages);
    var x := 1.0;
    var stages := nStages;
    NoStages(decimationFactor);
    while stages != 0
      invariant 0 <= stages <= nStages
      invariant x == Pow(decimationFactor, nStages - stages) as real
    {
      OneMoreStage(decimationFactor, nStages - stages);
      stages := stages - 1;
      x := x * decimationFactor as real;
    }
    shift := 0;
    NoStages(2);
    while x > 1.0
      invariant x * Pow(2, shift) as real == gain as real
      invariant AllBelow(gain, shift)
      decreases gain - shift
    {
      ExponentBelowPower(shift);
      Halved(x, shift, gain);
      shift := shift + 1;
      x := x / 2.0;
    }
    ShiftReached(x, shift, gain);
  }

  ghost predicate AllBelow(gain: nat, s: nat) {
    forall r :: 0 <= r < s ==> Pow(2, r) < gain
  }

  lemma NoStages(b: nat)
    ensures Pow(b, 0) == 1
  {
  }

  lemma ShiftReached(x: real, shift: nat, gain: nat)
    requires x <= 1.0 && x * Pow(2, shift) as real == gain as real && AllBelow(gain, shift)
    ensures shift == ShiftFor(gain)
  {
    hide Pow;
    Reached(x, Pow(2, shift), gain);
    LeastShiftIsUnique(gain, shift, ShiftFor(gain));
  }

  lemma OneMoreStage(b: nat, e: nat)
    ensures Pow(b, e) as real * b as real == Pow(b, e + 1) as real
  {
  }

  lemma Halved(x: real, shift: nat, gain: nat)
    requires x > 1.0 && x * Pow(2, shift) as real == gain as real
    ensures Pow(2, shift) < gain
    ensures x / 2.0 * Pow(2, shift + 1) as real == gain as real
  {
    hide *;
    PowPositive(2, shift);
    TwicePower(shift);
    HalvedOnce(x, Pow(2, shift) as real, Pow(2, shift + 1) as real, gain as real);
  }

  lemma HalvedOnce(x: real, p: real, q: real, gain: real)
    requires x > 1.0 && p > 0.0 && x * p == gain && q == 2.0 * p
    ensures p < gain && x / 2.0 * q == gain
  {
    Exceeds(x, p);
    HalfOfTwice(x, p);
  }

  lemma TwicePower(shift: nat)
    ensures Pow(2, shift + 1) as real == 2.0 * Pow(2, shift) as real
  {
    assert Pow(2, shift + 1) == 2 * Pow(2, shift);
  }

  lemma Exceeds(x: real, p: real)
    requires x > 1.0 && p > 0.0
    ensures x * p > p
  {
    PositiveProduct(x - 1.0, p);
    assert x * p == (x - 1.0) * p + p;
  }

  lemma PositiveProduct(a: real, b: real)
    requires a > 0.0 && b > 0.0
    ensures a * b > 0.0
  {
  }

  lemma HalfOfTwice(x: real, p: real)
    ensures x / 2.0 * (2.0 * p) == x * p
  {
    var h := x / 2.0;
    assert h * (2.0 * p) == 2.0 * h * p;
  }

  lemma Reached(x: real, p: nat, gain: nat)
    requires x <= 1.0 && x * p as real == gain as real
    ensures gain <= p
  {
    NotAbove(x, p as real);
  }

  lemma NotAbove(x: real, p: real)
    requires x <= 1.0 && p >= 0.0
    ensures x * p <= p
  {
  }

  /** The sum-shift control register, field by field. */
  datatype SumShift = SumShift(tbtShift: nat, mtShift: nat, faShift: nat, overflows: nat,
                               faDecimation: nat, cicStages: nat)

  datatype Parameters = Parameters(evrPerFaMarker: nat, pllMultiplier: nat, rfDivisor: nat)

  class Accumulator {
    var csr: SumShift
    const parameters: Parameters

    method SetFaSumShift(shift: int)
      modifies this
      ensures csr == old(csr).(faShift := if shift < 0 then 0 else if 15 < shift then 15 else shift)
    {
      var sumShift := shift;
      if sumShift < 0 {
        sumShift := 0;
      } else if sumShift > 15 {
        sumShift := 15;
      }
      csr := csr.(faShift := sumShift);
    }

    /** Reprograms the shift unless the factors agree. The filter then stays within the range
        of the built gain, and uses more than half of it unless the shift had to be clamped;
        the warning comes exactly when no shift can help. */
    method AdjustCicShift(faDecimationActual: nat) returns (overflow: bool)
      modifies this
      ensures csr == old(csr).(faShift := csr.faShift)
      ensures faDecimationActual == csr.faDecimation ==> csr == old(csr) && !overflow
      ensures faDecimationActual != csr.faDecimation ==>
                ScaledWell(Pow(faDecimationActual, csr.cicStages), Pow(csr.faDecimation, csr.cicStages),
                           csr.faShift, overflow)
    {
      overflow := false;
      if faDecimationActual != csr.faDecimation {
        var cicShiftConfig := CicShift(csr.faDecimation, csr.cicStages);
        var cicShiftActual := CicShift(faDecimationActual, csr.cicStages);
        var shift := cicShiftConfig as int - cicShiftActual as int;
        if shift > 15 {
          shift := 15;
        }
        if shift < 0 {
          shift := 0;
          overflow := true;
        }
        SetFaSumShift(shift);
        ShiftIsRight(Pow(faDecimationActual, csr.cicStages), Pow(csr.faDecimation, csr.cicStages));
      }
    }

    /** Compares the built decimation factor with the actual one. */
    method OptimizeCicShift(mtTableLength: nat) returns (overflow: bool)
      requires (mtTableLength * parameters.rfDivisor) % U32 != 0
      // The quotient is kept in a signed 32-bit integer.
      requires ActualDecimation(parameters, mtTableLength) < U32 / 2
      modifies this
      ensures csr == old(csr).(faShift := csr.faShift)
      ensures var actual := ActualDecimation(parameters, mtTableLength);
              if actual == csr.faDecimation then csr == old(csr) && !overflow
              else ScaledWell(Pow(actual, csr.cicStages), Pow(csr.faDecimation, csr.cicStages), csr.faShift, overflow)
    {
      overflow := AdjustCicShift(ActualDecimation(parameters, mtTableLength));
    }
  }

  function ActualDecimation(parameters: Parameters, mtTableLength: nat): nat
    requires (mtTableLength * parameters.rfDivisor) % U32 != 0
  {
    (parameters.evrPerFaMarker * parameters.pllMultiplier * 4) % U32 / ((mtTableLength * parameters.rfDivisor) % U32)
  }

  /** Where nothing wraps around, the actual factor is how often the product of table length and divisor
      goes into four times the other product. */
  lemma DecimationIsQuotient(p: Parameters, mtTableLength: nat)
    requires 0 < mtTableLength * p.rfDivisor < U32 && 4 * (p.evrPerFaMarker * p.pllMultiplier) < U32
    ensures var actual := ActualDecimation(p, mtTableLength);
            var den := mtTableLength * p.rfDivisor;
            actual * den <= 4 * (p.evrPerFaMarker * p.pllMultiplier) < (actual + 1) * den
  {
    var num, den := 4 * (p.evrPerFaMarker * p.pllMultiplier), mtTableLength * p.rfDivisor;
    Unwrapped(num);
    Unwrapped(den);
    assert p.evrPerFaMarker * p.pllMultiplier * 4 == num;
    Quotient(num, den);
    assert ActualDecimation(p, mtTableLength) == num / den;
    hide ActualDecimation;
  }

  lemma Unwrapped(n: nat)
    requires n < U32
    ensures n % U32 == n
  {
  }

  lemma Quotient(num: nat, den: nat)
    requires 0 < den
    ensures num / den * den <= num < (num / den + 1) * den
  {
  }

  /** The output range of the built filter is the power of two covering the built gain. */
  ghost predicate ScaledWell(gain: nat, builtGain: nat, shift: nat, overflow: bool) {
    var range := Pow(2, ShiftFor(builtGain));
    && (overflow <==> range < gain)
    && shift <= 15 && (overflow ==> shift == 0)
    && (!overflow ==> gain * Pow(2, shift) <= range)
    && (!overflow && shift < 15 && 0 < gain ==> range < 2 * (gain * Pow(2, shift)))
  }

  function Clamped(built: nat, actual: nat): nat {
    if built < actual then 0 else if 15 < built - actual then 15 else built - actual
  }

  lemma ShiftIsRight(gain: nat, builtGain: nat)
    ensures ScaledWell(gain, builtGain, Clamped(ShiftFor(builtGain), ShiftFor(gain)),
                       ShiftFor(builtGain) < ShiftFor(gain))
  {
    var a, c := ShiftFor(gain), ShiftFor(builtGain);
    if c >= a {
      var shift := Clamped(c, a);
      StaysWithin(gain, a, c, shift);
      if shift < 15 && 0 < gain {
        UsesHalf(gain, a, c);
      }
    }
  }

  lemma StaysWithin(gain: nat, a: nat, c: nat, shift: nat)
    requires gain <= Pow(2, a) && a + shift <= c
    ensures gain <= gain * Pow(2, shift) <= Pow(2, c)
  {
    PowTwoMonotone(a + shift, c);
    PowAdd(2, a, shift);
    PowPositive(2, shift);
    Multiplied(gain, Pow(2, a), Pow(2, shift));
    Multiplied(1, Pow(2, shift), gain);
  }

  lemma UsesHalf(gain: nat, a: nat, c: nat)
    requires LeastShift(gain, a) && 0 < gain && a <= c
    ensures Pow(2, c) < 2 * (gain * Pow(2, c - a))
  {
    if a != 0 {
      assert Pow(2, a - 1) < gain;
    }
    PowAdd(2, a, c - a);
    PowPositive(2, c - a);
    StrictlyMore(gain, Pow(2, a), Pow(2, c - a));
  }

  lemma StrictlyMore(gain: nat, p: nat, k: nat)
    requires p < 2 * gain && 0 < k
    ensures p * k < 2 * (gain * k)
  {
    assert 2 * (gain * k) - p * k == (2 * gain - p) * k;
  }

  lemma Multiplied(x: nat, y: nat, k: nat)
    requires x <= y
    ensures x * k <= y * k
  {
  }
}
