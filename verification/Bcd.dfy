/**
 Binary coded decimal: what the digit registers of the two converters stand for, and the two double-dabble
 moves, one bit into the digits and one bit out of them.
 */
module Bcd {
  import opened Arithmetic

  /** A 4-bit digit register. */
  type Digit = d: nat | d < 16

  /** The number that digits stand for, the least significant first. */
  function Value(ds: seq<Digit>): nat {
    if ds == [] then 0 else ds[0] + 10 * Value(ds[1..])
  }

  function Pow10(n: nat): (p: nat)
    ensures p > 0
  {
    if n == 0 then 1 else 10 * Pow10(n - 1)
  }

  predicate Decimal(ds: seq<Digit>) {
    forall i :: 0 <= i < |ds| ==> ds[i] <= 9
  }

  lemma {:induction false} ValueBound(ds: seq<Digit>)
    requires Decimal(ds)
    ensures Value(ds) < Pow10(|ds|)
  {
    if ds != [] { ValueBound(ds[1..]); }
  }

  /** Digits are determined by their number, up to zeros on the left. */
  lemma {:induction false} ValueInjective(a: seq<Digit>, b: seq<Digit>)
    requires Decimal(a) && Decimal(b) && |a| <= |b| && Value(a) == Value(b)
    ensures b[..|a|] == a && forall i :: |a| <= i < |b| ==> b[i] == 0
  {
    if a != [] {
      ValueInjective(a[1..], b[1..]);
      assert b[..|a|] == [b[0]] + b[1..][..|a| - 1];
      assert forall i :: |a| <= i < |b| ==> b[i] == b[1..][i - 1];
    } else if b != [] {
      ValueInjective(a, b[1..]);
      assert forall i :: 0 < i < |b| ==> b[i] == b[1..][i - 1];
    }
  }

  // ----- one bit in

  /** The correction before the digits are doubled; the addition is one of 4 bits. */
  function Adjust(d: Digit): Digit {
    if d >= 5 then (d + 3) % 16 else d
  }

  /** The bit that a digit register hands to the next one. */
  function Carry(d: Digit): nat {
    Adjust(d) / 8
  }

  /** All digit registers shifted left by one bit, `bit` coming in on the right. */
  function ShiftIn(ds: seq<Digit>, bit: nat): (r: seq<Digit>)
    requires bit < 2
    ensures |r| == |ds|
  {
    if ds == [] then [] else [Adjust(ds[0]) * 2 % 16 + bit] + ShiftIn(ds[1..], Carry(ds[0]))
  }

  /** The bit that leaves on the left. */
  function CarryOut(ds: seq<Digit>, bit: nat): (c: nat)
    requires bit < 2
    ensures c < 2
  {
    if ds == [] then bit else CarryOut(ds[1..], Carry(ds[0]))
  }

  lemma DigitDoubles(d: Digit, bit: nat)
    requires d <= 9 && bit < 2
    ensures Adjust(d) * 2 % 16 + bit <= 9 && Carry(d) < 2
    ensures Adjust(d) * 2 % 16 + bit + 10 * Carry(d) == 2 * d + bit
  {
  }

  lemma CarryWeight(c: nat, p: nat)
    ensures c * (10 * p) == 10 * (c * p)
  {
  }

  lemma {:induction false} ShiftInDoubles(ds: seq<Digit>, bit: nat)
    requires Decimal(ds) && bit < 2
    ensures Decimal(ShiftIn(ds, bit))
    ensures Value(ShiftIn(ds, bit)) + CarryOut(ds, bit) * Pow10(|ds|) == 2 * Value(ds) + bit
  {
    if ds != [] {
      var d, rest := ds[0], ds[1..];
      DigitDoubles(d, bit);
      ShiftInDoubles(rest, Carry(d));
      var up := ShiftIn(ds, bit);
      assert up[1..] == ShiftIn(rest, Carry(d));
      assert Value(up) == up[0] + 10 * Value(up[1..]);
      CarryWeight(CarryOut(rest, Carry(d)), Pow10(|rest|));
      assert Decimal(up) by {
        forall i | 0 <= i < |up| ensures up[i] <= 9 {
          if i > 0 { assert up[i] == up[1..][i - 1]; }
        }
      }
    }
  }

  /** Shifting in doubles the number and adds the bit, as long as the result has no more digits. */
  lemma ShiftInValue(ds: seq<Digit>, bit: nat)
    requires Decimal(ds) && bit < 2 && 2 * Value(ds) + bit < Pow10(|ds|)
    ensures Decimal(ShiftIn(ds, bit)) && Value(ShiftIn(ds, bit)) == 2 * Value(ds) + bit
  {
    ShiftInDoubles(ds, bit);
  }

  lemma {:induction false} ZerosAreZero(ds: seq<Digit>)
    requires forall i :: 0 <= i < |ds| ==> ds[i] == 0
    ensures Decimal(ds) && Value(ds) == 0
  {
    if ds != [] { ZerosAreZero(ds[1..]); }
  }

  // ----- one bit out

  /** The lowest bit of the digits above, which moves into the top of a digit. */
  function LowBit(ds: seq<Digit>): (b: nat)
    ensures b < 2
  {
    if ds == [] then 0 else ds[0] % 2
  }

  /** The correction after the digits are shifted right. */
  function Reduce(d: Digit): Digit {
    if d < 7 then d else d - 3
  }

  /** All digit registers shifted right by one bit, a zero coming in on the left. */
  function ShiftOut(ds: seq<Digit>): (r: seq<Digit>)
    ensures |r| == |ds|
  {
    if ds == [] then [] else [Reduce(ds[0] / 2 + 8 * LowBit(ds[1..]))] + ShiftOut(ds[1..])
  }

  /** Shifting out halves the number; the bit that leaves is the remainder. */
  lemma {:induction false} ShiftOutValue(ds: seq<Digit>)
    requires Decimal(ds)
    ensures Decimal(ShiftOut(ds)) && 2 * Value(ShiftOut(ds)) + LowBit(ds) == Value(ds)
  {
    if ds != [] { ShiftOutValue(ds[1..]); }
  }

  /** The two moves undo each other: what comes in is what would come out, and the digits are as before. */
  lemma ShiftInverse(ds: seq<Digit>, bit: nat)
    requires Decimal(ds) && ds != [] && bit < 2 && 2 * Value(ds) + bit < Pow10(|ds|)
    ensures LowBit(ShiftIn(ds, bit)) == bit && ShiftOut(ShiftIn(ds, bit)) == ds
  {
    ShiftInValue(ds, bit);
    var up := ShiftIn(ds, bit);
    ShiftOutValue(up);
    assert LowBit(up) == bit;
    ValueInjective(ShiftOut(up), ds);
    assert ds[..|ds|] == ds;
  }

  /** What arrives at digit `g` when the digits are shifted left: a bit from its right neighbour. */
  lemma {:induction false} ShiftInAt(ds: seq<Digit>, bit: nat, g: nat)
    requires bit < 2 && g < |ds|
    ensures ShiftIn(ds, bit)[g] == Adjust(ds[g]) * 2 % 16 + if g == 0 then bit else Carry(ds[g - 1])
  {
    if g > 0 { ShiftInAt(ds[1..], Carry(ds[0]), g - 1); }
  }

  /** What arrives at digit `g` when the digits are shifted right: a bit from its left neighbour. */
  lemma {:induction false} ShiftOutAt(ds: seq<Digit>, g: nat)
    requires g < |ds|
    ensures ShiftOut(ds)[g] == Reduce(ds[g] / 2 + 8 * if g + 1 < |ds| then ds[g + 1] % 2 else 0)
  {
    if g > 0 {
      ShiftOutAt(ds[1..], g - 1);
    }
  }

  /** The number of decimal digits for the numbers below `p`: the logarithm to base 10, rounded up. */
  function Log10Ceil(p: nat): nat {
    if p <= 1 then 0 else 1 + Log10Ceil((p + 9) / 10)
  }

  /** It is enough, and one digit less would not be. */
  lemma {:induction false} Log10CeilIsTight(p: nat)
    ensures p <= Pow10(Log10Ceil(p))
    ensures p > 1 ==> Pow10(Log10Ceil(p) - 1) < p
  {
    if p > 1 { Log10CeilIsTight((p + 9) / 10); }
  }
}
