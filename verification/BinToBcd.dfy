/** Binary to BCD: the forward double-dabble converter. */
module BinToBcd {
  import opened Arithmetic
  import opened Bcd

  datatype State = Idle | Busy | Fin

  /** `bin` has `w` bits, `bitcount` as many as are needed to count to w - 1. */
  datatype Regs = Regs(state: State, bin: nat, bitcount: nat, digits: seq<Digit>)

  function DecimalDigits(w: nat): nat {
    Log10Ceil(Pow2(w))
  }

  ghost predicate Shape(w: nat, s: Regs) {
    && 2 <= w && s.bin < Pow2(w) && s.bitcount < Pow2(Log2Ceil(w)) && |s.digits| == DecimalDigits(w)
  }

  /** What the producer and the consumer show before a clock. */
  datatype Clock = Clock(vld: bool, data: nat, rdy: bool)

  function Top(w: nat, bin: nat): (b: nat)
    requires 0 < w
    ensures b < 2
  {
    if bin >= Pow2(w - 1) then 1 else 0
  }

  function Zeros(n: nat): (ds: seq<Digit>)
    ensures |ds| == n
  {
    seq(n, i => 0)
  }

  /** `bin` without its top bit, shifted left. */
  function ShiftLeft(w: nat, bin: nat): (r: nat)
    requires 0 < w && bin < Pow2(w)
    ensures r < Pow2(w)
  {
    2 * (if Top(w, bin) == 1 then bin - Pow2(w - 1) else bin)
  }

  function Step(w: nat, s: Regs, c: Clock): (t: Regs)
    requires Shape(w, s) && c.data < Pow2(w)
    ensures Shape(w, t)
  {
    match s.state
    case Idle => Regs(if c.vld then Busy else Idle, if c.vld then c.data else s.bin, 0, Zeros(|s.digits|))
    case Busy => Regs(if s.bitcount == w - 1 then Fin else Busy,
                      ShiftLeft(w, s.bin),
                      Wrap(s.bitcount, Pow2(Log2Ceil(w))),
                      ShiftIn(s.digits, Top(w, s.bin)))
    case Fin => Regs(if c.rdy then Idle else Fin, s.bin, 0, s.digits)
  }

  // ----- one conversion

  /** After `k` shifts the number `v` is the top `k` bits of `x`, and the `low` others are on the left of `bin`. */
  ghost predicate Shifted(w: nat, bin: nat, v: nat, x: nat, k: nat, low: nat)
    requires k <= w
  {
    && x < Pow2(w) && low < Pow2(w - k)
    && x == Doubled(v, w - k) + low
    && bin == Doubled(low, k)
  }

  /** The top bit of `bin` is the top bit of the part of the number that is still to come. */
  lemma TopIsNextBit(w: nat, k: nat, low: nat)
    requires k < w
    ensures Doubled(low, k) >= Pow2(w - 1) <==> low >= Pow2(w - k - 1)
  {
    DoubledPow2(w - k - 1, k);
    DoubledOrder(low, Pow2(w - k - 1), k);
  }

  /** The bits still to come after one shift. */
  function Lower(w: nat, k: nat, low: nat): (r: nat)
    requires k < w && low < Pow2(w - k)
    ensures r < Pow2(w - k - 1)
  {
    if low >= Pow2(w - k - 1) then low - Pow2(w - k - 1) else low
  }

  lemma BinKeeps(w: nat, bin: nat, k: nat, low: nat)
    requires k < w && low < Pow2(w - k) && bin == Doubled(low, k) && bin < Pow2(w)
    ensures ShiftLeft(w, bin) == Doubled(Lower(w, k, low), k + 1)
  {
    TopIsNextBit(w, k, low);
    if low >= Pow2(w - k - 1) {
      DoubledPow2(w - k - 1, k);
      DoubledAdd(low - Pow2(w - k - 1), Pow2(w - k - 1), k);
    }
  }

  /** A bit moves from the bits to come into the number shown. */
  lemma NumberKeeps(v: nat, j: nat, low: nat, b: nat)
    requires b == (if low >= Pow2(j) then 1 else 0)
    ensures Doubled(v, j + 1) + low == Doubled(2 * v + b, j) + if low >= Pow2(j) then low - Pow2(j) else low
  {
    DoubledAdd(v, v, j);
    DoubledAdd(2 * v, b, j);
    DoubledPow2(0, j);
    if b == 0 { DoubledZero(j); }
  }

  /** The digits are enough for every number shown. */
  lemma NumberFits(w: nat, v: nat, j: nat, low: nat, x: nat)
    requires x == Doubled(v, j) + low && x < Pow2(w)
    ensures v < Pow10(DecimalDigits(w))
  {
    DoubledOrder(v, v, j);
    Log10CeilIsTight(Pow2(w));
  }

  lemma ShiftKeeps(w: nat, bin: nat, v: nat, x: nat, k: nat, low: nat)
    requires k < w && bin < Pow2(w) && Shifted(w, bin, v, x, k, low)
    ensures Shifted(w, ShiftLeft(w, bin), 2 * v + Top(w, bin), x, k + 1, Lower(w, k, low))
    ensures 2 * v + Top(w, bin) < Pow10(DecimalDigits(w))
  {
    var b, j := Top(w, bin), w - k - 1;
    TopIsNextBit(w, k, low);
    NumberKeeps(v, j, low, b);
    BinKeeps(w, bin, k, low);
    NumberFits(w, 2 * v + b, j, Lower(w, k, low), x);
  }

  /** A conversion of `x` that has been busy for `bitcount` clocks. */
  ghost predicate Converting(w: nat, s: Regs, x: nat) {
    && s.state == Busy && s.bitcount < w && Decimal(s.digits)
    && exists low: nat :: Shifted(w, s.bin, Value(s.digits), x, s.bitcount, low)
  }

  ghost predicate Converted(s: Regs, x: nat) {
    s.state == Fin && Decimal(s.digits) && Value(s.digits) == x
  }

  /** The busy step, seen only through the number that the digits show. */
  lemma BusyKeeps(w: nat, s: Regs, x: nat, t: Regs)
    requires s.bin < Pow2(w) && Converting(w, s, x) && s.bitcount < Pow2(Log2Ceil(w))
    requires Decimal(t.digits) && Value(t.digits) == 2 * Value(s.digits) + Top(w, s.bin) && t.bin == ShiftLeft(w, s.bin)
    requires t.state == (if s.bitcount == w - 1 then Fin else Busy)
    requires t.bitcount == Wrap(s.bitcount, Pow2(Log2Ceil(w)))
    ensures if s.bitcount == w - 1 then Converted(t, x) else Converting(w, t, x) && t.bitcount == s.bitcount + 1
  {
    var low: nat :| Shifted(w, s.bin, Value(s.digits), x, s.bitcount, low);
    ShiftKeeps(w, s.bin, Value(s.digits), x, s.bitcount, low);
    NextCount(w, s.bitcount);
    var low' := Lower(w, s.bitcount, low);
    if s.bitcount == w - 1 {
      AllShifted(w, t.bin, Value(t.digits), x, low');
    } else {
      assert Shifted(w, t.bin, Value(t.digits), x, t.bitcount, low');
    }
  }

  /** The number that the digits show after a busy step. */
  lemma DigitsKeep(w: nat, s: Regs, x: nat)
    requires Shape(w, s) && Converting(w, s, x)
    ensures Decimal(ShiftIn(s.digits, Top(w, s.bin)))
    ensures Value(ShiftIn(s.digits, Top(w, s.bin))) == 2 * Value(s.digits) + Top(w, s.bin)
  {
    var low: nat :| Shifted(w, s.bin, Value(s.digits), x, s.bitcount, low);
    ShiftKeeps(w, s.bin, Value(s.digits), x, s.bitcount, low);
    ShiftInValue(s.digits, Top(w, s.bin));
  }

  lemma BusyStep(w: nat, s: Regs, x: nat, c: Clock)
    requires Shape(w, s) && c.data < Pow2(w) && Converting(w, s, x)
    ensures var t := Step(w, s, c);
      if s.bitcount == w - 1 then Converted(t, x) else Converting(w, t, x) && t.bitcount == s.bitcount + 1
  {
    DigitsKeep(w, s, x);
    BusyKeeps(w, s, x, Step(w, s, c));
  }

  /** The counter does not wrap before the last bit. */
  lemma NextCount(w: nat, k: nat)
    requires k < w
    ensures k < Pow2(Log2Ceil(w))
    ensures k < w - 1 ==> Wrap(k, Pow2(Log2Ceil(w))) == k + 1
  {
    Log2CeilIsTight(w);
  }

  /** All bits shifted: the digits are the number. */
  lemma AllShifted(w: nat, bin: nat, v: nat, x: nat, low: nat)
    requires Shifted(w, bin, v, x, w, low)
    ensures v == x
  {
    assert Pow2(0) == 1;
  }

  lemma Accepts(w: nat, s: Regs, c: Clock)
    requires Shape(w, s) && c.data < Pow2(w) && s.state == Idle && c.vld
    ensures Converting(w, Step(w, s, c), c.data) && Step(w, s, c).bitcount == 0
  {
    var t := Step(w, s, c);
    ZerosAreZero(t.digits);
    DoubledZero(w);
    assert Shifted(w, t.bin, Value(t.digits), c.data, t.bitcount, c.data);
  }

  // ----- the main results

  ghost predicate Inputs(w: nat, cs: seq<Clock>) {
    forall i :: 0 <= i < |cs| ==> cs[i].data < Pow2(w)
  }

  /** The registers after some clocks. */
  ghost function After(w: nat, s: Regs, cs: seq<Clock>): (t: Regs)
    requires Shape(w, s) && Inputs(w, cs)
    ensures Shape(w, t)
    decreases |cs|
  {
    if cs == [] then s else Step(w, After(w, s, cs[..|cs| - 1]), cs[|cs| - 1])
  }

  /** After `k` busy clocks, whatever happens on the ports, the digits are the top `k` bits of the number. */
  lemma {:induction false} TopBitsAfter(w: nat, s: Regs, x: nat, cs: seq<Clock>)
    requires Shape(w, s) && Inputs(w, cs) && Converting(w, s, x) && s.bitcount == 0 && |cs| <= w
    ensures var t := After(w, s, cs);
      && (if |cs| < w then Converting(w, t, x) && t.bitcount == |cs| else Converted(t, x))
      && Decimal(t.digits) && Value(t.digits) == x / Pow2(w - |cs|)
    decreases |cs|
  {
    var t := After(w, s, cs);
    if cs != [] {
      TopBitsAfter(w, s, x, cs[..|cs| - 1]);
      BusyStep(w, After(w, s, cs[..|cs| - 1]), x, cs[|cs| - 1]);
    }
    if |cs| < w {
      var low: nat :| Shifted(w, t.bin, Value(t.digits), x, t.bitcount, low);
      DoubledIsProduct(Value(t.digits), w - |cs|);
      DivUnique(x, Value(t.digits), low, Pow2(w - |cs|));
    }
  }

  /** A number that is accepted is shown after exactly `w` more clocks, in digits that are uniquely its own. */
  lemma ConvertsInTime(w: nat, s: Regs, c: Clock, cs: seq<Clock>)
    requires Shape(w, s) && s.state == Idle && c.vld && c.data < Pow2(w) && Inputs(w, cs) && |cs| <= w
    ensures var t := After(w, Step(w, s, c), cs);
      && (t.state == Fin <==> |cs| == w)
      && (t.state == Fin ==> forall ds: seq<Digit> | Decimal(ds) && |ds| == |t.digits| ::
            Value(ds) == c.data <==> ds == t.digits)
  {
    Accepts(w, s, c);
    var t := After(w, Step(w, s, c), cs);
    TopBitsAfter(w, Step(w, s, c), c.data, cs);
    if t.state == Fin {
      forall ds: seq<Digit> | Decimal(ds) && |ds| == |t.digits| ensures Value(ds) == c.data <==> ds == t.digits {
        if Value(ds) == c.data {
          ValueInjective(ds, t.digits);
          assert t.digits[..|ds|] == t.digits;
        }
      }
    }
  }

  datatype Run = Run(regs: Regs, accepted: seq<nat>, delivered: seq<seq<Digit>>)

  /** A run from reset, which leaves `bin` as it is. */
  ghost function Steps(w: nat, bin: nat, cs: seq<Clock>): (r: Run)
    requires 2 <= w && bin < Pow2(w) && Inputs(w, cs)
    ensures Shape(w, r.regs)
    decreases |cs|
  {
    if cs == [] then Run(Regs(Idle, bin, 0, Zeros(DecimalDigits(w))), [], [])
    else
      var r, c := Steps(w, bin, cs[..|cs| - 1]), cs[|cs| - 1];
      Run(Step(w, r.regs, c),
          if r.regs.state == Idle && c.vld then r.accepted + [c.data] else r.accepted,
          if r.regs.state == Fin && c.rdy then r.delivered + [r.regs.digits] else r.delivered)
  }

  /** The numbers whose digits were delivered. */
  ghost predicate Shows(delivered: seq<seq<Digit>>, numbers: seq<nat>) {
    && |delivered| == |numbers|
    && forall i :: 0 <= i < |delivered| ==> Decimal(delivered[i]) && Value(delivered[i]) == numbers[i]
  }

  /** What is inside the converter: nothing, or one number. */
  ghost predicate Holds(w: nat, s: Regs, numbers: seq<nat>) {
    match s.state
    case Idle => numbers == []
    case Busy => |numbers| == 1 && Converting(w, s, numbers[0])
    case Fin => |numbers| == 1 && Converted(s, numbers[0])
  }

  /** In every run the numbers accepted are those delivered, in order, and the one inside. */
  lemma {:induction false} ConvertsInOrder(w: nat, bin: nat, cs: seq<Clock>)
    requires 2 <= w && bin < Pow2(w) && Inputs(w, cs)
    ensures var r := Steps(w, bin, cs); var n := |r.delivered|;
      n <= |r.accepted| && Shows(r.delivered, r.accepted[..n]) && Holds(w, r.regs, r.accepted[n..])
    decreases |cs|
  {
    if cs != [] {
      ConvertsInOrder(w, bin, cs[..|cs| - 1]);
      var r, c := Steps(w, bin, cs[..|cs| - 1]), cs[|cs| - 1];
      match r.regs.state {
        case Idle => if c.vld { Accepts(w, r.regs, c); }
        case Busy => BusyStep(w, r.regs, r.accepted[|r.delivered|], c);
        case Fin =>
      }
    }
  }

  /** A number is refused exactly if one is inside. */
  lemma RefusesExactly(w: nat, bin: nat, cs: seq<Clock>)
    requires 2 <= w && bin < Pow2(w) && Inputs(w, cs)
    ensures var r := Steps(w, bin, cs); r.regs.state != Idle <==> |r.delivered| < |r.accepted|
  {
    ConvertsInOrder(w, bin, cs);
  }

  // ----- the component

  class Converter {
    const w: nat
    var state: State
    var bin: nat
    var bitcount: nat
    const digits: array<Digit>

    ghost function Registers(): Regs
      reads this, digits
    {
      Regs(state, bin, bitcount, digits[..])
    }

    constructor (w: nat, undefined: nat)
      requires 2 <= w && undefined < Pow2(w)
      ensures this.w == w && Registers() == Steps(w, undefined, []).regs && fresh(digits)
    {
      this.w, state, bin, bitcount := w, Idle, undefined, 0;
      digits := new Digit[DecimalDigits(w)](_ => 0);
    }

    /** The digit registers of a busy clock; `prev` is the corrected right neighbour. */
    method ShiftDigits(bit: nat)
      requires bit < 2
      modifies digits
      ensures digits[..] == ShiftIn(old(digits[..]), bit)
    {
      ghost var was := digits[..];
      var prev: Digit := 8 * bit;
      for g := 0 to digits.Length
        invariant prev / 8 == if g == 0 then bit else Carry(was[g - 1])
        invariant forall i :: g <= i < digits.Length ==> digits[i] == was[i]
        invariant forall i :: 0 <= i < g ==> digits[i] == ShiftIn(was, bit)[i]
      {
        ShiftInAt(was, bit, g);
        var adjusted := Adjust(digits[g]);
        digits[g] := adjusted * 2 % 16 + prev / 8;
        prev := adjusted;
      }
    }

    method ClearDigits()
      modifies digits
      ensures digits[..] == Zeros(digits.Length)
    {
      for g := 0 to digits.Length
        invariant forall i :: 0 <= i < g ==> digits[i] == 0
      {
        digits[g] := 0;
      }
    }

    /** One clock edge. */
    method Clk(vld: bool, data: nat, rdy: bool) returns (dinRd: bool, doutVld: bool)
      requires Shape(w, Registers()) && data < Pow2(w)
      modifies this, digits
      ensures dinRd == (old(state) == Idle) && doutVld == (old(state) == Fin)
      ensures Registers() == Step(w, old(Registers()), Clock(vld, data, rdy))
    {
      dinRd, doutVld := state == Idle, state == Fin;
      match state {
        case Idle =>
          ClearDigits();
          bitcount := 0;
          if vld { state, bin := Busy, data; }
        case Busy =>
          ShiftDigits(Top(w, bin));
          if bitcount == w - 1 { state := Fin; }
          bin := ShiftLeft(w, bin);
          bitcount := Wrap(bitcount, Pow2(Log2Ceil(w)));
        case Fin =>
          bitcount := 0;
          if rdy { state := Idle; }
      }
    }
  }
}
