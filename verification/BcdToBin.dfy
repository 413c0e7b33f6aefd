/** BCD to binary: the reverse double-dabble converter. */
module BcdToBin {
  import opened Arithmetic
  import opened Bcd

  datatype State = Idle | LoadSr | Converting | Done

  /** The shift registers of the digits and of the result, and the bit counter. */
  datatype Regs = Regs(st: State, bcd: seq<Digit>, bin: nat, count: nat)

  /** The width of the result of `d` digits. */
  function Width(d: nat): (n: nat)
    requires 0 < d
    ensures n >= 1
  {
    Log2Ceil(Pow10(d) - 1)
  }

  /** The number of values of the bit counter. */
  function Range(n: nat): (p: nat)
    ensures p > 0
  {
    Pow2(Log2Ceil(n))
  }

  /** The number of bits, as the counter holds it: one that has exactly `n` values wraps at `n`. */
  function MaxCount(n: nat): nat {
    if n == Range(n) then 0 else n
  }

  ghost predicate Shape(d: nat, s: Regs) {
    0 < d == |s.bcd| && s.bin < Pow2(Width(d)) && s.count < Range(Width(d))
  }

  datatype Clock = Clock(vld: bool, data: seq<Digit>, rdy: bool)

  predicate Ready(s: Regs, c: Clock) {
    s.st == Idle || (s.st == Done && c.rdy)
  }

  function NextState(s: Regs, c: Clock): State {
    match s.st
    case Idle => if c.vld then LoadSr else Idle
    case LoadSr => Converting
    case Converting => if s.count == 0 then Done else Converting
    case Done => if c.vld && c.rdy then LoadSr else if c.rdy then Idle else Done
  }

  /** The result register shifted right, a bit of the digits coming in at its top. */
  function ShiftRight(n: nat, bin: nat, bit: nat): (r: nat)
    requires 0 < n && bin < Pow2(n) && bit < 2
    ensures r < Pow2(n)
  {
    bin / 2 + if bit == 1 then Pow2(n - 1) else 0
  }

  function CountDown(n: nat, count: nat): (r: nat)
    requires count < Range(n)
    ensures r < Range(n)
  {
    if count == 0 then Range(n) - 1 else count - 1
  }

  function Step(d: nat, s: Regs, c: Clock): (t: Regs)
    requires Shape(d, s) && |c.data| == d
    ensures |t.bcd| == d && t.bin < Pow2(Width(d))
  {
    var st, n := NextState(s, c), Width(d);
    Regs(st,
         if st == LoadSr then c.data else if st == Converting then ShiftOut(s.bcd) else s.bcd,
         if st == LoadSr then 0 else if st == Converting then ShiftRight(n, s.bin, LowBit(s.bcd)) else s.bin,
         if st == Converting then CountDown(n, s.count) else MaxCount(n))
  }

  // ----- one conversion

  lemma EvenBound(p: nat, q: nat)
    requires 2 * p - 1 <= 2 * q
    ensures p <= q
  {
  }

  /** The result has room for every number of `d` digits. */
  lemma WidthIsEnough(d: nat)
    requires 0 < d
    ensures Pow10(d) <= Pow2(Width(d))
  {
    var n := Width(d);
    assert Pow10(d) - 1 <= Pow2(n) by { Log2CeilIsTight(Pow10(d) - 1); }
    EvenBound(5 * Pow10(d - 1), Pow2(n - 1));
  }

  /** The counter holds the number of bits, or 0 for it. */
  lemma CountFits(n: nat)
    requires 0 < n
    ensures MaxCount(n) < Range(n) && CountDown(n, MaxCount(n)) == n - 1
  {
    Log2CeilIsTight(n);
  }

  /** After `k` shifts the digits show `v`, all but the `k` lowest bits of `x`; those are on the left of `bin`. */
  ghost predicate Shifted(n: nat, bin: nat, v: nat, x: nat, k: nat, low: nat)
    requires k <= n
  {
    && low < Pow2(k)
    && x == Doubled(v, k) + low
    && bin == Doubled(low, n - k)
  }

  function Higher(k: nat, low: nat, b: nat): (r: nat)
    requires low < Pow2(k)
    ensures r < Pow2(k + 1)
  {
    if b == 1 then low + Pow2(k) else low
  }

  /** A bit moves from the number in the digits to the lower bits. */
  lemma NumberKeeps(v: nat, k: nat, low: nat, b: nat)
    requires low < Pow2(k) && b < 2
    ensures Doubled(2 * v + b, k) + low == Doubled(v, k + 1) + Higher(k, low, b)
  {
    DoubledAdd(2 * v, b, k);
    DoubledAdd(v, v, k);
    DoubledPow2(0, k);
    if b == 0 { DoubledZero(k); }
  }

  lemma BinKeeps(n: nat, bin: nat, k: nat, low: nat, b: nat)
    requires k < n && low < Pow2(k) && bin == Doubled(low, n - k) && bin < Pow2(n) && b < 2
    ensures ShiftRight(n, bin, b) == Doubled(Higher(k, low, b), n - k - 1)
  {
    DoubledPow2(k, n - k - 1);
    DoubledAdd(low, Pow2(k), n - k - 1);
  }

  lemma ShiftKeeps(n: nat, bin: nat, v: nat, b: nat, x: nat, k: nat, low: nat)
    requires k < n && bin < Pow2(n) && b < 2 && Shifted(n, bin, 2 * v + b, x, k, low)
    ensures Shifted(n, ShiftRight(n, bin, b), v, x, k + 1, Higher(k, low, b))
  {
    NumberKeeps(v, k, low, b);
    BinKeeps(n, bin, k, low, b);
  }

  /** All bits shifted: the result is the number. */
  lemma AllShifted(d: nat, bin: nat, v: nat, x: nat, low: nat)
    requires 0 < d && x < Pow10(d) && Shifted(Width(d), bin, v, x, Width(d), low)
    ensures bin == x
  {
    WidthIsEnough(d);
    NothingAbove(Width(d), v, x, low);
  }

  lemma NothingAbove(n: nat, v: nat, x: nat, low: nat)
    requires x < Pow2(n) && x == Doubled(v, n) + low
    ensures x == low
  {
    DoubledPow2(0, n);
    DoubledOrder(v, 1, n);
    DoubledZero(n);
  }

  /** A conversion of `x` after `k` shifts. */
  ghost predicate Busy(d: nat, s: Regs, x: nat, k: nat)
    requires Shape(d, s)
  {
    && k <= Width(d) && Decimal(s.bcd) && x < Pow10(d)
    && (if k == 0 then s.st == LoadSr && s.count == MaxCount(Width(d))
        else s.st == Converting && s.count == Width(d) - k)
    && exists low: nat :: Shifted(Width(d), s.bin, Value(s.bcd), x, k, low)
  }

  lemma StepShape(d: nat, s: Regs, c: Clock)
    requires Shape(d, s) && |c.data| == d
    ensures Shape(d, Step(d, s, c))
  {
    CountFits(Width(d));
  }

  lemma Accepts(d: nat, s: Regs, c: Clock)
    requires Shape(d, s) && |c.data| == d && c.vld && Ready(s, c) && Decimal(c.data)
    ensures Shape(d, Step(d, s, c)) && Busy(d, Step(d, s, c), Value(c.data), 0)
  {
    StepShape(d, s, c);
    ValueBound(c.data);
    DoubledZero(Width(d));
    var t := Step(d, s, c);
    assert Shifted(Width(d), t.bin, Value(t.bcd), Value(c.data), 0, 0);
  }

  lemma BusyStep(d: nat, s: Regs, x: nat, k: nat, c: Clock)
    requires Shape(d, s) && |c.data| == d && Busy(d, s, x, k) && k < Width(d)
    ensures Shape(d, Step(d, s, c)) && Busy(d, Step(d, s, c), x, k + 1)
  {
    StepShape(d, s, c);
    CountFits(Width(d));
    var low: nat :| Shifted(Width(d), s.bin, Value(s.bcd), x, k, low);
    ShiftOutValue(s.bcd);
    ShiftKeeps(Width(d), s.bin, Value(ShiftOut(s.bcd)), LowBit(s.bcd), x, k, low);
    var t := Step(d, s, c);
    assert Shifted(Width(d), t.bin, Value(t.bcd), x, k + 1, Higher(k, low, LowBit(s.bcd)));
  }

  lemma LastStep(d: nat, s: Regs, x: nat, c: Clock)
    requires Shape(d, s) && |c.data| == d && Busy(d, s, x, Width(d))
    ensures Step(d, s, c).st == Done && Step(d, s, c).bin == x
  {
    var low: nat :| Shifted(Width(d), s.bin, Value(s.bcd), x, Width(d), low);
    AllShifted(d, s.bin, Value(s.bcd), x, low);
  }

  // ----- the main results

  ghost predicate Inputs(d: nat, cs: seq<Clock>) {
    forall i :: 0 <= i < |cs| ==> |cs[i].data| == d
  }

  /** The registers after some clocks. */
  ghost function After(d: nat, s: Regs, cs: seq<Clock>): (t: Regs)
    requires Shape(d, s) && Inputs(d, cs)
    ensures Shape(d, t)
    decreases |cs|
  {
    if cs == [] then s
    else
      StepShape(d, After(d, s, cs[..|cs| - 1]), cs[|cs| - 1]);
      Step(d, After(d, s, cs[..|cs| - 1]), cs[|cs| - 1])
  }

  lemma {:induction false} BusyFor(d: nat, s: Regs, x: nat, cs: seq<Clock>)
    requires Shape(d, s) && Inputs(d, cs) && Busy(d, s, x, 0) && |cs| <= Width(d)
    ensures Busy(d, After(d, s, cs), x, |cs|)
    decreases |cs|
  {
    if cs != [] {
      BusyFor(d, s, x, cs[..|cs| - 1]);
      BusyStep(d, After(d, s, cs[..|cs| - 1]), x, |cs| - 1, cs[|cs| - 1]);
    }
  }

  /** BCD digits that are accepted are shown as a number after exactly one clock more than the number has bits. */
  lemma ConvertsInTime(d: nat, s: Regs, c: Clock, cs: seq<Clock>)
    requires Shape(d, s) && |c.data| == d && c.vld && Ready(s, c) && Decimal(c.data)
    requires Inputs(d, cs) && |cs| <= Width(d) + 1 && Shape(d, Step(d, s, c))
    ensures var t := After(d, Step(d, s, c), cs);
      && (t.st == Done <==> |cs| == Width(d) + 1)
      && (t.st == Done ==> t.bin == Value(c.data))
  {
    Accepts(d, s, c);
    if |cs| <= Width(d) {
      BusyFor(d, Step(d, s, c), Value(c.data), cs);
    } else {
      BusyFor(d, Step(d, s, c), Value(c.data), cs[..|cs| - 1]);
      LastStep(d, After(d, Step(d, s, c), cs[..|cs| - 1]), Value(c.data), cs[|cs| - 1]);
    }
  }

  datatype Run = Run(regs: Regs, accepted: seq<seq<Digit>>, delivered: seq<nat>)

  function Reset(d: nat): (s: Regs)
    requires 0 < d
    ensures Shape(d, s)
  {
    CountFits(Width(d));
    Regs(Idle, seq(d, i => 0), 0, MaxCount(Width(d)))
  }

  ghost function Steps(d: nat, cs: seq<Clock>): (r: Run)
    requires 0 < d && Inputs(d, cs)
    ensures Shape(d, r.regs)
    decreases |cs|
  {
    if cs == [] then Run(Reset(d), [], [])
    else
      var r, c := Steps(d, cs[..|cs| - 1]), cs[|cs| - 1];
      StepShape(d, r.regs, c);
      Run(Step(d, r.regs, c),
          if Ready(r.regs, c) && c.vld then r.accepted + [c.data] else r.accepted,
          if r.regs.st == Done && c.rdy then r.delivered + [r.regs.bin] else r.delivered)
  }

  ghost predicate AllDecimal(words: seq<seq<Digit>>) {
    forall i :: 0 <= i < |words| ==> Decimal(words[i])
  }

  /** The numbers that were delivered are those of the words. */
  ghost predicate Shows(delivered: seq<nat>, words: seq<seq<Digit>>) {
    && |delivered| == |words|
    && forall i :: 0 <= i < |delivered| ==> delivered[i] == Value(words[i])
  }

  /** What is inside the converter: nothing, or one number. */
  ghost predicate Holds(d: nat, s: Regs, words: seq<seq<Digit>>)
    requires Shape(d, s)
  {
    match s.st
    case Idle => words == []
    case LoadSr => |words| == 1 && Busy(d, s, Value(words[0]), 0)
    case Converting => |words| == 1 && s.count <= Width(d) && Busy(d, s, Value(words[0]), Width(d) - s.count)
    case Done => |words| == 1 && s.bin == Value(words[0])
  }

  lemma HoldsStep(d: nat, s: Regs, words: seq<seq<Digit>>, c: Clock)
    requires Shape(d, s) && |c.data| == d && Holds(d, s, words)
    requires Ready(s, c) && c.vld ==> Decimal(c.data)
    ensures Shape(d, Step(d, s, c))
    ensures Holds(d, Step(d, s, c),
                  (if s.st == Done && c.rdy then [] else words) + if Ready(s, c) && c.vld then [c.data] else [])
  {
    StepShape(d, s, c);
    if Ready(s, c) && c.vld {
      Accepts(d, s, c);
    } else if s.st == LoadSr {
      BusyStep(d, s, Value(words[0]), 0, c);
    } else if s.st == Converting {
      var k := Width(d) - s.count;
      if k < Width(d) {
        BusyStep(d, s, Value(words[0]), k, c);
      } else {
        LastStep(d, s, Value(words[0]), c);
      }
    }
  }

  /** In every run the words accepted are those delivered as numbers, in order, and the one inside. */
  lemma {:induction false} ConvertsInOrder(d: nat, cs: seq<Clock>)
    requires 0 < d && Inputs(d, cs) && AllDecimal(Steps(d, cs).accepted)
    ensures var r := Steps(d, cs); var n := |r.delivered|;
      n <= |r.accepted| && Shows(r.delivered, r.accepted[..n]) && Holds(d, r.regs, r.accepted[n..])
    decreases |cs|
  {
    if cs != [] {
      var r, c, t := Steps(d, cs[..|cs| - 1]), cs[|cs| - 1], Steps(d, cs);
      var more := if Ready(r.regs, c) && c.vld then [c.data] else [];
      assert t.accepted == r.accepted + more;
      assert forall i :: 0 <= i < |r.accepted| ==> r.accepted[i] == t.accepted[i];
      ConvertsInOrder(d, cs[..|cs| - 1]);
      assert more != [] ==> c.data == t.accepted[|r.accepted|];
      HoldsStep(d, r.regs, r.accepted[|r.delivered|..], c);
      SplitAfter(r.accepted, |r.delivered|, more, r.regs.st == Done && c.rdy);
    }
  }

  lemma SplitAfter<T>(accepted: seq<T>, n: nat, more: seq<T>, take: bool)
    requires n <= |accepted| && (take ==> |accepted[n..]| == 1)
    ensures var n' := if take then n + 1 else n;
      && (accepted + more)[n'..] == (if take then [] else accepted[n..]) + more
      && (accepted + more)[..n'] == accepted[..n] + if take then [accepted[n]] else []
  {
  }

  /** A word is refused exactly if one is inside whose number is not taken in the same clock. */
  lemma RefusesExactly(d: nat, cs: seq<Clock>, c: Clock)
    requires 0 < d && Inputs(d, cs) && AllDecimal(Steps(d, cs).accepted)
    ensures var r := Steps(d, cs);
      !Ready(r.regs, c) <==> |r.delivered| < |r.accepted| && !(r.regs.st == Done && c.rdy)
  {
    ConvertsInOrder(d, cs);
  }

  // ----- the component

  class Converter {
    const d: nat
    var st: State
    const digits: array<Digit>
    var bin: nat
    var count: nat

    ghost function Registers(): Regs
      reads this, digits
    {
      Regs(st, digits[..], bin, count)
    }

    constructor (d: nat)
      requires 0 < d
      ensures this.d == d && Registers() == Reset(d) && fresh(digits)
    {
      this.d, st, bin, count := d, Idle, 0, MaxCount(Width(d));
      digits := new Digit[d](_ => 0);
    }

    /** Every digit register takes its shifted and reduced value. */
    method ShiftDigits()
      modifies digits
      ensures digits[..] == ShiftOut(old(digits[..]))
    {
      ghost var was := digits[..];
      for i := 0 to digits.Length
        invariant forall k :: i <= k < digits.Length ==> digits[k] == was[k]
        invariant forall k :: 0 <= k < i ==> digits[k] == ShiftOut(was)[k]
      {
        ShiftOutAt(was, i);
        var shifted: Digit := digits[i] / 2 + 8 * if i + 1 < digits.Length then digits[i + 1] % 2 else 0;
        digits[i] := Reduce(shifted);
      }
    }

    method LoadDigits(data: seq<Digit>)
      requires |data| == digits.Length
      modifies digits
      ensures digits[..] == data
    {
      for i := 0 to digits.Length
        invariant digits[..i] == data[..i]
      {
        digits[i] := data[i];
      }
    }

    /** One clock edge. */
    method Clk(vld: bool, data: seq<Digit>, rdy: bool) returns (dinRd: bool, doutVld: bool, dout: nat)
      requires Shape(d, Registers()) && |data| == d
      modifies this, digits
      ensures dinRd == Ready(old(Registers()), Clock(vld, data, rdy))
      ensures doutVld == (old(st) == Done) && dout == old(bin)
      ensures Registers() == Step(d, old(Registers()), Clock(vld, data, rdy))
    {
      dinRd, doutVld, dout := st == Idle || (st == Done && rdy), st == Done, bin;
      var next := st;
      match st {
        case Idle => if vld { next := LoadSr; }
        case LoadSr => next := Converting;
        case Converting => if count == 0 { next := Done; }
        case Done => if vld && rdy { next := LoadSr; } else if rdy { next := Idle; }
      }
      var n := Width(d);
      count := if next == Converting then CountDown(n, count) else MaxCount(n);
      if next == LoadSr {
        bin := 0;
        LoadDigits(data);
      } else if next == Converting {
        bin := ShiftRight(n, bin, digits[0] % 2);
        ShiftDigits();
      }
      st := next;
    }
  }
}
