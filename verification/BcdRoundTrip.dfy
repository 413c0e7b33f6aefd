/** The two converters connected by their handshakes, in either order, give back what they are given. */
module BcdRoundTrip {
  import opened Arithmetic
  import opened Bcd
  import Forward = BinToBcd
  import Backward = BcdToBin

  // ----- binary to BCD to binary

  /** What the two converters have seen on their ports. */
  datatype Ports = Ports(fwd: seq<Forward.Clock>, back: seq<Backward.Clock>)

  lemma DigitsNeeded(w: nat)
    requires 2 <= w
    ensures 0 < Forward.DecimalDigits(w)
  {
    assert Pow2(w) >= 2;
  }

  /** A number enters the first converter, whose digits enter the second one; `c.rdy` comes from its consumer. */
  ghost function Pipe(w: nat, bin: nat, cs: seq<Forward.Clock>): (p: Ports)
    requires 2 <= w && bin < Pow2(w) && Forward.Inputs(w, cs)
    ensures 0 < Forward.DecimalDigits(w)
    ensures Forward.Inputs(w, p.fwd) && Backward.Inputs(Forward.DecimalDigits(w), p.back)
    decreases |cs|
  {
    DigitsNeeded(w);
    var d := Forward.DecimalDigits(w);
    if cs == [] then Ports([], [])
    else
      var p, c := Pipe(w, bin, cs[..|cs| - 1]), cs[|cs| - 1];
      var f, b := Forward.Steps(w, bin, p.fwd).regs, Backward.Steps(d, p.back).regs;
      var in2 := Backward.Clock(f.state == Forward.Fin, f.digits, c.rdy);
      Ports(p.fwd + [Forward.Clock(c.vld, c.data, Backward.Ready(b, in2))], p.back + [in2])
  }

  /** What one converter delivers the other one accepts. */
  lemma {:induction false} Connected(w: nat, bin: nat, cs: seq<Forward.Clock>)
    requires 2 <= w && bin < Pow2(w) && Forward.Inputs(w, cs)
    ensures var p := Pipe(w, bin, cs);
      Forward.Steps(w, bin, p.fwd).delivered == Backward.Steps(Forward.DecimalDigits(w), p.back).accepted
    decreases |cs|
  {
    if cs != [] {
      var p, q := Pipe(w, bin, cs), Pipe(w, bin, cs[..|cs| - 1]);
      Connected(w, bin, cs[..|cs| - 1]);
      assert p.fwd[..|p.fwd| - 1] == q.fwd && p.back[..|p.back| - 1] == q.back;
    }
  }

  /** In every run the numbers delivered are the first of those accepted, and at most two are on their way. */
  lemma BinaryRoundTrip(w: nat, bin: nat, cs: seq<Forward.Clock>)
    requires 2 <= w && bin < Pow2(w) && Forward.Inputs(w, cs)
    ensures var p := Pipe(w, bin, cs);
      var given := Forward.Steps(w, bin, p.fwd).accepted;
      var back := Backward.Steps(Forward.DecimalDigits(w), p.back).delivered;
      |back| <= |given| <= |back| + 2 && back == given[..|back|]
  {
    var p := Pipe(w, bin, cs);
    Connected(w, bin, cs);
    Forward.ConvertsInOrder(w, bin, p.fwd);
    var f, b := Forward.Steps(w, bin, p.fwd), Backward.Steps(Forward.DecimalDigits(w), p.back);
    assert Backward.AllDecimal(b.accepted) by {
      assert Forward.Shows(f.delivered, f.accepted[..|f.delivered|]);
    }
    Backward.ConvertsInOrder(Forward.DecimalDigits(w), p.back);
    SameNumbers(f.accepted, f.delivered, b.delivered);
  }

  /** Numbers shown as digits, and digits as numbers. */
  lemma SameNumbers(given: seq<nat>, words: seq<seq<Digit>>, back: seq<nat>)
    requires |back| <= |words| <= |given|
    requires Forward.Shows(words, given[..|words|]) && Backward.Shows(back, words[..|back|])
    ensures back == given[..|back|]
  {
    forall i | 0 <= i < |back| ensures back[i] == given[i] {
      assert given[..|words|][i] == given[i] && words[..|back|][i] == words[i];
    }
  }

  // ----- BCD to binary to BCD

  lemma BitsNeeded(d: nat)
    requires 0 < d
    ensures 2 <= Backward.Width(d)
  {
    Backward.WidthIsEnough(d);
    assert Pow10(d) >= 10 && Pow2(1) == 2;
  }

  ghost function PipeBack(d: nat, bin: nat, cs: seq<Backward.Clock>): (p: Ports)
    requires 0 < d && bin < Pow2(Backward.Width(d)) && Backward.Inputs(d, cs)
    ensures 2 <= Backward.Width(d)
    ensures Forward.Inputs(Backward.Width(d), p.fwd) && Backward.Inputs(d, p.back)
    decreases |cs|
  {
    BitsNeeded(d);
    if cs == [] then Ports([], [])
    else
      var p, c := PipeBack(d, bin, cs[..|cs| - 1]), cs[|cs| - 1];
      var b, f := Backward.Steps(d, p.back).regs, Forward.Steps(Backward.Width(d), bin, p.fwd).regs;
      Ports(p.fwd + [Forward.Clock(b.st == Backward.Done, b.bin, c.rdy)],
            p.back + [Backward.Clock(c.vld, c.data, f.state == Forward.Idle)])
  }

  lemma {:induction false} ConnectedBack(d: nat, bin: nat, cs: seq<Backward.Clock>)
    requires 0 < d && bin < Pow2(Backward.Width(d)) && Backward.Inputs(d, cs)
    ensures var p := PipeBack(d, bin, cs);
      Backward.Steps(d, p.back).delivered == Forward.Steps(Backward.Width(d), bin, p.fwd).accepted
    decreases |cs|
  {
    if cs != [] {
      var p, q := PipeBack(d, bin, cs), PipeBack(d, bin, cs[..|cs| - 1]);
      ConnectedBack(d, bin, cs[..|cs| - 1]);
      assert p.fwd[..|p.fwd| - 1] == q.fwd && p.back[..|p.back| - 1] == q.back;
    }
  }

  /** The digits given, with zeros on the left if the way through binary has room for more digits. */
  ghost predicate SameNumber(a: seq<Digit>, b: seq<Digit>) {
    |a| <= |b| && b[..|a|] == a && forall i :: |a| <= i < |b| ==> b[i] == 0
  }

  /** There are at least as many digits after the way through binary. */
  lemma DigitsGrow(d: nat)
    requires 0 < d
    ensures d <= Forward.DecimalDigits(Backward.Width(d))
  {
    Backward.WidthIsEnough(d);
    Log10CeilIsTight(Pow2(Backward.Width(d)));
    Pow10Mono(d, Forward.DecimalDigits(Backward.Width(d)));
  }

  lemma {:induction false} Pow10Mono(a: nat, b: nat)
    ensures Pow10(a) <= Pow10(b) ==> a <= b
  {
    if a > 0 && b > 0 { Pow10Mono(a - 1, b - 1); }
  }

  lemma DecimalRoundTrip(d: nat, bin: nat, cs: seq<Backward.Clock>)
    requires 0 < d && bin < Pow2(Backward.Width(d)) && Backward.Inputs(d, cs)
    requires Backward.AllDecimal(Backward.Steps(d, PipeBack(d, bin, cs).back).accepted)
    ensures var p := PipeBack(d, bin, cs);
      var given, back := Backward.Steps(d, p.back).accepted, Forward.Steps(Backward.Width(d), bin, p.fwd).delivered;
      && |back| <= |given| <= |back| + 2
      && forall i :: 0 <= i < |back| ==> SameNumber(given[i], back[i])
  {
    var p := PipeBack(d, bin, cs);
    ConnectedBack(d, bin, cs);
    Backward.ConvertsInOrder(d, p.back);
    Forward.ConvertsInOrder(Backward.Width(d), bin, p.fwd);
    var given, back := Backward.Steps(d, p.back).accepted, Forward.Steps(Backward.Width(d), bin, p.fwd).delivered;
    forall i | 0 <= i < |back| ensures SameNumber(given[i], back[i]) {
      DigitsGrow(d);
      AcceptedLength(d, p.back, i);
      DeliveredLength(Backward.Width(d), bin, p.fwd, i);
      ValueInjective(given[i], back[i]);
    }
  }

  lemma {:induction false} AcceptedLength(d: nat, cs: seq<Backward.Clock>, i: nat)
    requires 0 < d && Backward.Inputs(d, cs) && i < |Backward.Steps(d, cs).accepted|
    ensures |Backward.Steps(d, cs).accepted[i]| == d
    decreases |cs|
  {
    var before := cs[..|cs| - 1];
    if i < |Backward.Steps(d, before).accepted| { AcceptedLength(d, before, i); }
  }

  lemma {:induction false} DeliveredLength(w: nat, bin: nat, cs: seq<Forward.Clock>, i: nat)
    requires 2 <= w && bin < Pow2(w) && Forward.Inputs(w, cs) && i < |Forward.Steps(w, bin, cs).delivered|
    ensures |Forward.Steps(w, bin, cs).delivered[i]| == Forward.DecimalDigits(w)
    decreases |cs|
  {
    var before := cs[..|cs| - 1];
    if i < |Forward.Steps(w, bin, before).delivered| { DeliveredLength(w, bin, before, i); }
  }
}
