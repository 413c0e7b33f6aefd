/** The counters generated for shared timers, and when they tick. */
module TimerTicks {
  import opened Arithmetic
  import opened Timers
  import opened Wrappers

  lemma {:induction false} Log2OfPow2(n: nat)
    requires IsPow2(n) && n > 1
    ensures Pow2(Log2Ceil(n)) == n
  {
    if n > 2 {
      assert (n + 1) / 2 == n / 2;
      Log2OfPow2(n / 2);
    } else {
      assert Pow2(1) == 2;
    }
  }

  /** The reset value of a timer's own register: it counts clocks, or ticks of a parent with a smaller period. */
  function Reload(ps: seq<nat>, parents: seq<Option<nat>>, i: nat): nat
    requires WellShared(ps, parents) && i < |ps|
  {
    if parents[i].Some? && ps[parents[i].value] < ps[i] then ps[i] / ps[parents[i].value] - 1 else ps[i] - 1
  }

  /** The tick of a timer: its own counter, its parent's tick, or low bits of its parent's counter. */
  function Tick(ps: seq<nat>, parents: seq<Option<nat>>, cntr: seq<nat>, en: bool, i: nat): (tick: bool)
    requires WellShared(ps, parents) && |cntr| == |ps| && i < |ps|
    decreases Rank(ps, parents, i)
  {
    match parents[i]
    case None => cntr[i] == 0 && en
    case Some(j) =>
      if ps[j] == ps[i] then Tick(ps, parents, cntr, en, j)
      else if ps[j] < ps[i] then cntr[i] == 0 && en && Tick(ps, parents, cntr, en, j)
      else cntr[j] % Pow2(Log2Ceil(ps[i])) == 0 && en
  }

  /** When the timer's own register counts; a timer without one keeps it at its reset value. */
  function Counts(ps: seq<nat>, parents: seq<Option<nat>>, cntr: seq<nat>, en: bool, i: nat): bool
    requires WellShared(ps, parents) && |cntr| == |ps| && i < |ps|
  {
    match parents[i]
    case None => en
    case Some(j) => ps[j] < ps[i] && en && Tick(ps, parents, cntr, en, j)
  }

  function Step(ps: seq<nat>, parents: seq<Option<nat>>, cntr: seq<nat>, en: bool): (r: seq<nat>)
    requires WellShared(ps, parents) && |cntr| == |ps|
    ensures |r| == |ps|
  {
    seq(|ps|, i requires 0 <= i < |ps| =>
      if !Counts(ps, parents, cntr, en, i) then cntr[i]
      else if cntr[i] == 0 then Reload(ps, parents, i)
      else cntr[i] - 1)
  }

  /** The registers after the clocks with the enable signal `ens`. */
  ghost function Run(ps: seq<nat>, parents: seq<Option<nat>>, ens: seq<bool>): (cntr: seq<nat>)
    requires WellShared(ps, parents)
    ensures |cntr| == |ps|
    decreases |ens|
  {
    if ens == [] then seq(|ps|, i requires 0 <= i < |ps| => Reload(ps, parents, i))
    else Step(ps, parents, Run(ps, parents, ens[..|ens| - 1]), ens[|ens| - 1])
  }

  /** The number of enabled clocks. */
  ghost function Enabled(ens: seq<bool>): nat {
    if ens == [] then 0 else Enabled(ens[..|ens| - 1]) + if ens[|ens| - 1] then 1 else 0
  }

  // ----- arithmetic

  lemma DivMultiple(x: nat, a: nat, b: nat)
    requires 0 < a && 0 < b
    ensures 0 < a * b
    ensures x % (a * b) == 0 <==> x % a == 0 && (x / a) % b == 0
  {
    var q, r := x / a, x % a;
    var s, t := q / b, q % b;
    Remainder(a, b, t, r);
    assert x == s * (a * b) + (a * t + r) by {
      assert x == a * q + r && q == b * s + t;
      assert a * (b * s + t) == a * (b * s) + a * t;
      assert a * (b * s) == s * (a * b);
    }
    DivUnique(x, s, a * t + r, a * b);
  }

  lemma Remainder(a: nat, b: nat, t: nat, r: nat)
    requires t < b && r < a
    ensures 0 <= a * t + r < a * b
    ensures a * t + r == 0 <==> t == 0 && r == 0
  {
    MulMono(a, t + 1, b);
    assert a * (t + 1) == a * t + a;
    if t > 0 { MulMono(a, 1, t); }
  }

  lemma MultipleMinus(k: int, u: int, w: int, t: int)
    requires 0 <= w < t
    ensures (k * t - (u * t + w)) % t == 0 <==> w == 0
  {
    assert (k - u) * t == k * t - u * t && (k - u - 1) * t == k * t - u * t - t;
    if w == 0 {
      DivUnique(k * t - (u * t + w), k - u, 0, t);
    } else {
      DivUnique(k * t - (u * t + w), k - u - 1, t - w, t);
    }
  }

  lemma MultiplePlus(n: int, q: int, k: int, t: int, r: int)
    requires 0 < t && n == q * (k * t) + r
    ensures (n + 1) % t == (r + 1) % t
  {
    var u, w := (r + 1) / t, (r + 1) % t;
    assert (q * k + u) * t == q * (k * t) + u * t;
    DivUnique(n + 1, q * k + u, w, t);
  }

  /** A down counter with period `p` has low part 0 exactly when a dividing period `t` is over. */
  lemma DownCounter(n: nat, p: nat, t: nat)
    requires 0 < t && 0 < p && p % t == 0
    ensures p - 1 - n % p >= 0
    ensures (p - 1 - n % p) % t == 0 <==> (n + 1) % t == 0
  {
    var k, r := p / t, n % p;
    assert p == k * t && n == (n / p) * p + r;
    MultiplePlus(n, n / p, k, t, r);
    MultipleMinus(k, (r + 1) / t, (r + 1) % t, t);
    assert p - 1 - r == k * t - ((r + 1) / t * t + (r + 1) % t);
  }

  lemma DownStep(p: nat, n: nat)
    requires 0 < p
    ensures p - 1 - (n + 1) % p == if n % p == p - 1 then p - 1 else p - 1 - n % p - 1
  {
    DivStep(n, p);
  }

  /** A counter of the ticks of a period `d`: it moves exactly when `d` is over. */
  lemma QuotientStep(n: nat, d: nat, q: nat)
    requires 0 < d && 0 < q
    ensures q - 1 - ((n + 1) / d) % q ==
      if (n + 1) % d != 0 then q - 1 - (n / d) % q
      else if (n / d) % q == q - 1 then q - 1 else q - 1 - (n / d) % q - 1
  {
    DivStep(n, d);
    DownStep(q, n / d);
  }

  // ----- the counters

  /** Every counter is a function of the number of enabled clocks. */
  ghost predicate CountersAt(ps: seq<nat>, parents: seq<Option<nat>>, cntr: seq<nat>, n: nat)
    requires WellShared(ps, parents) && |cntr| == |ps|
  {
    forall i :: 0 <= i < |ps| ==> CounterAt(ps, parents, cntr, n, i)
  }

  ghost predicate CounterAt(ps: seq<nat>, parents: seq<Option<nat>>, cntr: seq<nat>, n: nat, i: nat)
    requires WellShared(ps, parents) && |cntr| == |ps| && i < |ps|
  {
    match parents[i]
    case None => cntr[i] == ps[i] - 1 - n % ps[i]
    case Some(j) =>
      ps[j] < ps[i] ==>
        var q := ps[i] / ps[j];
        q > 0 && cntr[i] == q - 1 - (n / ps[j]) % q
  }

  lemma QuotientOfPeriods(p: nat, d: nat)
    requires 0 < d < p && p % d == 0
    ensures p / d > 0 && p == d * (p / d)
  {
  }

  /** With such counters every timer ticks when its own period is over, whatever it hangs on. */
  lemma {:induction false} TickAt(ps: seq<nat>, parents: seq<Option<nat>>, cntr: seq<nat>, n: nat, en: bool, i: nat)
    requires WellShared(ps, parents) && |cntr| == |ps| && i < |ps|
    requires CountersAt(ps, parents, cntr, n)
    ensures Tick(ps, parents, cntr, en, i) <==> en && (n + 1) % ps[i] == 0
    decreases Rank(ps, parents, i)
  {
    assert CounterAt(ps, parents, cntr, n, i);
    match parents[i]
    case None =>
      DivStep(n, ps[i]);
    case Some(j) =>
      if ps[j] == ps[i] {
        TickAt(ps, parents, cntr, n, en, j);
      } else if ps[j] < ps[i] {
        TickAt(ps, parents, cntr, n, en, j);
        QuotientOfPeriods(ps[i], ps[j]);
        QuotientTick(n, ps[j], ps[i] / ps[j]);
      } else {
        assert CounterAt(ps, parents, cntr, n, j);
        Log2OfPow2(ps[i]);
        DownCounter(n, ps[j], ps[i]);
      }
  }

  /** Every b-th of the moments that are multiples of `a` is a multiple of a * b. */
  lemma QuotientTick(n: nat, a: nat, b: nat)
    requires 0 < a && 0 < b
    ensures 0 < a * b
    ensures (n + 1) % (a * b) == 0 <==> (n + 1) % a == 0 && (n / a) % b == b - 1
  {
    DivMultiple(n + 1, a, b);
    DivStep(n, a);
    DivStep(n / a, b);
  }

  lemma CounterStep(ps: seq<nat>, parents: seq<Option<nat>>, cntr: seq<nat>, n: nat, en: bool, i: nat)
    requires WellShared(ps, parents) && |cntr| == |ps| && i < |ps|
    requires CountersAt(ps, parents, cntr, n)
    ensures CounterAt(ps, parents, Step(ps, parents, cntr, en), if en then n + 1 else n, i)
  {
    assert CounterAt(ps, parents, cntr, n, i);
    assert Step(ps, parents, cntr, en)[i] ==
      if !Counts(ps, parents, cntr, en, i) then cntr[i]
      else if cntr[i] == 0 then Reload(ps, parents, i) else cntr[i] - 1;
    match parents[i]
    case None =>
      DownStep(ps[i], n);
    case Some(j) =>
      if ps[j] < ps[i] {
        TickAt(ps, parents, cntr, n, en, j);
        QuotientStep(n, ps[j], ps[i] / ps[j]);
      }
  }

  lemma StartAt(ps: seq<nat>, parents: seq<Option<nat>>, i: nat)
    requires WellShared(ps, parents) && i < |ps|
    ensures CounterAt(ps, parents, Run(ps, parents, []), 0, i)
  {
    assert Run(ps, parents, [])[i] == Reload(ps, parents, i);
    if parents[i].Some? && ps[parents[i].value] < ps[i] {
      QuotientOfPeriods(ps[i], ps[parents[i].value]);
    }
  }

  lemma {:induction false} RunAt(ps: seq<nat>, parents: seq<Option<nat>>, ens: seq<bool>)
    requires WellShared(ps, parents)
    ensures CountersAt(ps, parents, Run(ps, parents, ens), Enabled(ens))
    decreases |ens|
  {
    if ens == [] {
      forall i | 0 <= i < |ps| ensures CounterAt(ps, parents, Run(ps, parents, []), 0, i) {
        StartAt(ps, parents, i);
      }
    } else {
      var before, en := ens[..|ens| - 1], ens[|ens| - 1];
      RunAt(ps, parents, before);
      forall i | 0 <= i < |ps| ensures CounterAt(ps, parents, Run(ps, parents, ens), Enabled(ens), i) {
        CounterStep(ps, parents, Run(ps, parents, before), Enabled(before), en, i);
      }
    }
  }

  // ----- main results

  /**
   For every list of periods, every run and every timer: a clock has a tick exactly if it is enabled and
   the number of enabled clocks up to and including it is a multiple of the timer's own period.
   */
  lemma TicksOnPeriod(ps: seq<nat>, ens: seq<bool>, en: bool, i: nat)
    requires Descending(ps) && (forall k :: 0 <= k < |ps| ==> ps[k] > 1) && i < |ps|
    ensures WellShared(ps, Parents(ps, |ps|))
    ensures Tick(ps, Parents(ps, |ps|), Run(ps, Parents(ps, |ps|), ens), en, i)
            <==> en && (Enabled(ens) + 1) % ps[i] == 0
  {
    ParentsAreWellShared(ps);
    var parents := Parents(ps, |ps|);
    RunAt(ps, parents, ens);
    TickAt(ps, parents, Run(ps, parents, ens), Enabled(ens), en, i);
  }

  /** Sharing cannot be observed: every timer ticks as it would with a counter of its own. */
  lemma SharingIsInvisible(ps: seq<nat>, ens: seq<bool>, en: bool, i: nat)
    requires Descending(ps) && (forall k :: 0 <= k < |ps| ==> ps[k] > 1) && i < |ps|
    ensures var shared, own := Parents(ps, |ps|), seq(|ps|, _ => None);
      && WellShared(ps, shared) && WellShared(ps, own)
      && Tick(ps, shared, Run(ps, shared, ens), en, i) == Tick(ps, own, Run(ps, own, ens), en, i)
  {
    TicksOnPeriod(ps, ens, en, i);
    var own := seq(|ps|, _ => None);
    RunAt(ps, own, ens);
    TickAt(ps, own, Run(ps, own, ens), Enabled(ens), en, i);
  }

  /** The generated registers. */
  class TimerCounters {
    const ps: seq<nat>
    const parents: seq<Option<nat>>
    const cntrRegister: array<nat>

    ghost predicate Valid() {
      WellShared(ps, parents) && cntrRegister.Length == |ps|
    }

    constructor (ps: seq<nat>, parents: seq<Option<nat>>)
      requires WellShared(ps, parents)
      ensures this.ps == ps && this.parents == parents && Valid()
      ensures fresh(cntrRegister) && cntrRegister[..] == Run(ps, parents, [])
    {
      this.ps, this.parents := ps, parents;
      cntrRegister := new nat[|ps|](i requires 0 <= i < |ps| => Reload(ps, parents, i));
    }

    /** One clock edge; `tick` are the tick signals before it. */
    method Clk(en: bool) returns (tick: seq<bool>)
      requires Valid()
      modifies cntrRegister
      ensures |tick| == |ps| && forall i :: 0 <= i < |ps| ==> tick[i] == Tick(ps, parents, old(cntrRegister[..]), en, i)
      ensures cntrRegister[..] == Step(ps, parents, old(cntrRegister[..]), en)
    {
      var was := cntrRegister[..];
      tick := seq(|ps|, i requires 0 <= i < |ps| => Tick(ps, parents, was, en, i));
      for i := 0 to |ps|
        invariant forall k :: i <= k < |ps| ==> cntrRegister[k] == was[k]
        invariant forall k :: 0 <= k < i ==> cntrRegister[k] == Step(ps, parents, was, en)[k]
      {
        var counts := en;
        if parents[i].Some? {
          var j := parents[i].value;
          counts := ps[j] < ps[i] && tick[j] && en;
        }
        if counts {
          if was[i] == 0 {
            cntrRegister[i] := Reload(ps, parents, i);
          } else {
            cntrRegister[i] := was[i] - 1;
          }
        }
      }
    }
  }
}
