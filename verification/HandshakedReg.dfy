/**
 Handshaked register pipelines: a chain of LATENCY registers with a combinational ready path, and the
 pair of registers that breaks that path.
 */
module HandshakedReg {
  import opened Queues

  /** One register of a chain. */
  datatype Stage<T> = Stage(occupied: bool, data: T)

  /** The words in a chain, the oldest (that of the last stage) first. */
  function Words<T>(chain: seq<Stage<T>>): (q: seq<T>) {
    if chain == [] then []
    else Words(chain[1..]) + if chain[0].occupied then [chain[0].data] else []
  }

  /** The ready signal of a chain whose consumer is ready or not. */
  predicate Ready<T>(chain: seq<Stage<T>>, rdy: bool) {
    if chain == [] then rdy else !chain[0].occupied || Ready(chain[1..], rdy)
  }

  /** One register: what it stores if its producer shows `vld` and `data` and its consumer is ready or not. */
  function StageStep<T>(s: Stage<T>, vld: bool, data: T, outRd: bool): Stage<T> {
    if s.occupied then
      Stage(!(outRd && !vld), if vld && outRd then data else s.data)
    else
      Stage(vld, if vld then data else s.data)
  }

  /** One clock of a chain. */
  function Step<T>(chain: seq<Stage<T>>, vld: bool, data: T, rdy: bool): (t: seq<Stage<T>>)
    ensures |t| == |chain|
  {
    if chain == [] then []
    else
      [StageStep(chain[0], vld, data, Ready(chain[1..], rdy))]
      + Step(chain[1..], chain[0].occupied, chain[0].data, rdy)
  }

  /** What a chain shows to its consumer. */
  function Out<T>(chain: seq<Stage<T>>): (o: Stage<T>)
    requires chain != []
  {
    chain[|chain| - 1]
  }

  /** A chain of any length is a queue: taken words leave at its head, accepted ones join its end. */
  lemma {:induction false} ChainIsQueue<T>(chain: seq<Stage<T>>, vld: bool, data: T, rdy: bool)
    requires chain != []
    ensures var q := Words(chain);
      && (Out(chain).occupied ==> q != [] && Out(chain).data == q[0])
      && Words(Step(chain, vld, data, rdy)) ==
           (if Out(chain).occupied && rdy then q[1..] else q) + if vld && Ready(chain, rdy) then [data] else []
    decreases |chain|
  {
    var first, rest := chain[0], chain[1..];
    var next := Step(chain, vld, data, rdy);
    assert next[1..] == Step(rest, first.occupied, first.data, rdy);
    assert next[0] == StageStep(first, vld, data, Ready(rest, rdy));
    if rest == [] {
      assert Words(rest) == [] && Words(next[1..]) == [];
    } else {
      ChainIsQueue(rest, first.occupied, first.data, rdy);
      assert Out(chain) == Out(rest);
      AppendQueues(Words(rest), Out(rest).occupied && rdy,
                   if first.occupied then [first.data] else [], Ready(rest, rdy),
                   if vld && Ready(chain, rdy) then [data] else []);
    }
  }

  /** A word of the first register either moves to the rest of the chain or stays in front of the new one. */
  lemma AppendQueues<T>(rest: seq<T>, take: bool, own: seq<T>, moves: bool, more: seq<T>)
    requires take ==> rest != []
    ensures ((if take then rest[1..] else rest) + own) + more == (if take then (rest + own)[1..] else rest + own) + more
  {
    if take { assert (rest + own)[1..] == rest[1..] + own; }
  }

  /**
   A chain of n registers holds up to n words, and stops its producer only when it does and its consumer is not
   ready.
   */
  lemma {:induction false} ChainCapacity<T>(chain: seq<Stage<T>>, rdy: bool)
    ensures |Words(chain)| <= |chain|
    ensures !Ready(chain, rdy) <==> |Words(chain)| == |chain| && !rdy
  {
    if chain != [] { ChainCapacity(chain[1..], rdy); }
  }

  // ----- the ready chain break

  /** Two registers; `prio` says which one is older when both are occupied. */
  datatype Pair<T> = Pair(occupied0: bool, occupied1: bool, prio: bool, reg0: T, reg1: T)

  predicate Consume0<T>(p: Pair<T>) { (!p.prio && p.occupied0) || !p.occupied1 }

  predicate Consume1<T>(p: Pair<T>) { (p.prio && p.occupied1) || !p.occupied0 }

  predicate PairReady<T>(p: Pair<T>) { !p.occupied0 || !p.occupied1 }

  predicate PairValid<T>(p: Pair<T>) { p.occupied0 || p.occupied1 }

  /** The output multiplexer; undefined if there is no word. */
  function PairOut<T>(p: Pair<T>, x: T): T {
    if Consume0(p) && p.occupied0 then p.reg0
    else if Consume1(p) && p.occupied1 then p.reg1
    else x
  }

  function PairStep<T>(p: Pair<T>, vld: bool, data: T, rdy: bool): Pair<T> {
    var set0, clr0 := vld && !p.occupied0, rdy && p.occupied0 && Consume0(p);
    var set1, clr1 := vld && p.occupied0 && !p.occupied1, rdy && p.occupied1 && Consume1(p);
    Pair((p.occupied0 || set0) && !clr0, (p.occupied1 || set1) && !clr1,
         if vld && PairReady(p) then if p.occupied0 then false else if p.occupied1 then true else p.prio else p.prio,
         if vld && !p.occupied0 then data else p.reg0,
         if vld && !p.occupied1 then data else p.reg1)
  }

  function PairWords<T>(p: Pair<T>): seq<T> {
    if p.occupied0 && p.occupied1 then if p.prio then [p.reg1, p.reg0] else [p.reg0, p.reg1]
    else if p.occupied0 then [p.reg0]
    else if p.occupied1 then [p.reg1]
    else []
  }

  /** From every state of its five flags the pair is a queue of two places. */
  lemma PairIsQueue<T>(p: Pair<T>, vld: bool, data: T, rdy: bool, x: T)
    ensures var q := PairWords(p);
      && (PairValid(p) <==> q != []) && (PairReady(p) <==> |q| < 2)
      && (PairValid(p) ==> PairOut(p, x) == q[0])
      && PairWords(PairStep(p, vld, data, rdy)) ==
           (if PairValid(p) && rdy then q[1..] else q) + if vld && PairReady(p) then [data] else []
  {
  }

  // ----- runs

  datatype Clock<T> = Clock(vld: bool, data: T, rdy: bool)

  datatype Run<T> = Run(chain: seq<Stage<T>>, accepted: seq<T>, delivered: seq<T>)

  /** A chain of registers that are empty after reset. */
  ghost function Steps<T>(chain: seq<Stage<T>>, cs: seq<Clock<T>>): (r: Run<T>)
    requires chain != []
    ensures |r.chain| == |chain|
    decreases |cs|
  {
    if cs == [] then Run(chain, [], [])
    else
      var r, c := Steps(chain, cs[..|cs| - 1]), cs[|cs| - 1];
      Run(Step(r.chain, c.vld, c.data, c.rdy),
          r.accepted + if c.vld && Ready(r.chain, c.rdy) then [c.data] else [],
          r.delivered + if Out(r.chain).occupied && c.rdy then [Out(r.chain).data] else [])
  }

  lemma {:induction false} EmptyChain<T>(chain: seq<Stage<T>>)
    requires forall i :: 0 <= i < |chain| ==> !chain[i].occupied
    ensures Words(chain) == []
  {
    if chain != [] { EmptyChain(chain[1..]); }
  }

  /** In every run of a chain nothing is lost, duplicated or reordered. */
  lemma {:induction false} ChainConserves<T>(chain: seq<Stage<T>>, cs: seq<Clock<T>>)
    requires chain != [] && forall i :: 0 <= i < |chain| ==> !chain[i].occupied
    ensures var r := Steps(chain, cs);
      r.accepted == r.delivered + Words(r.chain)
    decreases |cs|
  {
    if cs == [] {
      EmptyChain(chain);
    } else {
      var r, c := Steps(chain, cs[..|cs| - 1]), cs[|cs| - 1];
      ChainConserves(chain, cs[..|cs| - 1]);
      ChainIsQueue(r.chain, c.vld, c.data, c.rdy);
      Conserve(r.accepted, r.delivered, Words(r.chain), Out(r.chain).data, Out(r.chain).occupied && c.rdy,
               if c.vld && Ready(r.chain, c.rdy) then [c.data] else []);
    }
  }

  datatype PairRun<T> = PairRun(pair: Pair<T>, accepted: seq<T>, delivered: seq<T>)

  /** A pair that is empty after reset; an undefined output is that of `x`. */
  ghost function PairSteps<T>(p: Pair<T>, x: T, cs: seq<Clock<T>>): PairRun<T>
    decreases |cs|
  {
    if cs == [] then PairRun(p, [], [])
    else
      var r, c := PairSteps(p, x, cs[..|cs| - 1]), cs[|cs| - 1];
      PairRun(PairStep(r.pair, c.vld, c.data, c.rdy),
              r.accepted + if c.vld && PairReady(r.pair) then [c.data] else [],
              r.delivered + if PairValid(r.pair) && c.rdy then [PairOut(r.pair, x)] else [])
  }

  /** In every run of a pair nothing is lost, duplicated or reordered. */
  lemma {:induction false} PairConserves<T>(p: Pair<T>, x: T, cs: seq<Clock<T>>)
    requires !p.occupied0 && !p.occupied1
    ensures var r := PairSteps(p, x, cs);
      r.accepted == r.delivered + PairWords(r.pair)
    decreases |cs|
  {
    if cs != [] {
      var r, c := PairSteps(p, x, cs[..|cs| - 1]), cs[|cs| - 1];
      PairConserves(p, x, cs[..|cs| - 1]);
      PairIsQueue(r.pair, c.vld, c.data, c.rdy, x);
      Conserve(r.accepted, r.delivered, PairWords(r.pair), PairOut(r.pair, x), PairValid(r.pair) && c.rdy,
               if c.vld && PairReady(r.pair) then [c.data] else []);
    }
  }

  // ----- the component

  /** The registers of a chain with LATENCY stages, numbered from the input. */
  class Chain<T> {
    const stages: array<Stage<T>>

    constructor (latency: nat, data: T)
      requires latency > 0
      ensures stages.Length == latency && fresh(stages)
      ensures forall i :: 0 <= i < latency ==> !stages[i].occupied
    {
      stages := new Stage<T>[latency](_ => Stage(false, data));
    }

    /** `_impl_latency`: one register of the chain. */
    method StageClk(i: nat, before: Stage<T>, outRd: bool)
      requires i < stages.Length
      modifies stages
      ensures stages[..] == old(stages[..])[i := StageStep(old(stages[i]), before.occupied, before.data, outRd)]
    {
      var s := stages[i];
      if s.occupied {
        if before.occupied && outRd { stages[i] := Stage(true, before.data); }
        if outRd && !before.occupied { stages[i] := Stage(false, s.data); }
      } else {
        stages[i] := Stage(before.occupied, if before.occupied then before.data else s.data);
      }
    }

    /** One clock edge. The ready signals are driven from the last stage to the first. */
    method Clk(vld: bool, data: T, rdy: bool) returns (ready: bool)
      requires stages.Length > 0
      modifies stages
      ensures ready == Ready(old(stages[..]), rdy)
      ensures stages[..] == Step(old(stages[..]), vld, data, rdy)
    {
      ghost var was := stages[..];
      var i := stages.Length;
      ready := rdy;
      ghost var next: seq<Stage<T>> := [];
      while i > 0
        invariant 0 <= i <= stages.Length
        invariant ready == Ready(was[i..], rdy)
        invariant next == Step(was[i..], Before(was, i, vld, data).occupied, Before(was, i, vld, data).data, rdy)
        invariant stages[..] == was[..i] + next
      {
        i := i - 1;
        assert stages[..] == was[..i + 1] + next;
        var s := stages[i];
        var before := if i == 0 then Stage(vld, data) else stages[i - 1];
        StepFrom(was, i, vld, data, rdy);
        assert s == was[i] && before == Before(was, i, vld, data);
        Replace(was, i, StageStep(s, before.occupied, before.data, ready), next);
        StageClk(i, before, ready);
        next := [StageStep(s, before.occupied, before.data, ready)] + next;
        ready := !s.occupied || ready;
      }
      assert was[0..] == was;
    }
  }

  lemma Replace<T>(was: seq<T>, i: nat, y: T, next: seq<T>)
    requires i < |was|
    ensures (was[..i + 1] + next)[i := y] == was[..i] + ([y] + next)
    ensures (was[..i + 1] + next)[i] == was[i]
    ensures i > 0 ==> (was[..i + 1] + next)[i - 1] == was[i - 1]
  {
  }

  /** What the stage `i` of a chain is shown by its producer. */
  ghost function Before<T>(chain: seq<Stage<T>>, i: nat, vld: bool, data: T): Stage<T>
    requires i <= |chain|
  {
    if i == 0 then Stage(vld, data) else chain[i - 1]
  }

  lemma StepFrom<T>(chain: seq<Stage<T>>, i: nat, vld: bool, data: T, rdy: bool)
    requires i < |chain|
    ensures var b, s := Before(chain, i, vld, data), chain[i];
      && Ready(chain[i..], rdy) == (!s.occupied || Ready(chain[i + 1..], rdy))
      && Step(chain[i..], b.occupied, b.data, rdy) ==
           [StageStep(s, b.occupied, b.data, Ready(chain[i + 1..], rdy))]
           + Step(chain[i + 1..], s.occupied, s.data, rdy)
  {
    assert chain[i..][1..] == chain[i + 1..];
  }
}
