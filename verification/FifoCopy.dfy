/**
 The AXI-stream FIFO that can replay a frame: the memory keeps the words from the start of the frame
 that is being read, and with the last word of a frame the consumer decides whether
 it wants that frame once more.
 */
module FifoCopy {
  import opened Arithmetic

  /** A beat of the stream. */
  datatype Beat<D> = Beat(data: D, last: bool)

  /** `rd` is where the frame that is being read starts, `rdTmp` the next word to read. */
  datatype Regs<D> = Regs(mem: seq<Beat<D>>, wr: nat, rd: nat, rdTmp: nat, dout: Beat<D>, outVld: bool)

  datatype Clock<D> = Clock(vld: bool, beat: Beat<D>, rdy: bool, copy: bool)

  /** The memory has one word more than the pointers can address. */
  ghost predicate Shape<D>(depth: nat, s: Regs<D>) {
    1 < depth && |s.mem| == depth + 1 && s.wr < depth && s.rd < depth && s.rdTmp < depth
  }

  /** The consumer takes the last word of a frame: now it decides about a copy. */
  predicate Decides<D>(s: Regs<D>, c: Clock<D>) {
    s.outVld && s.dout.last && c.rdy
  }

  predicate Accepts<D>(depth: nat, s: Regs<D>, c: Clock<D>)
    requires Shape(depth, s)
  {
    c.vld && Wrap(s.wr, depth) != s.rd
  }

  /** The read of the memory, if there is one in this clock. */
  predicate Reads<D>(s: Regs<D>, c: Clock<D>) {
    var copy := Decides(s, c) && c.copy;
    var outWait := !copy && s.wr == s.rdTmp;
    (c.rdy || !s.outVld) && !outWait && (s.wr != s.rdTmp || copy)
  }

  function Step<D>(depth: nat, s: Regs<D>, c: Clock<D>): (t: Regs<D>)
    requires Shape(depth, s)
    ensures Shape(depth, t)
  {
    var copy, release := Decides(s, c) && c.copy, Decides(s, c) && !c.copy;
    var outWait := !copy && s.wr == s.rdTmp;
    Regs(if Accepts(depth, s, c) then s.mem[s.wr := c.beat] else s.mem,
         if Accepts(depth, s, c) then Wrap(s.wr, depth) else s.wr,
         if release then s.rdTmp else s.rd,
         if Reads(s, c) then Wrap(if copy then s.rd else s.rdTmp, depth) else s.rdTmp,
         if Reads(s, c) then s.mem[if copy then s.rd else s.rdTmp] else s.dout,
         if c.rdy || !s.outVld then !outWait else s.outVld)
  }

  // ----- what the ports see, and where the pointers are in it

  /** The beats accepted and delivered, the copy decisions, and the pointers as indices of accepted beats. */
  datatype Run<D> = Run(regs: Regs<D>, accepted: seq<Beat<D>>, delivered: seq<Beat<D>>, decisions: seq<bool>,
                        start: nat, next: nat)

  function Observe<D>(depth: nat, r: Run<D>, c: Clock<D>): (t: Run<D>)
    requires Shape(depth, r.regs)
    ensures Shape(depth, t.regs)
  {
    var s := r.regs;
    Run(Step(depth, s, c),
        if Accepts(depth, s, c) then r.accepted + [c.beat] else r.accepted,
        if s.outVld && c.rdy then r.delivered + [s.dout] else r.delivered,
        if Decides(s, c) then r.decisions + [c.copy] else r.decisions,
        if Decides(s, c) && !c.copy then r.next else r.start,
        if Reads(s, c) then if Decides(s, c) && c.copy then r.start + 1 else r.next + 1 else r.next)
  }

  // ----- the stream that is promised

  /** The index behind the frame that starts at `start`: behind the first beat with `last`. */
  function End<D>(beats: seq<Beat<D>>, start: nat): (e: nat)
    requires start <= |beats|
    ensures start <= e <= |beats|
    decreases |beats| - start
  {
    if start == |beats| then start
    else if beats[start].last then start + 1
    else End(beats, start + 1)
  }

  /** Where the frame that follows the given decisions starts: a copy stays at the frame, otherwise the next one. */
  function Start<D>(beats: seq<Beat<D>>, decisions: seq<bool>): (s: nat)
    ensures s <= |beats|
    decreases |decisions|
  {
    if decisions == [] then 0
    else
      var n := |decisions| - 1;
      var s := Start(beats, decisions[..n]);
      if decisions[n] then s else End(beats, s)
  }

  /** The frames that were delivered up to the given decisions: the frame at the start, once for each decision. */
  function Output<D>(beats: seq<Beat<D>>, decisions: seq<bool>): (out: seq<Beat<D>>)
    decreases |decisions|
  {
    if decisions == [] then []
    else
      var n := |decisions| - 1;
      var s := Start(beats, decisions[..n]);
      Output(beats, decisions[..n]) + beats[s..End(beats, s)]
  }

  /** The frame at `start` is there as a whole. */
  predicate Closed<D>(beats: seq<Beat<D>>, start: nat)
    requires start <= |beats|
  {
    start < End(beats, start) && beats[End(beats, start) - 1].last
  }

  ghost predicate AllClosed<D>(beats: seq<Beat<D>>, decisions: seq<bool>)
    decreases |decisions|
  {
    decisions == [] ||
      var n := |decisions| - 1;
      AllClosed(beats, decisions[..n]) && Closed(beats, Start(beats, decisions[..n]))
  }

  lemma {:induction false} EndAfterMore<D>(beats: seq<Beat<D>>, b: Beat<D>, start: nat)
    requires start <= |beats| && Closed(beats, start)
    ensures End(beats + [b], start) == End(beats, start) && Closed(beats + [b], start)
    decreases |beats| - start
  {
    if !beats[start].last { EndAfterMore(beats, b, start + 1); }
  }

  /** Later beats do not change what has been delivered. */
  lemma {:induction false} OutputAfterMore<D>(beats: seq<Beat<D>>, b: Beat<D>, decisions: seq<bool>)
    requires AllClosed(beats, decisions)
    ensures AllClosed(beats + [b], decisions)
    ensures Start(beats + [b], decisions) == Start(beats, decisions)
    ensures Output(beats + [b], decisions) == Output(beats, decisions)
    decreases |decisions|
  {
    if decisions != [] {
      var n := |decisions| - 1;
      OutputAfterMore(beats, b, decisions[..n]);
      var s := Start(beats, decisions[..n]);
      EndAfterMore(beats, b, s);
      assert (beats + [b])[s..End(beats, s)] == beats[s..End(beats, s)];
    }
  }

  lemma {:induction false} EndIsHere<D>(beats: seq<Beat<D>>, start: nat, e: nat)
    requires start < e <= |beats| && beats[e - 1].last
    requires forall k :: start <= k < e - 1 ==> !beats[k].last
    ensures End(beats, start) == e && Closed(beats, start)
    decreases e - start
  {
    if start < e - 1 { EndIsHere(beats, start + 1, e); }
  }

  // ----- the invariant

  ghost predicate PointersInv<D>(depth: nat, r: Run<D>) {
    var s := r.regs;
    && Shape(depth, s)
    && s.wr == Cycle(|r.accepted|, depth) && s.rd == Cycle(r.start, depth) && s.rdTmp == Cycle(r.next, depth)
    && r.start <= r.next <= |r.accepted| < r.start + depth
  }

  /** No beat is overwritten while the frame it belongs to may still be wanted. */
  ghost predicate MemoryInv<D>(depth: nat, r: Run<D>)
    requires Shape(depth, r.regs)
  {
    forall k :: r.start <= k < |r.accepted| ==> r.regs.mem[Cycle(k, depth)] == r.accepted[k]
  }

  /** The consumer's view of a run: everything but the memory and its pointers. */
  datatype View<D> = View(beats: seq<Beat<D>>, start: nat, next: nat, vld: bool, dout: Beat<D>,
                          delivered: seq<Beat<D>>, decisions: seq<bool>)

  /** The number of accepted beats up to the one that is delivered next. */
  ghost function Taken<D>(v: View<D>): int {
    if v.vld then v.next - 1 else v.next
  }

  ghost predicate ViewInv<D>(v: View<D>) {
    var p := Taken(v);
    && v.start <= v.next <= |v.beats|
    && (v.vld ==> v.start < v.next && v.dout == v.beats[v.next - 1])
    && (forall k :: v.start <= k < p ==> !v.beats[k].last)
    && AllClosed(v.beats, v.decisions) && v.start == Start(v.beats, v.decisions)
    && v.delivered == Output(v.beats, v.decisions) + v.beats[v.start..p]
  }

  ghost function ViewOf<D>(r: Run<D>): View<D> {
    View(r.accepted, r.start, r.next, r.regs.outVld, r.regs.dout, r.delivered, r.decisions)
  }

  ghost predicate Inv<D>(depth: nat, r: Run<D>) {
    PointersInv(depth, r) && MemoryInv(depth, r) && ViewInv(ViewOf(r))
  }

  /** Comparing pointers is comparing positions. */
  lemma PointerTests<D>(depth: nat, r: Run<D>)
    requires PointersInv(depth, r)
    ensures r.regs.wr == r.regs.rdTmp <==> |r.accepted| == r.next
    ensures Wrap(r.regs.wr, depth) == r.regs.rd <==> |r.accepted| + 1 == r.start + depth
  {
    CycleInjective(|r.accepted|, r.next, depth);
    CycleAdd(r.start, depth, depth);
    CycleInjective(|r.accepted| + 1, r.start + depth, depth);
    assert Cycle(|r.accepted| + 1, depth) == Wrap(r.regs.wr, depth);
  }

  /** The read side of a clock in terms of positions. */
  lemma ReadMoves<D>(depth: nat, r: Run<D>, c: Clock<D>)
    requires Inv(depth, r)
    ensures var t, copy := Observe(depth, r, c), Decides(r.regs, c) && c.copy;
      var k := if copy then r.start else r.next;
      && (Reads(r.regs, c) <==> (c.rdy || !r.regs.outVld) && (copy || r.next < |r.accepted|))
      && (Reads(r.regs, c) ==> k < |r.accepted| && t.regs.dout == r.accepted[k] && t.next == k + 1)
      && (!Reads(r.regs, c) ==> t.regs.dout == r.regs.dout && t.next == r.next)
      && t.regs.outVld == (if c.rdy || !r.regs.outVld then Reads(r.regs, c) else true)
      && t.start == (if Decides(r.regs, c) && !c.copy then r.next else r.start)
  {
    PointerTests(depth, r);
  }

  lemma KeepsOrder<D>(depth: nat, r: Run<D>, c: Clock<D>)
    requires Inv(depth, r)
    ensures var t := Observe(depth, r, c);
      t.start <= t.next <= |t.accepted| < t.start + depth && |t.accepted| <= |r.accepted| + 1
  {
    PointerTests(depth, r);
    ReadMoves(depth, r, c);
  }

  lemma KeepsPointers<D>(depth: nat, r: Run<D>, c: Clock<D>)
    requires Inv(depth, r)
    ensures PointersInv(depth, Observe(depth, r, c))
  {
    KeepsOrder(depth, r, c);
    WritePointer(depth, r, c);
    ReadPointers(depth, r, c);
  }

  lemma WritePointer<D>(depth: nat, r: Run<D>, c: Clock<D>)
    requires Inv(depth, r)
    ensures Observe(depth, r, c).regs.wr == Cycle(|Observe(depth, r, c).accepted|, depth)
  {
    CycleNext(depth, |r.accepted|);
  }

  lemma ReadPointers<D>(depth: nat, r: Run<D>, c: Clock<D>)
    requires Inv(depth, r)
    ensures var t := Observe(depth, r, c);
      t.regs.rd == Cycle(t.start, depth) && t.regs.rdTmp == Cycle(t.next, depth)
  {
    CycleNext(depth, r.start);
    CycleNext(depth, r.next);
  }

  lemma CycleNext(depth: nat, n: nat)
    requires 1 < depth
    ensures Cycle(n + 1, depth) == Wrap(Cycle(n, depth), depth)
  {
  }

  lemma KeepsMemory<D>(depth: nat, r: Run<D>, c: Clock<D>)
    requires Inv(depth, r)
    ensures MemoryInv(depth, Observe(depth, r, c))
  {
    var t := Observe(depth, r, c);
    PointerTests(depth, r);
    forall k | t.start <= k < |t.accepted| ensures t.regs.mem[Cycle(k, depth)] == t.accepted[k] {
      if k < |r.accepted| { CycleInjective(k, |r.accepted|, depth); }
    }
  }

  /** The consumer takes a beat; with the last one of a frame it decides. */
  function Took<D>(v: View<D>, copy: bool): View<D> {
    var start := if copy then v.start else v.next;
    var u := v.(vld := false, delivered := v.delivered + [v.dout]);
    if v.dout.last then u.(decisions := v.decisions + [copy], start := start, next := start) else u
  }

  /** The next beat comes out of the memory. */
  function Fetched<D>(v: View<D>): View<D>
    requires v.next < |v.beats|
  {
    v.(vld := true, dout := v.beats[v.next], next := v.next + 1)
  }

  /** The producer adds a beat. */
  function Added<D>(v: View<D>, b: Beat<D>): View<D> {
    v.(beats := v.beats + [b])
  }

  lemma TakeInside<D>(v: View<D>, copy: bool)
    requires ViewInv(v) && v.vld && !v.dout.last
    ensures ViewInv(Took(v, copy))
  {
    assert v.beats[v.start..v.next - 1] + [v.beats[v.next - 1]] == v.beats[v.start..v.next];
    assert v.delivered + [v.dout]
         == Output(v.beats, v.decisions)
            + (v.beats[v.start..v.next - 1] + [v.beats[v.next - 1]]);
  }

  lemma TakeLast<D>(v: View<D>, copy: bool)
    requires ViewInv(v) && v.vld && v.dout.last
    ensures ViewInv(Took(v, copy))
  {
    EndIsHere(v.beats, v.start, v.next);
    OneMore(v.beats, v.decisions, copy);
    assert (v.decisions + [copy])[..|v.decisions|] == v.decisions;
    assert v.beats[v.start..v.next - 1] + [v.beats[v.next - 1]] == v.beats[v.start..v.next];
    assert v.delivered + [v.dout]
         == Output(v.beats, v.decisions)
            + (v.beats[v.start..v.next - 1] + [v.beats[v.next - 1]]);
    assert forall start :: 0 <= start <= |v.beats| ==> v.beats[start..start] == [];
  }

  lemma FetchKeeps<D>(v: View<D>)
    requires ViewInv(v) && !v.vld && v.next < |v.beats|
    ensures ViewInv(Fetched(v))
  {
  }

  lemma MoreKeeps<D>(v: View<D>, b: Beat<D>)
    requires ViewInv(v)
    ensures ViewInv(Added(v, b))
  {
    OutputAfterMore(v.beats, b, v.decisions);
    assert (v.beats + [b])[v.start..Taken(v)] == v.beats[v.start..Taken(v)];
  }

  /** A clock is a take of the beat that is out, a fetch, and one more beat, each if it happens. */
  function Sequential<D>(v: View<D>, c: Clock<D>, fetch: bool, accepts: bool): View<D>
    requires fetch ==> var u := if v.vld && c.rdy then Took(v, c.copy) else v; u.next < |u.beats|
  {
    var u := if v.vld && c.rdy then Took(v, c.copy) else v;
    var w := if fetch then Fetched(u) else u;
    if accepts then Added(w, c.beat) else w
  }

  lemma ClockIsSequential<D>(depth: nat, r: Run<D>, c: Clock<D>)
    requires Inv(depth, r)
    ensures var v, fetch := ViewOf(r), Reads(r.regs, c);
      && (fetch ==> var u := if v.vld && c.rdy then Took(v, c.copy) else v; !u.vld && u.next < |u.beats|)
      && ViewOf(Observe(depth, r, c)) == Sequential(v, c, fetch, Accepts(depth, r.regs, c))
  {
    ReadMoves(depth, r, c);
  }

  lemma SequentialKeeps<D>(v: View<D>, c: Clock<D>, fetch: bool, accepts: bool)
    requires ViewInv(v)
    requires fetch ==> var u := if v.vld && c.rdy then Took(v, c.copy) else v; !u.vld && u.next < |u.beats|
    ensures ViewInv(Sequential(v, c, fetch, accepts))
  {
    var u := if v.vld && c.rdy then Took(v, c.copy) else v;
    if v.vld && c.rdy {
      if v.dout.last { TakeLast(v, c.copy); } else { TakeInside(v, c.copy); }
    }
    var w := if fetch then Fetched(u) else u;
    if fetch { FetchKeeps(u); }
    if accepts { MoreKeeps(w, c.beat); }
  }

  lemma StepKeepsInv<D>(depth: nat, r: Run<D>, c: Clock<D>)
    requires Inv(depth, r)
    ensures Inv(depth, Observe(depth, r, c))
  {
    KeepsPointers(depth, r, c);
    KeepsMemory(depth, r, c);
    ClockIsSequential(depth, r, c);
    SequentialKeeps(ViewOf(r), c, Reads(r.regs, c), Accepts(depth, r.regs, c));
  }

  // ----- main results

  ghost function Steps<D>(depth: nat, mem: seq<Beat<D>>, dout: Beat<D>, cs: seq<Clock<D>>): (r: Run<D>)
    requires 1 < depth && |mem| == depth + 1
    ensures Shape(depth, r.regs)
    decreases |cs|
  {
    if cs == [] then Run(Regs(mem, 0, 0, 0, dout, false), [], [], [], 0, 0)
    else Observe(depth, Steps(depth, mem, dout, cs[..|cs| - 1]), cs[|cs| - 1])
  }

  /**
   In every run the consumer gets the accepted frames in order, each once for every decision about it,
   followed by the part of the current frame that it has already taken; and all beats of the
   current frame are still in the memory.
   */
  lemma {:induction false} ReplaysFrames<D>(depth: nat, mem: seq<Beat<D>>, dout: Beat<D>, cs: seq<Clock<D>>)
    requires 1 < depth && |mem| == depth + 1
    ensures var r := Steps(depth, mem, dout, cs);
      && r.start == Start(r.accepted, r.decisions) <= Taken(ViewOf(r)) <= |r.accepted|
      && r.delivered == Output(r.accepted, r.decisions) + r.accepted[r.start..Taken(ViewOf(r))]
      && Inv(depth, r)
    decreases |cs|
  {
    if cs != [] {
      ReplaysFrames(depth, mem, dout, cs[..|cs| - 1]);
      StepKeepsInv(depth, Steps(depth, mem, dout, cs[..|cs| - 1]), cs[|cs| - 1]);
    }
  }

  /**
   A beat is refused exactly if the memory keeps depth - 1 beats from the start of the current frame on; and after a
   clock a beat is offered exactly if one that was accepted before it is still to be delivered.
   */
  lemma PortsAreExact<D>(depth: nat, mem: seq<Beat<D>>, dout: Beat<D>, cs: seq<Clock<D>>, c: Clock<D>)
    requires 1 < depth && |mem| == depth + 1
    ensures var r := Steps(depth, mem, dout, cs);
      var t := Observe(depth, r, c);
      && (Accepts(depth, r.regs, c) <==>
            c.vld && |r.accepted| - Start(r.accepted, r.decisions) < depth - 1)
      && (t.regs.outVld <==> Taken(ViewOf(t)) < |r.accepted|)
  {
    ReplaysFrames(depth, mem, dout, cs);
    PointerTests(depth, Steps(depth, mem, dout, cs));
    ReadMoves(depth, Steps(depth, mem, dout, cs), c);
  }

  function Repeat<T>(frame: seq<T>, n: nat): seq<T> {
    if n == 0 then [] else Repeat(frame, n - 1) + frame
  }

  lemma OneMore<D>(beats: seq<Beat<D>>, ds: seq<bool>, d: bool)
    ensures var s := Start(beats, ds);
      && Output(beats, ds + [d]) == Output(beats, ds) + beats[s..End(beats, s)]
      && Start(beats, ds + [d]) == if d then s else End(beats, s)
  {
    assert (ds + [d])[..|ds|] == ds;
  }

  /** Some decisions, and n copy decisions after them. */
  function AndCopies(before: seq<bool>, n: nat): (ds: seq<bool>) {
    if n == 0 then before else AndCopies(before, n - 1) + [true]
  }

  /** The frame that follows the given decisions. */
  function FrameAfter<D>(beats: seq<Beat<D>>, before: seq<bool>): seq<Beat<D>> {
    beats[Start(beats, before)..End(beats, Start(beats, before))]
  }

  lemma Assoc<T>(a: seq<T>, b: seq<T>, c: seq<T>)
    ensures a + b + c == a + (b + c)
  {
  }

  /** n copy decisions and then none: the frame appears n + 1 times, and the next frame follows. */
  lemma FrameAppears<D>(beats: seq<Beat<D>>, before: seq<bool>, n: nat)
    ensures Output(beats, AndCopies(before, n) + [false])
         == Output(beats, before) + Repeat(FrameAfter(beats, before), n + 1)
    ensures Start(beats, AndCopies(before, n) + [false]) == End(beats, Start(beats, before))
  {
    CopiesAppear(beats, before, n);
    OneMore(beats, AndCopies(before, n), false);
    Assoc(Output(beats, before), Repeat(FrameAfter(beats, before), n), FrameAfter(beats, before));
  }

  lemma {:induction false} CopiesAppear<D>(beats: seq<Beat<D>>, before: seq<bool>, n: nat)
    ensures Output(beats, AndCopies(before, n)) == Output(beats, before) + Repeat(FrameAfter(beats, before), n)
    ensures Start(beats, AndCopies(before, n)) == Start(beats, before)
  {
    if n > 0 {
      CopiesAppear(beats, before, n - 1);
      OneMore(beats, AndCopies(before, n - 1), true);
      Assoc(Output(beats, before), Repeat(FrameAfter(beats, before), n - 1), FrameAfter(beats, before));
    }
  }

  // ----- the component

  class Fifo<D> {
    const depth: nat
    const mem: array<Beat<D>>
    var wrPtr: nat
    var rdPtr: nat
    var rdPtrTmp: nat
    var dout: Beat<D>
    var outVld: bool

    ghost function State(): Regs<D>
      reads this, mem
    {
      Regs(mem[..], wrPtr, rdPtr, rdPtrTmp, dout, outVld)
    }

    constructor (depth: nat, mem: array<Beat<D>>, dout: Beat<D>)
      requires 1 < depth && mem.Length == depth + 1
      ensures this.depth == depth && this.mem == mem
      ensures State() == Steps(depth, mem[..], dout, []).regs
    {
      this.depth, this.mem, this.dout := depth, mem, dout;
      wrPtr, rdPtr, rdPtrTmp, outVld := 0, 0, 0, false;
    }

    /** One clock edge; `ready` is the answer to the producer. */
    method Clk(c: Clock<D>) returns (ready: bool)
      requires Shape(depth, State())
      modifies this, mem
      ensures ready ==> c.vld ==> Accepts(depth, old(State()), c)
      ensures !ready ==> !Accepts(depth, old(State()), c)
      ensures State() == Step(depth, old(State()), c)
    {
      var wrPtrNext := if wrPtr == depth - 1 then 0 else wrPtr + 1;
      ready := wrPtrNext != rdPtr;
      var frameVld := outVld && dout.last && c.rdy;
      var copy := frameVld && c.copy;
      var wait := !copy && wrPtr == rdPtrTmp;
      var fifoRead := (c.rdy || !outVld) && !wait && (wrPtr != rdPtrTmp || copy);
      if c.rdy || !outVld { outVld := !wait; }
      var addr := if copy then rdPtr else rdPtrTmp;
      if frameVld && !c.copy { rdPtr := rdPtrTmp; }
      if fifoRead {
        dout := mem[addr];
        rdPtrTmp := if addr == depth - 1 then 0 else addr + 1;
      }
      if c.vld && ready {
        mem[wrPtr] := c.beat;
        wrPtr := wrPtrNext;
      }
      assert mem[..] == if c.vld && ready then old(mem[..])[old(wrPtr) := c.beat] else old(mem[..]);
    }
  }
}
