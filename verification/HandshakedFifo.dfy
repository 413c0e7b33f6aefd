/**
 The single-clock FIFO memory with read and write pointers and a `looped` flag, and the handshaked
 FIFO around it, which adds the output register of the memory as one more place.
 */
module HandshakedFifo {
  import opened Arithmetic
  import opened Queues

  /** `depth` places in the memory; the output register is `out`, valid if `outVld`. */
  datatype Regs<T> = Regs(mem: seq<T>, wr: nat, rd: nat, looped: bool, size: nat, space: nat, out: T, outVld: bool)

  ghost predicate Shape<T>(depth: nat, s: Regs<T>) {
    0 < depth == |s.mem| && s.wr < depth && s.rd < depth
  }

  predicate WriteWait<T>(s: Regs<T>) {
    s.wr == s.rd && s.looped
  }

  predicate ReadWait<T>(s: Regs<T>) {
    s.wr == s.rd && !s.looped
  }

  /** One clock: `vld` and `data` from the producer, `rdy` from the consumer. */
  function Step<T>(depth: nat, s: Regs<T>, vld: bool, data: T, rdy: bool): (t: Regs<T>)
    requires Shape(depth, s)
    ensures Shape(depth, t)
  {
    var writeEn := vld && !WriteWait(s);
    var readEn := (rdy || !s.outVld) && !ReadWait(s);
    var fifoWrite := writeEn && (!s.looped || s.wr != s.rd);
    var fifoRead := readEn && (s.looped || s.wr != s.rd);
    Regs(if fifoWrite then s.mem[s.wr := data] else s.mem,
         if fifoWrite then Wrap(s.wr, depth) else s.wr,
         if fifoRead then Wrap(s.rd, depth) else s.rd,
         if writeEn && s.wr == depth - 1 then true else if readEn && s.rd == depth - 1 then false else s.looped,
         if fifoRead && !fifoWrite && s.size > 0 then s.size - 1
         else if !fifoRead && fifoWrite then s.size + 1 else s.size,
         if fifoRead && !fifoWrite then s.space + 1
         else if !fifoRead && fifoWrite && s.space > 0 then s.space - 1 else s.space,
         if fifoRead then s.mem[s.rd] else s.out,
         if rdy || !s.outVld then !ReadWait(s) else s.outVld)
  }

  // ----- the queue it implements

  /** The words in the memory, the oldest first. */
  function Stored<T>(s: Regs<T>): (q: seq<T>)
    requires Pointers(s)
  {
    if s.looped then s.mem[s.rd..] + s.mem[..s.wr] else s.mem[s.rd..s.wr]
  }

  ghost predicate Inv<T>(depth: nat, s: Regs<T>) {
    && Shape(depth, s) && Pointers(s)
    && s.size == |Stored(s)| && s.space == depth - |Stored(s)|
  }

  function Queue<T>(s: Regs<T>): (q: seq<T>)
    requires Pointers(s)
  {
    (if s.outVld then [s.out] else []) + Stored(s)
  }

  /** The ready and valid signals the component shows before a clock. */
  predicate Ready<T>(s: Regs<T>) { !WriteWait(s) }

  predicate Valid<T>(s: Regs<T>) { s.outVld }

  /** The wait signals are exact: full and empty, of the memory. */
  lemma WaitsAreExact<T>(depth: nat, s: Regs<T>)
    requires Inv(depth, s)
    ensures WriteWait(s) <==> |Stored(s)| == depth
    ensures ReadWait(s) <==> Stored(s) == []
  {
  }

  ghost predicate Pointers<T>(s: Regs<T>) {
    Shape(|s.mem|, s) && if s.looped then s.wr <= s.rd else s.rd <= s.wr
  }

  /** The write side of a clock alone. */
  function Written<T>(s: Regs<T>, data: T): Regs<T>
    requires Pointers(s)
  {
    s.(mem := s.mem[s.wr := data], wr := Wrap(s.wr, |s.mem|), looped := s.looped || s.wr == |s.mem| - 1)
  }

  /** The read side of a clock alone. */
  function Fetched<T>(s: Regs<T>): Regs<T>
    requires Pointers(s)
  {
    s.(rd := Wrap(s.rd, |s.mem|), looped := s.looped && s.rd != |s.mem| - 1)
  }

  lemma WriteHalf<T>(s: Regs<T>, data: T)
    requires Pointers(s) && !WriteWait(s)
    ensures Pointers(Written(s, data)) && Stored(Written(s, data)) == Stored(s) + [data]
  {
  }

  lemma ReadHalf<T>(s: Regs<T>)
    requires Pointers(s) && !ReadWait(s)
    ensures Pointers(Fetched(s)) && Stored(s) == [s.mem[s.rd]] + Stored(Fetched(s))
  {
  }

  /** Both sides of a clock, whatever their order, are independent of each other. */
  lemma Halves<T>(depth: nat, s: Regs<T>, vld: bool, data: T, rdy: bool)
    requires Inv(depth, s)
    ensures var t := Step(depth, s, vld, data, rdy);
      var accept, fetch := vld && !WriteWait(s), (rdy || !s.outVld) && !ReadWait(s);
      var mid := if fetch then Fetched(s) else s;
      && Pointers(mid) && (accept ==> !WriteWait(mid))
      && var both := if accept then Written(mid, data) else mid;
         t.mem == both.mem && t.wr == both.wr && t.rd == both.rd && t.looped == both.looped
  {
    if !ReadWait(s) { ReadHalf(s); }
  }

  /** What a clock does to the words in the memory. */
  lemma StoredStep<T>(depth: nat, s: Regs<T>, vld: bool, data: T, rdy: bool)
    requires Inv(depth, s)
    ensures var t := Step(depth, s, vld, data, rdy);
      var fetch := (rdy || !s.outVld) && Stored(s) != [];
      && Inv(depth, t)
      && Stored(t) == (if fetch then Stored(s)[1..] else Stored(s)) + (if vld && Ready(s) then [data] else [])
      && (fetch ==> t.out == Stored(s)[0])
      && t.outVld == (if rdy || !s.outVld then Stored(s) != [] else true)
  {
    WaitsAreExact(depth, s);
    Halves(depth, s, vld, data, rdy);
    var fetch := (rdy || !s.outVld) && !ReadWait(s);
    if fetch { ReadHalf(s); }
    var mid := if fetch then Fetched(s) else s;
    if vld && Ready(s) { WriteHalf(mid, data); }
    var both := if vld && Ready(s) then Written(mid, data) else mid;
    var t := Step(depth, s, vld, data, rdy);
    assert Stored(t) == Stored(both);
  }

  function Whole<T>(vld: bool, out: T, q: seq<T>): seq<T> {
    (if vld then [out] else []) + q
  }

  lemma WholeStep<T>(v: bool, o: T, q: seq<T>, v': bool, o': T, q': seq<T>, rdy: bool, more: seq<T>)
    requires var fetch := (rdy || !v) && q != [];
      && q' == (if fetch then q[1..] else q) + more
      && (fetch ==> o' == q[0]) && (v && !rdy ==> o' == o)
      && v' == (if rdy || !v then q != [] else true)
    ensures Whole(v', o', q') == (if v && rdy then Whole(v, o, q)[1..] else Whole(v, o, q)) + more
  {
    if v && !rdy {
      assert Whole(v', o', q') == [o] + (q + more) == ([o] + q) + more;
    } else if q != [] {
      assert Whole(v', o', q') == [q[0]] + (q[1..] + more) == q + more;
      assert v ==> Whole(v, o, q)[1..] == q;
    } else {
      assert v ==> Whole(v, o, q)[1..] == q;
    }
  }

  /**
   Every clock is one of a bounded queue: the word shown is its head and leaves it if taken, an
   accepted word joins its end; nothing else happens to it.
   */
  lemma QueueStep<T>(depth: nat, s: Regs<T>, vld: bool, data: T, rdy: bool)
    requires Inv(depth, s)
    ensures var t := Step(depth, s, vld, data, rdy);
      && Inv(depth, t)
      && Queue(t) == (if Valid(s) && rdy then Queue(s)[1..] else Queue(s)) + (if vld && Ready(s) then [data] else [])
  {
    StoredStep(depth, s, vld, data, rdy);
    var t := Step(depth, s, vld, data, rdy);
    WholeStep(s.outVld, s.out, Stored(s), t.outVld, t.out, Stored(t), rdy, if vld && Ready(s) then [data] else []);
  }

  // ----- runs

  datatype Clock<T> = Clock(vld: bool, data: T, rdy: bool)

  /** The words accepted and the words delivered so far. */
  datatype Run<T> = Run(regs: Regs<T>, accepted: seq<T>, delivered: seq<T>)

  function Reset<T>(mem: seq<T>, out: T): Regs<T> {
    Regs(mem, 0, 0, false, 0, |mem|, out, false)
  }

  ghost function Next<T>(depth: nat, r: Run<T>, c: Clock<T>): (t: Run<T>)
    requires Shape(depth, r.regs)
    ensures Shape(depth, t.regs)
  {
    Run(Step(depth, r.regs, c.vld, c.data, c.rdy),
        r.accepted + if c.vld && Ready(r.regs) then [c.data] else [],
        r.delivered + if Valid(r.regs) && c.rdy then [r.regs.out] else [])
  }

  ghost function Steps<T>(mem: seq<T>, out: T, cs: seq<Clock<T>>): (r: Run<T>)
    requires mem != []
    ensures Shape(|mem|, r.regs)
    decreases |cs|
  {
    if cs == [] then Run(Reset(mem, out), [], []) else Next(|mem|, Steps(mem, out, cs[..|cs| - 1]), cs[|cs| - 1])
  }

  /** What was accepted is what was delivered followed by what is queued. */
  ghost predicate RunInv<T>(depth: nat, r: Run<T>) {
    Inv(depth, r.regs) && r.accepted == r.delivered + Queue(r.regs)
  }

  lemma NextKeeps<T>(depth: nat, r: Run<T>, c: Clock<T>)
    requires RunInv(depth, r)
    ensures RunInv(depth, Next(depth, r, c))
  {
    QueueStep(depth, r.regs, c.vld, c.data, c.rdy);
    Conserve(r.accepted, r.delivered, Queue(r.regs), r.regs.out, Valid(r.regs) && c.rdy,
             if c.vld && Ready(r.regs) then [c.data] else []);
  }

  /** In every run nothing is lost, duplicated or reordered. */
  lemma {:induction false} IsQueue<T>(mem: seq<T>, out: T, cs: seq<Clock<T>>)
    requires mem != []
    ensures RunInv(|mem|, Steps(mem, out, cs))
    decreases |cs|
  {
    if cs != [] {
      IsQueue(mem, out, cs[..|cs| - 1]);
      NextKeeps(|mem|, Steps(mem, out, cs[..|cs| - 1]), cs[|cs| - 1]);
    }
  }

  /** The word shown is the first one accepted that was not delivered yet. */
  lemma ShowsNext<T>(depth: nat, r: Run<T>)
    requires RunInv(depth, r) && Valid(r.regs)
    ensures |r.delivered| < |r.accepted| && r.regs.out == r.accepted[|r.delivered|]
  {
    assert Queue(r.regs)[0] == r.regs.out;
  }

  /**
   The queue is bounded and exact: the producer is stopped exactly when the memory is full, so one place
   less than DEPTH may be taken only while the output register is empty; `size` and
   `space` count the queue and its free places.
   */
  lemma QueueIsBounded<T>(depth: nat, s: Regs<T>)
    requires Inv(depth, s)
    ensures |Queue(s)| <= depth + 1
    ensures !Ready(s) <==> |Queue(s)| == depth + 1 || (|Queue(s)| == depth && !s.outVld)
    ensures Size(s) == |Queue(s)| && Size(s) + Space(s) == depth + 1
  {
    WaitsAreExact(depth, s);
  }

  /** `size` and `space` of the component. */
  function Size<T>(s: Regs<T>): nat {
    if s.outVld then s.size + 1 else s.size
  }

  function Space<T>(s: Regs<T>): nat {
    if s.outVld then s.space else s.space + 1
  }

  class Fifo<T> {
    const mem: array<T>
    var writePtr: nat
    var readPtr: nat
    var looped: bool
    var sizeReg: nat
    var spaceReg: nat
    var dout: T
    var outVld: bool

    ghost function State(): Regs<T>
      reads this, mem
    {
      Regs(mem[..], writePtr, readPtr, looped, sizeReg, spaceReg, dout, outVld)
    }

    constructor (mem: array<T>, dout: T)
      requires mem.Length > 0
      ensures this.mem == mem && State() == Reset(mem[..], dout)
    {
      this.mem, this.dout := mem, dout;
      writePtr, readPtr, looped, sizeReg, spaceReg, outVld := 0, 0, false, 0, mem.Length, false;
    }

    /** One clock edge; `ready` and `valid` are the handshake signals before it. */
    method Clk(vld: bool, data: T, rdy: bool) returns (ready: bool, valid: bool)
      requires Shape(mem.Length, State())
      modifies this, mem
      ensures ready == Ready(old(State())) && valid == old(outVld)
      ensures State() == Step(mem.Length, old(State()), vld, data, rdy)
    {
      ready, valid := !(writePtr == readPtr && looped), outVld;
      var readWait := writePtr == readPtr && !looped;
      var writeEn, readEn := vld && ready, (rdy || !outVld) && !readWait;
      var fifoWrite := writeEn && (!looped || writePtr != readPtr);
      var fifoRead := readEn && (looped || writePtr != readPtr);
      var loopedNext := NextLooped(writeEn, readEn);
      if fifoRead { dout := mem[readPtr]; }
      if fifoWrite { mem[writePtr] := data; }
      assert mem[..] == if fifoWrite then old(mem[..])[writePtr := data] else old(mem[..]);
      MovePointers(fifoRead, fifoWrite);
      CountSizes(fifoRead, fifoWrite);
      looped := loopedNext;
      if rdy || !outVld { outVld := !readWait; }
    }

    /** The looped logic. */
    method NextLooped(writeEn: bool, readEn: bool) returns (l: bool)
      ensures l == if writeEn && writePtr == mem.Length - 1 then true
                   else if readEn && readPtr == mem.Length - 1 then false
                   else looped
    {
      l := looped;
      if writeEn && writePtr == mem.Length - 1 {
        l := true;
      } else if readEn && readPtr == mem.Length - 1 {
        l := false;
      }
    }

    method MovePointers(fifoRead: bool, fifoWrite: bool)
      requires writePtr < mem.Length && readPtr < mem.Length
      modifies this`writePtr, this`readPtr
      ensures writePtr == if fifoWrite then Wrap(old(writePtr), mem.Length) else old(writePtr)
      ensures readPtr == if fifoRead then Wrap(old(readPtr), mem.Length) else old(readPtr)
    {
      var max := mem.Length - 1;
      if fifoWrite {
        writePtr := if writePtr == max then 0 else writePtr + 1;
      }
      if fifoRead {
        readPtr := if readPtr == max then 0 else readPtr + 1;
      }
    }

    method CountSizes(fifoRead: bool, fifoWrite: bool)
      modifies this`sizeReg, this`spaceReg
      ensures sizeReg == if fifoRead && !fifoWrite && old(sizeReg) > 0 then old(sizeReg) - 1
                          else if !fifoRead && fifoWrite then old(sizeReg) + 1 else old(sizeReg)
      ensures spaceReg == if fifoRead && !fifoWrite then old(spaceReg) + 1
                           else if !fifoRead && fifoWrite && old(spaceReg) > 0 then old(spaceReg) - 1 else old(spaceReg)
    {
      if fifoRead {
        if !fifoWrite {
          sizeReg, spaceReg := if sizeReg > 0 then sizeReg - 1 else 0, spaceReg + 1;
        }
      } else if fifoWrite {
        sizeReg, spaceReg := sizeReg + 1, if spaceReg > 0 then spaceReg - 1 else 0;
      }
    }
  }
}
