/**
 The FIFO with speculative writes: words written since the last commit can be discarded, and the reader
 sees only committed ones.
 */
module FifoDrop {
  import opened Arithmetic
  import opened Queues

  /** `wr` and `looped` are what the reader sees, `wrTmp` and `loopedTmp` what the writer uses. */
  datatype Regs<T> = Regs(mem: seq<T>, wr: nat, wrTmp: nat, rd: nat, looped: bool, loopedTmp: bool,
                          size: nat, stashSize: nat, dout: T)

  datatype Inputs<T> = Inputs(en: bool, data: T, commit: bool, discard: bool, readEn: bool)

  predicate Shape<T>(s: Regs<T>) {
    s.mem != [] && s.wr < |s.mem| && s.wrTmp < |s.mem| && s.rd < |s.mem|
  }

  predicate WriteWait<T>(s: Regs<T>) { s.wrTmp == s.rd && s.loopedTmp }

  predicate ReadWait<T>(s: Regs<T>) { s.wr == s.rd && !s.looped }

  function Step<T>(s: Regs<T>, i: Inputs<T>): (t: Regs<T>)
    requires Shape(s)
    ensures Shape(t) && |t.mem| == |s.mem|
  {
    var depth := |s.mem|;
    var fifoRead := i.readEn && (s.looped || s.wr != s.rd);
    var fifoWrite := i.en && (!s.loopedTmp || s.wrTmp != s.rd);
    var wrTmp := if i.discard then s.wr else if fifoWrite then Wrap(s.wrTmp, depth) else s.wrTmp;
    var loopedTmp := if i.discard then s.looped
                     else if i.en && s.wrTmp == depth - 1 then true
                     else if i.readEn && s.rd == depth - 1 then false
                     else s.loopedTmp;
    var committed := fifoWrite && i.commit;
    Regs(if fifoWrite then s.mem[s.wrTmp := i.data] else s.mem,
         if !i.discard && committed then wrTmp else s.wr,
         wrTmp,
         if fifoRead then Wrap(s.rd, depth) else s.rd,
         if i.en && i.commit then loopedTmp else if i.readEn && s.rd == depth - 1 then false else s.looped,
         loopedTmp,
         if fifoRead then if committed then s.size + s.stashSize else if s.size > 0 then s.size - 1 else 0
         else if committed then s.size + s.stashSize + 1 else s.size,
         if i.discard then 0 else if fifoWrite then if i.commit then 0 else s.stashSize + 1 else s.stashSize,
         if fifoRead then s.mem[s.rd] else s.dout)
  }

  // ----- the two queues in the memory

  /** The words from `rd` up to `wr`, around the end of the memory if `looped`. */
  function Slice<T>(mem: seq<T>, rd: nat, wr: nat, looped: bool): (q: seq<T>)
    requires rd < |mem| && wr < |mem| && if looped then wr <= rd else rd <= wr
  {
    if looped then mem[rd..] + mem[..wr] else mem[rd..wr]
  }

  /** The committed words end where the uncommitted ones start, and both are behind the reader. */
  ghost predicate Pointers<T>(s: Regs<T>) {
    && Shape(s) && (s.looped ==> s.loopedTmp)
    && (if s.looped then s.wr <= s.rd else s.rd <= s.wr)
    && (if s.loopedTmp then s.wrTmp <= s.rd else s.rd <= s.wrTmp)
    && (s.looped == s.loopedTmp ==> s.wr <= s.wrTmp)
  }

  function Committed<T>(s: Regs<T>): (q: seq<T>)
    requires Pointers(s)
  {
    Slice(s.mem, s.rd, s.wr, s.looped)
  }

  function All<T>(s: Regs<T>): (q: seq<T>)
    requires Pointers(s)
  {
    Slice(s.mem, s.rd, s.wrTmp, s.loopedTmp)
  }

  function Uncommitted<T>(s: Regs<T>): (q: seq<T>)
    requires Pointers(s)
  {
    CommittedIsPrefix(s);
    All(s)[|Committed(s)|..]
  }

  lemma CommittedIsPrefix<T>(s: Regs<T>)
    requires Pointers(s)
    ensures Committed(s) <= All(s)
  {
  }

  ghost predicate Inv<T>(s: Regs<T>) {
    && Pointers(s)
    && s.size == |Committed(s)| && s.stashSize == |All(s)| - |Committed(s)|
  }

  /** What the two ports have to respect: no access while they show `wait`, and one verdict at a time. */
  predicate Allowed<T>(s: Regs<T>, i: Inputs<T>) {
    && (i.en ==> !WriteWait(s)) && (i.readEn ==> !ReadWait(s))
    && !(i.commit && i.discard)
  }

  /** A discard in the clock in which the reader leaves the last slot while the committed words are looped. */
  predicate DiscardAtWrap<T>(s: Regs<T>, i: Inputs<T>) {
    i.discard && i.readEn && s.looped && s.rd == |s.mem| - 1
  }

  lemma WaitsAreExact<T>(s: Regs<T>)
    requires Inv(s)
    ensures WriteWait(s) <==> |All(s)| == |s.mem|
    ensures ReadWait(s) <==> Committed(s) == []
  {
  }

  // ----- the three actions of a clock

  function Fetched<T>(s: Regs<T>): Regs<T>
    requires Pointers(s)
  {
    var last := s.rd == |s.mem| - 1;
    s.(rd := Wrap(s.rd, |s.mem|), looped := s.looped && !last, loopedTmp := s.loopedTmp && !last)
  }

  function Written<T>(s: Regs<T>, data: T): Regs<T>
    requires Pointers(s)
  {
    s.(mem := s.mem[s.wrTmp := data], wrTmp := Wrap(s.wrTmp, |s.mem|),
       loopedTmp := s.loopedTmp || s.wrTmp == |s.mem| - 1)
  }

  lemma ReadHalf<T>(s: Regs<T>)
    requires Pointers(s) && !ReadWait(s)
    ensures Pointers(Fetched(s))
    ensures Committed(s) == [s.mem[s.rd]] + Committed(Fetched(s))
    ensures All(s) == [s.mem[s.rd]] + All(Fetched(s))
  {
  }

  lemma WriteHalf<T>(s: Regs<T>, data: T)
    requires Pointers(s) && !WriteWait(s)
    ensures Pointers(Written(s, data))
    ensures Committed(Written(s, data)) == Committed(s)
    ensures All(Written(s, data)) == All(s) + [data]
  {
  }

  /** The pointers of a clock, as a read followed by a write or a discard. */
  ghost function Sequential<T>(s: Regs<T>, i: Inputs<T>): Regs<T>
    requires Pointers(s) && Allowed(s, i)
    requires Pointers(if i.readEn then Fetched(s) else s)
  {
    var mid := if i.readEn then Fetched(s) else s;
    if i.discard then mid.(wrTmp := mid.wr, loopedTmp := mid.looped)
    else if i.en then
      var w := Written(mid, i.data);
      if i.commit then w.(wr := w.wrTmp, looped := w.loopedTmp) else w
    else mid
  }

  lemma StepIsSequential<T>(s: Regs<T>, i: Inputs<T>)
    requires Pointers(s) && Allowed(s, i) && !DiscardAtWrap(s, i)
    ensures Pointers(if i.readEn then Fetched(s) else s)
    ensures var t, q := Step(s, i), Sequential(s, i);
      && t.wr == q.wr && t.wrTmp == q.wrTmp && t.rd == q.rd && t.looped == q.looped && t.loopedTmp == q.loopedTmp
      && (i.discard || t.mem == q.mem)
  {
    if i.readEn { ReadHalf(s); }
  }

  /** The committed words, after the read: a discarded word is written outside them. */
  lemma DiscardedWordIsOutside<T>(s: Regs<T>, data: T)
    requires Pointers(s) && !WriteWait(s)
    ensures Committed(s.(mem := s.mem[s.wrTmp := data])) == Committed(s)
  {
  }

  function Drop<T>(q: seq<T>, take: bool): seq<T>
    requires take ==> q != []
  {
    if take then q[1..] else q
  }

  lemma MidState<T>(s: Regs<T>, i: Inputs<T>)
    requires Inv(s) && Allowed(s, i)
    ensures i.readEn ==> Committed(s) != [] && s.mem[s.rd] == Committed(s)[0]
    ensures var mid := if i.readEn then Fetched(s) else s;
      && Pointers(mid) && Committed(mid) == Drop(Committed(s), i.readEn) && Uncommitted(mid) == Uncommitted(s)
      && (i.en ==> !WriteWait(mid))
  {
    if i.readEn { ReadHalf(s); }
    CommittedIsPrefix(s);
  }

  lemma WrittenWord<T>(mid: Regs<T>, data: T)
    requires Pointers(mid) && !WriteWait(mid)
    ensures var w := Written(mid, data);
      && Pointers(w) && Committed(w) == Committed(mid) && Uncommitted(w) == Uncommitted(mid) + [data]
      && |All(w)| == |All(mid)| + 1
  {
    WriteHalf(mid, data);
    CommittedIsPrefix(mid);
  }

  lemma CommittedAll<T>(w: Regs<T>)
    requires Pointers(w)
    ensures var q := w.(wr := w.wrTmp, looped := w.loopedTmp);
      Pointers(q) && Committed(q) == All(q) == Committed(w) + Uncommitted(w) && Uncommitted(q) == []
  {
    CommittedIsPrefix(w);
  }

  lemma DiscardedAll<T>(mid: Regs<T>)
    requires Pointers(mid)
    ensures var q := mid.(wrTmp := mid.wr, loopedTmp := mid.looped);
      Pointers(q) && Committed(q) == All(q) == Committed(mid) && Uncommitted(q) == []
  {
  }

  /** The effect of a clock on the committed and the uncommitted words. */
  ghost predicate Behaves<T>(s: Regs<T>, i: Inputs<T>, t: Regs<T>)
    requires Pointers(s) && Pointers(t) && (i.readEn ==> Committed(s) != [])
  {
    var more := if i.en then [i.data] else [];
    && Committed(t) == Drop(Committed(s), i.readEn) + (if i.en && i.commit then Uncommitted(s) + more else [])
    && Uncommitted(t) == (if i.discard || (i.en && i.commit) then [] else Uncommitted(s) + more)
  }

  /** The write of a clock after its read, with or without a commit. */
  lemma WriteBehaves<T>(mid: Regs<T>, data: T)
    requires Pointers(mid) && !WriteWait(mid)
    ensures var w := Written(mid, data);
      var q := w.(wr := w.wrTmp, looped := w.loopedTmp);
      && Pointers(w) && Committed(w) == Committed(mid) && Uncommitted(w) == Uncommitted(mid) + [data]
      && Pointers(q) && Committed(q) == Committed(mid) + (Uncommitted(mid) + [data]) && Uncommitted(q) == []
  {
    WrittenWord(mid, data);
    CommittedAll(Written(mid, data));
  }

  lemma SequentialBehaves<T>(s: Regs<T>, i: Inputs<T>)
    requires Inv(s) && Allowed(s, i)
    ensures Pointers(if i.readEn then Fetched(s) else s) && (i.readEn ==> Committed(s) != [])
    ensures Pointers(Sequential(s, i)) && Behaves(s, i, Sequential(s, i))
  {
    MidState(s, i);
    var mid := if i.readEn then Fetched(s) else s;
    assert Committed(mid) + [] == Committed(mid) && Uncommitted(mid) + [] == Uncommitted(mid);
    if i.discard {
      DiscardedAll(mid);
    } else if i.en {
      WriteBehaves(mid, i.data);
    }
  }

  /** The registers of a clock hold the queues of the sequential one, also when a discarded word is written. */
  lemma StepQueues<T>(s: Regs<T>, i: Inputs<T>)
    requires Inv(s) && Allowed(s, i) && !DiscardAtWrap(s, i)
    ensures Pointers(if i.readEn then Fetched(s) else s)
    ensures Pointers(Step(s, i)) && Pointers(Sequential(s, i))
    ensures Committed(Step(s, i)) == Committed(Sequential(s, i)) && All(Step(s, i)) == All(Sequential(s, i))
  {
    MidState(s, i);
    StepIsSequential(s, i);
    SequentialBehaves(s, i);
    if i.discard && i.en { DiscardedWordIsOutside(if i.readEn then Fetched(s) else s, i.data); }
  }

  lemma StepSizes<T>(s: Regs<T>, i: Inputs<T>)
    requires Inv(s) && Allowed(s, i) && !DiscardAtWrap(s, i)
    ensures (i.readEn ==> Committed(s) != []) && Inv(Step(s, i))
    ensures Behaves(s, i, Step(s, i)) && Step(s, i).dout == if i.readEn then Committed(s)[0] else s.dout
  {
    WaitsAreExact(s);
    MidState(s, i);
    StepQueues(s, i);
    SequentialBehaves(s, i);
    CommittedIsPrefix(s);
    CommittedIsPrefix(Step(s, i));
  }

  /** Every allowed clock is right exactly if it is not a discard at the wrap: then a stale flag is copied. */
  lemma StepIsRightExactly<T>(s: Regs<T>, i: Inputs<T>)
    requires Inv(s) && Allowed(s, i)
    ensures Inv(Step(s, i)) <==> !DiscardAtWrap(s, i)
    ensures !DiscardAtWrap(s, i) ==>
              (if i.readEn then Committed(s) != [] && Step(s, i).dout == Committed(s)[0] else Step(s, i).dout == s.dout)
              && Behaves(s, i, Step(s, i))
  {
    if DiscardAtWrap(s, i) {
      var t := Step(s, i);
      assert t.loopedTmp && !t.looped && t.rd == 0 && t.wrTmp == t.wr == s.wr;
    } else {
      StepSizes(s, i);
    }
  }

  // ----- runs

  /**
   What the ports have seen: the words committed so far, those written since the last verdict, and the
   words delivered. The first two are kept by the rules of the interface alone.
   */
  datatype Run<T> = Run(regs: Regs<T>, kept: seq<T>, pending: seq<T>, delivered: seq<T>)

  function Observe<T>(r: Run<T>, i: Inputs<T>): (t: Run<T>)
    requires Shape(r.regs)
    ensures Shape(t.regs)
  {
    var regs := Step(r.regs, i);
    var more := if i.en then [i.data] else [];
    Run(regs,
        if i.en && i.commit then r.kept + (r.pending + more) else r.kept,
        if i.discard || (i.en && i.commit) then [] else r.pending + more,
        if i.readEn then r.delivered + [regs.dout] else r.delivered)
  }

  ghost function Steps<T>(mem: seq<T>, dout: T, ins: seq<Inputs<T>>): (r: Run<T>)
    requires mem != []
    ensures Shape(r.regs)
    decreases |ins|
  {
    if ins == [] then Run(Regs(mem, 0, 0, 0, false, false, 0, 0, dout), [], [], [])
    else Observe(Steps(mem, dout, ins[..|ins| - 1]), ins[|ins| - 1])
  }

  /** Every clock of the run respects the ports and is no discard at the wrap. */
  ghost predicate Good<T>(mem: seq<T>, dout: T, ins: seq<Inputs<T>>)
    requires mem != []
    decreases |ins|
  {
    ins == [] ||
      var before, i := ins[..|ins| - 1], ins[|ins| - 1];
      var s := Steps(mem, dout, before).regs;
      Good(mem, dout, before) && Allowed(s, i) && !DiscardAtWrap(s, i)
  }

  ghost predicate RunInv<T>(r: Run<T>) {
    Inv(r.regs) && r.kept == r.delivered + Committed(r.regs) && r.pending == Uncommitted(r.regs) && ShowsLast(r)
  }

  /** The word that was read last stays on the output. */
  ghost predicate ShowsLast<T>(r: Run<T>) {
    r.delivered != [] ==> r.regs.dout == r.delivered[|r.delivered| - 1]
  }

  lemma StillShowsLast<T>(r: Run<T>, i: Inputs<T>)
    requires Shape(r.regs) && ShowsLast(r) && (i.readEn ==> !ReadWait(r.regs))
    ensures ShowsLast(Observe(r, i))
  {
  }

  lemma ObserveKeeps<T>(r: Run<T>, i: Inputs<T>)
    requires RunInv(r) && Allowed(r.regs, i) && !DiscardAtWrap(r.regs, i)
    ensures RunInv(Observe(r, i))
  {
    StillShowsLast(r, i);
    StepSizes(r.regs, i);
    KeptKeeps(r.kept, r.delivered, Committed(r.regs), r.pending, Step(r.regs, i).dout, i);
  }

  lemma KeptKeeps<T>(kept: seq<T>, delivered: seq<T>, q: seq<T>, pending: seq<T>, out: T, i: Inputs<T>)
    requires kept == delivered + q && (i.readEn ==> q != [] && out == q[0])
    ensures var more := if i.en && i.commit then pending + [i.data] else [];
      kept + more == (if i.readEn then delivered + [out] else delivered) + (Drop(q, i.readEn) + more)
    ensures kept + [] == kept && pending + [] == pending
  {
    Conserve(kept, delivered, q, out, i.readEn, if i.en && i.commit then pending + [i.data] else []);
  }

  /**
   The reader gets exactly the committed chunks, in order, never a discarded or a pending word; and `size` is
   the number of stored words, committed or not.
   */
  lemma {:induction false} ReaderGetsCommittedChunks<T>(mem: seq<T>, dout: T, ins: seq<Inputs<T>>)
    requires mem != [] && Good(mem, dout, ins)
    ensures var r := Steps(mem, dout, ins);
      && RunInv(r)
      && r.delivered <= r.kept
      && r.regs.size + r.regs.stashSize == (|r.kept| - |r.delivered|) + |r.pending| == |All(r.regs)| <= |mem|
    decreases |ins|
  {
    if ins != [] {
      ReaderGetsCommittedChunks(mem, dout, ins[..|ins| - 1]);
      ObserveKeeps(Steps(mem, dout, ins[..|ins| - 1]), ins[|ins| - 1]);
    }
    var r := Steps(mem, dout, ins);
    MemoryKeepsSize(mem, dout, ins);
    CommittedIsPrefix(r.regs);
  }

  lemma {:induction false} MemoryKeepsSize<T>(mem: seq<T>, dout: T, ins: seq<Inputs<T>>)
    requires mem != []
    ensures |Steps(mem, dout, ins).regs.mem| == |mem|
    decreases |ins|
  {
    if ins != [] { MemoryKeepsSize(mem, dout, ins[..|ins| - 1]); }
  }

  // ----- an example of a discard at the wrap

  function WriteAndCommit<T>(data: T): Inputs<T> {
    Inputs(true, data, true, false, false)
  }

  /** A read; `data` is not looked at. */
  function Read<T>(data: T, discard: bool): Inputs<T> {
    Inputs(false, data, false, discard, true)
  }

  lemma OneMore<T>(mem: seq<T>, dout: T, ins: seq<Inputs<T>>, i: Inputs<T>)
    requires mem != []
    ensures Steps(mem, dout, ins + [i]) == Observe(Steps(mem, dout, ins), i)
    ensures var s := Steps(mem, dout, ins).regs;
      Good(mem, dout, ins) && Allowed(s, i) && !DiscardAtWrap(s, i) ==> Good(mem, dout, ins + [i])
  {
    assert (ins + [i])[..|ins|] == ins;
  }

  /** Two words fill both slots, and the first one is read. */
  lemma FilledAndRead<T>(x: T, y: T, dout: T, a: T, b: T)
    ensures var ins := [WriteAndCommit(a)] + [WriteAndCommit(b)] + [Read(a, false)];
      && Good([x, y], dout, ins)
      && Steps([x, y], dout, ins) == Run(Regs([a, b], 0, 0, 1, true, true, 1, 0, a), [a, b], [], [a])
  {
    var w, v, mem := WriteAndCommit(a), WriteAndCommit(b), [x, y];
    OneMore(mem, dout, [], w);
    assert [] + [w] == [w];
    assert Steps(mem, dout, [w]) == Run(Regs([a, y], 1, 1, 0, false, false, 1, 0, dout), [a], [], []);
    OneMore(mem, dout, [w], v);
    assert Steps(mem, dout, [w] + [v]) == Run(Regs([a, b], 0, 0, 0, true, true, 2, 0, dout), [a, b], [], []);
    OneMore(mem, dout, [w] + [v], Read(a, false));
  }

  /**
   A run with two slots: two words are committed, the first one is read, and with the read of the second one comes a
   discard, of nothing. All committed words have been delivered, but the FIFO is full and refuses words for good.
   */
  lemma DiscardAtWrapFills<T>(x: T, y: T, dout: T, a: T, b: T)
    ensures var mem, before := [x, y], [WriteAndCommit(a)] + [WriteAndCommit(b)] + [Read(a, false)];
      && Good(mem, dout, before)
      && Allowed(Steps(mem, dout, before).regs, Read(a, true))
      && DiscardAtWrap(Steps(mem, dout, before).regs, Read(a, true))
      && var r := Steps(mem, dout, before + [Read(a, true)]);
         && r.kept == r.delivered == [a, b] && r.pending == []
         && WriteWait(r.regs) && ReadWait(r.regs)
  {
    FilledAndRead(x, y, dout, a, b);
    OneMore([x, y], dout, [WriteAndCommit(a)] + [WriteAndCommit(b)] + [Read(a, false)], Read(a, true));
  }

  // ----- the component

  /** The registers and the memory of the component. */
  class Fifo<T> {
    const mem: array<T>
    var wrPtr: nat
    var wrPtrTmp: nat
    var rdPtr: nat
    var looped: bool
    var loopedTmp: bool
    var sizeReg: nat
    var stashSizeReg: nat
    var dout: T

    ghost function State(): Regs<T>
      reads this, mem
    {
      Regs(mem[..], wrPtr, wrPtrTmp, rdPtr, looped, loopedTmp, sizeReg, stashSizeReg, dout)
    }

    constructor (mem: array<T>, dout: T)
      requires mem.Length > 0
      ensures this.mem == mem && State() == Steps(mem[..], dout, []).regs
    {
      this.mem, this.dout := mem, dout;
      wrPtr, wrPtrTmp, rdPtr, looped, loopedTmp, sizeReg, stashSizeReg := 0, 0, 0, false, false, 0, 0;
    }

    /** One clock edge. */
    method Clk(i: Inputs<T>)
      requires Shape(State())
      modifies this, mem
      ensures State() == Step(old(State()), i)
    {
      var fifoRead := i.readEn && (looped || wrPtr != rdPtr);
      var fifoWrite := i.en && (!loopedTmp || wrPtrTmp != rdPtr);
      var loopedNext, loopedTmpNext := NextFlags(i);
      CountSizes(i.commit, i.discard, fifoRead, fifoWrite);
      if fifoRead { dout := mem[rdPtr]; }
      if fifoWrite { mem[wrPtrTmp] := i.data; }
      assert mem[..] == if fifoWrite then old(mem[..])[wrPtrTmp := i.data] else old(mem[..]);
      MovePointers(i, fifoRead, fifoWrite);
      looped, loopedTmp := loopedNext, loopedTmpNext;
    }

    /** The looped logic. */
    method NextFlags(i: Inputs<T>) returns (l: bool, tmp: bool)
      ensures tmp == if i.discard then looped
                     else if i.en && wrPtrTmp == mem.Length - 1 then true
                     else if i.readEn && rdPtr == mem.Length - 1 then false
                     else loopedTmp
      ensures l == if i.en && i.commit then tmp else if i.readEn && rdPtr == mem.Length - 1 then false else looped
    {
      var max := mem.Length - 1;
      l, tmp := looped, loopedTmp;
      if i.discard {
        tmp := looped;
      } else if i.en && wrPtrTmp == max {
        tmp := true;
      } else if i.readEn && rdPtr == max {
        tmp := false;
      }
      if i.en && i.commit {
        l := tmp;
      } else if i.readEn && rdPtr == max {
        l := false;
      }
    }

    method MovePointers(i: Inputs<T>, fifoRead: bool, fifoWrite: bool)
      requires Shape(State())
      modifies this`wrPtr, this`wrPtrTmp, this`rdPtr
      ensures rdPtr == if fifoRead then Wrap(old(rdPtr), mem.Length) else old(rdPtr)
      ensures wrPtrTmp == if i.discard then old(wrPtr)
                          else if fifoWrite then Wrap(old(wrPtrTmp), mem.Length) else old(wrPtrTmp)
      ensures wrPtr == if !i.discard && fifoWrite && i.commit then wrPtrTmp else old(wrPtr)
    {
      var max := mem.Length - 1;
      if fifoRead {
        rdPtr := if rdPtr == max then 0 else rdPtr + 1;
      }
      if i.discard {
        wrPtrTmp := wrPtr;
      } else if fifoWrite {
        wrPtrTmp := if wrPtrTmp == max then 0 else wrPtrTmp + 1;
        if i.commit { wrPtr := wrPtrTmp; }
      }
    }

    method CountSizes(commit: bool, discard: bool, fifoRead: bool, fifoWrite: bool)
      modifies this`sizeReg, this`stashSizeReg
      ensures sizeReg == if fifoRead then if fifoWrite && commit then old(sizeReg + stashSizeReg)
                                            else if old(sizeReg) > 0 then old(sizeReg) - 1 else 0
                          else if fifoWrite && commit then old(sizeReg + stashSizeReg) + 1 else old(sizeReg)
      ensures stashSizeReg == if discard then 0
                              else if fifoWrite then if commit then 0 else old(stashSizeReg) + 1 else old(stashSizeReg)
    {
      if fifoRead {
        if fifoWrite && commit {
          sizeReg := sizeReg + stashSizeReg;
        } else if sizeReg > 0 {
          sizeReg := sizeReg - 1;
        }
      } else if fifoWrite && commit {
        sizeReg := sizeReg + stashSizeReg + 1;
      }
      if discard {
        stashSizeReg := 0;
      } else if fifoWrite {
        stashSizeReg := if commit then 0 else stashSizeReg + 1;
      }
    }
  }
}
