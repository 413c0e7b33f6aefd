/**
 The bridge from AXI to AXI-Lite: a burst becomes single beats, and the responses to them become the response
 to the burst.
 */
module AxiToAxiLite {
  import opened Arithmetic
  import Fifo = HandshakedFifo

  /** The bytes of a bus word, the size of the address space, and the number of values of a burst length. */
  datatype Config = Config(bytes: nat, space: nat, lens: nat)

  predicate ValidConfig(c: Config) {
    0 < c.bytes && 0 < c.space && 0 < c.lens
  }

  /** A burst of `len` + 1 beats. */
  datatype Burst = Burst(id: nat, addr: nat, len: nat)

  predicate ValidBurst(c: Config, b: Burst) {
    ValidConfig(c) && b.addr < c.space && b.len < c.lens
  }

  // ----- addresses

  /** The addresses of `n` + 1 beats. */
  function BeatsFrom(c: Config, addr: nat, n: nat): (beats: seq<nat>)
    requires ValidConfig(c)
    ensures |beats| == n + 1
    decreases n
  {
    if n == 0 then [addr] else [addr] + BeatsFrom(c, Wrapped(addr + c.bytes, c.space), n - 1)
  }

  function Beats(c: Config, b: Burst): seq<nat>
    requires ValidBurst(c, b)
  {
    BeatsFrom(c, b.addr, b.len)
  }

  lemma {:induction false} BeatAt(c: Config, addr: nat, n: nat, k: nat)
    requires ValidConfig(c) && addr < c.space && k <= n
    ensures BeatsFrom(c, addr, n)[k] == Wrapped(addr + c.bytes * k, c.space)
    decreases n
  {
    if k > 0 {
      BeatAt(c, Wrapped(addr + c.bytes, c.space), n - 1, k - 1);
      OneMoreStep(addr, c.bytes, k, c.space);
    }
  }

  lemma OneMoreStep(addr: nat, step: nat, k: nat, space: nat)
    requires 0 < k && 0 < space
    ensures Wrapped(Wrapped(addr + step, space) + step * (k - 1), space) == Wrapped(addr + step * k, space)
  {
    assert step * k == step * (k - 1) + step;
    WrappedAdd(addr + step, step * (k - 1), addr + step * k, space);
  }

  /** The address of transfer `k`, counted from 0, of an incrementing burst: section A3.4.1 of ARM IHI 0022D. */
  function Incr(c: Config, addr: nat, k: nat): nat
    requires ValidConfig(c)
  {
    if k == 0 then addr else addr / c.bytes * c.bytes + c.bytes * k
  }

  lemma {:induction false} WrappedDiffers(a: nat, b: nat, m: nat)
    requires 0 < m && a < b < a + m
    ensures Wrapped(a, m) != Wrapped(b, m)
    decreases b
  {
    if a >= m { WrappedDiffers(a - m, b - m, m); }
  }

  /** The beats are at the addresses that AXI defines exactly if the burst starts aligned or has one beat. */
  lemma BeatsAreIncrExactly(c: Config, b: Burst)
    requires ValidBurst(c, b) && c.bytes <= c.space
    ensures (forall k: nat :: k <= b.len ==> Beats(c, b)[k] == Incr(c, b.addr, k) % c.space)
            <==> b.addr % c.bytes == 0 || b.len == 0
  {
    var aligned := b.addr / c.bytes * c.bytes;
    assert b.addr == aligned + b.addr % c.bytes;
    forall k: nat | k <= b.len ensures Beats(c, b)[k] == Wrapped(b.addr + c.bytes * k, c.space)
                                       && Incr(c, b.addr, k) % c.space == Wrapped(Incr(c, b.addr, k), c.space) {
      BeatAt(c, b.addr, b.len, k);
      WrappedIsRemainder(Incr(c, b.addr, k), c.space);
    }
    if b.addr % c.bytes != 0 && b.len > 0 {
      WrappedDiffers(aligned + c.bytes, b.addr + c.bytes, c.space);
      assert c.bytes * 1 == c.bytes;
      assert Beats(c, b)[1] != Incr(c, b.addr, 1) % c.space;
    }
  }

  /** A burst of two words of 4 bytes from address 2: the second beat belongs at 4 and goes to 6. */
  lemma UnalignedStartDiffers()
    ensures var c, b := Config(4, 0x1_0000_0000, 256), Burst(0, 2, 1);
      ValidBurst(c, b) && Beats(c, b)[1] == 6 && Incr(c, b.addr, 1) == 4
  {
    var c := Config(4, 0x1_0000_0000, 256);
    assert Wrapped(6, c.space) == 6;
    assert BeatsFrom(c, 6, 0) == [6];
  }

  // ----- the address channels, clock by clock

  datatype AddrRegs = AddrRegs(lenRem: nat, lenRemVld: bool, actualAddr: nat)

  /** The burst on the input, and whether the bus and the queue of requests are ready. */
  datatype AddrClock = AddrClock(vld: bool, burst: Burst, outRd: bool, fifoRd: bool)

  function OutAddr(s: AddrRegs, k: AddrClock): nat {
    if s.lenRemVld then s.actualAddr else k.burst.addr
  }

  predicate OutValid(s: AddrRegs, k: AddrClock) {
    s.lenRemVld || (k.vld && k.fifoRd)
  }

  predicate InReady(s: AddrRegs, k: AddrClock) {
    !s.lenRemVld && k.outRd && k.fifoRd
  }

  /** The request is stored for the responses. */
  predicate FifoValid(s: AddrRegs, k: AddrClock) {
    !s.lenRemVld && k.vld && k.outRd
  }

  function AddrStep(c: Config, s: AddrRegs, k: AddrClock): AddrRegs
    requires ValidConfig(c)
  {
    if s.lenRemVld then
      if k.outRd then
        AddrRegs(if s.lenRem == 0 then c.lens - 1 else s.lenRem - 1, s.lenRem != 0,
                  Wrapped(s.actualAddr + c.bytes, c.space))
      else s
    else
      AddrRegs(if k.burst.len == 0 then c.lens - 1 else k.burst.len - 1,
               k.vld && k.burst.len != 0 && k.outRd && k.fifoRd,
               Wrapped(k.burst.addr + c.bytes, c.space))
  }

  datatype AddrRun = AddrRun(regs: AddrRegs, accepted: seq<Burst>, stored: seq<Burst>, issued: seq<nat>)

  ghost predicate AddrInputs(c: Config, ks: seq<AddrClock>) {
    ValidConfig(c) && forall i :: 0 <= i < |ks| ==> ValidBurst(c, ks[i].burst)
  }

  ghost function AddrNext(c: Config, r: AddrRun, k: AddrClock): AddrRun
    requires ValidConfig(c)
  {
    AddrRun(AddrStep(c, r.regs, k),
            if k.vld && InReady(r.regs, k) then r.accepted + [k.burst] else r.accepted,
            if FifoValid(r.regs, k) && k.fifoRd then r.stored + [k.burst] else r.stored,
            if OutValid(r.regs, k) && k.outRd then r.issued + [OutAddr(r.regs, k)] else r.issued)
  }

  ghost function AddrSteps(c: Config, undefined: nat, ks: seq<AddrClock>): AddrRun
    requires AddrInputs(c, ks)
    decreases |ks|
  {
    if ks == [] then AddrRun(AddrRegs(0, false, undefined), [], [], [])
    else AddrNext(c, AddrSteps(c, undefined, ks[..|ks| - 1]), ks[|ks| - 1])
  }

  ghost predicate ValidBursts(c: Config, bs: seq<Burst>) {
    ValidConfig(c) && forall i :: 0 <= i < |bs| ==> ValidBurst(c, bs[i])
  }

  function AllBeats(c: Config, bs: seq<Burst>): seq<nat>
    requires ValidBursts(c, bs)
  {
    if bs == [] then [] else AllBeats(c, bs[..|bs| - 1]) + Beats(c, bs[|bs| - 1])
  }

  /** The beats of the last accepted burst that are still to come. */
  ghost function ToCome(c: Config, s: AddrRegs): seq<nat>
    requires ValidConfig(c)
  {
    if s.lenRemVld then BeatsFrom(c, s.actualAddr, s.lenRem) else []
  }

  ghost predicate AddrInv(c: Config, r: AddrRun) {
    && ValidBursts(c, r.accepted) && r.stored == r.accepted
    && r.issued + ToCome(c, r.regs) == AllBeats(c, r.accepted)
  }

  lemma MoveFirst<T>(issued: seq<T>, first: T, rest: seq<T>)
    ensures (issued + [first]) + rest == issued + ([first] + rest)
  {
  }

  /** A beat of a stored burst is issued. */
  lemma NextBeat(c: Config, r: AddrRun, k: AddrClock)
    requires ValidBurst(c, k.burst) && AddrInv(c, r) && r.regs.lenRemVld && k.outRd
    ensures AddrInv(c, AddrNext(c, r, k))
  {
    var t, s := AddrNext(c, r, k), r.regs;
    assert t.accepted == r.accepted && t.stored == r.stored && t.issued == r.issued + [s.actualAddr];
    assert ToCome(c, s) == [s.actualAddr] + ToCome(c, t.regs);
    MoveFirst(r.issued, s.actualAddr, ToCome(c, t.regs));
  }

  /** A burst is accepted and its first beat is issued. */
  lemma FirstBeat(c: Config, r: AddrRun, k: AddrClock)
    requires ValidBurst(c, k.burst) && AddrInv(c, r) && !r.regs.lenRemVld && k.vld && k.outRd && k.fifoRd
    ensures AddrInv(c, AddrNext(c, r, k))
  {
    var t := AddrNext(c, r, k);
    assert t.accepted == t.stored == r.accepted + [k.burst] && t.issued == r.issued + [k.burst.addr];
    assert Beats(c, k.burst) == [k.burst.addr] + ToCome(c, t.regs);
    assert r.issued + [] == r.issued;
    AllBeatsNext(c, r.accepted, k.burst);
    MoveFirst(r.issued, k.burst.addr, ToCome(c, t.regs));
  }

  lemma AllBeatsNext(c: Config, bs: seq<Burst>, b: Burst)
    requires ValidBursts(c, bs) && ValidBurst(c, b)
    ensures ValidBursts(c, bs + [b]) && AllBeats(c, bs + [b]) == AllBeats(c, bs) + Beats(c, b)
  {
    assert (bs + [b])[..|bs|] == bs;
  }

  lemma AddrKeeps(c: Config, r: AddrRun, k: AddrClock)
    requires ValidBurst(c, k.burst) && AddrInv(c, r)
    ensures AddrInv(c, AddrNext(c, r, k))
  {
    if r.regs.lenRemVld && k.outRd {
      NextBeat(c, r, k);
    } else if !r.regs.lenRemVld && k.vld && k.outRd && k.fifoRd {
      FirstBeat(c, r, k);
    }
  }

  /** In every run the beats issued, with those to come, are those of the accepted bursts in order; all are stored. */
  lemma {:induction false} BeatsInOrder(c: Config, undefined: nat, ks: seq<AddrClock>)
    requires AddrInputs(c, ks)
    ensures AddrInv(c, AddrSteps(c, undefined, ks))
    decreases |ks|
  {
    if ks != [] {
      BeatsInOrder(c, undefined, ks[..|ks| - 1]);
      AddrKeeps(c, AddrSteps(c, undefined, ks[..|ks| - 1]), ks[|ks| - 1]);
    }
  }

  /**
   In every run a burst is accepted exactly if all beats of the bursts before it are issued and both the bus and the
   queue are ready, and a beat is offered exactly if one is left or a burst can be stored.
   */
  lemma AddrPortsAreExact(c: Config, undefined: nat, ks: seq<AddrClock>, k: AddrClock)
    requires AddrInputs(c, ks)
    ensures var r := AddrSteps(c, undefined, ks);
      && ValidBursts(c, r.accepted)
      && var none := |r.issued| == |AllBeats(c, r.accepted)|;
         && (InReady(r.regs, k) <==> none && k.outRd && k.fifoRd)
         && (OutValid(r.regs, k) <==> !none || (k.vld && k.fifoRd))
         && (FifoValid(r.regs, k) && k.fifoRd <==> k.vld && InReady(r.regs, k))
  {
    BeatsInOrder(c, undefined, ks);
    var r := AddrSteps(c, undefined, ks);
    assert |r.issued + ToCome(c, r.regs)| == |r.issued| + |ToCome(c, r.regs)|;
  }

  // ----- the responses, clock by clock

  /** The response channel: the beats of the current transaction that remain after this one, and its id. */
  datatype RespRegs = RespRegs(rem: nat, id: nat, remVld: bool)

  /** The stored requests and the bus may be valid or not, the producer of the burst ready or not. */
  datatype RespClock<T> = RespClock(fifoVld: bool, info: Burst, vld: bool, data: T, rdy: bool)

  predicate RespInReady<T>(s: RespRegs, k: RespClock<T>) {
    k.rdy && s.remVld
  }

  /** Reads are all passed on, of the responses to writes only that of the last beat. */
  predicate RespOutValid<T>(write: bool, s: RespRegs, k: RespClock<T>) {
    k.vld && s.remVld && (write ==> s.rem == 0)
  }

  predicate RespLast(s: RespRegs) {
    s.rem == 0 && s.remVld
  }

  predicate FifoReady<T>(s: RespRegs, k: RespClock<T>) {
    if s.remVld then k.vld && k.rdy && s.rem == 0 else true
  }

  function RespStep<T>(s: RespRegs, k: RespClock<T>): RespRegs {
    if s.remVld then
      if !(k.vld && k.rdy) then s
      else if s.rem != 0 then RespRegs(s.rem - 1, s.id, true)
      else if k.fifoVld then RespRegs(k.info.len, k.info.id, true)
      else RespRegs(s.rem, s.id, false)
    else
      RespRegs(k.info.len, k.info.id, k.fifoVld)
  }

  /** A response to a burst. */
  datatype Resp<T> = Resp(id: nat, data: T, last: bool)

  datatype RespRun<T> = RespRun(regs: RespRegs, popped: seq<Burst>, taken: seq<T>, delivered: seq<Resp<T>>)

  ghost function RespNext<T>(write: bool, r: RespRun<T>, k: RespClock<T>): RespRun<T> {
    RespRun(RespStep(r.regs, k),
            if k.fifoVld && FifoReady(r.regs, k) then r.popped + [k.info] else r.popped,
            if k.vld && RespInReady(r.regs, k) then r.taken + [k.data] else r.taken,
            if RespOutValid(write, r.regs, k) && k.rdy then r.delivered + [Resp(r.regs.id, k.data, RespLast(r.regs))]
            else r.delivered)
  }

  ghost function RespSteps<T>(write: bool, undefined: RespRegs, ks: seq<RespClock<T>>): RespRun<T>
    requires !undefined.remVld
    decreases |ks|
  {
    if ks == [] then RespRun(undefined, [], [], [])
    else RespNext(write, RespSteps(write, undefined, ks[..|ks| - 1]), ks[|ks| - 1])
  }

  // ----- what the responses must be

  /** The responses to all beats of a burst, or to the first ones of them. */
  function ReadsOf<T>(b: Burst, datas: seq<T>): (rs: seq<Resp<T>>)
    ensures |rs| == |datas|
  {
    seq(|datas|, i requires 0 <= i < |datas| => Resp(b.id, datas[i], i == b.len))
  }

  /** One response to a burst, that to its last beat, if that is there. */
  function WriteOf<T>(b: Burst, datas: seq<T>): seq<Resp<T>> {
    if |datas| == b.len + 1 then [Resp(b.id, datas[b.len], true)] else []
  }

  function AnswerTo<T>(write: bool, b: Burst, datas: seq<T>): seq<Resp<T>> {
    if write then WriteOf(b, datas) else ReadsOf(b, datas)
  }

  function Total(bs: seq<Burst>): nat {
    if bs == [] then 0 else Total(bs[..|bs| - 1]) + bs[|bs| - 1].len + 1
  }

  /** The answers to bursts, of which only the last one may still be incomplete. */
  function Answers<T>(write: bool, bs: seq<Burst>, datas: seq<T>): seq<Resp<T>>
    requires bs != [] ==> Total(bs[..|bs| - 1]) <= |datas|
    decreases |bs|
  {
    if bs == [] then []
    else
      var before := bs[..|bs| - 1];
      TotalGrows(before);
      Answers(write, before, datas[..Total(before)]) + AnswerTo(write, bs[|bs| - 1], datas[Total(before)..])
  }

  lemma TotalGrows(bs: seq<Burst>)
    ensures bs != [] ==> Total(bs[..|bs| - 1]) <= Total(bs)
  {
  }

  ghost predicate RespInv<T>(write: bool, r: RespRun<T>) {
    && Serving(r.regs, r.popped, |r.taken|)
    && r.delivered == Answers(write, r.popped, r.taken)
  }

  /** The registers count the beats of the last burst that are still to be answered. */
  ghost predicate Serving(s: RespRegs, popped: seq<Burst>, taken: nat) {
    && (popped != [] ==> Total(popped[..|popped| - 1]) <= taken)
    && if s.remVld then
         popped != [] && s.id == popped[|popped| - 1].id && taken + s.rem + 1 == Total(popped)
       else
         taken == Total(popped)
  }

  /** One more response to the last burst. */
  lemma AnswerNext<T>(write: bool, bs: seq<Burst>, datas: seq<T>, x: T)
    requires bs != [] && Total(bs[..|bs| - 1]) <= |datas| < Total(bs)
    ensures Total(bs[..|bs| - 1]) <= |datas + [x]|
    ensures Answers(write, bs, datas + [x]) ==
      Answers(write, bs, datas)
      + if write && |datas| + 1 < Total(bs) then [] else [Resp(bs[|bs| - 1].id, x, |datas| + 1 == Total(bs))]
  {
    var before, b := bs[..|bs| - 1], bs[|bs| - 1];
    var n := Total(before);
    TotalGrows(before);
    assert (datas + [x])[..n] == datas[..n] && (datas + [x])[n..] == datas[n..] + [x];
    if !write {
      assert ReadsOf(b, datas[n..] + [x]) == ReadsOf(b, datas[n..]) + [Resp(b.id, x, |datas[n..]| == b.len)];
    }
  }

  /** One more burst, without a response so far. */
  lemma AnswerMore<T>(write: bool, bs: seq<Burst>, datas: seq<T>, b: Burst)
    requires bs != [] ==> Total(bs[..|bs| - 1]) <= |datas|
    requires |datas| == Total(bs)
    ensures Total((bs + [b])[..|bs + [b]| - 1]) <= |datas| && Total(bs + [b]) == |datas| + b.len + 1
    ensures Answers(write, bs + [b], datas) == Answers(write, bs, datas)
  {
    assert (bs + [b])[..|bs + [b]| - 1] == bs;
    assert datas[..Total(bs)] == datas && datas[Total(bs)..] == [];
    assert AnswerTo(write, b, datas[Total(bs)..]) == [];
  }

  /** A response is taken. */
  lemma TakeKeeps<T>(write: bool, s: RespRegs, popped: seq<Burst>, taken: seq<T>, x: T)
    requires s.remVld && Serving(s, popped, |taken|)
    ensures Serving(if s.rem != 0 then s.(rem := s.rem - 1) else s.(remVld := false), popped, |taken + [x]|)
    ensures Answers(write, popped, taken + [x])
         == Answers(write, popped, taken) + if write && s.rem != 0 then [] else [Resp(s.id, x, s.rem == 0)]
  {
    AnswerNext(write, popped, taken, x);
  }

  /** The next burst is taken from the queue. */
  lemma PopKeeps<T>(write: bool, popped: seq<Burst>, taken: seq<T>, info: Burst)
    requires popped != [] ==> Total(popped[..|popped| - 1]) <= |taken|
    requires |taken| == Total(popped)
    ensures Serving(RespRegs(info.len, info.id, true), popped + [info], |taken|)
    ensures Answers(write, popped + [info], taken) == Answers(write, popped, taken)
  {
    AnswerMore(write, popped, taken, info);
  }

  /** A clock in which a response is taken. */
  lemma RespTakes<T>(write: bool, r: RespRun<T>, k: RespClock<T>)
    requires RespInv(write, r) && r.regs.remVld && k.vld && k.rdy
    ensures RespInv(write, RespNext(write, r, k))
  {
    var s, t := r.regs, RespNext(write, r, k);
    TakeKeeps(write, s, r.popped, r.taken, k.data);
    assert t.taken == r.taken + [k.data];
    assert t.delivered == Answers(write, r.popped, t.taken) by {
      if write && s.rem != 0 { assert r.delivered + [] == r.delivered; }
    }
    if s.rem == 0 && k.fifoVld { PopKeeps(write, r.popped, t.taken, k.info); }
  }

  /** A clock in which the next burst is taken, none being served. */
  lemma RespPops<T>(write: bool, r: RespRun<T>, k: RespClock<T>)
    requires RespInv(write, r) && !r.regs.remVld && k.fifoVld
    ensures RespInv(write, RespNext(write, r, k))
  {
    PopKeeps(write, r.popped, r.taken, k.info);
  }

  lemma RespKeeps<T>(write: bool, r: RespRun<T>, k: RespClock<T>)
    requires RespInv(write, r)
    ensures RespInv(write, RespNext(write, r, k))
  {
    if r.regs.remVld && k.vld && k.rdy {
      RespTakes(write, r, k);
    } else if !r.regs.remVld && k.fifoVld {
      RespPops(write, r, k);
    }
  }

  /**
   In every run the responses delivered are, in the order of the bursts and with their ids, one for every beat of
   a read with the last one marked, and one for a write, that of its last beat.
   */
  lemma {:induction false} AnswersInOrder<T>(write: bool, undefined: RespRegs, ks: seq<RespClock<T>>)
    requires !undefined.remVld
    ensures RespInv(write, RespSteps(write, undefined, ks))
    decreases |ks|
  {
    if ks != [] {
      AnswersInOrder(write, undefined, ks[..|ks| - 1]);
      RespKeeps(write, RespSteps(write, undefined, ks[..|ks| - 1]), ks[|ks| - 1]);
    }
  }

  /**
   In every run a response is taken exactly if the master is ready and not all bursts taken from the queue are answered,
   and the next burst is taken from the queue exactly if they are, or with the last response. Of the responses to a
   write only that is offered to the master.
   */
  lemma RespPortsAreExact<T>(write: bool, undefined: RespRegs, ks: seq<RespClock<T>>, k: RespClock<T>)
    requires !undefined.remVld
    ensures var r := RespSteps(write, undefined, ks); var left := Total(r.popped) - |r.taken|;
      && left >= 0
      && (RespInReady(r.regs, k) <==> k.rdy && left > 0)
      && (RespOutValid(write, r.regs, k) <==> k.vld && if write then left == 1 else left > 0)
      && (FifoReady(r.regs, k) <==> left == 0 || (left == 1 && k.vld && k.rdy))
  {
    AnswersInOrder(write, undefined, ks);
  }

  lemma {:induction false} OneResponsePerBeat(c: Config, bs: seq<Burst>)
    requires ValidBursts(c, bs)
    ensures |AllBeats(c, bs)| == Total(bs)
  {
    if bs != [] { OneResponsePerBeat(c, bs[..|bs| - 1]); }
  }

  /** Complete answers: a response for every beat read, and one for every burst written. */
  lemma {:induction false} CountOfAnswers<T>(write: bool, bs: seq<Burst>, datas: seq<T>)
    requires |datas| == Total(bs)
    ensures bs != [] ==> Total(bs[..|bs| - 1]) <= |datas|
    ensures |Answers(write, bs, datas)| == if write then |bs| else |datas|
    decreases |bs|
  {
    if bs != [] {
      var before := bs[..|bs| - 1];
      TotalGrows(before);
      CountOfAnswers(write, before, datas[..Total(before)]);
    }
  }

  // ----- both sides and the queue between them

  /** The ports of the bridge on one of its channels, in one clock. */
  datatype BridgeClock<T> = BridgeClock(vld: bool, burst: Burst, outRd: bool, respVld: bool, data: T, rdy: bool)

  datatype BridgeRun<T> = BridgeRun(addr: AddrRun, fifo: Fifo.Run<Burst>, resp: RespRun<T>)

  /** The address side fills the queue, the response side empties it. */
  ghost function BridgeNext<T>(c: Config, write: bool, depth: nat, r: BridgeRun<T>, e: BridgeClock<T>)
    : (t: BridgeRun<T>)
    requires ValidConfig(c) && Fifo.Shape(depth, r.fifo.regs)
    ensures Fifo.Shape(depth, t.fifo.regs)
  {
    var queue := r.fifo.regs;
    var a := AddrClock(e.vld, e.burst, e.outRd, Fifo.Ready(queue));
    var b := RespClock(Fifo.Valid(queue), queue.out, e.respVld, e.data, e.rdy);
    BridgeRun(AddrNext(c, r.addr, a),
              Fifo.Next(depth, r.fifo, Fifo.Clock(FifoValid(r.addr.regs, a), e.burst, FifoReady(r.resp.regs, b))),
              RespNext(write, r.resp, b))
  }

  ghost predicate BridgeInputs<T>(c: Config, es: seq<BridgeClock<T>>) {
    ValidConfig(c) && forall i :: 0 <= i < |es| ==> ValidBurst(c, es[i].burst)
  }

  /** A run from reset; the queue has a memory, and registers without reset value hold anything. */
  ghost function BridgeSteps<T>(c: Config, write: bool, mem: seq<Burst>, x: (nat, Burst, RespRegs),
                                 es: seq<BridgeClock<T>>):
      (r: BridgeRun<T>)
    requires mem != [] && BridgeInputs(c, es)
    ensures Fifo.Shape(|mem|, r.fifo.regs)
    decreases |es|
  {
    if es == [] then
      BridgeRun(AddrRun(AddrRegs(0, false, x.0), [], [], []), Fifo.Run(Fifo.Reset(mem, x.1), [], []),
                RespRun(x.2.(remVld := false), [], [], []))
    else
      BridgeNext(c, write, |mem|, BridgeSteps(c, write, mem, x, es[..|es| - 1]), es[|es| - 1])
  }

  ghost predicate BridgeInv<T>(c: Config, write: bool, depth: nat, r: BridgeRun<T>) {
    && AddrInv(c, r.addr) && Fifo.RunInv(depth, r.fifo) && RespInv(write, r.resp)
    && r.fifo.accepted == r.addr.stored && r.fifo.delivered == r.resp.popped
  }

  lemma BridgeKeeps<T>(c: Config, write: bool, depth: nat, r: BridgeRun<T>, e: BridgeClock<T>)
    requires ValidBurst(c, e.burst) && BridgeInv(c, write, depth, r)
    ensures BridgeInv(c, write, depth, BridgeNext(c, write, depth, r, e))
  {
    var queue := r.fifo.regs;
    var a := AddrClock(e.vld, e.burst, e.outRd, Fifo.Ready(queue));
    var b := RespClock(Fifo.Valid(queue), queue.out, e.respVld, e.data, e.rdy);
    AddrKeeps(c, r.addr, a);
    Fifo.NextKeeps(depth, r.fifo, Fifo.Clock(FifoValid(r.addr.regs, a), e.burst, FifoReady(r.resp.regs, b)));
    RespKeeps(write, r.resp, b);
  }

  lemma {:induction false} BridgeAlways<T>(c: Config, write: bool, mem: seq<Burst>, x: (nat, Burst, RespRegs),
                                           es: seq<BridgeClock<T>>)
    requires mem != [] && BridgeInputs(c, es)
    ensures BridgeInv(c, write, |mem|, BridgeSteps(c, write, mem, x, es))
    decreases |es|
  {
    if es != [] {
      BridgeAlways(c, write, mem, x, es[..|es| - 1]);
      BridgeKeeps(c, write, |mem|, BridgeSteps(c, write, mem, x, es[..|es| - 1]), es[|es| - 1]);
    }
  }

  lemma {:induction false} TotalPrefix(a: seq<Burst>, b: seq<Burst>)
    requires a <= b
    ensures Total(a) <= Total(b) && (Total(a) == Total(b) ==> a == b)
    decreases |b|
  {
    if a != b { TotalPrefix(a, b[..|b| - 1]); }
  }

  /** The first bursts of `b`, and so many responses that only the last one is not answered completely. */
  ghost predicate Under<T>(a: seq<Burst>, x: seq<T>, b: seq<Burst>, y: seq<T>) {
    a <= b && x <= y && (a != [] ==> Total(a[..|a| - 1]) <= |x|) && |x| <= Total(a)
  }

  lemma MoreResponses<T>(write: bool, a: seq<Burst>, x: seq<T>, b: seq<Burst>, y: seq<T>)
    requires Under(a, x, b, y) && |x| < Total(a) && |x| < |y|
    ensures Under(a, x + [y[|x|]], b, y) && Answers(write, a, x) <= Answers(write, a, x + [y[|x|]])
  {
    AnswerNext(write, a, x, y[|x|]);
  }

  lemma MoreBursts<T>(write: bool, a: seq<Burst>, x: seq<T>, b: seq<Burst>, y: seq<T>)
    requires Under(a, x, b, y) && |x| == Total(a) && |a| < |b|
    ensures Under(a + [b[|a|]], x, b, y) && Answers(write, a, x) == Answers(write, a + [b[|a|]], x)
  {
    NextBurst(a, b);
    AnswerMore(write, a, x, b[|a|]);
  }

  lemma NextBurst(a: seq<Burst>, b: seq<Burst>)
    requires a <= b && |a| < |b|
    ensures a + [b[|a|]] <= b && (a + [b[|a|]])[..|a|] == a
  {
  }

  /** The answers to the first bursts, as far as there are responses, come first among all answers. */
  lemma {:induction false} AnswersPrefix<T>(write: bool, a: seq<Burst>, x: seq<T>, b: seq<Burst>, y: seq<T>)
    requires Under(a, x, b, y) && |y| == Total(b)
    ensures b != [] ==> Total(b[..|b| - 1]) <= |y|
    ensures Answers(write, a, x) <= Answers(write, b, y)
    decreases |b| - |a|, |y| - |x|
  {
    TotalPrefix(a, b);
    if |x| < Total(a) {
      MoreResponses(write, a, x, b, y);
      AnswersPrefix(write, a, x + [y[|x|]], b, y);
    } else if a != b {
      MoreBursts(write, a, x, b, y);
      AnswersPrefix(write, a + [b[|a|]], x, b, y);
    } else {
      assert x == y;
    }
  }

  /**
   In every run of the bridge, whatever its depth and timing: the bursts being answered are the first of those accepted,
   and the answers delivered are the first of all answers due, whatever responses are still to come.
   */
  lemma BridgeAnswers<T>(c: Config, write: bool, mem: seq<Burst>, x: (nat, Burst, RespRegs), es: seq<BridgeClock<T>>,
                         more: seq<T>)
    requires mem != [] && BridgeInputs(c, es)
    requires var r := BridgeSteps(c, write, mem, x, es);
      |r.resp.taken + more| == Total(r.addr.accepted)
    ensures var r := BridgeSteps(c, write, mem, x, es);
      && r.resp.popped <= r.addr.accepted
      && (r.addr.accepted != [] ==> Total(r.addr.accepted[..|r.addr.accepted| - 1]) <= |r.resp.taken + more|)
      && r.resp.delivered <= Answers(write, r.addr.accepted, r.resp.taken + more)
  {
    BridgeAlways(c, write, mem, x, es);
    var r := BridgeSteps(c, write, mem, x, es);
    AnswersPrefix(write, r.resp.popped, r.resp.taken, r.addr.accepted, r.resp.taken + more);
  }

  /**
   After as many responses as beats were issued, no beat being left to issue, every burst accepted has its whole answer:
   a response to every beat read, and one to every burst written.
   */
  lemma AllAnswered<T>(c: Config, write: bool, mem: seq<Burst>, x: (nat, Burst, RespRegs), es: seq<BridgeClock<T>>)
    requires mem != [] && BridgeInputs(c, es)
    requires var r := BridgeSteps(c, write, mem, x, es);
      !r.addr.regs.lenRemVld && |r.resp.taken| == |r.addr.issued|
    ensures var r := BridgeSteps(c, write, mem, x, es);
      && !r.resp.regs.remVld && r.resp.popped == r.addr.accepted
      && |r.resp.delivered| == if write then |r.addr.accepted| else |r.addr.issued|
  {
    BridgeAlways(c, write, mem, x, es);
    var r := BridgeSteps(c, write, mem, x, es);
    OneResponsePerBeat(c, r.addr.accepted);
    TotalPrefix(r.resp.popped, r.addr.accepted);
    CountOfAnswers(write, r.resp.popped, r.resp.taken);
  }

  // ----- the components

  class AddrLogic {
    const c: Config
    var lenRem: nat
    var lenRemVld: bool
    var actualAddr: nat

    ghost function Registers(): AddrRegs
      reads this
    {
      AddrRegs(lenRem, lenRemVld, actualAddr)
    }

    constructor (c: Config, undefined: nat)
      ensures this.c == c && Registers() == AddrRegs(0, false, undefined)
    {
      this.c, lenRem, lenRemVld, actualAddr := c, 0, false, undefined;
    }

    /** One clock edge; the outputs are those before it. */
    method Clk(k: AddrClock) returns (inRd: bool, outVld: bool, outAddr: nat, fifoVld: bool)
      requires ValidBurst(c, k.burst)
      modifies this
      ensures inRd == InReady(old(Registers()), k) && fifoVld == FifoValid(old(Registers()), k)
      ensures outVld == OutValid(old(Registers()), k) && outAddr == OutAddr(old(Registers()), k)
      ensures Registers() == AddrStep(c, old(Registers()), k)
    {
      fifoVld := !lenRemVld && k.vld && k.outRd;
      if lenRemVld {
        inRd, outVld, outAddr := false, true, actualAddr;
        if k.outRd {
          actualAddr := Wrapped(actualAddr + c.bytes, c.space);
          if lenRem == 0 { lenRemVld := false; }
          lenRem := if lenRem == 0 then c.lens - 1 else lenRem - 1;
        }
      } else {
        inRd, outVld, outAddr := k.outRd && k.fifoRd, k.vld && k.fifoRd, k.burst.addr;
        actualAddr := Wrapped(outAddr + c.bytes, c.space);
        lenRem := if k.burst.len == 0 then c.lens - 1 else k.burst.len - 1;
        lenRemVld := k.vld && k.burst.len != 0 && k.outRd && k.fifoRd;
      }
    }
  }

  class ResponseLogic<T> {
    const write: bool
    var rem: nat
    var idTmp: nat
    var remVld: bool

    ghost function Registers(): RespRegs
      reads this
    {
      RespRegs(rem, idTmp, remVld)
    }

    constructor (write: bool, undefined: RespRegs)
      ensures this.write == write && Registers() == undefined.(remVld := false)
    {
      this.write, rem, idTmp, remVld := write, undefined.rem, undefined.id, false;
    }

    /** One clock edge; the outputs are those before it. */
    method Clk(k: RespClock<T>) returns (inRd: bool, outVld: bool, out: Resp<T>, fifoRd: bool)
      modifies this
      ensures inRd == RespInReady(old(Registers()), k) && fifoRd == FifoReady(old(Registers()), k)
      ensures outVld == RespOutValid(write, old(Registers()), k)
      ensures out == Resp(old(idTmp), k.data, RespLast(old(Registers())))
      ensures Registers() == RespStep(old(Registers()), k)
    {
      inRd, outVld := k.rdy && remVld, k.vld && if write then remVld && rem == 0 else remVld;
      out := Resp(idTmp, k.data, rem == 0 && remVld);
      if remVld {
        fifoRd := k.vld && k.rdy && rem == 0;
        if k.vld && k.rdy {
          if rem != 0 {
            rem := rem - 1;
          } else if k.fifoVld {
            rem, idTmp := k.info.len, k.info.id;
          } else {
            remVld := false;
          }
        }
      } else {
        fifoRd := true;
        rem, idTmp, remVld := k.info.len, k.info.id, k.fifoVld;
      }
    }
  }
}
