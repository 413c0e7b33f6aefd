/**
 The two-clock FIFO: one pointer per clock domain, each sent to the other domain as a
 Gray word through two synchronizer stages, and registered full/empty flags computed from
 pointers that may be several clocks old.
 */
module FifoAsync {
  import opened Arithmetic
  import opened GrayCode

  /** The registers of both domains, and what of the last pointer change has reached the far side. */
  datatype Regs<T> = Regs(
    // clocked by dataIn_clk
    wBin: nat, wGray: Word, wFull: bool, rSync0: Word, rSync1: Word, memory: seq<T>,
    // clocked by dataOut_clk
    rBin: nat, rGray: Word, rEmpty: bool, wSync0: Word, wSync1: Word, dout: T,
    // the wires between the domains: a bit that changed at the last source edge may still be old here
    wSeen: Word, rSeen: Word)

  /**
   A word sampled while its source may be changing: where the mask `late` is 1 the bit is still the
   one seen before, elsewhere (and above the mask) it is the new one. Nothing relates the bits.
   */
  function Sample(seen: Word, now: Word, late: Word): (s: Word)
    requires seen.Width() == now.Width()
    ensures s.Width() == now.Width()
    decreases now
  {
    if now.Empty? then Empty
    else if late.Empty? then Bit(now.lsb, Sample(seen.rest, now.rest, Empty))
    else Bit(if late.lsb then seen.lsb else now.lsb, Sample(seen.rest, now.rest, late.rest))
  }

  ghost predicate Shape<T>(aw: nat, s: Regs<T>) {
    && s.wBin < Pow2(aw + 1) && s.rBin < Pow2(aw + 1)
    && |s.memory| == Pow2(aw)
    && s.wGray.Width() == s.wSeen.Width() == s.wSync0.Width() == s.wSync1.Width() == aw + 1
    && s.rGray.Width() == s.rSeen.Width() == s.rSync0.Width() == s.rSync1.Width() == aw + 1
  }

  /** The address of a pointer in the memory: its low AW bits. */
  function Index(aw: nat, pointer: nat): (i: nat)
    requires pointer < Pow2(aw + 1)
    ensures i < Pow2(aw)
  {
    if pointer < Pow2(aw) then pointer else pointer - Pow2(aw)
  }

  /** The state after reset: memory and output register hold whatever they hold. */
  function Reset<T>(aw: nat, memory: seq<T>, dout: T): (s: Regs<T>)
    requires |memory| == Pow2(aw)
    ensures Shape(aw, s)
  {
    var z := ToWord(0, aw + 1);
    Regs(0, z, false, z, z, memory, 0, z, true, z, z, dout, z, z)
  }

  /** One edge of dataIn_clk; `late` says which bits of the read pointer arrive too late for it. */
  function WriteEdge<T>(aw: nat, s: Regs<T>, en: bool, data: T, late: Word): (t: Regs<T>)
    requires 2 <= aw && Shape(aw, s)
    ensures Shape(aw, t)
  {
    var wEn := en && !s.wFull;
    var wBin := if wEn then Next(s.wBin, aw + 1) else s.wBin;
    var wGray := Gray(wBin, aw + 1);
    var sampled := Sample(s.rSeen, s.rGray, late);
    s.(wBin := wBin, wGray := wGray, wFull := wGray == InvertTopTwo(s.rSync1),
       rSync0 := sampled, rSync1 := s.rSync0, rSeen := sampled,
       memory := if wEn then s.memory[Index(aw, s.wBin) := data] else s.memory,
       wSeen := s.wGray)
  }

  /** One edge of dataOut_clk; `late` says which bits of the write pointer arrive too late for it. */
  function ReadEdge<T>(aw: nat, s: Regs<T>, en: bool, late: Word): (t: Regs<T>)
    requires 2 <= aw && Shape(aw, s)
    ensures Shape(aw, t)
  {
    var rEn := en && !s.rEmpty;
    var rBin := if rEn then Next(s.rBin, aw + 1) else s.rBin;
    var rGray := Gray(rBin, aw + 1);
    var sampled := Sample(s.wSeen, s.wGray, late);
    s.(rBin := rBin, rGray := rGray, rEmpty := rGray == s.wSync1,
       wSync0 := sampled, wSync1 := s.wSync0, wSeen := sampled,
       dout := if rEn then s.memory[Index(aw, s.rBin)] else s.dout,
       rSeen := s.rGray)
  }

  /** A clock edge of either domain, in any order. */
  datatype Event<T> =
    | InClk(en: bool, data: T, late: Word)
    | OutClk(en: bool, late: Word)

  /**
   What an observer of both ports records: the words the writer put in while `wait` was low, the
   words that appeared on the output for a reader that saw `wait` low, and for every copy
   of a pointer how many words its owner had transferred when that pointer was current. What was in
   the second stage at the last edge of a side is what this side has been told: `wTold` words are
   stored, `rTold` words are gone.
   */
  datatype Run<T> = Run(regs: Regs<T>, written: seq<T>, read: seq<T>,
                        wSeen: nat, wSync0: nat, wSync1: nat, rSeen: nat, rSync0: nat, rSync1: nat,
                        wTold: nat, rTold: nat)

  ghost function Step<T>(aw: nat, r: Run<T>, e: Event<T>): (t: Run<T>)
    requires 2 <= aw && Shape(aw, r.regs)
    ensures Shape(aw, t.regs)
  {
    var s := r.regs;
    match e
    case InClk(en, data, late) =>
      var t := WriteEdge(aw, s, en, data, late);
      Run(t, if en && !s.wFull then r.written + [data] else r.written, r.read,
          |r.written|, r.wSync0, r.wSync1,
          if t.rSync0 == s.rGray then |r.read| else r.rSeen,
          if t.rSync0 == s.rGray then |r.read| else r.rSeen, r.rSync0, r.wTold, r.rSync1)
    case OutClk(en, late) =>
      var t := ReadEdge(aw, s, en, late);
      Run(t, r.written, if en && !s.rEmpty then r.read + [t.dout] else r.read,
          if t.wSync0 == s.wGray then |r.written| else r.wSeen,
          if t.wSync0 == s.wGray then |r.written| else r.wSeen, r.wSync0,
          |r.read|, r.rSync0, r.rSync1, r.wSync1, r.rTold)
  }

  ghost function Steps<T>(aw: nat, r: Run<T>, es: seq<Event<T>>): (t: Run<T>)
    requires 2 <= aw && Shape(aw, r.regs)
    ensures Shape(aw, t.regs)
    decreases |es|
  {
    if es == [] then r else Step(aw, Steps(aw, r, es[..|es| - 1]), es[|es| - 1])
  }

  ghost function Start<T>(aw: nat, memory: seq<T>, dout: T): (r: Run<T>)
    requires |memory| == Pow2(aw)
    ensures Shape(aw, r.regs)
  {
    Run(Reset(aw, memory, dout), [], [], 0, 0, 0, 0, 0, 0, 0, 0)
  }

  // ----- the invariant

  /** `g` is the Gray word of a pointer whose owner has transferred `n` words. */
  ghost predicate Points(aw: nat, g: Word, n: nat) {
    g == Gray(Cycle(n, Pow2(aw + 1)), aw + 1)
  }

  /** Every copy of a pointer is a pointer that was current at some time, later stages being older. */
  ghost predicate PointersInv<T>(aw: nat, r: Run<T>) {
    var s, w, n := r.regs, |r.written|, |r.read|;
    && s.wBin == Cycle(w, Pow2(aw + 1)) && s.rBin == Cycle(n, Pow2(aw + 1))
    && Points(aw, s.wGray, w) && Points(aw, s.wSeen, r.wSeen)
    && Points(aw, s.wSync0, r.wSync0) && Points(aw, s.wSync1, r.wSync1)
    && Points(aw, s.rGray, n) && Points(aw, s.rSeen, r.rSeen)
    && Points(aw, s.rSync0, r.rSync0) && Points(aw, s.rSync1, r.rSync1)
    && r.wSync1 <= r.wSync0 <= r.wSeen <= w <= r.wSeen + 1
    && r.rSync1 <= r.rSync0 <= r.rSeen <= n <= r.rSeen + 1
  }

  /** The flags are exact about what their side has been told, and what it has been told is on the safe side. */
  ghost predicate FlagsInv<T>(aw: nat, r: Run<T>) {
    && |r.read| <= r.wTold <= r.wSync1
    && (r.regs.rEmpty <==> |r.read| == r.wTold)
    && r.rTold <= r.rSync1 && |r.written| <= r.rTold + Pow2(aw)
    && (r.regs.wFull <==> |r.written| == r.rTold + Pow2(aw))
  }

  /** The memory holds the words between the pointers, and the reader got the words before them. */
  ghost predicate DataInv<T>(aw: nat, r: Run<T>)
    requires |r.regs.memory| == Pow2(aw)
  {
    && |r.read| <= |r.written|
    && r.read == r.written[..|r.read|]
    && (forall k :: |r.read| <= k < |r.written| ==> r.regs.memory[Cycle(k, Pow2(aw))] == r.written[k])
    && (r.read != [] ==> r.regs.dout == r.read[|r.read| - 1])
  }

  ghost predicate Inv<T>(aw: nat, r: Run<T>) {
    2 <= aw && Shape(aw, r.regs) && PointersInv(aw, r) && FlagsInv(aw, r) && DataInv(aw, r)
  }

  // ----- arithmetic of the pointers

  /** The Gray full test, on pointers at most DEPTH apart, says exactly that they are DEPTH apart. */
  lemma FullTest(aw: nat, r: nat, w: nat)
    requires 2 <= aw && r <= w <= r + Pow2(aw)
    ensures Gray(Cycle(w, Pow2(aw + 1)), aw + 1) == InvertTopTwo(Gray(Cycle(r, Pow2(aw + 1)), aw + 1))
            <==> w == r + Pow2(aw)
  {
    HalfTurnTest(Cycle(r, Pow2(aw + 1)), Cycle(w, Pow2(aw + 1)), aw + 1);
    CycleAdd(r, Pow2(aw), Pow2(aw + 1));
    CycleInjective(w, r + Pow2(aw), Pow2(aw + 1));
  }

  /**
   Why a bit that was seen new must not be seen old again: tested against the pointer before the one that
   DEPTH words are ahead of, a full memory does not look full.
   */
  lemma OlderPointerHidesFull(aw: nat, r: nat, w: nat)
    requires 2 <= aw && 0 < r && w == r + Pow2(aw)
    ensures Gray(Cycle(w, Pow2(aw + 1)), aw + 1) != InvertTopTwo(Gray(Cycle(r - 1, Pow2(aw + 1)), aw + 1))
  {
    HalfTurnTest(Cycle(r - 1, Pow2(aw + 1)), Cycle(w, Pow2(aw + 1)), aw + 1);
    CycleAdd(r - 1, Pow2(aw), Pow2(aw + 1));
    CycleInjective(w, r - 1 + Pow2(aw), Pow2(aw + 1));
  }

  /** The Gray empty test, on pointers at most DEPTH apart, says exactly that they are equal. */
  lemma EmptyTest(aw: nat, r: nat, w: nat)
    requires r <= w <= r + Pow2(aw)
    ensures Gray(Cycle(r, Pow2(aw + 1)), aw + 1) == Gray(Cycle(w, Pow2(aw + 1)), aw + 1) <==> r == w
  {
    if Gray(Cycle(r, Pow2(aw + 1)), aw + 1) == Gray(Cycle(w, Pow2(aw + 1)), aw + 1) {
      GrayInjective(Cycle(r, Pow2(aw + 1)), Cycle(w, Pow2(aw + 1)), aw + 1);
      CycleInjective(r, w, Pow2(aw + 1));
    }
  }

  /** The address of the pointer after `n` transfers. */
  lemma {:induction false} IndexOfCount(aw: nat, n: nat)
    ensures Index(aw, Cycle(n, Pow2(aw + 1))) == Cycle(n, Pow2(aw))
  {
    if n > 0 { IndexOfCount(aw, n - 1); }
  }

  lemma {:induction false} SampleOfFlip(g: Word, k: nat, late: Word)
    requires k < g.Width()
    ensures Sample(g, Flip(g, k), late) == g || Sample(g, Flip(g, k), late) == Flip(g, k)
  {
    var late' := if late.Empty? then Empty else late.rest;
    if k == 0 { SampleOfSame(g.rest, late'); } else { SampleOfFlip(g.rest, k - 1, late'); }
  }

  lemma {:induction false} SampleOfSame(g: Word, late: Word)
    ensures Sample(g, g, late) == g
    decreases g
  {
    if g.Bit? { SampleOfSame(g.rest, if late.Empty? then Empty else late.rest); }
  }

  /** However the bits of a pointer in flight resolve, the sample is the old or the new pointer. */
  lemma SampleIsOldOrNew(aw: nat, seen: Word, now: Word, nSeen: nat, nNow: nat, late: Word)
    requires Points(aw, seen, nSeen) && Points(aw, now, nNow) && nSeen <= nNow <= nSeen + 1
    ensures Sample(seen, now, late) == now || Sample(seen, now, late) == seen
  {
    if nNow == nSeen + 1 {
      var k := GrayStep(Cycle(nSeen, Pow2(aw + 1)), aw + 1);
      SampleOfFlip(seen, k, late);
    } else {
      SampleOfSame(now, late);
    }
  }

  // ----- preservation

  lemma WriteKeepsPointers<T>(aw: nat, r: Run<T>, e: Event<T>)
    requires Inv(aw, r) && e.InClk?
    ensures PointersInv(aw, Step(aw, r, e))
  {
    var s := r.regs;
    SampleIsOldOrNew(aw, s.rSeen, s.rGray, r.rSeen, |r.read|, e.late);
  }

  lemma WriteKeepsFlags<T>(aw: nat, r: Run<T>, e: Event<T>)
    requires Inv(aw, r) && e.InClk?
    ensures FlagsInv(aw, Step(aw, r, e))
  {
    var t := Step(aw, r, e);
    assert |t.written| <= r.rSync1 + Pow2(aw);
    FullTest(aw, r.rSync1, |t.written|);
  }

  lemma ReadKeepsPointers<T>(aw: nat, r: Run<T>, e: Event<T>)
    requires Inv(aw, r) && e.OutClk?
    ensures PointersInv(aw, Step(aw, r, e))
  {
    var s := r.regs;
    SampleIsOldOrNew(aw, s.wSeen, s.wGray, r.wSeen, |r.written|, e.late);
  }

  lemma ReadKeepsFlags<T>(aw: nat, r: Run<T>, e: Event<T>)
    requires Inv(aw, r) && e.OutClk?
    ensures FlagsInv(aw, Step(aw, r, e))
  {
    var t := Step(aw, r, e);
    assert |t.read| <= r.wSync1;
    EmptyTest(aw, |t.read|, r.wSync1);
  }

  lemma WriteKeepsData<T>(aw: nat, r: Run<T>, e: Event<T>)
    requires Inv(aw, r) && e.InClk?
    ensures DataInv(aw, Step(aw, r, e))
  {
    var s, t, w, n := r.regs, Step(aw, r, e), |r.written|, |r.read|;
    IndexOfCount(aw, w);
    if e.en && !s.wFull {
      forall k | n <= k < w + 1 ensures t.regs.memory[Cycle(k, Pow2(aw))] == t.written[k] {
        if k < w { CycleInjective(k, w, Pow2(aw)); }
      }
    }
  }

  lemma ReadKeepsData<T>(aw: nat, r: Run<T>, e: Event<T>)
    requires Inv(aw, r) && e.OutClk?
    ensures DataInv(aw, Step(aw, r, e))
  {
    IndexOfCount(aw, |r.read|);
  }

  lemma StepKeepsInv<T>(aw: nat, r: Run<T>, e: Event<T>)
    requires Inv(aw, r)
    ensures Inv(aw, Step(aw, r, e))
  {
    if e.InClk? {
      WriteKeepsPointers(aw, r, e);
      WriteKeepsFlags(aw, r, e);
      WriteKeepsData(aw, r, e);
    } else {
      ReadKeepsPointers(aw, r, e);
      ReadKeepsFlags(aw, r, e);
      ReadKeepsData(aw, r, e);
    }
  }

  lemma {:induction false} ReachableInv<T>(aw: nat, memory: seq<T>, dout: T, es: seq<Event<T>>)
    requires 2 <= aw && |memory| == Pow2(aw)
    ensures Inv(aw, Steps(aw, Start(aw, memory, dout), es))
    decreases |es|
  {
    if es == [] {
      GrayOfZero(aw + 1);
    } else {
      ReachableInv(aw, memory, dout, es[..|es| - 1]);
      StepKeepsInv(aw, Steps(aw, Start(aw, memory, dout), es[..|es| - 1]), es[|es| - 1]);
    }
  }

  lemma {:induction false} GrayOfZero(w: nat)
    ensures Gray(0, w) == ToWord(0, w)
  {
    if w > 0 { GrayOfZero(w - 1); }
  }

  // ----- main results

  /**
   The words read are the first words written, in order; never more than DEPTH words are in
   the memory; an edge that accepts a word finds a free slot, and one that delivers a word
   finds a stored one, in a slot that is not the one being written.
   */
  ghost predicate Safe<T>(aw: nat, r: Run<T>)
    requires Shape(aw, r.regs)
  {
    && r.read <= r.written
    && |r.written| - |r.read| <= Pow2(aw)
    && (!r.regs.wFull ==> |r.written| - |r.read| < Pow2(aw))
    && (!r.regs.rEmpty ==> |r.read| < |r.written|)
    && (!r.regs.wFull && !r.regs.rEmpty ==> Index(aw, r.regs.wBin) != Index(aw, r.regs.rBin))
    && (r.read != [] ==> r.regs.dout == r.read[|r.read| - 1])
  }

  lemma InvIsSafe<T>(aw: nat, r: Run<T>)
    requires Inv(aw, r)
    ensures Safe(aw, r)
  {
    IndexOfCount(aw, |r.written|);
    IndexOfCount(aw, |r.read|);
    if !r.regs.wFull && !r.regs.rEmpty {
      CycleInjective(|r.read|, |r.written|, Pow2(aw));
    }
  }

  /** For every interleaving of the two clocks and every resolution of every sampled bit. */
  lemma Safety<T>(aw: nat, memory: seq<T>, dout: T, es: seq<Event<T>>)
    requires 2 <= aw && |memory| == Pow2(aw)
    ensures Safe(aw, Steps(aw, Start(aw, memory, dout), es))
  {
    ReachableInv(aw, memory, dout, es);
    InvIsSafe(aw, Steps(aw, Start(aw, memory, dout), es));
  }

  /** After every edge of a side, whatever was transferred and arrived in it, its flag is exact for what it compared. */
  lemma FlagsAreExact<T>(aw: nat, r: Run<T>, e: Event<T>)
    requires Inv(aw, r)
    ensures var t := Step(aw, r, e);
      if e.OutClk? then t.wTold == r.wSync1 && (t.regs.rEmpty <==> |t.read| == r.wSync1)
      else t.rTold == r.rSync1 && (t.regs.wFull <==> |t.written| == r.rSync1 + Pow2(aw))
  {
    StepKeepsInv(aw, r, e);
  }

  /**
   In every run: a read is refused only if all words that the reader has been told of are read, and a write only if
   all slots that the writer has been told to be free are taken. Every other access transfers a word.
   */
  lemma RefusedExactly<T>(aw: nat, memory: seq<T>, dout: T, es: seq<Event<T>>, e: Event<T>)
    requires 2 <= aw && |memory| == Pow2(aw) && e.en
    ensures var r, t := Steps(aw, Start(aw, memory, dout), es), Step(aw, Steps(aw, Start(aw, memory, dout), es), e);
      if e.OutClk? then
        |r.read| <= r.wTold && if |r.read| == r.wTold then t.read == r.read else |t.read| == |r.read| + 1
      else
        && |r.written| <= r.rTold + Pow2(aw)
        && t.written == if |r.written| == r.rTold + Pow2(aw) then r.written else r.written + [e.data]
  {
    ReachableInv(aw, memory, dout, es);
  }

  /** A read clock in which no bit arrives late: the pointer moves one stage on. */
  lemma TimelyRead<T>(aw: nat, r: Run<T>, en: bool)
    requires Inv(aw, r)
    ensures var t := Step(aw, r, OutClk(en, Empty));
      && Inv(aw, t) && t.written == r.written
      && t.wSync0 == |r.written| && t.wSync1 == r.wSync0 && t.wTold == r.wSync1
  {
    SampleWithNoneLate(r.regs.wSeen, r.regs.wGray);
    StepKeepsInv(aw, r, OutClk(en, Empty));
  }

  lemma TimelyWrite<T>(aw: nat, r: Run<T>, en: bool, d: T)
    requires Inv(aw, r)
    ensures var t := Step(aw, r, InClk(en, d, Empty));
      && Inv(aw, t) && t.read == r.read
      && t.rSync0 == |r.read| && t.rSync1 == r.rSync0 && t.rTold == r.rSync1
  {
    SampleWithNoneLate(r.regs.rSeen, r.regs.rGray);
    StepKeepsInv(aw, r, InClk(en, d, Empty));
  }

  lemma {:induction false} SampleWithNoneLate(seen: Word, now: Word)
    requires seen.Width() == now.Width()
    ensures Sample(seen, now, Empty) == now
    decreases now
  {
    if now.Bit? { SampleWithNoneLate(seen.rest, now.rest); }
  }

  /**
   The flags do not lag for ever: after three read clocks in which no bit arrives late, and no write, `rEmpty` is
   exactly "everything written has been read", whether the reader asks in these clocks or not.
   */
  lemma EmptyBecomesExact<T>(aw: nat, r: Run<T>, en0: bool, en1: bool, en2: bool)
    requires Inv(aw, r)
    ensures var a := Step(aw, r, OutClk(en0, Empty));
      var b := Step(aw, a, OutClk(en1, Empty));
      var t := Step(aw, b, OutClk(en2, Empty));
      t.regs.rEmpty <==> t.read == t.written
  {
    var a := Step(aw, r, OutClk(en0, Empty));
    var b := Step(aw, a, OutClk(en1, Empty));
    TimelyRead(aw, r, en0);
    TimelyRead(aw, a, en1);
    TimelyRead(aw, b, en2);
  }

  /** The same for the writer: after three write clocks and no read `wFull` is exactly "DEPTH words stored". */
  lemma FullBecomesExact<T>(aw: nat, r: Run<T>, en0: bool, en1: bool, en2: bool, d: T)
    requires Inv(aw, r)
    ensures var a := Step(aw, r, InClk(en0, d, Empty));
      var b := Step(aw, a, InClk(en1, d, Empty));
      var t := Step(aw, b, InClk(en2, d, Empty));
      t.regs.wFull <==> |t.written| - |t.read| == Pow2(aw)
  {
    var a := Step(aw, r, InClk(en0, d, Empty));
    var b := Step(aw, a, InClk(en1, d, Empty));
    TimelyWrite(aw, r, en0, d);
    TimelyWrite(aw, a, en1, d);
    TimelyWrite(aw, b, en2, d);
  }

  // ----- the component

  /** The registers of the component; each method is one rising edge of one clock. */
  class Fifo<T> {
    const aw: nat
    const memory: array<T>
    var wBin: nat
    var wGray: Word
    var wFull: bool
    var rGrayOutReg0: Word
    var rGrayOutReg1: Word
    var rBin: nat
    var rGray: Word
    var rEmpty: bool
    var wGrayOutReg0: Word
    var wGrayOutReg1: Word
    var rReg: T
    ghost var wWire: Word
    ghost var rWire: Word

    ghost function State(): Regs<T>
      reads this, memory
    {
      Regs(wBin, wGray, wFull, rGrayOutReg0, rGrayOutReg1, memory[..],
           rBin, rGray, rEmpty, wGrayOutReg0, wGrayOutReg1, rReg, wWire, rWire)
    }

    ghost predicate Valid()
      reads this, memory
    {
      2 <= aw && Shape(aw, State())
    }

    constructor (aw: nat, memory: array<T>, rReg: T)
      requires 2 <= aw && memory.Length == Pow2(aw)
      ensures this.aw == aw && this.memory == memory && Valid()
      ensures State() == Reset(aw, memory[..], rReg)
    {
      this.aw := aw;
      wBin, wFull, rBin, rEmpty := 0, false, 0, true;
      wGray, rGrayOutReg0, rGrayOutReg1 := ToWord(0, aw + 1), ToWord(0, aw + 1), ToWord(0, aw + 1);
      rGray, wGrayOutReg0, wGrayOutReg1 := ToWord(0, aw + 1), ToWord(0, aw + 1), ToWord(0, aw + 1);
      this.memory, this.rReg := memory, rReg;
      wWire, rWire := ToWord(0, aw + 1), ToWord(0, aw + 1);
    }

    /**
     Rising edge of dataIn_clk; `arriving` is what the first synchronizer stage captures. `WriteEdge` keeps
     `Valid()`.
     */
    method DataInClk(en: bool, data: T, arriving: Word, ghost late: Word) returns (wait: bool)
      requires Valid()
      requires arriving == Sample(rWire, rGray, late)
      modifies this, memory
      ensures wait == old(wFull)
      ensures State() == WriteEdge(aw, old(State()), en, data, late)
    {
      wait := wFull;
      var wEn := en && !wFull;
      var wBinNext := wBin;
      if wEn {
        var addr := LowBits(wBin);
        memory[addr] := data;
        wBinNext := Increment(wBin);
      }
      var wGrayNext := GrayOf(wBinNext);
      wFull := wGrayNext == InvertTopTwo(rGrayOutReg1);
      wWire, wBin, wGray := wGray, wBinNext, wGrayNext;
      rGrayOutReg0, rGrayOutReg1, rWire := arriving, rGrayOutReg0, arriving;
    }

    /** Rising edge of dataOut_clk. */
    method DataOutClk(en: bool, arriving: Word, ghost late: Word) returns (wait: bool)
      requires Valid()
      requires arriving == Sample(wWire, wGray, late)
      modifies this
      ensures wait == old(rEmpty)
      ensures State() == ReadEdge(aw, old(State()), en, late)
    {
      wait := rEmpty;
      var rEn := en && !rEmpty;
      var rBinNext := rBin;
      if rEn {
        var addr := LowBits(rBin);
        rReg := memory[addr];
        rBinNext := Increment(rBin);
      }
      var rGrayNext := GrayOf(rBinNext);
      rEmpty := rGrayNext == wGrayOutReg1;
      rWire, rBin, rGray := rGray, rBinNext, rGrayNext;
      wGrayOutReg0, wGrayOutReg1, wWire := arriving, wGrayOutReg0, arriving;
    }

    /** `+ 1` on a pointer register, which is AW + 1 bits wide. */
    method Increment(x: nat) returns (y: nat)
      requires x < Pow2(aw + 1)
      ensures y == Next(x, aw + 1)
    {
      y := x + 1;
      if y == Pow2(aw + 1) { y := 0; }
    }

    method LowBits(x: nat) returns (i: nat)
      requires x < Pow2(aw + 1)
      ensures i == Index(aw, x)
    {
      i := x;
      if Pow2(aw) <= i { i := i - Pow2(aw); }
    }

    method GrayOf(x: nat) returns (g: Word)
      requires x < Pow2(aw + 1)
      ensures g == Gray(x, aw + 1)
    {
      g := BinToGray(ToWord(x, aw + 1));
      BinToGrayIsGray(x, aw + 1);
    }
  }
}
