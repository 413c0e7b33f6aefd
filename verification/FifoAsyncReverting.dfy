/**
 Why a bit of a pointer in flight must not be seen old again once it was seen new: a run of the FIFO with
 four slots in which this happens once, and which ends with five words in it.
 */
module FifoAsyncReverting {
  import opened Arithmetic
  import opened GrayCode
  import opened FifoAsync

  /** All bits arrive late. */
  function AllLate(w: nat): (g: Word)
    ensures g.Width() == w
  {
    if w == 0 then Empty else Bit(true, AllLate(w - 1))
  }

  lemma {:induction false} SampleAllLate(seen: Word, now: Word, w: nat)
    requires seen.Width() == now.Width() == w
    ensures Sample(seen, now, AllLate(w)) == seen
  {
    if w > 0 { SampleAllLate(seen.rest, now.rest, w - 1); }
  }

  /** The run up to the clock in which the writer sees that the reader has taken a word. */
  ghost function Before<T>(memory: seq<T>, dout: T, d: T): (r: Run<T>)
    requires |memory| == 4
    ensures Shape(2, r.regs)
  {
    assert Pow2(2) == 4;
    var idle := OutClk(false, Empty);
    var a := Step(2, Start(2, memory, dout), InClk(true, d, Empty));
    var b := Step(2, Step(2, Step(2, a, idle), idle), idle);
    Step(2, Step(2, b, OutClk(true, Empty)), InClk(true, d, Empty))
  }

  /** The writer sees the pointer it saw before. */
  ghost function Reverted<T>(r: Run<T>): (t: Run<T>)
    requires Shape(2, r.regs)
    ensures Shape(2, t.regs)
  {
    GrayOfZero(3);
    r.(regs := r.regs.(rSeen := ToWord(0, 3)))
  }

  /** The next four words are written while all bits of the read pointer are late. */
  ghost function FourWrites<T>(r: Run<T>, d: T): (t: Run<T>)
    requires Shape(2, r.regs)
    ensures Shape(2, t.regs)
  {
    var write := InClk(true, d, AllLate(3));
    Step(2, Step(2, Step(2, Step(2, r, write), write), write), write)
  }

  lemma Eight()
    ensures Pow2(2) == 4 && Pow2(3) == 8 && forall n: nat :: n < 8 ==> Cycle(n, 8) == n
  {
    assert Pow2(2) == 2 * Pow2(1) == 4 * Pow2(0);
    forall n: nat | n < 8 ensures Cycle(n, 8) == n { CycleAdd(0, n, 8); }
  }

  /**
   The writer after `w` words, with the read pointers `seen`, `sync0`, `sync1` on their way to it; one word was
   read.
   */
  ghost predicate Writer<T>(r: Run<T>, w: nat, seen: nat, sync0: nat, sync1: nat) {
    && Shape(2, r.regs) && w < 8 && seen < 8 && sync0 < 8 && sync1 < 8
    && |r.written| == w && |r.read| == 1 && r.regs.wBin == w && !r.regs.wFull
    && r.regs.rGray == Gray(1, 3) && r.regs.rSeen == Gray(seen, 3)
    && r.regs.rSync0 == Gray(sync0, 3) && r.regs.rSync1 == Gray(sync1, 3)
  }

  lemma FirstWord<T>(memory: seq<T>, dout: T, d: T)
    requires |memory| == 4
    ensures Pow2(2) == 4
    ensures var a := Step(2, Start(2, memory, dout), InClk(true, d, Empty));
      Inv(2, a) && a.written == [d] && a.read == [] && a.rSync1 == a.rSync0 == 0
  {
    Eight();
    ReachableInv(2, memory, dout, []);
    StepKeepsInv(2, Start(2, memory, dout), InClk(true, d, Empty));
  }

  lemma WordIsRead<T>(a: Run<T>)
    requires Inv(2, a) && |a.written| == 1 && a.read == [] && a.rSync1 == a.rSync0 == 0
    ensures var idle := OutClk(false, Empty);
      var t := Step(2, Step(2, Step(2, Step(2, a, idle), idle), idle), OutClk(true, Empty));
      Inv(2, t) && t.written == a.written && |t.read| == 1 && t.rSeen == 0 && t.rSync1 == t.rSync0 == 0
      && t.regs.wFull == a.regs.wFull
  {
    var idle := OutClk(false, Empty);
    var b := Step(2, a, idle);
    var c := Step(2, b, idle);
    TimelyRead(2, a, false);
    TimelyRead(2, b, false);
    TimelyRead(2, c, false);
    StepKeepsInv(2, Step(2, c, idle), OutClk(true, Empty));
  }

  lemma WriterSeesRead<T>(t: Run<T>, d: T)
    requires Inv(2, t) && |t.written| == 1 && |t.read| == 1 && t.rSeen == 0 && t.rSync1 == t.rSync0 == 0
             && !t.regs.wFull
    ensures Writer(Step(2, t, InClk(true, d, Empty)), 2, 1, 1, 0)
  {
    var u := Step(2, t, InClk(true, d, Empty));
    Eight();
    StepKeepsInv(2, t, InClk(true, d, Empty));
    SampleWithNoneLate(t.regs.rSeen, t.regs.rGray);
    FullTest(2, 0, 2);
  }

  /** A write while the read pointer is late: the full test is made against what was in the second stage before. */
  lemma WriteLate<T>(r: Run<T>, d: T, w: nat, seen: nat, sync0: nat, sync1: nat)
    requires Writer(r, w, seen, sync0, sync1) && w < 7 && sync1 < 4 && w + 1 != sync1 + 4
    ensures Writer(Step(2, r, InClk(true, d, AllLate(3))), w + 1, seen, seen, sync0)
  {
    Eight();
    SampleAllLate(r.regs.rSeen, r.regs.rGray, 3);
    HalfTurnTest(sync1, w + 1, 3);
  }

  /**
   The writer accepts every word, since at each of its clocks `wFull` is low, and there are five words in four
   slots.
   */
  lemma RevertingOverflows<T>(memory: seq<T>, dout: T, d: T)
    requires |memory| == 4
    ensures var a, t := Before(memory, dout, d), FourWrites(Reverted(Before(memory, dout, d)), d);
      && Inv(2, a) && a.regs.rSync0 == a.regs.rGray
      && |t.written| - |t.read| == 5 && !Safe(2, t)
  {
    Eight();
    var idle := OutClk(false, Empty);
    var first := Step(2, Start(2, memory, dout), InClk(true, d, Empty));
    FirstWord(memory, dout, d);
    WordIsRead(first);
    var b := Step(2, Step(2, Step(2, Step(2, first, idle), idle), idle), OutClk(true, Empty));
    WriterSeesRead(b, d);
    var a := Before(memory, dout, d);
    StepKeepsInv(2, b, InClk(true, d, Empty));
    var r, write := Reverted(a), InClk(true, d, AllLate(3));
    GrayOfZero(3);
    assert Writer(r, 2, 0, 1, 0);
    WriteLate(r, d, 2, 0, 1, 0);
    var r1 := Step(2, r, write);
    WriteLate(r1, d, 3, 0, 0, 1);
    var r2 := Step(2, r1, write);
    WriteLate(r2, d, 4, 0, 0, 0);
    WriteLate(Step(2, r2, write), d, 5, 0, 0, 0);
  }
}
