/**
 The AXI-stream width converter: several narrow beats become one wide word, and a wide word becomes beats
 again. A word consists of `n` items; the byte strobes of an item are a number, 0 if none of its bytes is valid.
 */
module StreamResizer {
  import opened Queues
  import opened HandshakedReg

  datatype Item = Item(data: nat, strb: nat)

  datatype Beat = Beat(item: Item, last: bool)

  datatype Word = Word(items: seq<Item>, last: bool)

  const ZERO: Item := Item(0, 0)

  // ----- what the two directions mean, without clocks

  /** Beats of one word; the items without a beat are cleared. */
  function Join(n: nat, chunk: seq<Beat>): (w: Word)
    requires 0 < |chunk| <= n
    ensures |w.items| == n
  {
    Word(seq(n, i => if 0 <= i < |chunk| then chunk[i].item else ZERO), chunk[|chunk| - 1].last)
  }

  /** The words made of a stream of beats, and the beats of a word that is not complete yet. */
  datatype Grouped = Grouped(words: seq<Word>, open: seq<Beat>)

  predicate Completes(n: nat, open: seq<Beat>, b: Beat) {
    |open| == n - 1 || b.last
  }

  /** A word is complete with its last item or with the last beat of a frame. */
  function Group(n: nat, beats: seq<Beat>): (g: Grouped)
    requires 0 < n
    ensures |g.open| < n && |g.open| <= |beats|
    ensures forall w :: w in g.words ==> |w.items| == n
    ensures forall b :: b in g.open ==> !b.last
  {
    if beats == [] then Grouped([], [])
    else
      var g, b := Group(n, beats[..|beats| - 1]), beats[|beats| - 1];
      if Completes(n, g.open, b) then Grouped(g.words + [Join(n, g.open + [b])], []) else Grouped(g.words, g.open + [b])
  }

  /** No item after `i` has a valid byte, or there is no such item. */
  predicate IsLastItem(w: Word, i: nat) {
    i == |w.items| - 1 || forall k :: i < k < |w.items| ==> w.items[k].strb == 0
  }

  /** The number of beats that a word becomes, counted from the item `i`. */
  function BeatsFrom(w: Word, i: nat): (m: nat)
    requires i < |w.items|
    ensures 1 <= m <= |w.items| - i
    ensures forall k :: i <= k < i + m ==> (IsLastItem(w, k) <==> k == i + m - 1)
    decreases |w.items| - i
  {
    if IsLastItem(w, i) then 1 else 1 + BeatsFrom(w, i + 1)
  }

  function Split(w: Word): (beats: seq<Beat>)
    requires w.items != []
    ensures 1 <= |beats| <= |w.items|
  {
    var m := BeatsFrom(w, 0);
    seq(m, i requires 0 <= i < m => Beat(w.items[i], w.last && i == m - 1))
  }

  ghost predicate Words(n: nat, ws: seq<Word>) {
    0 < n && forall w :: w in ws ==> |w.items| == n
  }

  function Flatten(n: nat, ws: seq<Word>): seq<Beat>
    requires Words(n, ws)
  {
    if ws == [] then [] else Flatten(n, ws[..|ws| - 1]) + Split(ws[|ws| - 1])
  }

  // ----- widening and narrowing a stream gives it back

  /** The beat that completes a word has a valid byte, or the word has no other beat. */
  predicate Recoverable(open: seq<Beat>, b: Beat) {
    open == [] || b.item.strb != 0
  }

  /** All beats that complete a word are such. */
  predicate AllRecoverable(n: nat, beats: seq<Beat>)
    requires 0 < n
  {
    beats == []
    || (var before, b := beats[..|beats| - 1], beats[|beats| - 1];
        AllRecoverable(n, before)
        && (Completes(n, Group(n, before).open, b) ==> Recoverable(Group(n, before).open, b)))
  }

  /** Splitting a joined word gives its beats exactly if its last beat can be told from a cleared item. */
  lemma SplitJoin(n: nat, open: seq<Beat>, b: Beat)
    requires |open| < n && forall x :: x in open ==> !x.last
    ensures var m := |Split(Join(n, open + [b]))|;
      m <= |open| + 1 && (m == |open| + 1 ==> Split(Join(n, open + [b])) == open + [b])
    ensures Split(Join(n, open + [b])) == open + [b] <==> Recoverable(open, b)
  {
    var w, k := Join(n, open + [b]), |open|;
    var m := BeatsFrom(w, 0);
    assert forall j :: k < j < n ==> w.items[j] == ZERO;
    assert w.items[k] == b.item;
    assert IsLastItem(w, k);
    if open != [] {
      assert IsLastItem(w, k - 1) <==> b.item.strb == 0;
    }
    if m == k + 1 {
      forall j | 0 <= j < k ensures Split(w)[j] == open[j] {
        assert !open[j].last && w.items[j] == open[j].item;
      }
      assert Split(w)[k] == b;
      assert Split(w) == open + [b];
    } else {
      assert IsLastItem(w, m - 1) && w.items[k].strb == 0;
    }
  }

  /** One more beat, which completes a word or not. */
  lemma FlattenNext(n: nat, ws: seq<Word>, open: seq<Beat>, before: seq<Beat>, b: Beat)
    requires Words(n, ws) && |open| < n && forall x :: x in open ==> !x.last
    requires |Flatten(n, ws)| + |open| <= |before|
    ensures if Completes(n, open, b) then
              var f := Flatten(n, ws + [Join(n, open + [b])]);
              && |f| <= |before| + 1
              && (f + [] == before + [b] <==> Flatten(n, ws) + open == before && Recoverable(open, b))
            else Flatten(n, ws) + (open + [b]) == before + [b] <==> Flatten(n, ws) + open == before
  {
    var f := Flatten(n, ws);
    if Completes(n, open, b) {
      SplitJoin(n, open, b);
      AppendWord(n, ws, Join(n, open + [b]));
      SameEnds(f, open, before, Split(Join(n, open + [b])), b);
    } else {
      assert f + (open + [b]) == (f + open) + [b];
      assert (f + open + [b])[..|f + open|] == f + open;
    }
  }

  lemma {:induction false} FlattenGroup(n: nat, beats: seq<Beat>)
    requires 0 < n
    ensures var g := Group(n, beats);
      && |Flatten(n, g.words)| + |g.open| <= |beats|
      && (Flatten(n, g.words) + g.open == beats <==> AllRecoverable(n, beats))
    decreases |beats|
  {
    if beats != [] {
      var before, b := beats[..|beats| - 1], beats[|beats| - 1];
      FlattenGroup(n, before);
      assert beats == before + [b];
      FlattenNext(n, Group(n, before).words, Group(n, before).open, before, b);
    }
  }

  lemma AppendWord(n: nat, ws: seq<Word>, w: Word)
    requires Words(n, ws) && |w.items| == n
    ensures Words(n, ws + [w]) && Flatten(n, ws + [w]) == Flatten(n, ws) + Split(w)
  {
    assert (ws + [w])[..|ws + [w]| - 1] == ws;
  }

  /** A shorter or different end cannot be made up for by what precedes it. */
  lemma SameEnds<T>(f: seq<T>, open: seq<T>, before: seq<T>, split: seq<T>, b: T)
    requires |f| + |open| <= |before| && |split| <= |open| + 1
    requires |split| == |open| + 1 ==> split == open + [b]
    ensures (f + split) + [] == before + [b] <==> f + open == before && split == open + [b]
  {
    if f + split == before + [b] {
      assert |f| + |split| == |before| + 1;
      assert f + split == (f + open) + [b];
      assert (f + split)[..|before|] == f + open;
    }
    if f + open == before && split == open + [b] {
      assert f + (open + [b]) == (f + open) + [b];
    }
  }

  // ----- widening, clock by clock

  datatype UpRegs = UpRegs(items: seq<Item>, cntr: nat)

  predicate UpIsLast(s: UpRegs, b: Beat) {
    s.cntr == |s.items| - 1 || b.last
  }

  /** `b` is on the input, valid or not; the consumer is ready or not. */
  function UpStep(s: UpRegs, vld: bool, b: Beat, rdy: bool): (t: UpRegs)
    requires s.cntr < |s.items|
    ensures |t.items| == |s.items| && t.cntr < |t.items|
  {
    var hs, last := vld && rdy, UpIsLast(s, b);
    UpRegs(if hs && last then seq(|s.items|, i => ZERO) else if vld then s.items[s.cntr := b.item] else s.items,
           if hs then if last then 0 else s.cntr + 1 else s.cntr)
  }

  predicate UpValid(s: UpRegs, vld: bool, b: Beat) {
    vld && UpIsLast(s, b)
  }

  /** The word on the output. */
  function UpOut(s: UpRegs, b: Beat): Word
    requires s.cntr < |s.items|
  {
    Word(s.items[s.cntr := b.item], b.last)
  }

  /**
   The registers hold the beats of an incomplete word; the next item may already be filled with a beat not yet
   taken.
   */
  ghost predicate UpHolds(s: UpRegs, open: seq<Beat>) {
    && s.cntr == |open| < |s.items|
    && (forall i :: 0 <= i < |open| ==> s.items[i] == open[i].item)
    && (forall i :: |open| < i < |s.items| ==> s.items[i] == ZERO)
  }

  lemma UpKeeps(s: UpRegs, open: seq<Beat>, vld: bool, b: Beat, rdy: bool)
    requires UpHolds(s, open)
    ensures var t, n := UpStep(s, vld, b, rdy), |s.items|;
      && UpHolds(t, if !(vld && rdy) then open else if Completes(n, open, b) then [] else open + [b])
      && (UpValid(s, vld, b) ==> Completes(n, open, b) && UpOut(s, b) == Join(n, open + [b]))
      && (vld && Completes(n, open, b) ==> UpValid(s, vld, b))
  {
    assert (open + [b])[|open|] == b;
    if UpValid(s, vld, b) {
      assert UpOut(s, b).items == Join(|s.items|, open + [b]).items;
    }
  }

  // ----- narrowing, clock by clock

  /** The input register and the index of the item on the output. */
  datatype DownRegs = DownRegs(reg: Stage<Word>, cntr: nat)

  predicate DownTakes(s: DownRegs, rdy: bool) {
    rdy && IsLastItem(s.reg.data, s.cntr) && s.reg.occupied
  }

  predicate DownReady(s: DownRegs, rdy: bool) {
    !s.reg.occupied || DownTakes(s, rdy)
  }

  function DownStep(s: DownRegs, vld: bool, w: Word, rdy: bool): DownRegs {
    DownRegs(StageStep(s.reg, vld, w, DownTakes(s, rdy)),
             if s.reg.occupied && rdy then if IsLastItem(s.reg.data, s.cntr) then 0 else s.cntr + 1 else s.cntr)
  }

  function DownOut(s: DownRegs): Beat
    requires s.cntr < |s.reg.data.items|
  {
    Beat(s.reg.data.items[s.cntr], s.reg.data.last && IsLastItem(s.reg.data, s.cntr))
  }

  ghost predicate DownInv(n: nat, s: DownRegs) {
    && 0 < n == |s.reg.data.items|
    && s.cntr < if s.reg.occupied then |Split(s.reg.data)| else 1
  }

  /** The beats of the word in the register that are still to come. */
  function Pending(s: DownRegs): seq<Beat>
    requires s.reg.occupied ==> s.reg.data.items != [] && s.cntr <= |Split(s.reg.data)|
  {
    if s.reg.occupied then Split(s.reg.data)[s.cntr..] else []
  }

  lemma DownKeeps(n: nat, s: DownRegs, vld: bool, w: Word, rdy: bool)
    requires DownInv(n, s) && |w.items| == n
    ensures var t, q := DownStep(s, vld, w, rdy), Pending(s);
      && DownInv(n, t)
      && (s.reg.occupied <==> q != []) && (q != [] ==> DownOut(s) == q[0])
      && (DownReady(s, rdy) <==> |q| <= if rdy then 1 else 0)
      && Pending(t) == (if s.reg.occupied && rdy then q[1..] else q) + if vld && DownReady(s, rdy) then Split(w) else []
  {
    var t := DownStep(s, vld, w, rdy);
    if s.reg.occupied {
      var m := |Split(s.reg.data)|;
      assert IsLastItem(s.reg.data, s.cntr) <==> s.cntr == m - 1;
    }
  }

  // ----- runs

  datatype UpClock = UpClock(vld: bool, beat: Beat, rdy: bool)

  datatype UpRun = UpRun(regs: UpRegs, accepted: seq<Beat>, delivered: seq<Word>)

  function Cleared(n: nat): UpRegs {
    UpRegs(seq(n, i => ZERO), 0)
  }

  ghost function UpNext(r: UpRun, c: UpClock): UpRun
    requires r.regs.cntr < |r.regs.items|
  {
    UpRun(UpStep(r.regs, c.vld, c.beat, c.rdy),
          if c.vld && c.rdy then r.accepted + [c.beat] else r.accepted,
          if UpValid(r.regs, c.vld, c.beat) && c.rdy then r.delivered + [UpOut(r.regs, c.beat)] else r.delivered)
  }

  ghost function UpSteps(n: nat, cs: seq<UpClock>): (r: UpRun)
    requires 0 < n
    ensures |r.regs.items| == n && r.regs.cntr < n
    decreases |cs|
  {
    if cs == [] then UpRun(Cleared(n), [], []) else UpNext(UpSteps(n, cs[..|cs| - 1]), cs[|cs| - 1])
  }

  /** In every run the words delivered are those of the accepted beats, and the registers hold the rest. */
  lemma {:induction false} Widens(n: nat, cs: seq<UpClock>)
    requires 0 < n
    ensures var r := UpSteps(n, cs); var g := Group(n, r.accepted);
      r.delivered == g.words && UpHolds(r.regs, g.open)
    decreases |cs|
  {
    if cs != [] {
      Widens(n, cs[..|cs| - 1]);
      var r, c := UpSteps(n, cs[..|cs| - 1]), cs[|cs| - 1];
      UpKeeps(r.regs, Group(n, r.accepted).open, c.vld, c.beat, c.rdy);
      if c.vld && c.rdy {
        assert (r.accepted + [c.beat])[..|r.accepted + [c.beat]| - 1] == r.accepted;
      }
    }
  }

  datatype DownClock = DownClock(vld: bool, word: Word, rdy: bool)

  datatype DownRun = DownRun(regs: DownRegs, accepted: seq<Word>, delivered: seq<Beat>)

  ghost predicate DownInputs(n: nat, cs: seq<DownClock>) {
    forall i :: 0 <= i < |cs| ==> |cs[i].word.items| == n
  }

  ghost function DownNext(n: nat, r: DownRun, c: DownClock): (t: DownRun)
    requires DownInv(n, r.regs) && Words(n, r.accepted) && |c.word.items| == n
    ensures Words(n, t.accepted)
  {
    DownRun(DownStep(r.regs, c.vld, c.word, c.rdy),
            if c.vld && DownReady(r.regs, c.rdy) then r.accepted + [c.word] else r.accepted,
            if r.regs.reg.occupied && c.rdy then r.delivered + [DownOut(r.regs)] else r.delivered)
  }

  lemma NarrowsNext(n: nat, r: DownRun, c: DownClock)
    requires DownInv(n, r.regs) && Words(n, r.accepted) && |c.word.items| == n
    requires Flatten(n, r.accepted) == r.delivered + Pending(r.regs)
    ensures var t := DownNext(n, r, c);
      DownInv(n, t.regs) && Flatten(n, t.accepted) == t.delivered + Pending(t.regs)
  {
    DownKeeps(n, r.regs, c.vld, c.word, c.rdy);
    Appended(n, r.accepted, c.word, c.vld && DownReady(r.regs, c.rdy));
    Flows(r.delivered, Pending(r.regs), DownOut(r.regs), r.regs.reg.occupied && c.rdy,
          if c.vld && DownReady(r.regs, c.rdy) then Split(c.word) else []);
  }

  lemma Appended(n: nat, ws: seq<Word>, w: Word, accept: bool)
    requires Words(n, ws) && |w.items| == n
    ensures var ws' := if accept then ws + [w] else ws;
      Words(n, ws') && Flatten(n, ws') == Flatten(n, ws) + if accept then Split(w) else []
  {
    if accept { AppendWord(n, ws, w); }
  }

  lemma Flows<T>(delivered: seq<T>, q: seq<T>, out: T, take: bool, more: seq<T>)
    requires take ==> q != [] && q[0] == out
    ensures (delivered + q) + more
         == (if take then delivered + [out] else delivered) + ((if take then q[1..] else q) + more)
  {
    Conserve(delivered + q, delivered, q, out, take, more);
  }

  /** The input register is empty after reset; what it shows then is arbitrary. */
  ghost function DownSteps(n: nat, undefined: Word, cs: seq<DownClock>): (r: DownRun)
    requires 0 < n == |undefined.items| && DownInputs(n, cs)
    ensures DownInv(n, r.regs) && Words(n, r.accepted)
    decreases |cs|
  {
    if cs == [] then DownRun(DownRegs(Stage(false, undefined), 0), [], [])
    else
      var r, c := DownSteps(n, undefined, cs[..|cs| - 1]), cs[|cs| - 1];
      DownKeeps(n, r.regs, c.vld, c.word, c.rdy);
      DownNext(n, r, c)
  }

  /** In every run the accepted words have become the delivered beats and those to come. */
  lemma {:induction false} Narrows(n: nat, undefined: Word, cs: seq<DownClock>)
    requires 0 < n == |undefined.items| && DownInputs(n, cs)
    ensures var r := DownSteps(n, undefined, cs);
      Flatten(n, r.accepted) == r.delivered + Pending(r.regs)
    decreases |cs|
  {
    if cs != [] {
      Narrows(n, undefined, cs[..|cs| - 1]);
      NarrowsNext(n, DownSteps(n, undefined, cs[..|cs| - 1]), cs[|cs| - 1]);
    }
  }

  // ----- the two directions connected

  datatype Ports = Ports(up: seq<UpClock>, down: seq<DownClock>)

  ghost function Pipe(n: nat, undefined: Word, cs: seq<UpClock>): (p: Ports)
    requires 0 < n == |undefined.items|
    ensures DownInputs(n, p.down)
    decreases |cs|
  {
    if cs == [] then Ports([], [])
    else
      var p, c := Pipe(n, undefined, cs[..|cs| - 1]), cs[|cs| - 1];
      var u, d := UpSteps(n, p.up).regs, DownSteps(n, undefined, p.down).regs;
      Ports(p.up + [UpClock(c.vld, c.beat, DownReady(d, c.rdy))],
            p.down + [DownClock(UpValid(u, c.vld, c.beat), UpOut(u, c.beat), c.rdy)])
  }

  lemma {:induction false} Connected(n: nat, undefined: Word, cs: seq<UpClock>)
    requires 0 < n == |undefined.items|
    ensures var p := Pipe(n, undefined, cs);
      UpSteps(n, p.up).delivered == DownSteps(n, undefined, p.down).accepted
    decreases |cs|
  {
    if cs != [] {
      var p, q := Pipe(n, undefined, cs), Pipe(n, undefined, cs[..|cs| - 1]);
      Connected(n, undefined, cs[..|cs| - 1]);
      assert p.up[..|p.up| - 1] == q.up && p.down[..|p.down| - 1] == q.down;
    }
  }

  /**
   In every run of both: the beats delivered, those still to come of the word being narrowed, and those of the
   word being widened are the beats accepted, in order, exactly if all completing beats are recoverable.
   */
  lemma RoundTripExactly(n: nat, undefined: Word, cs: seq<UpClock>)
    requires 0 < n == |undefined.items|
    ensures var p := Pipe(n, undefined, cs);
      var u, d := UpSteps(n, p.up), DownSteps(n, undefined, p.down);
      && d.delivered + Pending(d.regs) + Group(n, u.accepted).open == u.accepted <==> AllRecoverable(n, u.accepted)
  {
    var p := Pipe(n, undefined, cs);
    Connected(n, undefined, cs);
    Widens(n, p.up);
    Narrows(n, undefined, p.down);
    FlattenGroup(n, UpSteps(n, p.up).accepted);
  }

  /** One more clock of both. */
  lemma PipeNext(n: nat, undefined: Word, cs: seq<UpClock>, c: UpClock)
    requires 0 < n == |undefined.items|
    ensures var p, q := Pipe(n, undefined, cs), Pipe(n, undefined, cs + [c]);
      var u, d := UpSteps(n, p.up), DownSteps(n, undefined, p.down);
      && UpSteps(n, q.up) == UpNext(u, UpClock(c.vld, c.beat, DownReady(d.regs, c.rdy)))
      && DownSteps(n, undefined, q.down)
         == DownNext(n, d, DownClock(UpValid(u.regs, c.vld, c.beat), UpOut(u.regs, c.beat), c.rdy))
  {
    var p, q := Pipe(n, undefined, cs), Pipe(n, undefined, cs + [c]);
    assert (cs + [c])[..|cs + [c]| - 1] == cs;
    assert q.up[..|q.up| - 1] == p.up && q.down[..|q.down| - 1] == p.down;
  }

  /**
   Two beats for words of two items, the second one without a valid byte: the first one comes out, the other one
   is gone, and nothing is left inside.
   */
  lemma EmptyBeatIsDropped(undefined: Word)
    requires |undefined.items| == 2
    ensures var a, b := Beat(Item(7, 1), false), Beat(ZERO, false);
      var p := Pipe(2, undefined, [UpClock(true, a, true)] + [UpClock(true, b, true)] + [UpClock(false, b, true)]);
      var u, d := UpSteps(2, p.up), DownSteps(2, undefined, p.down);
      && u.accepted == [a, b] && d.delivered == [a] && Pending(d.regs) == [] && Group(2, u.accepted).open == []
  {
    var a, b := Beat(Item(7, 1), false), Beat(ZERO, false);
    var c0, c1, c2 := UpClock(true, a, true), UpClock(true, b, true), UpClock(false, b, true);
    PipeNext(2, undefined, [], c0);
    PipeNext(2, undefined, [c0], c1);
    PipeNext(2, undefined, [c0] + [c1], c2);
    assert [] + [c0] == [c0];
    FirstClock(undefined, a);
    SecondClock(undefined, a, b);
    ThirdClock(a, b);
    GroupOfTwo(a, b);
  }

  /** The first beat goes to its register. */
  lemma FirstClock(undefined: Word, a: Beat)
    requires |undefined.items| == 2 && !a.last
    ensures var u, d := UpRun(Cleared(2), [], []), DownRun(DownRegs(Stage(false, undefined), 0), [], []);
      && DownReady(d.regs, true)
      && UpNext(u, UpClock(true, a, true)) == UpRun(UpRegs([a.item, ZERO], 1), [a], [])
      && DownNext(2, d, DownClock(UpValid(u.regs, true, a), UpOut(u.regs, a), true)) == d
  {
    assert Cleared(2).items[0 := a.item] == [a.item, ZERO];
  }

  /** The second one, which is like the cleared register, completes the word. */
  lemma SecondClock(undefined: Word, a: Beat, b: Beat)
    requires |undefined.items| == 2 && b == Beat(ZERO, false)
    ensures var u, d := UpRun(UpRegs([a.item, ZERO], 1), [a], []),
        DownRun(DownRegs(Stage(false, undefined), 0), [], []);
      var w := Word([a.item, ZERO], false);
      && DownReady(d.regs, true)
      && UpNext(u, UpClock(true, b, true)) == UpRun(Cleared(2), [a, b], [w])
      && DownNext(2, d, DownClock(UpValid(u.regs, true, b), UpOut(u.regs, b), true))
         == DownRun(DownRegs(Stage(true, w), 0), [w], [])
  {
    assert [a.item, ZERO][1 := b.item] == [a.item, ZERO];
    assert seq(2, i => ZERO) == Cleared(2).items;
  }

  /** Its first item is its last one with a valid byte. */
  lemma ThirdClock(a: Beat, b: Beat)
    requires !a.last && !b.last
    ensures var w := Word([a.item, ZERO], false);
      var u, d := UpRun(Cleared(2), [a, b], [w]), DownRun(DownRegs(Stage(true, w), 0), [w], []);
      && DownInv(2, d.regs)
      && UpNext(u, UpClock(false, b, DownReady(d.regs, true))).accepted == [a, b]
      && var t := DownNext(2, d, DownClock(UpValid(u.regs, false, b), UpOut(u.regs, b), true));
         t.delivered == [a] && !t.regs.reg.occupied
  {
    assert IsLastItem(Word([a.item, ZERO], false), 0);
  }

  lemma GroupOfTwo(a: Beat, b: Beat)
    requires !a.last
    ensures Group(2, [a, b]).open == []
  {
    assert [a, b][..1] == [a] && [a][..0] == [];
    assert Group(2, [a]).open == [a];
  }

  /** Frames whose beats all have a valid byte, as those with full beats before a last one that is not empty. */
  lemma {:induction false} FramesAreRecoverable(n: nat, beats: seq<Beat>)
    requires 0 < n && forall b :: b in beats ==> b.item.strb != 0
    ensures AllRecoverable(n, beats)
    decreases |beats|
  {
    if beats != [] { FramesAreRecoverable(n, beats[..|beats| - 1]); }
  }

  // ----- the components

  class Upscaler {
    const items: array<Item>
    var itemCntr: nat

    ghost function Registers(): UpRegs
      reads this, items
    {
      UpRegs(items[..], itemCntr)
    }

    constructor (n: nat)
      requires 0 < n
      ensures Registers() == Cleared(n) && fresh(items)
    {
      items, itemCntr := new Item[n](_ => ZERO), 0;
    }

    /** The registers of the items. */
    method ClkItems(clear: bool, vld: bool, item: Item)
      requires itemCntr < items.Length
      modifies items
      ensures items[..] == if clear then seq(items.Length, i => ZERO)
                           else if vld then old(items[..])[itemCntr := item] else old(items[..])
    {
      for i := 0 to items.Length
        invariant forall k :: i <= k < items.Length ==> items[k] == old(items[k])
        invariant forall k :: 0 <= k < i ==>
          items[k] == if clear then ZERO else if vld && itemCntr == k then item else old(items[k])
      {
        if clear {
          items[i] := ZERO;
        } else if vld && itemCntr == i {
          items[i] := item;
        }
      }
    }

    /** One clock edge; the output is that before it. */
    method Clk(vld: bool, beat: Beat, rdy: bool) returns (inRd: bool, outVld: bool, out: Word)
      requires itemCntr < items.Length
      modifies this, items
      ensures inRd == rdy
      ensures outVld == UpValid(old(Registers()), vld, beat) && out == UpOut(old(Registers()), beat)
      ensures Registers() == UpStep(old(Registers()), vld, beat, rdy)
    {
      var isLastItem := itemCntr == items.Length - 1 || beat.last;
      var hs := vld && rdy;
      inRd, outVld, out := rdy, vld && isLastItem, Word(items[..][itemCntr := beat.item], beat.last);
      ClkItems(hs && isLastItem, vld, beat.item);
      if hs {
        itemCntr := if isLastItem then 0 else itemCntr + 1;
      }
    }
  }

  class Downscaler {
    var inReg: Stage<Word>
    var itemCntr: nat

    ghost function Registers(): DownRegs
      reads this
    {
      DownRegs(inReg, itemCntr)
    }

    constructor (undefined: Word)
      ensures Registers() == DownRegs(Stage(false, undefined), 0)
    {
      inReg, itemCntr := Stage(false, undefined), 0;
    }

    /** The comparators of `nextAreNotValidLogic`, one for every item but the last. */
    method NextAreNotValid() returns (res: bool)
      requires itemCntr < |inReg.data.items|
      ensures res || itemCntr == |inReg.data.items| - 1 <==> IsLastItem(inReg.data, itemCntr)
    {
      var w := inReg.data;
      res := false;
      for i := 0 to |w.items| - 1
        invariant res <==> itemCntr < i && forall k :: itemCntr < k < |w.items| ==> w.items[k].strb == 0
      {
        res := res || (itemCntr == i && forall k :: i < k < |w.items| ==> w.items[k].strb == 0);
      }
    }

    /** One clock edge; the output is that before it. */
    method Clk(vld: bool, word: Word, rdy: bool) returns (inRd: bool, outVld: bool, out: Beat)
      requires itemCntr < |inReg.data.items|
      modifies this
      ensures inRd == DownReady(old(Registers()), rdy)
      ensures outVld == old(inReg.occupied) && out == DownOut(old(Registers()))
      ensures Registers() == DownStep(old(Registers()), vld, word, rdy)
    {
      var next := NextAreNotValid();
      var isLastItem := itemCntr == |inReg.data.items| - 1 || next;
      var take := rdy && isLastItem && inReg.occupied;
      inRd := !inReg.occupied || take;
      outVld, out := inReg.occupied, Beat(inReg.data.items[itemCntr], inReg.data.last && isLastItem);
      if inReg.occupied && rdy {
        itemCntr := if isLastItem then 0 else itemCntr + 1;
      }
      inReg := StageStep(inReg, vld, word, take);
    }
  }
}
