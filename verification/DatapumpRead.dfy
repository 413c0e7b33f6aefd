/** The AXI datapump, part two: the words that come back for a request are one frame, however it was split. */
module DatapumpRead {
  import opened Arithmetic
  import opened Datapump
  import Fifo = HandshakedFifo

  // ----- the data path, aligned

  /** A word from the bus; the last one of a burst is marked. */
  datatype Beat<T> = Beat(data: T, last: bool)

  /** A word for the driver: its first `strb` bytes are valid. */
  datatype Out<T> = Out(data: T, strb: nat, last: bool)

  /** The output for a word of the burst `info`; without splitting its mark is not looked at. */
  function DataOut<T>(c: Config, splitting: bool, info: Part, b: Beat<T>): Out<T> {
    var last := if splitting then info.last && b.last else b.last;
    Out(b.data, if last then BytesInLast(c, info.rem) else c.bytes, last)
  }

  /** The words of one burst, its last one marked. */
  function MarkLast<T>(data: seq<T>): (bs: seq<Beat<T>>)
    ensures |bs| == |data|
  {
    if data == [] then [] else [Beat(data[0], |data| == 1)] + MarkLast(data[1..])
  }

  function Total(ps: seq<Part>): nat {
    if ps == [] then 0 else ps[0].len + 1 + Total(ps[1..])
  }

  /** What the bus returns for bursts. */
  function Response<T>(ps: seq<Part>, data: seq<T>): (bs: seq<Beat<T>>)
    requires |data| == Total(ps)
  {
    if ps == [] then [] else MarkLast(data[..ps[0].len + 1]) + Response(ps[1..], data[ps[0].len + 1..])
  }

  /** The words for the driver; the stored information of a burst is dropped with its last word. */
  function Collect<T>(c: Config, splitting: bool, infos: seq<Part>, bs: seq<Beat<T>>): seq<Out<T>>
    decreases |bs|
  {
    if bs == [] || infos == [] then []
    else [DataOut(c, splitting, infos[0], bs[0])]
         + Collect(c, splitting, if bs[0].last then infos[1..] else infos, bs[1..])
  }

  /** One frame: its last word, and only that, is marked and has the number of bytes asked for. */
  function Frame<T>(c: Config, rem: nat, data: seq<T>): seq<Out<T>> {
    if data == [] then []
    else if |data| == 1 then [Out(data[0], BytesInLast(c, rem), true)]
    else [Out(data[0], c.bytes, false)] + Frame(c, rem, data[1..])
  }

  /** Words in the middle of a frame. */
  function Full<T>(c: Config, data: seq<T>): seq<Out<T>> {
    if data == [] then [] else [Out(data[0], c.bytes, false)] + Full(c, data[1..])
  }

  lemma FrameNext<T>(c: Config, rem: nat, a: seq<T>, b: seq<T>)
    requires a != [] && b != []
    ensures Frame(c, rem, a + b) == [Out(a[0], c.bytes, false)] + Frame(c, rem, a[1..] + b)
  {
    TailOfAppend(a, b, 1);
  }

  lemma {:induction false} FrameSplit<T>(c: Config, rem: nat, a: seq<T>, b: seq<T>)
    requires b != []
    ensures Frame(c, rem, a + b) == Full(c, a) + Frame(c, rem, b)
    decreases |a|
  {
    if a == [] {
      assert a + b == b;
    } else {
      FrameSplit(c, rem, a[1..], b);
      FrameNext(c, rem, a, b);
      Associate([Out(a[0], c.bytes, false)], Full(c, a[1..]), Frame(c, rem, b));
    }
  }

  lemma CollectNext<T>(c: Config, infos: seq<Part>, b: Beat<T>, bs: seq<Beat<T>>)
    requires infos != []
    ensures Collect(c, true, infos, [b] + bs)
         == [DataOut(c, true, infos[0], b)] + Collect(c, true, if b.last then infos[1..] else infos, bs)
  {
    assert ([b] + bs)[1..] == bs;
  }

  /** The outputs for the words of one burst. */
  function BurstOut<T>(c: Config, p: Part, data: seq<T>): seq<Out<T>> {
    if p.last then Frame(c, p.rem, data) else Full(c, data)
  }

  lemma BurstOutNext<T>(c: Config, p: Part, data: seq<T>)
    requires data != [] && (p.rem == 0 || p.last)
    ensures BurstOut(c, p, data)
         == [DataOut(c, true, p, Beat(data[0], |data| == 1))]
            + if |data| == 1 then [] else BurstOut(c, p, data[1..])
  {
    if |data| == 1 { assert Full(c, data[1..]) == []; }
  }

  /** The words of one burst. */
  lemma {:induction false} CollectBurst<T>(c: Config, infos: seq<Part>, data: seq<T>, bs: seq<Beat<T>>)
    requires data != [] && infos != [] && (infos[0].rem == 0 || infos[0].last)
    ensures Collect(c, true, infos, MarkLast(data) + bs)
         == BurstOut(c, infos[0], data) + Collect(c, true, infos[1..], bs)
    decreases |data|
  {
    var first, more, p := Beat(data[0], |data| == 1), MarkLast(data[1..]), infos[0];
    assert MarkLast(data) + bs == [first] + (more + bs);
    BurstOutNext(c, p, data);
    CollectNext(c, infos, first, more + bs);
    if |data| > 1 {
      CollectBurst(c, infos, data[1..], bs);
      Associate([DataOut(c, true, p, first)], BurstOut(c, p, data[1..]), Collect(c, true, infos[1..], bs));
    } else {
      assert more + bs == bs;
    }
  }

  lemma Associate<T>(a: seq<T>, b: seq<T>, c: seq<T>)
    ensures a + (b + c) == (a + b) + c
  {
  }

  /** The first of some bursts, with everything that follows. */
  lemma CollectFirst<T>(c: Config, p: Part, ps: seq<Part>, infos: seq<Part>,
                        data: seq<T>, rest: seq<Beat<T>>, bs: seq<Beat<T>>)
    requires data != [] && (p.rem == 0 || p.last)
    ensures Collect(c, true, ([p] + ps) + infos, (MarkLast(data) + rest) + bs)
         == BurstOut(c, p, data) + Collect(c, true, ps + infos, rest + bs)
  {
    assert ([p] + ps) + infos == [p] + (ps + infos);
    assert (MarkLast(data) + rest) + bs == MarkLast(data) + (rest + bs);
    assert ([p] + (ps + infos))[1..] == ps + infos;
    CollectBurst(c, [p] + (ps + infos), data, rest + bs);
  }

  /** The bursts of one request: only the final one is marked, and carries the remainder. */
  ghost predicate OfOneRequest(ps: seq<Part>, rem: nat) {
    && ps != []
    && forall k :: 0 <= k < |ps| ==> (ps[k].last <==> k == |ps| - 1) && ps[k].rem == if k == |ps| - 1 then rem else 0
  }

  lemma ResponseNext<T>(ps: seq<Part>, data: seq<T>)
    requires ps != [] && |data| == Total(ps)
    ensures |data[ps[0].len + 1..]| == Total(ps[1..])
    ensures Response(ps, data) == MarkLast(data[..ps[0].len + 1]) + Response(ps[1..], data[ps[0].len + 1..])
  {
  }

  lemma Assemble<T>(c: Config, p: Part, rem: nat, a: seq<T>, b: seq<T>, more: seq<Out<T>>)
    requires if b == [] then p.last && p.rem == rem else !p.last
    ensures BurstOut(c, p, a) + (Frame(c, rem, b) + more) == Frame(c, rem, a + b) + more
  {
    if b == [] {
      assert a + b == a && Frame(c, rem, b) == [];
    } else {
      FrameSplit(c, rem, a, b);
      assert BurstOut(c, p, a) + (Frame(c, rem, b) + more) == (BurstOut(c, p, a) + Frame(c, rem, b)) + more;
    }
  }

  /** However a request is split, the driver gets one frame with its data; nothing is left over for the next one. */
  lemma {:induction false} OneFrame<T>(c: Config, ps: seq<Part>, rem: nat, data: seq<T>, infos: seq<Part>,
                                         bs: seq<Beat<T>>)
    requires OfOneRequest(ps, rem) && |data| == Total(ps)
    ensures Collect(c, true, ps + infos, Response(ps, data) + bs) == Frame(c, rem, data) + Collect(c, true, infos, bs)
    decreases |ps|
  {
    var p, m := ps[0], ps[0].len + 1;
    var a, b := data[..m], data[m..];
    ResponseNext(ps, data);
    assert [p] + ps[1..] == ps && a + b == data;
    CollectFirst(c, p, ps[1..], infos, a, Response(ps[1..], b), bs);
    if |ps| > 1 {
      OneFrame(c, ps[1..], rem, b, infos, bs);
    } else {
      assert ps[1..] + infos == infos && Response(ps[1..], b) + bs == bs && Frame(c, rem, b) == [];
    }
    Assemble(c, p, rem, a, b, Collect(c, true, infos, bs));
  }

  lemma {:induction false} TotalOfParts(c: Config, word: nat, n: nat, rem: nat)
    requires ValidConfig(c)
    ensures Total(PartsFrom(c, word, n, rem)) == n + 1
    decreases n
  {
    if n > c.lenMax {
      TotalOfParts(c, Wrapped(word + (c.lenMax + 1), c.words), n - (c.lenMax + 1), rem);
    } else {
      assert Total([]) == 0;
    }
  }

  lemma PartsAreOfOneRequest(c: Config, r: Req)
    requires ValidReq(c, r)
    ensures OfOneRequest(Parts(c, r), r.rem) && Total(Parts(c, r)) == ReqLen(c, r) + 1
  {
    TotalOfParts(c, r.word, ReqLen(c, r), r.rem);
    forall k | 0 <= k < |Parts(c, r)| ensures (Parts(c, r)[k].last <==> k == |Parts(c, r)| - 1)
                                            && Parts(c, r)[k].rem == if k == |Parts(c, r)| - 1 then r.rem else 0 {
      PartsFit(c, r.word, ReqLen(c, r), r.rem, k);
    }
  }

  function TotalOf(c: Config, rs: seq<Req>): nat
    requires ValidReqs(c, rs)
  {
    if rs == [] then 0 else ReqLen(c, rs[0]) + 1 + TotalOf(c, rs[1..])
  }

  /** The frames for requests, cut out of the data in order. */
  function Frames<T>(c: Config, rs: seq<Req>, data: seq<T>): seq<Out<T>>
    requires ValidReqs(c, rs) && |data| == TotalOf(c, rs)
  {
    if rs == [] then []
    else Frame(c, rs[0].rem, data[..ReqLen(c, rs[0]) + 1]) + Frames(c, rs[1..], data[ReqLen(c, rs[0]) + 1..])
  }

  lemma {:induction false} TotalAppend(a: seq<Part>, b: seq<Part>)
    ensures Total(a + b) == Total(a) + Total(b)
  {
    if a == [] {
      assert a + b == b;
    } else {
      TotalAppend(a[1..], b);
      assert (a + b)[1..] == a[1..] + b;
    }
  }

  /** The first of some bursts, with the pieces given by name. */
  lemma ResponseFirst<T>(ps: seq<Part>, data: seq<T>, m: nat, first: seq<T>, rest: seq<Part>, later: seq<T>)
    requires ps != [] && m == ps[0].len + 1 && |data| == Total(ps) && |later| == Total(rest)
    requires m <= |data| && data[..m] == first && ps[1..] == rest && data[m..] == later
    ensures Response(ps, data) == MarkLast(first) + Response(rest, later)
  {
  }

  lemma {:induction false} ResponseAppend<T>(a: seq<Part>, b: seq<Part>, x: seq<T>, y: seq<T>)
    requires |x| == Total(a) && |y| == Total(b)
    ensures Total(a + b) == |x + y| && Response(a + b, x + y) == Response(a, x) + Response(b, y)
    decreases |a|
  {
    TotalAppend(a, b);
    if a == [] {
      assert a + b == b && x + y == y;
    } else {
      var m := a[0].len + 1;
      ResponseAppend(a[1..], b, x[m..], y);
      TailOfAppend(a, b, 1);
      TailOfAppend(x, y, m);
      ResponseFirst(a + b, x + y, m, x[..m], a[1..] + b, x[m..] + y);
      ResponseFirst(a, x, m, x[..m], a[1..], x[m..]);
      Associate(MarkLast(x[..m]), Response(a[1..], x[m..]), Response(b, y));
    }
  }

  lemma TailOfAppend<T>(a: seq<T>, b: seq<T>, m: nat)
    requires m <= |a|
    ensures (a + b)[m..] == a[m..] + b && (a + b)[..m] == a[..m]
  {
  }

  /** The bursts of one request, and then others. */
  lemma FrameFirst<T>(c: Config, ps: seq<Part>, rem: nat, more: seq<Part>, x: seq<T>, y: seq<T>)
    requires OfOneRequest(ps, rem) && |x| == Total(ps) && |y| == Total(more)
    ensures Total(ps + more) == |x + y|
    ensures Collect(c, true, ps + more, Response(ps + more, x + y))
         == Frame(c, rem, x) + Collect(c, true, more, Response(more, y))
  {
    ResponseAppend(ps, more, x, y);
    OneFrame(c, ps, rem, x, more, Response(more, y));
  }

  lemma PartsOfFirst(c: Config, r: Req, rest: seq<Req>)
    requires ValidReq(c, r) && ValidReqs(c, rest)
    ensures ValidReqs(c, [r] + rest) && AllParts(c, [r] + rest) == Parts(c, r) + AllParts(c, rest)
  {
    assert ([r] + rest)[1..] == rest;
  }

  lemma FramesOfFirst<T>(c: Config, r: Req, rest: seq<Req>, x: seq<T>, y: seq<T>)
    requires ValidReqs(c, [r] + rest) && ValidReqs(c, rest) && |x| == ReqLen(c, r) + 1 && |y| == TotalOf(c, rest)
    ensures |x + y| == TotalOf(c, [r] + rest)
    ensures Frames(c, [r] + rest, x + y) == Frame(c, r.rem, x) + Frames(c, rest, y)
  {
    assert ([r] + rest)[1..] == rest;
    assert (x + y)[..|x|] == x && (x + y)[|x|..] == y;
  }

  /** The data makes the frames of the requests. */
  ghost predicate MakesFrames<T>(c: Config, rs: seq<Req>, data: seq<T>)
    requires ValidReqs(c, rs) && |data| == TotalOf(c, rs)
  {
    && Total(AllParts(c, rs)) == |data|
    && Collect(c, true, AllParts(c, rs), Response(AllParts(c, rs), data)) == Frames(c, rs, data)
  }

  lemma OneMoreFrame<T>(c: Config, r: Req, rest: seq<Req>, x: seq<T>, y: seq<T>)
    requires ValidReqs(c, [r] + rest) && ValidReqs(c, rest) && |x| == ReqLen(c, r) + 1 && |y| == TotalOf(c, rest)
    requires MakesFrames(c, rest, y)
    ensures |x + y| == TotalOf(c, [r] + rest) && MakesFrames(c, [r] + rest, x + y)
  {
    assert ([r] + rest)[0] == r;
    PartsOfFirst(c, r, rest);
    FramesOfFirst(c, r, rest, x, y);
    PartsAreOfOneRequest(c, r);
    FrameFirst(c, Parts(c, r), r.rem, AllParts(c, rest), x, y);
  }

  /** For any requests, and data in the order of their bursts, the driver gets one frame for each request, in order. */
  lemma {:induction false} OneFramePerRequest<T>(c: Config, rs: seq<Req>, data: seq<T>)
    requires ValidReqs(c, rs) && |data| == TotalOf(c, rs)
    ensures MakesFrames(c, rs, data)
    decreases |rs|
  {
    if rs == [] {
      NoFrames(c, rs, data);
    } else {
      var n := ReqLen(c, rs[0]) + 1;
      OneFramePerRequest(c, rs[1..], data[n..]);
      assert rs == [rs[0]] + rs[1..] && data == data[..n] + data[n..];
      OneMoreFrame(c, rs[0], rs[1..], data[..n], data[n..]);
    }
  }

  lemma NoFrames<T>(c: Config, rs: seq<Req>, data: seq<T>)
    requires ValidReqs(c, rs) && rs == [] && data == []
    ensures MakesFrames(c, rs, data)
  {
  }

  // ----- the data path of a configuration without splitting

  /** Without splitting every burst is the only one of its request. */
  ghost predicate AllLast(infos: seq<Part>) {
    forall k :: 0 <= k < |infos| ==> infos[k].last
  }

  /** Then looking at its mark or not makes no difference. */
  lemma {:induction false} MarksAreNotNeeded<T>(c: Config, infos: seq<Part>, bs: seq<Beat<T>>)
    requires AllLast(infos)
    ensures Collect(c, false, infos, bs) == Collect(c, true, infos, bs)
    decreases |bs|
  {
    if bs != [] && infos != [] { MarksAreNotNeeded(c, if bs[0].last then infos[1..] else infos, bs[1..]); }
  }

  /** The frames for bursts, one each. */
  function FramePerBurst<T>(c: Config, ps: seq<Part>, data: seq<T>): seq<Out<T>>
    requires |data| == Total(ps)
  {
    if ps == [] then []
    else Frame(c, ps[0].rem, data[..ps[0].len + 1]) + FramePerBurst(c, ps[1..], data[ps[0].len + 1..])
  }

  /** Without splitting the driver gets one frame for each burst. */
  lemma {:induction false} OneFramePerBurst<T>(c: Config, ps: seq<Part>, data: seq<T>)
    requires AllLast(ps) && |data| == Total(ps)
    ensures Collect(c, false, ps, Response(ps, data)) == FramePerBurst(c, ps, data)
    decreases |ps|
  {
    MarksAreNotNeeded(c, ps, Response(ps, data));
    if ps != [] {
      var p, rest, m := [ps[0]], ps[1..], ps[0].len + 1;
      assert p + rest == ps && data[..m] + data[m..] == data && Total(p) == m by { assert p[1..] == []; }
      OneFramePerBurst(c, rest, data[m..]);
      MarksAreNotNeeded(c, rest, Response(rest, data[m..]));
      FrameFirst(c, p, ps[0].rem, rest, data[..m], data[m..]);
    }
  }

  // ----- the data path, clock by clock

  /** The number of bursts that are over after some words. */
  function Lasts<T>(bs: seq<Beat<T>>): nat {
    if bs == [] then 0 else (if bs[0].last then 1 else 0) + Lasts(bs[1..])
  }

  /** There is information about the burst of every word. */
  predicate Enough<T>(infos: seq<Part>, bs: seq<Beat<T>>)
    decreases |bs|
  {
    bs == [] || (infos != [] && Enough(if bs[0].last then infos[1..] else infos, bs[1..]))
  }

  lemma {:induction false} LastsNext<T>(bs: seq<Beat<T>>, b: Beat<T>)
    ensures Lasts(bs + [b]) == Lasts(bs) + if b.last then 1 else 0
  {
    if bs != [] {
      LastsNext(bs[1..], b);
      assert (bs + [b])[1..] == bs[1..] + [b];
    }
  }

  /** One more word, of the burst whose information is the oldest one that was not dropped. */
  lemma {:induction false} CollectOneMore<T>(c: Config, infos: seq<Part>, bs: seq<Beat<T>>, b: Beat<T>)
    requires Enough(infos, bs) && Lasts(bs) < |infos|
    ensures Enough(infos, bs + [b])
    ensures Collect(c, true, infos, bs + [b]) == Collect(c, true, infos, bs) + [DataOut(c, true, infos[Lasts(bs)], b)]
    decreases |bs|
  {
    if bs == [] {
      assert [] + [b] == [b] && [b][1..] == [];
      CollectNext(c, infos, b, []);
    } else {
      var rest := if bs[0].last then infos[1..] else infos;
      CollectOneMore(c, rest, bs[1..], b);
      assert (bs + [b])[1..] == bs[1..] + [b] && (bs + [b])[0] == bs[0];
      Associate([DataOut(c, true, infos[0], bs[0])], Collect(c, true, rest, bs[1..]),
                [DataOut(c, true, infos[Lasts(bs)], b)]);
    }
  }

  /** Information about later bursts does not matter. */
  lemma {:induction false} CollectIgnoresLater<T>(c: Config, infos: seq<Part>, later: seq<Part>, bs: seq<Beat<T>>)
    requires Enough(infos, bs)
    ensures Enough(infos + later, bs) && Collect(c, true, infos + later, bs) == Collect(c, true, infos, bs)
    ensures |Collect(c, true, infos, bs)| == |bs|
    decreases |bs|
  {
    if bs != [] {
      var rest := if bs[0].last then infos[1..] else infos;
      CollectIgnoresLater(c, rest, later, bs[1..]);
      assert (infos + later)[1..] == infos[1..] + later;
    }
  }

  /** Later words do not change what was made of the first ones. */
  lemma {:induction false} CollectPrefix<T>(c: Config, infos: seq<Part>, bs: seq<Beat<T>>, more: seq<Beat<T>>)
    requires Enough(infos, bs)
    ensures Collect(c, true, infos, bs) <= Collect(c, true, infos, bs + more)
    decreases |bs|
  {
    if bs != [] {
      CollectPrefix(c, if bs[0].last then infos[1..] else infos, bs[1..], more);
      assert (bs + more)[1..] == bs[1..] + more;
    }
  }

  /** The bus and the driver in one clock, without errors. */
  datatype ReadClock<T> = ReadClock(vld: bool, axiRd: bool, rVld: bool, beat: Beat<T>, outRd: bool)

  /** The address handler, the size FIFO, the words taken from the bus and those delivered to the driver. */
  datatype ReadRun<T> = ReadRun(addr: Run, fifo: Fifo.Run<Part>, taken: seq<Beat<T>>, delivered: seq<Out<T>>)

  /** What the address handler gives to the size FIFO. */
  function Push<T>(c: Config, rs: seq<Req>, r: ReadRun<T>, e: ReadClock<T>): (p: (bool, Part))
    requires r.addr.done <= |rs|
  {
    if r.addr.done == |rs| then (false, Part(0, 0, 0, false))
    else
      var k := ClockOf(rs, r.addr.done, Env(e.vld, e.axiRd, Fifo.Ready(r.fifo.regs), false));
      (InfoValid(c, k), PartNow(c, r.addr.regs, k))
  }

  /** A word passes if all three have it: the bus, the size FIFO and the driver. */
  predicate Passes<T>(r: ReadRun<T>, e: ReadClock<T>) {
    e.rVld && Fifo.Valid(r.fifo.regs) && e.outRd
  }

  ghost function ReadNext<T>(c: Config, rs: seq<Req>, depth: nat, r: ReadRun<T>, e: ReadClock<T>): (t: ReadRun<T>)
    requires ValidReqs(c, rs) && r.addr.done <= |rs| && Fifo.Shape(depth, r.fifo.regs)
    ensures t.addr.done <= |rs| && Fifo.Shape(depth, t.fifo.regs)
  {
    var push := Push(c, rs, r, e);
    ReadRun(Next(c, rs, r.addr, Env(e.vld, e.axiRd, Fifo.Ready(r.fifo.regs), false)),
            Fifo.Next(depth, r.fifo, Fifo.Clock(push.0, push.1, e.rVld && e.outRd && e.beat.last)),
            if Passes(r, e) then r.taken + [e.beat] else r.taken,
            if Passes(r, e) then r.delivered + [DataOut(c, true, r.fifo.regs.out, e.beat)] else r.delivered)
  }

  ghost function ReadSteps<T>(c: Config, rs: seq<Req>, mem: seq<Part>, x: (Regs, Part), es: seq<ReadClock<T>>)
    : (r: ReadRun<T>)
    requires ValidReqs(c, rs) && mem != []
    ensures r.addr.done <= |rs| && Fifo.Shape(|mem|, r.fifo.regs)
    decreases |es|
  {
    if es == [] then ReadRun(Run(x.0.(pending := false), 0, []), Fifo.Run(Fifo.Reset(mem, x.1), [], []), [], [])
    else ReadNext(c, rs, |mem|, ReadSteps(c, rs, mem, x, es[..|es| - 1]), es[|es| - 1])
  }

  ghost predicate ReadInv<T>(c: Config, rs: seq<Req>, depth: nat, r: ReadRun<T>)
    requires ValidReqs(c, rs) && r.addr.done <= |rs|
  {
    && Inv(c, rs, r.addr) && Fifo.RunInv(depth, r.fifo)
    && r.fifo.accepted == r.addr.issued && |r.fifo.delivered| == Lasts(r.taken)
    && Enough(r.addr.issued, r.taken) && r.delivered == Collect(c, true, r.addr.issued, r.taken)
  }

  /** What is issued is what the size FIFO accepts. */
  lemma PushIsIssued<T>(c: Config, rs: seq<Req>, depth: nat, r: ReadRun<T>, e: ReadClock<T>)
    requires ValidReqs(c, rs) && r.addr.done <= |rs| && Fifo.Shape(depth, r.fifo.regs)
    ensures var push, ready := Push(c, rs, r, e), Fifo.Ready(r.fifo.regs);
      Next(c, rs, r.addr, Env(e.vld, e.axiRd, ready, false)).issued
      == r.addr.issued + if push.0 && ready then [push.1] else []
  {
  }

  lemma ReadKeepsQueue<T>(c: Config, rs: seq<Req>, depth: nat, r: ReadRun<T>, e: ReadClock<T>)
    requires ValidReqs(c, rs) && r.addr.done <= |rs| && ReadInv(c, rs, depth, r)
    ensures var t := ReadNext(c, rs, depth, r, e);
      && Inv(c, rs, t.addr) && Fifo.RunInv(depth, t.fifo)
      && t.fifo.accepted == t.addr.issued && r.addr.issued <= t.addr.issued
      && |t.fifo.delivered| == Lasts(t.taken)
  {
    var push := Push(c, rs, r, e);
    PushIsIssued(c, rs, depth, r, e);
    assert Inv(c, rs, ReadNext(c, rs, depth, r, e).addr) by {
      NextKeeps(c, rs, r.addr, Env(e.vld, e.axiRd, Fifo.Ready(r.fifo.regs), false));
    }
    assert Fifo.RunInv(depth, ReadNext(c, rs, depth, r, e).fifo) by {
      Fifo.NextKeeps(depth, r.fifo, Fifo.Clock(push.0, push.1, e.rVld && e.outRd && e.beat.last));
    }
    if Passes(r, e) { LastsNext(r.taken, e.beat); }
  }

  lemma ReadKeeps<T>(c: Config, rs: seq<Req>, depth: nat, r: ReadRun<T>, e: ReadClock<T>)
    requires ValidReqs(c, rs) && r.addr.done <= |rs| && ReadInv(c, rs, depth, r)
    ensures ReadInv(c, rs, depth, ReadNext(c, rs, depth, r, e))
  {
    var t := ReadNext(c, rs, depth, r, e);
    ReadKeepsQueue(c, rs, depth, r, e);
    if Passes(r, e) {
      Fifo.ShowsNext(depth, r.fifo);
      CollectOneMore(c, r.addr.issued, r.taken, e.beat);
    }
    var later := t.addr.issued[|r.addr.issued|..];
    assert t.addr.issued == r.addr.issued + later;
    CollectIgnoresLater(c, r.addr.issued, later, t.taken);
  }

  lemma {:induction false} ReadAlways<T>(c: Config, rs: seq<Req>, mem: seq<Part>, x: (Regs, Part),
                                           es: seq<ReadClock<T>>)
    requires ValidReqs(c, rs) && mem != []
    ensures ReadInv(c, rs, |mem|, ReadSteps(c, rs, mem, x, es))
    decreases |es|
  {
    if es != [] {
      ReadAlways(c, rs, mem, x, es[..|es| - 1]);
      ReadKeeps(c, rs, |mem|, ReadSteps(c, rs, mem, x, es[..|es| - 1]), es[|es| - 1]);
    }
  }

  /** The requests of which a burst was issued. */
  function Begun(rs: seq<Req>, r: Run): (n: nat)
    requires r.done <= |rs|
    ensures n <= |rs|
  {
    if r.regs.pending && r.done < |rs| then r.done + 1 else r.done
  }

  /** Those among them that are read: the check of the address lets them pass. */
  function Served(c: Config, rs: seq<Req>, r: Run): (us: seq<Req>)
    requires ValidReqs(c, rs) && r.done <= |rs|
    ensures ValidReqs(c, us)
  {
    Unrefused(c, rs[..Begun(rs, r)])
  }

  /**
   From requests to frames, in every run of the address handler, the size FIFO and the data path, at any moment: if
   the words taken from the bus are the first ones that it owes to the bursts of the requests, the words delivered
   to the driver are just as many, the first ones of the frames of these requests; a refused request has no frame.
   */
  lemma RunDeliversFrames<T>(c: Config, rs: seq<Req>, mem: seq<Part>, x: (Regs, Part), es: seq<ReadClock<T>>,
                             data: seq<T>)
    requires ValidReqs(c, rs) && mem != []
    requires var r := ReadSteps(c, rs, mem, x, es); var all := AllParts(c, Served(c, rs, r.addr));
      |data| == Total(all) && r.taken <= Response(all, data)
    ensures var r := ReadSteps(c, rs, mem, x, es); var served := Served(c, rs, r.addr);
      && TotalOf(c, served) == |data|
      && |r.delivered| == |r.taken|
      && r.delivered <= Frames(c, served, data)
  {
    ReadAlways(c, rs, mem, x, es);
    var r := ReadSteps(c, rs, mem, x, es);
    var served := Served(c, rs, r.addr);
    var all := AllParts(c, served);
    var later := all[|r.addr.issued|..];
    assert r.addr.issued + later == all;
    DeliveredIsFirst(c, r.addr.issued, later, all, r.taken, Response(all, data));
    TotalOfAll(c, served);
    OneFramePerRequest(c, served, data);
  }

  lemma DeliveredIsFirst<T>(c: Config, issued: seq<Part>, later: seq<Part>, all: seq<Part>, taken: seq<Beat<T>>,
                            owed: seq<Beat<T>>)
    requires issued + later == all && Enough(issued, taken) && taken <= owed
    ensures |Collect(c, true, issued, taken)| == |taken|
    ensures Collect(c, true, issued, taken) <= Collect(c, true, all, owed)
  {
    CollectIgnoresLater(c, issued, later, taken);
    CollectPrefix(c, all, taken, owed[|taken|..]);
    assert taken + owed[|taken|..] == owed;
  }

  lemma {:induction false} TotalOfAll(c: Config, rs: seq<Req>)
    requires ValidReqs(c, rs)
    ensures Total(AllParts(c, rs)) == TotalOf(c, rs)
  {
    if rs != [] {
      TotalOfAll(c, rs[1..]);
      PartsAreOfOneRequest(c, rs[0]);
      TotalAppend(Parts(c, rs[0]), AllParts(c, rs[1..]));
    }
  }
}
