/**
 The word-by-word CRC unit with a byte mask and restart on `last`, and the bit-serial accumulator the
 repository tests it against.
 */
module CrcStream {
  import opened Bits
  import opened CrcComb
  import opened Wrappers

  // ----- the bit-serial accumulator

  /** The register after the bits of `order` entered one after another. */
  function Feed(poly: Bits, v: Bits, order: Bits): (r: Bits)
    requires |v| == |poly| > 0
    ensures |r| == |v|
    decreases |order|
  {
    if order == [] then v else Feed(poly, TakeBit(poly, v, order[0]), order[1..])
  }

  lemma {:induction false} FeedConcat(poly: Bits, v: Bits, a: Bits, b: Bits)
    requires |v| == |poly| > 0
    ensures Feed(poly, v, a + b) == Feed(poly, Feed(poly, v, a), b)
    decreases |a|
  {
    if a == [] {
      assert a + b == b;
    } else {
      assert (a + b)[1..] == a[1..] + b;
      FeedConcat(poly, TakeBit(poly, v, a[0]), a[1..], b);
    }
  }

  lemma FeedAt(poly: Bits, v: Bits, order: Bits, i: nat)
    requires |v| == |poly| > 0 && i < |order|
    ensures Feed(poly, v, order[i..]) == Feed(poly, TakeBit(poly, v, order[i]), order[i + 1..])
  {
    assert order[i..][1..] == order[i + 1..];
  }

  /** A word entered most significant bit first. */
  lemma {:induction false} SerialIsFeed(poly: Bits, v: Bits, d: Bits)
    requires |v| == |poly| > 0
    ensures Serial(poly, v, d) == Feed(poly, v, Reverse(d))
    decreases |d|
  {
    if d != [] {
      var n := |d| - 1;
      SerialIsFeed(poly, TakeBit(poly, v, d[n]), d[..n]);
      ReverseNext(d);
    }
  }

  /** `takeBit` with REFIN: everything is mirrored, the polynomial included. */
  function TakeBitReflected(polyMask: Bits, v: Bits, bit: bool): (r: Bits)
    requires |v| == |polyMask| > 0
    ensures |r| == |v|
  {
    var shifted := v[1..] + [false];
    if v[0] != bit then Xor(shifted, polyMask) else shifted
  }

  lemma MirrorStep(poly: Bits, v: Bits, bit: bool)
    requires |v| == |poly| > 0
    ensures TakeBitReflected(Reverse(poly), Reverse(v), bit) == Reverse(TakeBit(poly, v, bit))
  {
    var shifted := [false] + v[..|v| - 1];
    assert Reverse(v)[1..] + [false] == Reverse(shifted);
    ReverseXor(shifted, poly);
  }

  /** The order in which bits enter the register: from bit 0 upwards if reflected, from the top downwards if not. */
  function WordOrder(word: Bits, reflected: bool): (order: Bits)
    ensures |order| == |word|
  {
    if reflected then word else Reverse(word)
  }

  lemma WordOrderAt(word: Bits, refout: bool, i: nat)
    requires i < |word|
    ensures WordOrder(word, refout)[i] == if refout then word[i] else word[|word| - 1 - i]
  {
  }

  class NaiveCrcAccumulator {
    const poly: Bits
    const init: Bits
    const refin: bool
    const refout: bool
    const polyMask: Bits
    var value: Bits

    ghost predicate Valid()
      reads this
    {
      |poly| > 0 && |init| == |value| == |poly| && polyMask == if refin then Reverse(poly) else poly
    }

    /** The register as it would be without REFIN. */
    ghost function Register(): Bits
      reads this
    {
      if refin then Reverse(value) else value
    }

    constructor (poly: Bits, init: Bits, refin: bool, refout: bool)
      requires |poly| == |init| > 0
      ensures Valid() && value == init
      ensures this.poly == poly && this.init == init && this.refin == refin && this.refout == refout
    {
      this.poly, this.init, this.refin, this.refout := poly, init, refin, refout;
      polyMask := if refin then Reverse(poly) else poly;
      value := init;
    }

    method Reset()
      requires Valid()
      modifies this
      ensures Valid() && value == init
    {
      value := init;
    }

    method TakeBit(bit: bool)
      requires Valid()
      modifies this
      ensures Valid()
      ensures Register() == CrcComb.TakeBit(poly, old(Register()), bit)
    {
      ghost var was := Register();
      ghost var oldValue := value;
      var outBit := if refin then value[0] else value[|value| - 1];
      if refin {
        value := value[1..] + [false];
      } else {
        value := [false] + value[..|value| - 1];
      }
      if outBit != bit {
        value := Xor(value, polyMask);
      }
      if refin {
        ReverseTwice(oldValue);
        MirrorStep(poly, was, bit);
        ReverseTwice(CrcComb.TakeBit(poly, was, bit));
      }
    }

    method TakeWord(word: Bits)
      requires Valid()
      modifies this
      ensures Valid()
      ensures Register() == Feed(poly, old(Register()), WordOrder(word, refout))
    {
      ghost var order := WordOrder(word, refout);
      assert order[0..] == order;
      ghost var reg, goal := Register(), Feed(poly, Register(), order);
      for i := 0 to |word|
        invariant Valid() && reg == Register()
        invariant Feed(poly, reg, order[i..]) == goal
      {
        var bit := if refout then word[i] else word[|word| - 1 - i];
        WordOrderAt(word, refout, i);
        FeedAt(poly, reg, order, i);
        reg := CrcComb.TakeBit(poly, reg, order[i]);
        TakeBit(bit);
      }
    }
  }

  // ----- order of the bits of a word

  /** `bit_list_reversed_endianity`: the bytes of the word in the opposite order. */
  function ReverseBytes(d: Bits): (r: Bits)
    requires |d| % 8 == 0
    ensures |r| == |d|
    decreases |d|
  {
    if d == [] then [] else ReverseBytes(d[8..]) + d[..8]
  }

  /** `bit_list_reversed_bits_in_bytes`: the bits of every byte in the opposite order. */
  function ReverseInBytes(d: Bits): (r: Bits)
    requires |d| % 8 == 0
    ensures |r| == |d|
    decreases |d|
  {
    if d == [] then [] else Reverse(d[..8]) + ReverseInBytes(d[8..])
  }

  /** The bits of a byte string in transmission order: byte 0 first, each from its top bit, or from bit 0 with REFIN. */
  function Transmission(d: Bits, refin: bool): (order: Bits)
    requires |d| % 8 == 0
    ensures |order| == |d|
    decreases |d|
  {
    if d == [] then [] else WordOrder(d[..8], refin) + Transmission(d[8..], refin)
  }

  lemma {:induction false} TransmissionConcat(a: Bits, b: Bits, refin: bool)
    requires |a| % 8 == 0 && |b| % 8 == 0
    ensures Transmission(a + b, refin) == Transmission(a, refin) + Transmission(b, refin)
    decreases |a|
  {
    if a == [] {
      assert a + b == b;
    } else {
      assert (a + b)[..8] == a[..8] && (a + b)[8..] == a[8..] + b;
      TransmissionConcat(a[8..], b, refin);
      var h, t, u := WordOrder(a[..8], refin), Transmission(a[8..], refin), Transmission(b, refin);
      assert Transmission(a + b, refin) == h + (t + u) == (h + t) + u;
    }
  }

  /** Dropping the low bytes of the byte-reversed word leaves the reversal of its first bytes. */
  lemma {:induction false} FirstBytes(d: Bits, n: nat)
    requires |d| % 8 == 0 && n % 8 == 0 && n <= |d|
    ensures ReverseBytes(d)[|d| - n..] == ReverseBytes(d[..n])
    decreases |d|
  {
    if n > 0 {
      var rest := d[8..];
      FirstBytes(rest, n - 8);
      assert d[..n][8..] == rest[..n - 8] && d[..n][..8] == d[..8];
      assert ReverseBytes(d) == ReverseBytes(rest) + d[..8];
      assert ReverseBytes(d[..n]) == ReverseBytes(rest[..n - 8]) + d[..8];
      DropOfConcat(ReverseBytes(rest), d[..8], |d| - n);
    }
  }

  lemma DropOfConcat<T>(a: seq<T>, b: seq<T>, n: nat)
    requires n <= |a|
    ensures (a + b)[n..] == a[n..] + b
  {
  }

  lemma {:induction false} ReverseInBytesConcat(a: Bits, b: Bits)
    requires |a| % 8 == 0 && |b| == 8
    ensures ReverseInBytes(a + b) == ReverseInBytes(a) + Reverse(b)
    decreases |a|
  {
    if a == [] {
      assert a + b == b && b[..8] == b && b[8..] == [];
    } else {
      assert (a + b)[..8] == a[..8] && (a + b)[8..] == a[8..] + b;
      ReverseInBytesConcat(a[8..], b);
    }
  }

  /** The two reorderings of a whole word. */
  function Reorder(d: Bits, refin: bool): (r: Bits)
    requires |d| % 8 == 0
    ensures |r| == |d|
  {
    if refin then ReverseInBytes(ReverseBytes(d)) else ReverseBytes(d)
  }

  /** What the matrix sees of a word, from its top bit downwards, is the word in transmission order. */
  lemma {:induction false} MatrixOrder(d: Bits, refin: bool)
    requires |d| % 8 == 0
    ensures Reverse(Reorder(d, refin)) == Transmission(d, refin)
    decreases |d|
  {
    if d != [] {
      MatrixOrder(d[8..], refin);
      var rest := ReverseBytes(d[8..]);
      if refin {
        ReverseInBytesConcat(rest, d[..8]);
        ReverseConcat(ReverseInBytes(rest), Reverse(d[..8]));
        ReverseTwice(d[..8]);
      } else {
        ReverseConcat(rest, d[..8]);
      }
    }
  }

  // ----- the unit

  /** A word on the input: `mask` has one bit per `granularity` data bits. */
  datatype Input = Input(vld: bool, last: bool, mask: Bits, data: Bits)

  /** The two registers; `None` is an undefined value. */
  datatype Regs = Regs(c: Option<Bits>, stateTmp: Option<Bits>)

  datatype Params = Params(poly: Bits, init: Bits, refin: bool, granularity: nat, maskWidth: nat)

  ghost predicate ValidParams(p: Params) {
    |p.poly| == |p.init| > 0 && p.granularity % 8 == 0 && p.granularity > 0
  }

  /** The width of `n` mask units. */
  function Span(p: Params, n: nat): (s: nat)
    requires ValidParams(p)
    ensures s % 8 == 0
  {
    if n == 0 then 0
    else
      MultiplesOf8(p.granularity, Span(p, n - 1));
      p.granularity + Span(p, n - 1)
  }

  lemma MultiplesOf8(a: nat, b: nat)
    requires a % 8 == 0 && b % 8 == 0
    ensures (a + b) % 8 == 0
  {
    assert a + b == 8 * (a / 8 + b / 8);
  }

  lemma {:induction false} SpanSplits(p: Params, n: nat, m: nat)
    requires ValidParams(p) && n <= m
    ensures Span(p, m - n) == Span(p, m) - Span(p, n)
  {
    if n > 0 { SpanSplits(p, n - 1, m - 1); }
  }

  ghost predicate ValidInput(p: Params, i: Input) {
    ValidParams(p) && |i.mask| == p.maskWidth && |i.data| == Span(p, p.maskWidth)
  }

  /** `mask(n)` of the given width: the low n bits set. */
  function MaskOf(n: nat, width: nat): (m: Bits)
    requires n <= width
    ensures |m| == width
  {
    seq(width, i => i < n)
  }

  /** The case of the mask switch that is taken: how many units are valid, 0 if no case fits. */
  function MaskCase(mask: Bits, n: nat): (r: nat)
    requires n <= |mask|
    ensures r <= n
    ensures 0 < r ==> mask == MaskOf(r, |mask|)
    ensures r == 0 ==> forall m :: 0 < m <= n ==> mask != MaskOf(m, |mask|)
  {
    if n == 0 then 0 else if mask == MaskOf(n, |mask|) then n else MaskCase(mask, n - 1)
  }

  /** How many units of a word count; the mask is not looked at if it has a single bit. */
  function ValidUnits(p: Params, mask: Bits): (n: nat)
    requires |mask| == p.maskWidth
    ensures n <= p.maskWidth
  {
    if p.maskWidth == 1 then 1 else MaskCase(mask, |mask|)
  }

  /** The bits the matrix gets: the low units of the byte-reversed word are dropped, not the high ones. */
  function MatrixInput(p: Params, data: Bits, n: nat): (b: Bits)
    requires ValidParams(p) && n <= p.maskWidth && |data| == Span(p, p.maskWidth)
    ensures |b| == Span(p, n)
  {
    SpanSplits(p, n, p.maskWidth);
    var b := ReverseBytes(data)[Span(p, p.maskWidth - n)..];
    if p.refin then ReverseInBytes(b) else b
  }

  function Next(p: Params, c: Option<Bits>, i: Input): (r: Option<Bits>)
    requires ValidInput(p, i) && (c.Some? ==> |c.value| == |p.poly|)
    ensures r.Some? ==> |r.value| == |p.poly|
  {
    var n := ValidUnits(p, i.mask);
    if n == 0 || c.None? then None
    else
      var b := MatrixInput(p, i.data, n);
      Some(Apply(Matrix(p.poly, |b|, 0), c.value, b))
  }

  ghost predicate ValidRegs(p: Params, r: Regs) {
    r.c.Some? ==> |r.c.value| == |p.poly|
  }

  function Step(p: Params, r: Regs, i: Input): (t: Regs)
    requires ValidParams(p) && ValidRegs(p, r) && ValidInput(p, i)
    ensures ValidRegs(p, t)
  {
    var next := if i.vld then Next(p, r.c, i) else r.c;
    Regs(if i.vld && i.last then Some(p.init) else next, next)
  }

  ghost function Run(p: Params, ins: seq<Input>): (r: Regs)
    requires ValidParams(p) && forall i :: i in ins ==> ValidInput(p, i)
    ensures ValidRegs(p, r)
    decreases |ins|
  {
    if ins == [] then Regs(Some(p.init), None) else Step(p, Run(p, ins[..|ins| - 1]), ins[|ins| - 1])
  }

  // ----- frames

  /** Some unit of the word belongs to the frame, and with every unit those before it. */
  ghost predicate NonEmptyPrefix(mask: Bits) {
    mask != [] && mask[0] && forall k :: 0 < k < |mask| && mask[k] ==> mask[k - 1]
  }

  /** The units of a word whose bit in the mask is set. */
  function Selected(p: Params, mask: Bits, data: Bits): (d: Bits)
    requires ValidParams(p) && |data| == Span(p, |mask|)
    ensures |d| % 8 == 0
    decreases |mask|
  {
    if mask == [] then []
    else
      var rest := Selected(p, mask[1..], data[p.granularity..]);
      if mask[0] then
        MultiplesOf8(p.granularity, |rest|);
        data[..p.granularity] + rest
      else rest
  }

  /**
   The bytes of a frame and those of one more word: all of them if the mask has a single bit, which is not looked at,
   else those whose bit is set. `None` once such a mask was not a non-empty prefix.
   */
  ghost function Append(p: Params, frame: Option<Bits>, i: Input): (r: Option<Bits>)
    requires ValidInput(p, i) && (frame.Some? ==> |frame.value| % 8 == 0)
    ensures r.Some? ==> |r.value| % 8 == 0
  {
    var whole := p.maskWidth == 1;
    if frame.None? || !(whole || NonEmptyPrefix(i.mask)) then None
    else
      var more := if whole then i.data else Selected(p, i.mask, i.data);
      MultiplesOf8(|frame.value|, |more|);
      Some(frame.value + more)
  }

  lemma {:induction false} FirstUnits(p: Params, n: nat, width: nat, data: Bits)
    requires ValidParams(p) && n <= width && |data| == Span(p, width)
    ensures Span(p, n) <= |data| && Selected(p, MaskOf(n, width), data) == data[..Span(p, n)]
    decreases width
  {
    if width > 0 {
      var rest, mask, g := data[p.granularity..], MaskOf(n, width), p.granularity;
      if n > 0 {
        assert mask[1..] == MaskOf(n - 1, width - 1);
        FirstUnits(p, n - 1, width - 1, rest);
        assert data[..g] + rest[..Span(p, n - 1)] == data[..Span(p, n)];
      } else {
        assert mask[1..] == MaskOf(0, width - 1);
        FirstUnits(p, 0, width - 1, rest);
      }
    }
  }

  lemma PrefixHasCase(mask: Bits)
    ensures MaskCase(mask, |mask|) > 0 <==> NonEmptyPrefix(mask)
  {
    if NonEmptyPrefix(mask) {
      var n := Ones(mask, |mask|);
      assert mask == MaskOf(n, |mask|);
    }
  }

  /** The number of set bits of a prefix, among the first `k`. */
  lemma {:induction false} Ones(mask: Bits, k: nat) returns (n: nat)
    requires NonEmptyPrefix(mask) && 0 < k <= |mask|
    ensures 0 < n <= k && forall i :: 0 <= i < k ==> (mask[i] <==> i < n)
  {
    if k == 1 {
      n := 1;
    } else {
      n := Ones(mask, k - 1);
      if mask[k - 1] {
        assert mask[(k - 1) - 1];
        n := k;
      }
    }
  }

  /** The case of the switch that is taken enters exactly the bytes that belong to the frame. */
  lemma UnitsAreSelected(p: Params, i: Input)
    requires ValidInput(p, i)
    ensures var n := ValidUnits(p, i.mask);
      && Span(p, n) <= |i.data|
      && (n > 0 <==> p.maskWidth == 1 || NonEmptyPrefix(i.mask))
      && (n > 0 ==> i.data[..Span(p, n)] == if p.maskWidth == 1 then i.data else Selected(p, i.mask, i.data))
  {
    var n := ValidUnits(p, i.mask);
    PrefixHasCase(i.mask);
    FirstUnits(p, n, p.maskWidth, i.data);
    if p.maskWidth == 1 {
      assert i.data[..|i.data|] == i.data;
    } else if n > 0 {
      assert i.mask == MaskOf(n, p.maskWidth);
    }
  }

  /** The bytes that belong to the frame, since the last word marked `last`. */
  ghost function Frame(p: Params, ins: seq<Input>): (f: Option<Bits>)
    requires ValidParams(p) && forall i :: i in ins ==> ValidInput(p, i)
    ensures f.Some? ==> |f.value| % 8 == 0
    decreases |ins|
  {
    if ins == [] then Some([])
    else
      var before, i := Frame(p, ins[..|ins| - 1]), ins[|ins| - 1];
      if !i.vld then before else if i.last then Some([]) else Append(p, before, i)
  }

  /** The bit-serial CRC of a byte string from INIT. */
  ghost function SerialCrc(p: Params, frame: Option<Bits>): (r: Option<Bits>)
    requires ValidParams(p) && (frame.Some? ==> |frame.value| % 8 == 0)
  {
    if frame.None? then None
    else Some(Feed(p.poly[0 := true], p.init, Transmission(frame.value, p.refin)))
  }

  lemma BytesEnter(poly: Bits, v: Bits, d: Bits, refin: bool)
    requires |v| == |poly| > 0 && |d| % 8 == 0
    ensures Apply(Matrix(poly, |d|, 0), v, Reorder(d, refin)) == Feed(poly[0 := true], v, Transmission(d, refin))
  {
    MatrixIsSerial(poly, v, Reorder(d, refin));
    SerialIsFeed(poly[0 := true], v, Reorder(d, refin));
    MatrixOrder(d, refin);
  }

  /** The matrix of a word with n valid units enters exactly its first n units, in transmission order. */
  lemma WordEnters(p: Params, v: Bits, data: Bits, n: nat)
    requires ValidParams(p) && |v| == |p.poly| && n <= p.maskWidth && |data| == Span(p, p.maskWidth)
    ensures 0 <= Span(p, n) <= |data| && Span(p, n) % 8 == 0
    ensures var b := MatrixInput(p, data, n);
      Apply(Matrix(p.poly, |b|, 0), v, b) == Feed(p.poly[0 := true], v, Transmission(data[..Span(p, n)], p.refin))
  {
    SpanSplits(p, n, p.maskWidth);
    FirstBytes(data, Span(p, n));
    var first := data[..Span(p, n)];
    assert MatrixInput(p, data, n) == Reorder(first, p.refin);
    BytesEnter(p.poly, v, first, p.refin);
  }

  lemma NextIsSerial(p: Params, frame: Option<Bits>, i: Input)
    requires ValidInput(p, i) && (frame.Some? ==> |frame.value| % 8 == 0)
    ensures Next(p, SerialCrc(p, frame), i) == SerialCrc(p, Append(p, frame, i))
  {
    var n := ValidUnits(p, i.mask);
    UnitsAreSelected(p, i);
    if frame.Some? && n > 0 {
      var v, first := SerialCrc(p, frame).value, i.data[..Span(p, n)];
      WordEnters(p, v, i.data, n);
      TransmissionConcat(frame.value, first, p.refin);
      FeedConcat(p.poly[0 := true], p.init, Transmission(frame.value, p.refin), Transmission(first, p.refin));
    }
  }

  /** In every run the register is the serial CRC of the bytes of the current frame. */
  lemma {:induction false} StateIsSerial(p: Params, ins: seq<Input>)
    requires ValidParams(p) && forall i :: i in ins ==> ValidInput(p, i)
    ensures Run(p, ins).c == SerialCrc(p, Frame(p, ins))
    decreases |ins|
  {
    if ins == [] {
    } else {
      var before, i := ins[..|ins| - 1], ins[|ins| - 1];
      StateIsSerial(p, before);
      NextIsSerial(p, Frame(p, before), i);
    }
  }

  /** After every clock the output is the serial CRC of the frame with the word of this clock, if there is one. */
  lemma OutputFollows(p: Params, ins: seq<Input>, i: Input)
    requires ValidParams(p) && (forall j :: j in ins ==> ValidInput(p, j)) && ValidInput(p, i)
    ensures Run(p, ins + [i]).stateTmp
         == SerialCrc(p, if i.vld then Append(p, Frame(p, ins), i) else Frame(p, ins))
  {
    assert (ins + [i])[..|ins|] == ins;
    StateIsSerial(p, ins);
    NextIsSerial(p, Frame(p, ins), i);
  }

  /**
   What is captured with the last word of a frame is the serial CRC, from INIT, of exactly the bytes that belong to it;
   and the next frame starts from INIT.
   */
  lemma CapturedAtLast(p: Params, ins: seq<Input>, i: Input)
    requires ValidParams(p) && (forall j :: j in ins ==> ValidInput(p, j)) && ValidInput(p, i)
    requires i.vld && i.last
    ensures Run(p, ins + [i]).stateTmp == SerialCrc(p, Append(p, Frame(p, ins), i))
    ensures Run(p, ins + [i]).c == Some(p.init)
  {
    OutputFollows(p, ins, i);
    assert (ins + [i])[..|ins|] == ins;
  }

  class Crc {
    const p: Params
    var c: Option<Bits>
    var stateTmp: Option<Bits>

    ghost function State(): Regs
      reads this
    {
      Regs(c, stateTmp)
    }

    ghost predicate Valid()
      reads this
    {
      ValidParams(p) && ValidRegs(p, State())
    }

    constructor (p: Params)
      requires ValidParams(p)
      ensures this.p == p && Valid() && State() == Run(p, [])
    {
      this.p, c, stateTmp := p, Some(p.init), None;
    }

    /** One clock edge. */
    method Clk(i: Input)
      requires Valid() && ValidInput(p, i)
      modifies this
      ensures Valid() && State() == Step(p, old(State()), i)
    {
      var next := c;
      if i.vld {
        var n := ValidUnits(p, i.mask);
        if n == 0 || c.None? {
          next := None;
        } else {
          var b := MatrixInput(p, i.data, n);
          var matrix := BuildCrcXorMatrix(|b|, p.poly);
          var bits := ApplyCrcXorMatrix(matrix, b, c.value);
          next := Some(bits);
        }
      }
      c, stateTmp := if i.vld && i.last then Some(p.init) else next, next;
    }
  }
}
