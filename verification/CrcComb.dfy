/**
 The XOR matrix behind the parallel CRC generators, against the bit-serial register it has
 to agree with.
 */
module CrcComb {
  import opened Bits

  /** One bit of the message enters the serial register (`takeBit` without REFIN). */
  function TakeBit(poly: Bits, v: Bits, bit: bool): (r: Bits)
    requires |v| == |poly| > 0
    ensures |r| == |v|
  {
    var shifted := [false] + v[..|v| - 1];
    if v[|v| - 1] != bit then Xor(shifted, poly) else shifted
  }

  /** The register after the bits of `d` entered, the most significant first. */
  function Serial(poly: Bits, v: Bits, d: Bits): (r: Bits)
    requires |v| == |poly| > 0
    ensures |r| == |v|
    decreases |d|
  {
    if d == [] then v else Serial(poly, TakeBit(poly, v, d[|d| - 1]), d[..|d| - 1])
  }

  // ----- the matrix

  /** Which state bits and which data bits are XORed into one bit of the result. */
  datatype Row = Row(state: Bits, data: Bits)

  type Rows = seq<Row>

  ghost predicate Shape(m: Rows, pw: nat, dw: nat) {
    && |m| == pw
    && forall x :: 0 <= x < pw ==> |m[x].state| == pw && |m[x].data| == dw
  }

  function Unit(pw: nat, x: nat): (r: Bits)
    ensures |r| == pw
  {
    seq(pw, y => x == y)
  }

  /** The mapping of the state to itself. */
  function Identity(pw: nat, dw: nat): (m: Rows)
    ensures Shape(m, pw, dw)
  {
    seq(pw, x requires 0 <= x < pw => Row(Unit(pw, x), Zeros(dw)))
  }

  function XorRows(a: Row, b: Row): (r: Row)
    requires |a.state| == |b.state| && |a.data| == |b.data|
  {
    Row(Xor(a.state, b.state), Xor(a.data, b.data))
  }

  /** One more data bit: the top row takes the bit in, moves to the bottom, and is XORed in where `poly` says. */
  function AddBit(m: Rows, poly: Bits, i: nat, dw: nat): (r: Rows)
    requires |poly| > 0 && i < dw && Shape(m, |poly|, dw)
    ensures Shape(r, |poly|, dw)
  {
    var pw := |poly|;
    var top := m[pw - 1];
    var val := Row(top.state, top.data[i := !top.data[i]]);
    seq(pw, x requires 0 <= x < pw =>
      if x == 0 then val else if poly[x] then XorRows(m[x - 1], val) else m[x - 1])
  }

  /** The matrix after the data bits dw - 1 down to i. */
  function Matrix(poly: Bits, dw: nat, i: nat): (m: Rows)
    requires |poly| > 0 && i <= dw
    ensures Shape(m, |poly|, dw)
    decreases dw - i
  {
    if i == dw then Identity(|poly|, dw) else AddBit(Matrix(poly, dw, i + 1), poly, i, dw)
  }

  /** The inner loop: the row `val`, already at the bottom, is XORed into the others where `poly` says. */
  method XorWhere(rows: Rows, val: Row, poly: Bits, ghost dw: nat) returns (m: Rows)
    requires |poly| > 0 && Shape(rows, |poly|, dw) && rows[0] == val
    ensures |m| == |poly| && m[0] == val
    ensures forall y :: 1 <= y < |m| ==> m[y] == if poly[y] then XorRows(rows[y], val) else rows[y]
  {
    m := rows;
    for x := 1 to |poly|
      invariant |m| == |poly| && m[0] == val
      invariant forall y :: 1 <= y < |poly| ==> m[y] == if y < x && poly[y] then XorRows(rows[y], val) else rows[y]
    {
      if poly[x] {
        m := m[x := XorRows(m[x], val)];
      }
    }
  }

  /** One round of the outer loop: the top row takes the data bit `i` in and moves to the bottom. */
  method ShiftRows(rows: Rows, poly: Bits, i: nat, ghost dw: nat) returns (m: Rows)
    requires |poly| > 0 && i < dw && Shape(rows, |poly|, dw)
    ensures m == AddBit(rows, poly, i, dw)
  {
    var pw := |poly|;
    var val := rows[pw - 1];
    val := val.(data := val.data[i := !val.data[i]]);
    m := [val] + rows;
    m := m[..pw];
    assert forall y :: 1 <= y < pw ==> m[y] == rows[y - 1];
    m := XorWhere(m, val, poly, dw);
  }

  /** `buildCrcXorMatrix`: the rows as they are moved and XORed in place. */
  method BuildCrcXorMatrix(dw: nat, poly: Bits) returns (m: Rows)
    requires |poly| > 0
    ensures m == Matrix(poly, dw, 0)
  {
    m := seq(|poly|, x requires 0 <= x < |poly| => Row(Unit(|poly|, x), Zeros(dw)));
    var i := dw;
    while i > 0
      invariant 0 <= i <= dw
      invariant m == Matrix(poly, dw, i)
    {
      i := i - 1;
      m := ShiftRows(m, poly, i, dw);
    }
  }

  /** One bit of the result. */
  function Eval(row: Row, s: Bits, d: Bits): bool
    requires |row.state| == |s| && |row.data| == |d|
  {
    Dot(row.state, s) != Dot(row.data, d)
  }

  function Apply(m: Rows, s: Bits, d: Bits): (r: Bits)
    requires Shape(m, |s|, |d|)
    ensures |r| == |s|
  {
    seq(|s|, x requires 0 <= x < |s| => Eval(m[x], s, d))
  }

  /** `applyCrcXorMatrix` on the reordered input: two accumulating loops per row. */
  method ApplyCrcXorMatrix(m: Rows, inBits: Bits, stateBits: Bits) returns (outBits: Bits)
    requires Shape(m, |stateBits|, |inBits|)
    ensures outBits == Apply(m, stateBits, inBits)
  {
    outBits := [];
    for x := 0 to |m|
      invariant outBits == Apply(m, stateBits, inBits)[..x]
    {
      var v := false;
      for j := 0 to |stateBits|
        invariant Dot(m[x].state, stateBits) == (v != Dot(m[x].state[j..], stateBits[j..]))
      {
        if m[x].state[j] { v := v != stateBits[j]; }
      }
      for j := 0 to |inBits|
        invariant Eval(m[x], stateBits, inBits) == (v != Dot(m[x].data[j..], inBits[j..]))
      {
        if m[x].data[j] { v := v != inBits[j]; }
      }
      outBits := outBits + [v];
    }
  }

  // ----- the matrix computes the register

  lemma {:induction false} DotUnit(pw: nat, x: nat, s: Bits)
    requires x < pw == |s|
    ensures Dot(Unit(pw, x), s) == s[x]
  {
    DotZeros(s);
    DotToggle(Zeros(pw), s, x);
    assert Unit(pw, x) == Zeros(pw)[x := true];
  }

  lemma AddBitIsTakeBit(m: Rows, poly: Bits, i: nat, s: Bits, d: Bits)
    requires |poly| > 0 && i < |d| && |s| == |poly| && Shape(m, |poly|, |d|)
    ensures Apply(AddBit(m, poly, i, |d|), s, d) == TakeBit(poly[0 := true], Apply(m, s, d), d[i])
  {
    var pw := |poly|;
    var top := m[pw - 1];
    var val := Row(top.state, top.data[i := !top.data[i]]);
    DotToggle(top.data, d, i);
    assert Eval(val, s, d) == (Apply(m, s, d)[pw - 1] != d[i]);
    forall x | 0 <= x < pw
      ensures Apply(AddBit(m, poly, i, |d|), s, d)[x] == TakeBit(poly[0 := true], Apply(m, s, d), d[i])[x]
    {
      if x > 0 && poly[x] {
        DotXor(m[x - 1].state, val.state, s);
        DotXor(m[x - 1].data, val.data, d);
      }
    }
  }

  /** The register after the data bits dw - 1 down to i. */
  lemma {:induction false} MatrixPrefix(poly: Bits, s: Bits, d: Bits, i: nat)
    requires |poly| == |s| > 0 && i <= |d|
    ensures Serial(poly[0 := true], s, d) == Serial(poly[0 := true], Apply(Matrix(poly, |d|, i), s, d), d[..i])
    decreases |d| - i
  {
    if i == |d| {
      assert d[..i] == d;
      assert Apply(Identity(|s|, |d|), s, d) == s by {
        forall x | 0 <= x < |s| ensures Apply(Identity(|s|, |d|), s, d)[x] == s[x] {
          DotUnit(|s|, x, s);
          DotZeros(d);
        }
      }
    } else {
      MatrixPrefix(poly, s, d, i + 1);
      AddBitIsTakeBit(Matrix(poly, |d|, i + 1), poly, i, s, d);
      assert d[..i + 1][..i] == d[..i];
    }
  }

  /**
   For every width, polynomial, state and data word: the matrix does what the serial register of the
   polynomial with its lowest coefficient set does.
   */
  lemma MatrixIsSerial(poly: Bits, s: Bits, d: Bits)
    requires |poly| == |s| > 0
    ensures Apply(Matrix(poly, |d|, 0), s, d) == Serial(poly[0 := true], s, d)
  {
    MatrixPrefix(poly, s, d, 0);
  }

  ghost predicate Agrees(poly: Bits, dw: nat)
    requires |poly| > 0
  {
    forall s: Bits, d: Bits :: |s| == |poly| && |d| == dw ==> Apply(Matrix(poly, dw, 0), s, d) == Serial(poly, s, d)
  }

  /**
   So it is the serial register of the polynomial itself exactly if its lowest coefficient is 1 (or no bit
   enters).
   */
  lemma AgreesExactly(poly: Bits, dw: nat)
    requires |poly| > 0
    ensures Agrees(poly, dw) <==> poly[0] || dw == 0
  {
    if poly[0] || dw == 0 {
      forall s: Bits, d: Bits | |s| == |poly| && |d| == dw
        ensures Apply(Matrix(poly, dw, 0), s, d) == Serial(poly, s, d)
      {
        MatrixIsSerial(poly, s, d);
        if poly[0] { assert poly[0 := true] == poly; }
      }
    } else {
      EvenConstantAlwaysDiffers(poly, dw);
    }
  }

  /** From the zero register a one, followed by zeros, puts the polynomial itself into the register. */
  lemma EvenConstantAlwaysDiffers(poly: Bits, dw: nat)
    requires |poly| > 0 && !poly[0] && dw > 0
    ensures var s, d := Zeros(|poly|), [true] + Zeros(dw - 1);
      Apply(Matrix(poly, dw, 0), s, d) == poly[0 := true] && Serial(poly, s, d) == poly
  {
    MatrixIsSerial(poly, Zeros(|poly|), [true] + Zeros(dw - 1));
    LeadingZeros(poly[0 := true], dw - 1);
    LeadingZeros(poly, dw - 1);
  }

  /** A polynomial with an even constant: x^2 + x, from the zero register, with one data bit. */
  lemma EvenConstantDiffers()
    ensures var poly, s, d := [false, true], [false, false], [true];
      Apply(Matrix(poly, 1, 0), s, d) == [true, true] && Serial(poly, s, d) == [false, true]
  {
    var poly, s, d := [false, true], [false, false], [true];
    assert poly[0 := true] == [true, true] && Zeros(2) == s && d == [true] + Zeros(0);
    EvenConstantAlwaysDiffers(poly, 1);
  }

  /** The zero register ignores leading zeros; the 1 behind them puts the polynomial into it. */
  lemma {:induction false} LeadingZeros(poly: Bits, n: nat)
    requires |poly| > 0
    ensures Serial(poly, Zeros(|poly|), [true] + Zeros(n)) == poly
  {
    OneBit(poly);
    OneAndZeros(n);
    if n == 0 {
      SerialNext(poly, Zeros(|poly|), [], true);
    } else {
      LeadingZeros(poly, n - 1);
      SerialNext(poly, Zeros(|poly|), [true] + Zeros(n - 1), false);
    }
  }

  lemma OneAndZeros(n: nat)
    ensures [true] + Zeros(n) == if n == 0 then [] + [true] else ([true] + Zeros(n - 1)) + [false]
  {
  }

  /** The last bit of the word enters first. */
  lemma SerialNext(poly: Bits, v: Bits, d: Bits, bit: bool)
    requires |poly| == |v| > 0
    ensures Serial(poly, v, d + [bit]) == Serial(poly, TakeBit(poly, v, bit), d)
  {
    assert (d + [bit])[..|d|] == d;
  }

  lemma OneBit(poly: Bits)
    requires |poly| > 0
    ensures TakeBit(poly, Zeros(|poly|), true) == poly && TakeBit(poly, Zeros(|poly|), false) == Zeros(|poly|)
  {
  }
}
