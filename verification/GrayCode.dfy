/** Reflected Gray code: `binToGray` and what an asynchronous pointer comparison needs of it. */
module GrayCode {
  import opened Arithmetic

  /** A hardware word, from its least significant bit. */
  datatype Word = Empty | Bit(lsb: bool, rest: Word) {
    function Width(): nat {
      if Empty? then 0 else 1 + rest.Width()
    }
  }

  /** The low `w` bits of `x`. */
  function ToWord(x: nat, w: nat): (b: Word)
    ensures b.Width() == w
  {
    if w == 0 then Empty else Bit(x % 2 == 1, ToWord(x / 2, w - 1))
  }

  function Xor(a: Word, b: Word): (r: Word)
    requires a.Width() == b.Width()
    ensures r.Width() == a.Width()
  {
    if a.Empty? then Empty else Bit(a.lsb != b.lsb, Xor(a.rest, b.rest))
  }

  /** The word with a zero bit added above its most significant bit. */
  function ZeroExtend(a: Word): (r: Word)
    ensures r.Width() == a.Width() + 1
  {
    if a.Empty? then Bit(false, Empty) else Bit(a.lsb, ZeroExtend(a.rest))
  }

  /** Logic shift right by one; the width is kept. */
  function ShiftRight(a: Word): (r: Word)
    ensures r.Width() == a.Width()
  {
    if a.Empty? then Empty else ZeroExtend(a.rest)
  }

  /** The source's one-liner: the word shifted right by one, XORed with the word. */
  function BinToGray(b: Word): (g: Word)
    ensures g.Width() == b.Width()
  {
    Xor(ShiftRight(b), b)
  }

  /** Gray code of the `w`-bit number `x`, bit by bit. */
  function Gray(x: nat, w: nat): (g: Word)
    ensures g.Width() == w
  {
    if w == 0 then Empty else Bit((x % 2 == 1) != (x / 2 % 2 == 1), Gray(x / 2, w - 1))
  }

  /** The word with bit `k` inverted. */
  function Flip(g: Word, k: nat): (r: Word)
    requires k < g.Width()
    ensures r.Width() == g.Width()
  {
    if k == 0 then g.(lsb := !g.lsb) else g.(rest := Flip(g.rest, k - 1))
  }

  /** The two most significant bits inverted, the rest kept. */
  function InvertTopTwo(g: Word): (r: Word)
    requires g.Width() >= 2
    ensures r.Width() == g.Width()
  {
    if g.Width() == 2 then g.(lsb := !g.lsb, rest := g.rest.(lsb := !g.rest.lsb))
    else g.(rest := InvertTopTwo(g.rest))
  }

  /** The shift-and-XOR of the source computes the bitwise code, on every number that fits. */
  lemma {:induction false} BinToGrayIsGray(x: nat, w: nat)
    requires x < Pow2(w)
    ensures BinToGray(ToWord(x, w)) == Gray(x, w)
  {
    if w > 1 {
      BinToGrayIsGray(x / 2, w - 1);
      assert ShiftRight(ToWord(x, w)) == Bit(x / 2 % 2 == 1, ShiftRight(ToWord(x / 2, w - 1)));
    }
  }

  /** Different numbers have different Gray words. */
  lemma {:induction false} GrayInjective(x: nat, y: nat, w: nat)
    requires x < Pow2(w) && y < Pow2(w)
    requires Gray(x, w) == Gray(y, w)
    ensures x == y
  {
    if w > 0 { GrayInjective(x / 2, y / 2, w - 1); }
  }

  /** Successor of a `w`-bit counter. */
  function Next(x: nat, w: nat): (y: nat)
    requires x < Pow2(w)
    ensures y < Pow2(w)
  {
    Wrap(x, Pow2(w))
  }

  /** A `w`-bit counter half a turn further. */
  function HalfTurn(x: nat, w: nat): (y: nat)
    requires 0 < w && x < Pow2(w)
    ensures y < Pow2(w)
  {
    if x < Pow2(w - 1) then x + Pow2(w - 1) else x - Pow2(w - 1)
  }

  lemma HalfOfNext(x: nat, w: nat)
    requires 2 <= w && x < Pow2(w)
    ensures x / 2 < Pow2(w - 1)
    ensures x % 2 == 0 ==> Next(x, w) / 2 == x / 2 && Next(x, w) % 2 == 1
    ensures x % 2 == 1 ==> Next(x, w) / 2 == Next(x / 2, w - 1) && Next(x, w) % 2 == 0
    ensures Next(x / 2, w - 1) % 2 != x / 2 % 2
  {
    assert Pow2(w - 1) == 2 * Pow2(w - 2);
  }

  /** A step of the counter, the wrap included, flips exactly the bit that is returned. */
  lemma {:induction false} GrayStep(x: nat, w: nat) returns (k: nat)
    requires 0 < w && x < Pow2(w)
    ensures k < w
    ensures Gray(Next(x, w), w) == Flip(Gray(x, w), k)
  {
    k := 0;
    if w == 1 {
      assert Pow2(1) == 2;
    } else {
      HalfOfNext(x, w);
      if x % 2 == 1 {
        var j := GrayStep(x / 2, w - 1);
        k := j + 1;
      }
    }
  }

  /** Half a turn of the counter inverts exactly the top two bits. */
  lemma {:induction false} GrayHalfTurn(x: nat, w: nat)
    requires 2 <= w && x < Pow2(w)
    ensures Gray(HalfTurn(x, w), w) == InvertTopTwo(Gray(x, w))
  {
    if w == 2 {
      assert Pow2(1) == 2;
    } else {
      HalfOfHalfTurn(x, w);
      GrayHalfTurn(x / 2, w - 1);
    }
  }

  lemma EvenShift(x: int, e: int)
    ensures (x + 2 * e) / 2 == x / 2 + e && (x + 2 * e) % 2 == x % 2
  {
  }

  lemma HalfOfHalfTurn(x: nat, w: nat)
    requires 3 <= w && x < Pow2(w)
    ensures x / 2 < Pow2(w - 1)
    ensures HalfTurn(x, w) / 2 == HalfTurn(x / 2, w - 1)
    ensures HalfTurn(x, w) % 2 == x % 2 && HalfTurn(x / 2, w - 1) % 2 == x / 2 % 2
  {
    var p: int := Pow2(w - 3);
    assert Pow2(w - 2) == 2 * p && Pow2(w - 1) == 4 * p && Pow2(w) == 8 * p;
    var e: int := if x < 4 * p then p else -p;
    EvenShift(x, 2 * e);
    EvenShift(x / 2, e);
  }

  /** The full test of the FIFO: equality with the inverted word is distance of half a turn, for every pair. */
  lemma HalfTurnTest(x: nat, y: nat, w: nat)
    requires 2 <= w && x < Pow2(w) && y < Pow2(w)
    ensures Gray(y, w) == InvertTopTwo(Gray(x, w)) <==> y == HalfTurn(x, w)
  {
    GrayHalfTurn(x, w);
    if Gray(y, w) == InvertTopTwo(Gray(x, w)) {
      GrayInjective(y, HalfTurn(x, w), w);
    }
  }
}
