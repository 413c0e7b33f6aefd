/** Lists of bits, the least significant bit (or the lowest coefficient) first. */
module Bits {
  type Bits = seq<bool>

  function Zeros(n: nat): (r: Bits)
    ensures |r| == n
  {
    seq(n, _ => false)
  }

  function Xor(a: Bits, b: Bits): (r: Bits)
    requires |a| == |b|
    ensures |r| == |a|
  {
    seq(|a|, i requires 0 <= i < |a| => a[i] != b[i])
  }

  function Reverse(a: Bits): (r: Bits)
    ensures |r| == |a|
  {
    seq(|a|, i requires 0 <= i < |a| => a[|a| - 1 - i])
  }

  lemma ReverseTwice(a: Bits)
    ensures Reverse(Reverse(a)) == a
  {
  }

  lemma ReverseConcat(a: Bits, b: Bits)
    ensures Reverse(a + b) == Reverse(b) + Reverse(a)
  {
  }

  lemma ReverseXor(a: Bits, b: Bits)
    requires |a| == |b|
    ensures Reverse(Xor(a, b)) == Xor(Reverse(a), Reverse(b))
  {
  }

  lemma ReverseNext(a: Bits)
    requires a != []
    ensures Reverse(a)[0] == a[|a| - 1] && Reverse(a)[1..] == Reverse(a[..|a| - 1])
  {
  }

  /** XOR of the bits selected by `mask`. */
  function Dot(mask: Bits, bits: Bits): bool
    requires |mask| == |bits|
  {
    if mask == [] then false else (mask[0] && bits[0]) != Dot(mask[1..], bits[1..])
  }

  lemma {:induction false} DotXor(a: Bits, b: Bits, bits: Bits)
    requires |a| == |b| == |bits|
    ensures Dot(Xor(a, b), bits) == (Dot(a, bits) != Dot(b, bits))
  {
    if a != [] {
      DotXor(a[1..], b[1..], bits[1..]);
      assert Xor(a, b)[1..] == Xor(a[1..], b[1..]);
    }
  }

  lemma {:induction false} DotZeros(bits: Bits)
    ensures Dot(Zeros(|bits|), bits) == false
  {
    if bits != [] {
      DotZeros(bits[1..]);
      assert Zeros(|bits|)[1..] == Zeros(|bits| - 1);
    }
  }

  /** Toggling one selection bit toggles the result by that data bit. */
  lemma {:induction false} DotToggle(mask: Bits, bits: Bits, i: nat)
    requires |mask| == |bits| && i < |mask|
    ensures Dot(mask[i := !mask[i]], bits) == (Dot(mask, bits) != bits[i])
  {
    var t := mask[i := !mask[i]];
    if i == 0 {
      assert t[1..] == mask[1..];
    } else {
      DotToggle(mask[1..], bits[1..], i - 1);
      assert t[1..] == mask[1..][i - 1 := !mask[1..][i - 1]];
    }
  }
}
