/**
 What the serial CRC register means: a remainder of polynomial division over GF(2).
 A polynomial is its list of coefficients, the constant first.
 */
module CrcPolynomial {
  import opened Bits
  import opened CrcComb

  /** The product of `q` and the generator x^PW + poly, by schoolbook multiplication. */
  function TimesGenerator(q: Bits, poly: Bits): (p: Bits)
    ensures |p| == |q| + |poly|
    decreases |q|
  {
    if q == [] then Zeros(|poly|)
    else
      var n := |q| - 1;
      var lower := TimesGenerator(q[..n], poly) + [false];
      if q[n] then Xor(lower, Zeros(n) + poly + [true]) else lower
  }

  /** The message times x^PW plus the register times x^DW. */
  function Dividend(v: Bits, d: Bits): (p: Bits)
    ensures |p| == |v| + |d|
  {
    Xor(Zeros(|v|) + d, Zeros(|d|) + v)
  }

  /** `r` is a remainder of `p` divided by the generator, with quotient `q`. */
  ghost predicate Divides(poly: Bits, p: Bits, q: Bits, r: Bits) {
    && |r| == |poly| && |p| == |q| + |r|
    && p == Xor(TimesGenerator(q, poly), r + Zeros(|q|))
  }

  lemma DividendAt(v: Bits, d: Bits, k: nat)
    requires k < |v| + |d|
    ensures Dividend(v, d)[k] == ((k >= |v| && d[k - |v|]) != (k >= |d| && v[k - |d|]))
  {
    assert (Zeros(|v|) + d)[k] == (k >= |v| && d[k - |v|]);
    assert (Zeros(|d|) + v)[k] == (k >= |d| && v[k - |d|]);
  }

  lemma TakeBitAt(poly: Bits, v: Bits, bit: bool, j: nat)
    requires |v| == |poly| > j
    ensures TakeBit(poly, v, bit)[j] == ((j > 0 && v[j - 1]) != ((v[|v| - 1] != bit) && poly[j]))
  {
    assert ([false] + v[..|v| - 1])[j] == (j > 0 && v[j - 1]);
  }

  /** What taking the top bit of `d` into `v` leaves of the dividend, and the generator at its top. */
  function Left(poly: Bits, v: Bits, d: Bits): (p: Bits)
    requires |v| == |poly| > 0 && d != []
    ensures |p| == |v| + |d|
  {
    var n := |d| - 1;
    var rest := Dividend(TakeBit(poly, v, d[n]), d[..n]) + [false];
    if d[n] != v[|v| - 1] then Xor(rest, Zeros(n) + poly + [true]) else rest
  }

  lemma GeneratorAt(poly: Bits, n: nat, k: nat)
    requires k <= n + |poly|
    ensures (Zeros(n) + poly + [true])[k] == (n <= k && (k == n + |poly| || poly[k - n]))
  {
    assert k < n ==> (Zeros(n) + poly)[k] == false;
  }

  lemma LeftUnfold(poly: Bits, v: Bits, d: Bits, k: nat)
    requires |v| == |poly| > 0 && d != [] && k < |v| + |d|
    ensures var n := |d| - 1;
      var rest := Dividend(TakeBit(poly, v, d[n]), d[..n]);
      Left(poly, v, d)[k] == ((k < n + |v| && rest[k]) !=
        (d[n] != v[|v| - 1] && n <= k && (k == n + |v| || poly[k - n])))
  {
    var n := |d| - 1;
    GeneratorAt(poly, n, k);
    var rest := Dividend(TakeBit(poly, v, d[n]), d[..n]);
    assert (rest + [false])[k] == (k < n + |v| && rest[k]);
  }

  lemma LeftAt(poly: Bits, v: Bits, d: Bits, k: nat)
    requires |v| == |poly| > 0 && d != [] && k < |v| + |d|
    ensures Left(poly, v, d)[k] == Dividend(v, d)[k]
  {
    var n := |d| - 1;
    var v' := TakeBit(poly, v, d[n]);
    LeftUnfold(poly, v, d, k);
    DividendAt(v, d, k);
    if k < n + |v| {
      DividendAt(v', d[..n], k);
      assert k >= |v| ==> d[..n][k - |v|] == d[k - |v|];
      if n <= k { TakeBitAt(poly, v, d[n], k - n); }
    }
  }

  /** Taking one bit in is one step of long division. */
  lemma DivisionStep(poly: Bits, v: Bits, d: Bits)
    requires |v| == |poly| > 0 && d != []
    ensures Left(poly, v, d) == Dividend(v, d)
  {
    forall k | 0 <= k < |v| + |d| ensures Left(poly, v, d)[k] == Dividend(v, d)[k] {
      LeftAt(poly, v, d, k);
    }
  }

  /** The register holds the remainder; the quotient is returned. */
  lemma {:induction false} SerialDivides(poly: Bits, v: Bits, d: Bits) returns (q: Bits)
    requires |v| == |poly| > 0
    ensures |q| == |d| && Divides(poly, Dividend(v, d), q, Serial(poly, v, d))
    decreases |d|
  {
    if d == [] {
      q := [];
      assert Dividend(v, d) == v;
    } else {
      var n := |d| - 1;
      var v', d' := TakeBit(poly, v, d[n]), d[..n];
      var q' := SerialDivides(poly, v', d');
      DivisionStep(poly, v, d);
      var top := d[n] != v[|v| - 1];
      q := q' + [top];
      assert q[..n] == q';
      var r := Serial(poly, v', d');
      assert r + Zeros(n + 1) == (r + Zeros(n)) + [false];
      XorExtend(TimesGenerator(q', poly), r + Zeros(n), Dividend(v', d'));
      if top { XorSwap(TimesGenerator(q', poly) + [false], Zeros(n) + poly + [true], r + Zeros(n + 1)); }
    }
  }

  lemma XorExtend(a: Bits, b: Bits, c: Bits)
    requires |a| == |b| && c == Xor(a, b)
    ensures c + [false] == Xor(a + [false], b + [false])
  {
  }

  lemma XorSwap(a: Bits, b: Bits, c: Bits)
    requires |a| == |b| == |c|
    ensures Xor(Xor(a, b), c) == Xor(Xor(a, c), b)
  {
  }

  lemma {:induction false} RemainderUnique(poly: Bits, p: Bits, q: Bits, r: Bits, q': Bits, r': Bits)
    requires |poly| > 0 && Divides(poly, p, q, r) && Divides(poly, p, q', r')
    ensures q == q' && r == r'
    decreases |q|
  {
    if q == [] {
      assert Xor(Zeros(|poly|), r + Zeros(0)) == r && Xor(Zeros(|poly|), r' + Zeros(0)) == r';
    } else {
      var n := |q| - 1;
      TopOfProduct(q, poly);
      TopOfProduct(q', poly);
      assert p[|p| - 1] == q[n] == q'[n];
      var p' := if q[n] then Xor(p, Zeros(n) + poly + [true])[..|p| - 1] else p[..|p| - 1];
      DropTop(poly, p, q, r);
      DropTop(poly, p, q', r');
      RemainderUnique(poly, p', q[..n], r, q'[..n], r');
      assert q == q[..n] + [q[n]] && q' == q'[..n] + [q'[n]];
    }
  }

  lemma TopOfProduct(q: Bits, poly: Bits)
    requires q != []
    ensures TimesGenerator(q, poly)[|q| + |poly| - 1] == q[|q| - 1]
  {
  }

  lemma DropTop(poly: Bits, p: Bits, q: Bits, r: Bits)
    requires |poly| > 0 && q != [] && Divides(poly, p, q, r)
    ensures var n := |q| - 1;
      Divides(poly, if q[n] then Xor(p, Zeros(n) + poly + [true])[..|p| - 1] else p[..|p| - 1], q[..n], r)
  {
    var n := |q| - 1;
    var lower := TimesGenerator(q[..n], poly);
    var g := Zeros(n) + poly + [true];
    assert (r + Zeros(n + 1))[..|p| - 1] == r + Zeros(n);
    if q[n] {
      assert p == Xor(Xor(lower + [false], g), r + Zeros(n + 1));
      forall k | 0 <= k < |p| - 1 ensures Xor(p, g)[k] == Xor(lower, r + Zeros(n))[k] {
        assert (r + Zeros(n + 1))[k] == (r + Zeros(n))[k];
      }
    } else {
      assert p == Xor(lower + [false], r + Zeros(n + 1));
    }
  }

  /**
   The register after the data word is the remainder of message * x^PW + state * x^DW: it is one, and
   there is no other.
   */
  lemma SerialIsTheRemainder(poly: Bits, v: Bits, d: Bits, r: Bits)
    requires |v| == |poly| > 0
    ensures (exists q :: Divides(poly, Dividend(v, d), q, r)) <==> r == Serial(poly, v, d)
  {
    var q := SerialDivides(poly, v, d);
    if q' :| Divides(poly, Dividend(v, d), q', r) {
      RemainderUnique(poly, Dividend(v, d), q, Serial(poly, v, d), q', r);
    }
  }

  /** The parallel generator therefore computes polynomial remainders, for every polynomial with constant 1. */
  lemma MatrixIsTheRemainder(poly: Bits, v: Bits, d: Bits, r: Bits)
    requires |v| == |poly| > 0 && poly[0]
    ensures r == Apply(Matrix(poly, |d|, 0), v, d) <==> exists q :: Divides(poly, Dividend(v, d), q, r)
  {
    MatrixIsSerial(poly, v, d);
    assert poly[0 := true] == poly;
    SerialIsTheRemainder(poly, v, d, r);
  }
}
