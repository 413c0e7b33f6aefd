/** The AXI datapump, part three: when splitting is used, and for which configurations it is not needed. */
module DatapumpSizes {
  import opened Arithmetic
  import opened Datapump
  import Read = DatapumpRead

  // ----- when splitting is used, and what happens without it

  /** A chunk at one of the allowed offsets reaches over a word boundary; all sizes in bits. */
  predicate ChunkCrosses(dataWidth: nat, alignAs: nat, chunk: nat, offset: nat)
    requires alignAs > 0
    decreases dataWidth - offset
  {
    offset < dataWidth && (offset + chunk > dataWidth || ChunkCrosses(dataWidth, alignAs, chunk, offset + alignAs))
  }

  predicate Splits(maxLen: nat, lenMax: nat, dataWidth: nat, alignAs: nat, chunk: nat)
    requires alignAs > 0
  {
    maxLen > lenMax
    || (maxLen == lenMax
        && ((alignAs != dataWidth && chunk >= dataWidth) || ChunkCrosses(dataWidth, alignAs, chunk, 0)))
  }

  method UseTransSplitting(maxLen: nat, lenMax: nat, dataWidth: nat, alignAs: nat, chunk: nat) returns (split: bool)
    requires alignAs > 0
    ensures split <==> Splits(maxLen, lenMax, dataWidth, alignAs, chunk)
  {
    if maxLen > lenMax { return true; }
    if maxLen < lenMax { return false; }
    split := alignAs != dataWidth && chunk >= dataWidth;
    var offset := 0;
    while offset < dataWidth
      invariant split || ChunkCrosses(dataWidth, alignAs, chunk, offset)
                <==> Splits(maxLen, lenMax, dataWidth, alignAs, chunk)
      decreases dataWidth - offset
    {
      if offset + chunk > dataWidth { split := true; }
      offset := offset + alignAs;
    }
  }

  ghost predicate OffsetCrosses(dataWidth: nat, alignAs: nat, chunk: nat, offset: nat) {
    offset < dataWidth < offset + chunk
  }

  lemma {:induction false} ChunkCrossesExactly(dataWidth: nat, alignAs: nat, chunk: nat, offset: nat)
    requires alignAs > 0
    ensures ChunkCrosses(dataWidth, alignAs, chunk, offset)
            <==> exists k: nat :: OffsetCrosses(dataWidth, alignAs, chunk, offset + alignAs * k)
    decreases dataWidth - offset
  {
    assert OffsetCrosses(dataWidth, alignAs, chunk, offset + alignAs * 0) <==> offset < dataWidth < offset + chunk;
    if offset < dataWidth {
      ChunkCrossesExactly(dataWidth, alignAs, chunk, offset + alignAs);
      if k: nat :| OffsetCrosses(dataWidth, alignAs, chunk, offset + alignAs + alignAs * k) {
        assert alignAs + alignAs * k == alignAs * (k + 1);
        assert OffsetCrosses(dataWidth, alignAs, chunk, offset + alignAs * (k + 1));
      }
      if k: nat :| k > 0 && OffsetCrosses(dataWidth, alignAs, chunk, offset + alignAs * k) {
        assert alignAs * k == alignAs + alignAs * (k - 1);
        assert OffsetCrosses(dataWidth, alignAs, chunk, offset + alignAs + alignAs * (k - 1));
      }
    } else {
      forall k: nat ensures !OffsetCrosses(dataWidth, alignAs, chunk, offset + alignAs * k) {
        assert alignAs * k >= 0;
      }
    }
  }

  /**
   Splitting is used exactly if requests may have more words than a burst, or just as many, with chunks that are larger
   than their alignment.
   */
  lemma SplitsExactly(maxLen: nat, lenMax: nat, dataWidth: nat, alignAs: nat, chunk: nat, m: nat)
    requires alignAs > 0 && m > 0 && dataWidth == alignAs * m
    ensures Splits(maxLen, lenMax, dataWidth, alignAs, chunk)
            <==> maxLen > lenMax || (maxLen == lenMax && chunk > alignAs)
  {
    ChunkCrossesExactly(dataWidth, alignAs, chunk, 0);
    assert alignAs * m == alignAs * (m - 1) + alignAs;
    if chunk > alignAs {
      assert OffsetCrosses(dataWidth, alignAs, chunk, 0 + alignAs * (m - 1));
    }
    forall k: nat | OffsetCrosses(dataWidth, alignAs, chunk, 0 + alignAs * k) ensures chunk > alignAs {
      LastMultiple(alignAs, m, k);
    }
    if alignAs != dataWidth && chunk >= dataWidth { MulMono(alignAs, 1, m); }
  }

  lemma LastMultiple(a: nat, m: nat, k: nat)
    requires a * k < a * m
    ensures k < m && a * k + a <= a * m
  {
    if k >= m { MulMono(a, m, k); }
    MulMono(a, k + 1, m);
    assert a * (k + 1) == a * k + a;
  }

  /** The single burst of a request that is not split; its length has only the bits of the bus. */
  function DirectPart(c: Config, maxLen: nat, r: Req): Part {
    Part(r.word, if maxLen == 0 then 0 else Wrapped(ReqLen(c, r), c.lenMax + 1), r.rem, true)
  }

  // ----- runs without splitting

  /** `done` requests of those to come were accepted; these bursts were issued. */
  datatype DirectRun = DirectRun(done: nat, issued: seq<Part>)

  /** The ready signal of the request. */
  predicate DirectReady(k: Clock) {
    k.axiRd && k.infoRd && !k.err
  }

  ghost function DirectNext(c: Config, maxLen: nat, rs: seq<Req>, r: DirectRun, e: Env): (t: DirectRun)
    requires ValidReqs(c, rs) && r.done <= |rs|
    ensures t.done <= |rs|
  {
    if r.done == |rs| then r
    else
      var k := ClockOf(rs, r.done, e);
      DirectRun(if k.vld && DirectReady(k) then r.done + 1 else r.done,
                if AxiValid(c, k) && k.axiRd then r.issued + [DirectPart(c, maxLen, k.r)] else r.issued)
  }

  ghost function DirectSteps(c: Config, maxLen: nat, rs: seq<Req>, es: seq<Env>): (r: DirectRun)
    requires ValidReqs(c, rs)
    ensures r.done <= |rs|
    decreases |es|
  {
    if es == [] then DirectRun(0, [])
    else DirectNext(c, maxLen, rs, DirectSteps(c, maxLen, rs, es[..|es| - 1]), es[|es| - 1])
  }

  ghost predicate DirectInv(c: Config, maxLen: nat, rs: seq<Req>, r: DirectRun)
    requires ValidReqs(c, rs) && r.done <= |rs|
  {
    var us := Unrefused(c, rs[..r.done]);
    |r.issued| == |us| && forall i :: 0 <= i < |us| ==> r.issued[i] == DirectPart(c, maxLen, us[i])
  }

  /** In every run one burst is issued for each accepted request that passes the check of the address, in order. */
  lemma {:induction false} DirectIssuesInOrder(c: Config, maxLen: nat, rs: seq<Req>, es: seq<Env>)
    requires ValidReqs(c, rs)
    ensures DirectInv(c, maxLen, rs, DirectSteps(c, maxLen, rs, es))
    decreases |es|
  {
    if es != [] {
      DirectIssuesInOrder(c, maxLen, rs, es[..|es| - 1]);
      var r := DirectSteps(c, maxLen, rs, es[..|es| - 1]);
      if r.done < |rs| { assert rs[..r.done + 1][..r.done] == rs[..r.done]; }
    }
  }

  // ----- when a single burst is right

  /** The words of bus that are read for a request. */
  function WordsRead(c: Config, maxLen: nat, r: Req): nat {
    if AlignmentError(c, r) then 0 else DirectPart(c, maxLen, r).len + 1
  }

  /** The words that are read are exactly those that hold a requested byte. */
  ghost predicate ReadAsAsked(c: Config, maxLen: nat, r: Req) {
    forall i: nat :: Touched(c, r, i) <==> i < WordsRead(c, maxLen, r)
  }

  /** The condition under which a single burst is enough. */
  predicate DirectFits(c: Config, maxLen: nat, r: Req) {
    !(AlwaysAligned(c) && Crosses(c, r)) && ReqLen(c, r) <= if maxLen == 0 then 0 else c.lenMax
  }

  /** Without splitting, a request is read as asked if and only if it passes the check and fits a burst. */
  lemma DirectIsRightExactly(c: Config, maxLen: nat, r: Req)
    requires ValidReq(c, r) && r.len <= maxLen
    ensures ReadAsAsked(c, maxLen, r) <==> !AlignmentError(c, r) && DirectFits(c, maxLen, r)
  {
    forall i: nat ensures Touched(c, r, i) <==> i <= r.len || (i == r.len + 1 && Crosses(c, r)) {
      TouchedWords(c, r, i);
    }
    WrappedIsLess(ReqLen(c, r), c.lenMax + 1);
    var n := WordsRead(c, maxLen, r);
    assert Touched(c, r, r.len) && (Touched(c, r, r.len + 1) <==> Crosses(c, r));
    if ReadAsAsked(c, maxLen, r) { assert r.len < n && (Crosses(c, r) <==> r.len + 1 < n) && !Touched(c, r, n); }
  }

  /** Requests of more than one word that are always shorter than the longest burst fit. */
  lemma ShorterFits(c: Config, maxLen: nat, r: Req)
    requires ValidReq(c, r) && r.len <= maxLen && 0 < maxLen < c.lenMax && !(AlwaysAligned(c) && Crosses(c, r))
    ensures DirectFits(c, maxLen, r)
  {
  }

  /** A request that fits has one burst, also if it were split. */
  lemma {:induction false} OneBurstEach(c: Config, maxLen: nat, us: seq<Req>, issued: seq<Part>)
    requires ValidReqs(c, us) && (forall i :: 0 <= i < |us| ==> DirectFits(c, maxLen, us[i]))
    requires |issued| == |us| && forall i :: 0 <= i < |us| ==> issued[i] == DirectPart(c, maxLen, us[i])
    ensures AllParts(c, us) == issued && Read.AllLast(issued)
    decreases |us|
  {
    if us != [] {
      OneBurstEach(c, maxLen, us[1..], issued[1..]);
      assert Parts(c, us[0]) == [issued[0]] && issued == [issued[0]] + issued[1..];
      forall k | 0 <= k < |issued| ensures issued[k].last { if k > 0 { assert issued[k] == issued[1..][k - 1]; } }
    }
  }

  /**
   In every run without splitting in which the accepted requests that pass the check fit a burst, the data in the order
   of the bursts makes the frames of these requests.
   */
  lemma DirectRunMakesFrames<T>(c: Config, maxLen: nat, rs: seq<Req>, es: seq<Env>, data: seq<T>)
    requires ValidReqs(c, rs)
    requires var us := Unrefused(c, rs[..DirectSteps(c, maxLen, rs, es).done]);
      (forall i :: 0 <= i < |us| ==> DirectFits(c, maxLen, us[i])) && |data| == Read.TotalOf(c, us)
    ensures var r := DirectSteps(c, maxLen, rs, es); var us := Unrefused(c, rs[..r.done]);
      && Read.Total(r.issued) == |data|
      && Read.Collect(c, false, r.issued, Read.Response(r.issued, data)) == Read.Frames(c, us, data)
  {
    var r := DirectSteps(c, maxLen, rs, es);
    var us := Unrefused(c, rs[..r.done]);
    DirectIssuesInOrder(c, maxLen, rs, es);
    OneBurstEach(c, maxLen, us, r.issued);
    Read.OneFramePerRequest(c, us, data);
    Read.MarksAreNotNeeded(c, r.issued, Read.Response(r.issued, data));
  }

  // ----- which requests pass the check of the address

  lemma Pow2Mono(a: nat, b: nat)
    requires a < b
    ensures 2 * Pow2(a) <= Pow2(b)
    decreases b
  {
    if a < b - 1 { Pow2Mono(a, b - 1); }
  }

  lemma Pow2Split(a: nat, b: nat)
    requires a <= b
    ensures Pow2(b) == Pow2(b - a) * Pow2(a)
  {
    DoubledPow2(b - a, a);
    DoubledIsProduct(Pow2(b - a), a);
  }

  lemma Quotients(word: nat, offset: nat, bytes: nat, other: nat)
    requires offset < bytes && bytes * word + offset == bytes * other
    ensures word == other && offset == 0
  {
    assert bytes * (word + 1) == bytes * word + bytes && bytes * (other + 1) == bytes * other + bytes;
    if other > word { MulMono(bytes, word + 1, other); }
    if word > other { MulMono(bytes, other + 1, word); }
  }

  lemma Products(k: nat, d: nat, b: nat)
    ensures k * (d * b) == b * (k * d) == (k * d) * b
  {
  }

  lemma ProductOfWords(word: nat, offset: nat, bytes: nat, d: nat, product: nat)
    requires bytes > 0 && d > 0 && offset < bytes && product > 0 && product == d * bytes
    requires Multiple(word * bytes + offset, product)
    ensures offset == 0 && Multiple(word, d)
  {
    var k := MultipleIsProduct(word * bytes + offset, product);
    Products(k, d, bytes);
    assert word * bytes == bytes * word;
    Quotients(word, offset, bytes, k * d);
    ProductIsMultiple(k, d, word);
  }

  /** An address is a multiple of some words exactly if the index of its word is one of their number. */
  lemma MultipleOfWords(word: nat, offset: nat, bytes: nat, d: nat, product: nat)
    requires bytes > 0 && d > 0 && offset < bytes && product > 0 && product == d * bytes
    ensures Multiple(word * bytes + offset, product) <==> offset == 0 && Multiple(word, d)
  {
    if Multiple(word * bytes + offset, product) {
      ProductOfWords(word, offset, bytes, d, product);
    } else if offset == 0 && Multiple(word, d) {
      var k := MultipleIsProduct(word, d);
      Products(k, d, bytes);
      ProductIsMultiple(k, product, word * bytes);
    }
  }

  /** An address is a multiple of a part of a word exactly if its offset is. */
  lemma MultipleOfPart(word: nat, offset: nat, bytes: nat, q: nat, part: nat)
    requires part > 0 && bytes == q * part
    ensures Multiple(word * bytes + offset, part) <==> Multiple(offset, part)
  {
    assert word * (q * part) == (word * q) * part;
    ProductIsMultiple(word * q, part, word * bytes);
    MultipleAdd(word * bytes, offset, part);
  }

  /** What a request must satisfy to pass: its offset is a multiple of the chunk size, rounded up to a power of two. */
  predicate OnChunk(c: Config, r: Req, b: nat) {
    var e := Log2Ceil(c.chunk);
    if e <= b then Multiple(r.offset, Pow2(e)) else r.offset == 0 && Multiple(r.word, Pow2(e - b))
  }

  /** The check compares the address with the size of a chunk, not with the promised alignment. */
  lemma PassesExactly(c: Config, r: Req, b: nat)
    requires ValidReq(c, r) && c.bytes == Pow2(b)
    ensures !AlignmentError(c, r) <==> c.alignAs == 1 || OnChunk(c, r, b)
  {
    var e := Log2Ceil(c.chunk);
    if e <= b {
      Pow2Split(e, b);
      MultipleOfPart(r.word, r.offset, c.bytes, Pow2(b - e), Pow2(e));
    } else {
      Pow2Split(b, e);
      MultipleOfWords(r.word, r.offset, c.bytes, Pow2(e - b), Pow2(e));
    }
  }

  /** The register that tells the driver of a misaligned address compares with the promised alignment. */
  predicate Reported(c: Config, r: Req) {
    c.alignAs != 1 && !Multiple(Address(c, r), Pow2(Log2Ceil(c.alignAs)))
  }

  // ----- what may be asked for

  /** Up to `n` chunks may be requested; sizes are powers of two, and an address has more bits than an offset. */
  predicate ValidSetup(c: Config, n: nat, a: nat, b: nat) {
    ValidConfig(c) && c.words >= 2 && n > 0 && a <= b && c.alignAs == Pow2(a) && c.bytes == Pow2(b)
  }

  function MaxBytes(c: Config, n: nat): nat {
    c.chunk * n
  }

  /** The largest length of a request, in words minus 1. */
  function MaxLen(c: Config, n: nat): nat
    requires ValidConfig(c) && MaxBytes(c, n) > 0
  {
    (MaxBytes(c, n) - 1) / c.bytes
  }

  /** A whole number of chunks, not too many, at a multiple of the promised alignment. */
  predicate Admissible(c: Config, n: nat, r: Req) {
    ValidReq(c, r) && Multiple(r.offset, c.alignAs) && Multiple(Bytes(c, r), c.chunk) && Bytes(c, r) <= MaxBytes(c, n)
  }

  /** An admissible request that is issued. */
  predicate Passing(c: Config, n: nat, r: Req) {
    Admissible(c, n, r) && !AlignmentError(c, r)
  }

  lemma Setups(c: Config, n: nat, a: nat, b: nat)
    requires ValidSetup(c, n, a, b)
    ensures MaxBytes(c, n) > 0 && c.alignAs <= c.bytes && c.bytes == Pow2(b - a) * c.alignAs
    ensures a == 0 <==> c.alignAs == 1
  {
    MulMono(c.chunk, 1, n);
    Pow2Split(a, b);
    if a < b { Pow2Mono(a, b); }
    if a > 0 { Pow2Mono(0, a); }
  }

  /** The exponent of the chunk size, against that of the alignment. */
  lemma ChunkExponent(c: Config, a: nat)
    requires ValidConfig(c) && c.alignAs == Pow2(a) && a > 0
    ensures c.chunk <= c.alignAs <==> Log2Ceil(c.chunk) <= a
  {
    var e := Log2Ceil(c.chunk);
    Log2CeilIsTight(c.chunk);
    if e < a { Pow2Mono(e, a); }
    if a < e - 1 { Pow2Mono(a, e - 1); }
  }

  /** All chunks, from a given word and offset. */
  function Longest(c: Config, n: nat, word: nat, offset: nat): Req
    requires ValidConfig(c) && MaxBytes(c, n) > 0
  {
    Req(word, offset, MaxLen(c, n), MaxBytes(c, n) % c.bytes)
  }

  lemma BytesOfWords(b: nat, n: nat)
    requires b > 0 && n > 0
    ensures b * ((n - 1) / b) + (if n % b == 0 then b else n % b) == n
  {
    var q, r := (n - 1) / b, (n - 1) % b;
    assert n - 1 == b * q + r;
    if r == b - 1 {
      assert (q + 1) * b == b * q + b;
      DivUnique(n, q + 1, 0, b);
    } else {
      assert q * b == b * q;
      DivUnique(n, q, r + 1, b);
    }
  }

  lemma LongestIsAdmissible(c: Config, n: nat, word: nat, offset: nat)
    requires ValidConfig(c) && n > 0 && MaxBytes(c, n) > 0
    requires word < c.words && offset < c.bytes && Multiple(offset, c.alignAs)
    ensures Admissible(c, n, Longest(c, n, word, offset)) && Bytes(c, Longest(c, n, word, offset)) == MaxBytes(c, n)
  {
    BytesOfWords(c.bytes, MaxBytes(c, n));
    assert c.chunk * n == n * c.chunk;
    ProductIsMultiple(n, c.chunk, MaxBytes(c, n));
  }

  /** A request that the driver may make and that the check refuses, if chunks are larger than their alignment. */
  function Refusable(c: Config, n: nat): Req
    requires ValidConfig(c) && MaxBytes(c, n) > 0
  {
    if AlwaysAligned(c) then Longest(c, n, 1, 0) else Longest(c, n, 0, c.alignAs)
  }

  lemma RefusableIsRefused(c: Config, n: nat, a: nat, b: nat)
    requires ValidSetup(c, n, a, b) && MaxBytes(c, n) > 0 && c.alignAs != 1 && c.chunk > c.alignAs
    ensures Admissible(c, n, Refusable(c, n)) && AlignmentError(c, Refusable(c, n))
  {
    Setups(c, n, a, b);
    ChunkExponent(c, a);
    var e := Log2Ceil(c.chunk);
    Pow2Mono(a, e);
    if AlwaysAligned(c) {
      if a < b { Pow2Mono(a, b); }
      LongestIsAdmissible(c, n, 1, 0);
      Pow2Mono(0, e - b);
    } else {
      ProductIsMultiple(1, c.alignAs, c.alignAs);
      LongestIsAdmissible(c, n, 0, c.alignAs);
    }
    PassesExactly(c, Refusable(c, n), b);
  }

  lemma SmallChunksPass(c: Config, n: nat, a: nat, b: nat, r: Req)
    requires ValidSetup(c, n, a, b) && Admissible(c, n, r) && (c.alignAs == 1 || c.chunk <= c.alignAs)
    ensures !AlignmentError(c, r)
  {
    Setups(c, n, a, b);
    if c.alignAs != 1 {
      ChunkExponent(c, a);
      var e := Log2Ceil(c.chunk);
      Pow2Split(e, a);
      MultipleOfDivisor(r.offset, Pow2(a - e), Pow2(e), Pow2(a));
      PassesExactly(c, r, b);
    }
  }

  /**
   All requests that a driver may make are issued if and only if any address is allowed, or chunks are not larger than
   their alignment.
   */
  lemma AllPassExactly(c: Config, n: nat, a: nat, b: nat)
    requires ValidSetup(c, n, a, b)
    ensures (forall r :: Admissible(c, n, r) ==> !AlignmentError(c, r)) <==> c.alignAs == 1 || c.chunk <= c.alignAs
  {
    Setups(c, n, a, b);
    if c.alignAs == 1 || c.chunk <= c.alignAs {
      forall r | Admissible(c, n, r) ensures !AlignmentError(c, r) { SmallChunksPass(c, n, a, b, r); }
    } else {
      RefusableIsRefused(c, n, a, b);
    }
  }

  /** No request that a driver may make is reported as misaligned, so a refused one is dropped without a sign of it. */
  lemma NothingIsReported(c: Config, n: nat, a: nat, b: nat, r: Req)
    requires ValidSetup(c, n, a, b) && Admissible(c, n, r)
    ensures !Reported(c, r)
  {
    Setups(c, n, a, b);
    if c.alignAs != 1 {
      var l := Log2Ceil(c.alignAs);
      Log2CeilIsTight(c.alignAs);
      if l < a { Pow2Mono(l, a); }
      if a < l - 1 { Pow2Mono(a, l - 1); }
      assert l == a;
      MultipleOfPart(r.word, r.offset, c.bytes, Pow2(b - a), c.alignAs);
    }
  }

  // ----- for which configurations a single burst is enough

  /** The exponent of the alignment that all issued requests have. */
  function IssuedAlign(c: Config, a: nat, b: nat): (x: nat) {
    var e := Log2Ceil(c.chunk);
    if c.alignAs == 1 then 0 else if e > b then b else if e > a then e else a
  }

  lemma IssuedAreAligned(c: Config, n: nat, a: nat, b: nat, r: Req)
    requires ValidSetup(c, n, a, b) && Passing(c, n, r)
    ensures Multiple(r.offset, Pow2(IssuedAlign(c, a, b)))
  {
    PassesExactly(c, r, b);
  }

  /** The words of a request in one division. */
  lemma ReqLenIsQuotient(c: Config, r: Req)
    requires ValidReq(c, r) && !(AlwaysAligned(c) && Crosses(c, r))
    ensures Bytes(c, r) > 0 && ReqLen(c, r) == (r.offset + Bytes(c, r) - 1) / c.bytes
  {
    var rest := r.offset + BytesInLast(c, r.rem) - 1;
    assert c.bytes * r.len == r.len * c.bytes && (r.len + 1) * c.bytes == r.len * c.bytes + c.bytes;
    if rest >= c.bytes {
      DivUnique(r.offset + Bytes(c, r) - 1, r.len + 1, rest - c.bytes, c.bytes);
    } else {
      DivUnique(r.offset + Bytes(c, r) - 1, r.len, rest, c.bytes);
    }
  }

  lemma QuotientBound(n: nat, b: nat, limit: nat)
    requires b > 0
    ensures n / b <= limit <==> n < b * (limit + 1)
  {
    var q := n / b;
    assert n == b * q + n % b;
    if q <= limit {
      MulMono(b, q, limit);
      assert b * (limit + 1) == b * limit + b;
    } else {
      MulMono(b, limit + 1, q);
    }
  }

  lemma LastOffset(a: nat, m: nat, offset: nat)
    requires a > 0 && Multiple(offset, a) && offset < m * a
    ensures offset + a <= m * a
  {
    var k := MultipleIsProduct(offset, a);
    assert m * a == a * m && k * a == a * k;
    LastMultiple(a, m, k);
  }

  lemma AlignedDoesNotCross(c: Config, n: nat, a: nat, b: nat, r: Req)
    requires ValidSetup(c, n, a, b) && Admissible(c, n, r)
    ensures !(AlwaysAligned(c) && Crosses(c, r))
  {
    Setups(c, n, a, b);
    LastOffset(c.alignAs, Pow2(b - a), r.offset);
  }

  /** An issued request does not reach beyond the last issued offset of a word. */
  lemma LastIssued(c: Config, n: nat, a: nat, b: nat, r: Req)
    requires ValidSetup(c, n, a, b) && Passing(c, n, r)
    ensures r.offset + Pow2(IssuedAlign(c, a, b)) <= c.bytes
  {
    var x := IssuedAlign(c, a, b);
    IssuedAreAligned(c, n, a, b, r);
    Pow2Split(x, b);
    LastOffset(Pow2(x), Pow2(b - x), r.offset);
  }

  /** The issued request that reaches furthest: all chunks, from the last possible byte of the first word. */
  function Furthest(c: Config, n: nat, a: nat, b: nat): Req
    requires ValidSetup(c, n, a, b) && MaxBytes(c, n) > 0 && Pow2(IssuedAlign(c, a, b)) <= c.bytes
  {
    Longest(c, n, 0, c.bytes - Pow2(IssuedAlign(c, a, b)))
  }

  lemma LastIsMultiple(x: nat, y: nat, b: nat)
    requires x <= y <= b
    ensures Pow2(x) <= Pow2(y) <= Pow2(b) && Multiple(Pow2(b) - Pow2(y), Pow2(x))
  {
    if y < b { Pow2Mono(y, b); }
    if x < y { Pow2Mono(x, y); }
    Pow2Split(x, y);
    Pow2Split(x, b);
    ProductIsMultiple(Pow2(y - x), Pow2(x), Pow2(y));
    ProductIsMultiple(Pow2(b - x), Pow2(x), Pow2(b));
    MultipleAdd(Pow2(y), Pow2(b) - Pow2(y), Pow2(x));
  }

  lemma FurthestPasses(c: Config, n: nat, a: nat, b: nat)
    requires ValidSetup(c, n, a, b)
    ensures MaxBytes(c, n) > 0 && Pow2(IssuedAlign(c, a, b)) <= c.bytes
    ensures Passing(c, n, Furthest(c, n, a, b)) && Bytes(c, Furthest(c, n, a, b)) == MaxBytes(c, n)
  {
    var x, e := IssuedAlign(c, a, b), Log2Ceil(c.chunk);
    Setups(c, n, a, b);
    LastIsMultiple(a, x, b);
    LongestIsAdmissible(c, n, 0, c.bytes - Pow2(x));
    if c.alignAs != 1 {
      if e <= b { LastIsMultiple(e, x, b); }
    }
    PassesExactly(c, Furthest(c, n, a, b), b);
  }

  /** For a given limit of the length: all issued requests keep it exactly if the furthest one does. */
  lemma AllKeepLimit(c: Config, n: nat, a: nat, b: nat, limit: nat)
    requires ValidSetup(c, n, a, b)
    ensures (forall r :: Passing(c, n, r) ==> ReqLen(c, r) <= limit)
            <==> MaxBytes(c, n) <= c.bytes * limit + Pow2(IssuedAlign(c, a, b))
  {
    FurthestPasses(c, n, a, b);
    var f, last := Furthest(c, n, a, b), Pow2(IssuedAlign(c, a, b));
    AlignedDoesNotCross(c, n, a, b, f);
    ReqLenIsQuotient(c, f);
    QuotientBound(f.offset + MaxBytes(c, n) - 1, c.bytes, limit);
    assert c.bytes * (limit + 1) == c.bytes * limit + c.bytes;
    forall r | Passing(c, n, r) && MaxBytes(c, n) <= c.bytes * limit + last ensures ReqLen(c, r) <= limit {
      LastIssued(c, n, a, b, r);
      AlignedDoesNotCross(c, n, a, b, r);
      ReqLenIsQuotient(c, r);
      QuotientBound(r.offset + Bytes(c, r) - 1, c.bytes, limit);
    }
  }

  /** The most that can be asked for fits a burst, from the last byte with the given alignment. */
  predicate MostFits(c: Config, n: nat, align: nat)
    requires ValidConfig(c) && MaxBytes(c, n) > 0
  {
    if MaxLen(c, n) == 0 then MaxBytes(c, n) <= align
    else MaxLen(c, n) < c.lenMax || MaxBytes(c, n) <= c.bytes * c.lenMax + align
  }

  /**
   In a configuration without splitting every request that is issued fits a burst if and only if the most that can be
   asked for does; which it always does if there are several words and the bus allows more.
   */
  lemma IssuedFitExactly(c: Config, n: nat, a: nat, b: nat)
    requires ValidSetup(c, n, a, b) && MaxBytes(c, n) > 0
    requires !Splits(MaxLen(c, n), c.lenMax, 8 * c.bytes, 8 * c.alignAs, 8 * c.chunk)
    ensures (forall r :: Passing(c, n, r) ==> DirectFits(c, MaxLen(c, n), r))
            <==> MostFits(c, n, Pow2(IssuedAlign(c, a, b)))
  {
    var limit := if MaxLen(c, n) == 0 then 0 else c.lenMax;
    AllKeepLimit(c, n, a, b, limit);
    forall r | Passing(c, n, r) ensures DirectFits(c, MaxLen(c, n), r) <==> ReqLen(c, r) <= limit {
      AlignedDoesNotCross(c, n, a, b, r);
    }
    if 0 < MaxLen(c, n) < c.lenMax {
      QuotientBound(MaxBytes(c, n) - 1, c.bytes, MaxLen(c, n));
      MulMono(c.bytes, MaxLen(c, n) + 1, c.lenMax);
    }
  }

  lemma LenOfAdmissible(c: Config, n: nat, r: Req)
    requires Admissible(c, n, r) && MaxBytes(c, n) > 0
    ensures r.len <= MaxLen(c, n)
  {
    QuotientBound(MaxBytes(c, n) - 1, c.bytes, MaxLen(c, n));
    if r.len > MaxLen(c, n) { MulMono(c.bytes, MaxLen(c, n) + 1, r.len); }
  }

  /**
   In a configuration without splitting everything that a driver may ask for is read as asked if and only if chunks are
   not larger than their alignment, or any address is allowed, and the most that can be asked for fits.
   */
  lemma UnsplitFitsExactly(c: Config, n: nat, a: nat, b: nat)
    requires ValidSetup(c, n, a, b) && MaxBytes(c, n) > 0
    requires !Splits(MaxLen(c, n), c.lenMax, 8 * c.bytes, 8 * c.alignAs, 8 * c.chunk)
    ensures (forall r :: Admissible(c, n, r) ==> ReadAsAsked(c, MaxLen(c, n), r))
            <==> (c.alignAs == 1 || c.chunk <= c.alignAs) && MostFits(c, n, c.alignAs)
  {
    forall r | Admissible(c, n, r)
      ensures ReadAsAsked(c, MaxLen(c, n), r) <==> !AlignmentError(c, r) && DirectFits(c, MaxLen(c, n), r) {
      LenOfAdmissible(c, n, r);
      DirectIsRightExactly(c, MaxLen(c, n), r);
    }
    AllPassExactly(c, n, a, b);
    IssuedFitExactly(c, n, a, b);
    Setups(c, n, a, b);
    if c.alignAs != 1 { ChunkExponent(c, a); }
    if c.alignAs == 1 || c.chunk <= c.alignAs { assert Pow2(IssuedAlign(c, a, b)) == c.alignAs; }
  }

  // ----- examples

  /** A run of one clock, in which the bus and the data path are ready. */
  lemma TakenAtOnce(c: Config, maxLen: nat, r: Req)
    requires ValidReq(c, r)
    ensures DirectSteps(c, maxLen, [r], [Env(true, true, true, false)])
         == DirectRun(1, if AlignmentError(c, r) then [] else [DirectPart(c, maxLen, r)])
  {
    var e := Env(true, true, true, false);
    assert [e][..0] == [] && [] + [DirectPart(c, maxLen, r)] == [DirectPart(c, maxLen, r)];
    assert DirectSteps(c, maxLen, [r], []) == DirectRun(0, []);
  }

  lemma HalfAWordIsDropped(c: Config, r: Req)
    requires c == Config(8, 0x2000_0000, 255, 4, 8) && r == Req(0, 4, 0, 0)
    ensures DirectSteps(c, 3, [r], [Env(true, true, true, false)]) == DirectRun(1, [])
  {
    assert Log2Ceil(8) == 3 && Pow2(3) == 8;
    TakenAtOnce(c, 3, r);
  }

  lemma HalfAWordIsAdmissible(c: Config, r: Req)
    requires c == Config(8, 0x2000_0000, 255, 4, 8) && r == Req(0, 4, 0, 0)
    ensures MaxBytes(c, 4) == 32 && Admissible(c, 4, r)
  {
  }

  /**
   Up to 4 chunks of 64 bits at multiples of 32 bits, on a bus of 64 bits with bursts of up to 256 words: a chunk from
   the middle of a word on would fit a burst, but its request is taken in one clock and nothing is issued for it.
   */
  lemma RequestDropped(c: Config, r: Req)
    requires c == Config(8, 0x2000_0000, 255, 4, 8) && r == Req(0, 4, 0, 0)
    ensures MaxBytes(c, 4) == 32 && MaxLen(c, 4) == 3 && !Splits(3, 255, 64, 32, 64) && DirectFits(c, 3, r)
    ensures Admissible(c, 4, r)
    ensures DirectSteps(c, 3, [r], [Env(true, true, true, false)]) == DirectRun(1, [])
  {
    HalfAWordIsDropped(c, r);
    HalfAWordIsAdmissible(c, r);
  }

  /**
   Splitting is not used for up to 512 chunks of 32 bits at multiples of 32 bits on a bus of 64 bits with bursts of
   up to 256 words; but 512 chunks from the middle of a word on touch 257 words, and the burst is one of 1 word.
   */
  lemma SplittingMissed(c: Config, r: Req)
    requires c == Config(8, 0x2000_0000, 255, 4, 4) && r == Req(0, 4, 255, 0)
    ensures Admissible(c, 512, r) && MaxBytes(c, 512) == 2048 && MaxLen(c, 512) == 255 && !Splits(255, 255, 64, 32, 32)
    ensures Touched(c, r, 256) && WordsRead(c, 255, r) == 1
  {
    assert !ChunkCrosses(64, 32, 32, 64) && !ChunkCrosses(64, 32, 32, 32);
    assert Touched(c, r, 256) by { TouchedWords(c, r, 256); }
    assert Wrapped(256, 256) == Wrapped(0, 256) == 0;
    ProductIsMultiple(512, 4, 2048);
    assert Log2Ceil(4) == 2 && Pow2(2) == 4;
  }

  /**
   Requests of one 64-bit chunk on a bus of 64 bits, at any byte: splitting is not used, and for a chunk from the
   middle of a word on, which touches two words, one is read.
   */
  lemma SecondWordMissed(c: Config, r: Req)
    requires c == Config(8, 0x2000_0000, 255, 1, 8) && r == Req(0, 4, 0, 0)
    ensures Admissible(c, 1, r) && MaxBytes(c, 1) == 8 && MaxLen(c, 1) == 0 && !Splits(0, 255, 64, 8, 64)
    ensures Touched(c, r, 1) && WordsRead(c, 0, r) == 1
  {
    ProductIsMultiple(4, 1, 4);
    assert Touched(c, r, 1) by { TouchedWords(c, r, 1); }
  }
}
