/**
 The AXI datapump, part one: requests for a number of bytes are translated to bursts, and split if a request is
 longer than a burst may be.
 */
module Datapump {
  import opened Arithmetic

  /**
   The bytes of a bus word, the words of the address space, the largest length of a burst (in words, minus 1), the
   promised alignment of requests and the size of a chunk, both in bytes.
   */
  datatype Config = Config(bytes: nat, words: nat, lenMax: nat, alignAs: nat, chunk: nat)

  predicate ValidConfig(c: Config) {
    c.bytes >= 2 && c.words > 0 && c.alignAs > 0 && c.chunk > 0
  }

  /** All requests are promised to be aligned to bus words. */
  predicate AlwaysAligned(c: Config) {
    c.alignAs == c.bytes
  }

  /**
   A request: the address as the index of a bus word and the offset in it, the number of words minus 1, and the
   number of bytes in the last one, 0 if it is full.
   */
  datatype Req = Req(word: nat, offset: nat, len: nat, rem: nat)

  predicate ValidReq(c: Config, r: Req) {
    ValidConfig(c) && r.word < c.words && r.offset < c.bytes && r.rem < c.bytes
  }

  function Address(c: Config, r: Req): nat {
    r.word * c.bytes + r.offset
  }

  /** The check of the address; a request that it refuses is taken, but no burst is issued for it. */
  predicate AlignmentError(c: Config, r: Req) {
    c.alignAs != 1 && !Multiple(Address(c, r), Pow2(Log2Ceil(c.chunk)))
  }

  /** The number of bytes in the last word, as `isCrossingWordBoundary` and the strobes count them. */
  function BytesInLast(c: Config, rem: nat): nat {
    if rem == 0 then c.bytes else rem
  }

  /** The offset pushes the last bytes over a word boundary. */
  predicate Crosses(c: Config, r: Req) {
    BytesInLast(c, r.rem) > c.bytes - r.offset
  }

  /** The length on the bus, minus 1. */
  function ReqLen(c: Config, r: Req): nat {
    if !AlwaysAligned(c) && r.offset != 0 && Crosses(c, r) then r.len + 1 else r.len
  }

  // ----- the words of a request

  function Bytes(c: Config, r: Req): nat {
    c.bytes * r.len + BytesInLast(c, r.rem)
  }

  /** One of the requested bytes lies in the word `i`, counted from that of the address. */
  ghost predicate Touched(c: Config, r: Req, i: nat) {
    exists k: nat :: r.offset <= k < r.offset + Bytes(c, r) && InWord(c, k, i)
  }

  predicate InWord(c: Config, k: nat, i: nat) {
    c.bytes * i <= k < c.bytes * i + c.bytes
  }

  lemma TouchedBelow(c: Config, r: Req, i: nat)
    requires ValidReq(c, r)
    ensures Touched(c, r, i) <==> c.bytes * i < r.offset + Bytes(c, r)
  {
    if c.bytes * i < r.offset + Bytes(c, r) {
      var k := if i == 0 then r.offset else c.bytes * i;
      if i > 0 { MulGe(i, c.bytes); }
      assert InWord(c, k, i);
    }
  }

  lemma WordsBelow(b: nat, len: nat, i: nat, n: nat)
    requires 0 < n < 2 * b
    ensures b * i < b * len + n <==> i <= len || (i == len + 1 && n > b)
  {
    if i <= len {
      MulMono(b, i, len);
    } else {
      MulMono(b, len + 1, i);
      assert b * (len + 1) == b * len + b;
      if i > len + 1 {
        MulMono(b, len + 2, i);
        assert b * (len + 2) == b * len + 2 * b;
      }
    }
  }

  lemma TouchedWords(c: Config, r: Req, i: nat)
    requires ValidReq(c, r)
    ensures Touched(c, r, i) <==> i <= r.len || (i == r.len + 1 && Crosses(c, r))
  {
    TouchedBelow(c, r, i);
    WordsBelow(c.bytes, r.len, i, r.offset + BytesInLast(c, r.rem));
  }

  /**
   The words on the bus are exactly the touched ones, unless a request breaks the promise of alignment so that it
   crosses.
   */
  lemma ReqLenIsRightExactly(c: Config, r: Req)
    requires ValidReq(c, r)
    ensures (forall i: nat :: Touched(c, r, i) <==> i <= ReqLen(c, r)) <==> !(AlwaysAligned(c) && Crosses(c, r))
  {
    forall i: nat ensures Touched(c, r, i) <==> i <= r.len || (i == r.len + 1 && Crosses(c, r)) {
      TouchedWords(c, r, i);
    }
    if AlwaysAligned(c) && Crosses(c, r) {
      assert Touched(c, r, r.len + 1);
    }
  }

  // ----- bursts

  /** A burst of `len` + 1 words, and what is stored about it for the data path. */
  datatype Part = Part(word: nat, len: nat, rem: nat, last: bool)

  /** The bursts for `n` + 1 words. */
  function PartsFrom(c: Config, word: nat, n: nat, rem: nat): (ps: seq<Part>)
    requires ValidConfig(c)
    ensures ps != []
    decreases n
  {
    if n > c.lenMax then
      [Part(word, c.lenMax, 0, false)] + PartsFrom(c, Wrapped(word + (c.lenMax + 1), c.words), n - (c.lenMax + 1), rem)
    else
      [Part(word, n, rem, true)]
  }

  function Parts(c: Config, r: Req): seq<Part>
    requires ValidReq(c, r)
  {
    PartsFrom(c, r.word, ReqLen(c, r), r.rem)
  }

  /** The words that a burst transfers, in order. */
  function BurstWords(c: Config, p: Part): (ws: seq<nat>)
    requires ValidConfig(c)
    ensures |ws| == p.len + 1
  {
    seq<nat>(p.len + 1, i requires i >= 0 => Wrapped(p.word + i, c.words))
  }

  function AllWords(c: Config, ps: seq<Part>): seq<nat>
    requires ValidConfig(c)
  {
    if ps == [] then [] else BurstWords(c, ps[0]) + AllWords(c, ps[1..])
  }

  lemma {:induction false} CountOfWords(c: Config, word: nat, n: nat, rem: nat)
    requires ValidConfig(c)
    ensures |AllWords(c, PartsFrom(c, word, n, rem))| == n + 1
    decreases n
  {
    var ps := PartsFrom(c, word, n, rem);
    if n > c.lenMax {
      CountOfWords(c, Wrapped(word + (c.lenMax + 1), c.words), n - (c.lenMax + 1), rem);
    } else {
      assert AllWords(c, ps[1..]) == [];
    }
  }

  /** The bursts transfer consecutive words. */
  lemma {:induction false} WordsAreConsecutive(c: Config, word: nat, n: nat, rem: nat, i: nat)
    requires ValidConfig(c) && i <= n
    ensures |AllWords(c, PartsFrom(c, word, n, rem))| == n + 1
    ensures AllWords(c, PartsFrom(c, word, n, rem))[i] == Wrapped(word + i, c.words)
    decreases n
  {
    if i <= c.lenMax {
      WordsOfFirst(c, word, n, rem, i);
    } else {
      WordsOfRest(c, word, n, rem, i);
      WordsAreConsecutive(c, Wrapped(word + (c.lenMax + 1), c.words), n - (c.lenMax + 1), rem, i - (c.lenMax + 1));
      WrappedAdd(word + (c.lenMax + 1), i - (c.lenMax + 1), word + i, c.words);
    }
  }

  lemma WordsOfFirst(c: Config, word: nat, n: nat, rem: nat, i: nat)
    requires ValidConfig(c) && i <= n && i <= c.lenMax
    ensures |AllWords(c, PartsFrom(c, word, n, rem))| == n + 1
    ensures AllWords(c, PartsFrom(c, word, n, rem))[i] == Wrapped(word + i, c.words)
  {
    CountOfWords(c, word, n, rem);
    var ps := PartsFrom(c, word, n, rem);
    assert AllWords(c, ps)[i] == BurstWords(c, ps[0])[i];
  }

  lemma WordsOfRest(c: Config, word: nat, n: nat, rem: nat, i: nat)
    requires ValidConfig(c) && n > c.lenMax && c.lenMax < i <= n
    ensures var rest := AllWords(c, PartsFrom(c, Wrapped(word + (c.lenMax + 1), c.words), n - (c.lenMax + 1), rem));
      && |AllWords(c, PartsFrom(c, word, n, rem))| == n + 1 && |rest| == n - c.lenMax
      && AllWords(c, PartsFrom(c, word, n, rem))[i] == rest[i - (c.lenMax + 1)]
  {
    CountOfWords(c, word, n, rem);
    CountOfWords(c, Wrapped(word + (c.lenMax + 1), c.words), n - (c.lenMax + 1), rem);
    var ps := PartsFrom(c, word, n, rem);
    assert AllWords(c, ps) == BurstWords(c, ps[0]) + AllWords(c, ps[1..]);
  }

  /** Every burst fits, and only the final one is marked last; it carries the remainder. */
  lemma {:induction false} PartsFit(c: Config, word: nat, n: nat, rem: nat, k: nat)
    requires ValidConfig(c) && word < c.words && k < |PartsFrom(c, word, n, rem)|
    ensures var ps := PartsFrom(c, word, n, rem);
      && ps[k].len <= c.lenMax && ps[k].word < c.words
      && (ps[k].last <==> k == |ps| - 1)
      && ps[k].rem == if k == |ps| - 1 then rem else 0
    decreases n
  {
    if n > c.lenMax && k > 0 {
      PartsFit(c, Wrapped(word + (c.lenMax + 1), c.words), n - (c.lenMax + 1), rem, k - 1);
    }
  }

  /**
   The bursts of a request transfer consecutive words, each once, from that of the address on; they are exactly
   those that hold one of its bytes, unless it breaks the promise of alignment so that it crosses.
   */
  lemma CoversExactly(c: Config, r: Req)
    requires ValidReq(c, r)
    ensures var ws := AllWords(c, Parts(c, r));
      && (forall i :: 0 <= i < |ws| ==> ws[i] == (r.word + i) % c.words)
      && ((forall i: nat :: Touched(c, r, i) <==> i < |ws|) <==> !(AlwaysAligned(c) && Crosses(c, r)))
  {
    ReqLenIsRightExactly(c, r);
    CountOfWords(c, r.word, ReqLen(c, r), r.rem);
    forall i | 0 <= i <= ReqLen(c, r) ensures AllWords(c, Parts(c, r))[i] == (r.word + i) % c.words {
      WordsAreConsecutive(c, r.word, ReqLen(c, r), r.rem, i);
      WrappedIsRemainder(r.word + i, c.words);
    }
  }

  // ----- the address handler with splitting

  /** `addrTmp` is a word index; the offset in it is not used. */
  datatype Regs = Regs(pending: bool, addrTmp: nat, remaining: nat)

  /** The request on the input, whether it is valid, what the consumers show, and the error flag. */
  datatype Clock = Clock(vld: bool, r: Req, axiRd: bool, infoRd: bool, err: bool)

  ghost predicate ValidClock(c: Config, k: Clock) {
    ValidReq(c, k.r)
  }

  function LenNow(c: Config, s: Regs, k: Clock): nat {
    if s.pending then s.remaining else ReqLen(c, k.r)
  }

  predicate Moves(k: Clock) {
    k.vld && k.axiRd && k.infoRd && !k.err
  }

  /** A burst is handed to both consumers. */
  predicate Issues(c: Config, k: Clock) {
    Moves(k) && !AlignmentError(c, k.r)
  }

  predicate PendingNext(c: Config, s: Regs, k: Clock) {
    if Moves(k) then LenNow(c, s, k) > c.lenMax else s.pending
  }

  /** The ready signal of the request. */
  predicate ReqReady(c: Config, s: Regs, k: Clock) {
    k.axiRd && k.infoRd && !PendingNext(c, s, k) && !k.err
  }

  /** The valid signals of the two consumers, which wait for each other. */
  predicate AxiValid(c: Config, k: Clock) {
    k.vld && k.infoRd && !AlignmentError(c, k.r) && !k.err
  }

  predicate InfoValid(c: Config, k: Clock) {
    k.vld && k.axiRd && !AlignmentError(c, k.r) && !k.err
  }

  /** The burst on the outputs. */
  function PartNow(c: Config, s: Regs, k: Clock): Part {
    var n, word := LenNow(c, s, k), if s.pending then s.addrTmp else k.r.word;
    if n > c.lenMax then Part(word, c.lenMax, 0, false) else Part(word, n, k.r.rem, true)
  }

  function Step(c: Config, s: Regs, k: Clock): Regs
    requires ValidReq(c, k.r)
  {
    var n := LenNow(c, s, k);
    Regs(PendingNext(c, s, k),
         if !s.pending then Wrapped(k.r.word + (c.lenMax + 1), c.words)
         else if Issues(c, k) then Wrapped(s.addrTmp + (c.lenMax + 1), c.words)
         else s.addrTmp,
         if Moves(k) && n > c.lenMax then n - (c.lenMax + 1) else s.remaining)
  }

  // ----- runs of the address handler

  /** `done` requests of those to come were accepted; these bursts were issued. */
  datatype Run = Run(regs: Regs, done: nat, issued: seq<Part>)

  /** What the environment does in a clock; it offers the requests in order, whenever it likes. */
  datatype Env = Env(vld: bool, axiRd: bool, infoRd: bool, err: bool)

  predicate ValidReqs(c: Config, rs: seq<Req>) {
    ValidConfig(c) && forall i :: 0 <= i < |rs| ==> ValidReq(c, rs[i])
  }

  function ClockOf(rs: seq<Req>, done: nat, e: Env): Clock
    requires done < |rs|
  {
    Clock(e.vld, rs[done], e.axiRd, e.infoRd, e.err)
  }

  ghost function Next(c: Config, rs: seq<Req>, r: Run, e: Env): (t: Run)
    requires ValidReqs(c, rs) && r.done <= |rs|
    ensures t.done <= |rs|
  {
    if r.done == |rs| then r
    else
      var k := ClockOf(rs, r.done, e);
      Run(Step(c, r.regs, k),
          if k.vld && ReqReady(c, r.regs, k) then r.done + 1 else r.done,
          if AxiValid(c, k) && k.axiRd then r.issued + [PartNow(c, r.regs, k)] else r.issued)
  }

  /** A run from reset, with any requests. */
  ghost function Steps(c: Config, rs: seq<Req>, undefined: Regs, es: seq<Env>): (r: Run)
    requires ValidReqs(c, rs) && !undefined.pending
    ensures r.done <= |rs|
    decreases |es|
  {
    if es == [] then Run(undefined, 0, [])
    else Next(c, rs, Steps(c, rs, undefined, es[..|es| - 1]), es[|es| - 1])
  }

  /** The bursts of some requests. */
  function AllParts(c: Config, rs: seq<Req>): seq<Part>
    requires ValidReqs(c, rs)
  {
    if rs == [] then [] else Parts(c, rs[0]) + AllParts(c, rs[1..])
  }

  lemma {:induction false} AllPartsNext(c: Config, rs: seq<Req>, k: nat)
    requires ValidReqs(c, rs) && k < |rs|
    ensures AllParts(c, rs[..k + 1]) == AllParts(c, rs[..k]) + Parts(c, rs[k])
  {
    if k == 0 {
      assert rs[..1][1..] == [] && rs[..0] == [];
    } else {
      AllPartsNext(c, rs[1..], k - 1);
      assert rs[..k + 1][1..] == rs[1..][..k] && rs[..k][1..] == rs[1..][..k - 1];
    }
  }

  /** The requests that pass the check of the address. */
  function Unrefused(c: Config, rs: seq<Req>): (us: seq<Req>)
    requires ValidReqs(c, rs)
    ensures ValidReqs(c, us)
  {
    if rs == [] then []
    else
      var us, r := Unrefused(c, rs[..|rs| - 1]), rs[|rs| - 1];
      if AlignmentError(c, r) then us else us + [r]
  }

  /** What is to be issued for requests. */
  function Due(c: Config, rs: seq<Req>): seq<Part>
    requires ValidReqs(c, rs)
  {
    AllParts(c, Unrefused(c, rs))
  }

  lemma DueNext(c: Config, rs: seq<Req>, k: nat)
    requires ValidReqs(c, rs) && k < |rs|
    ensures Due(c, rs[..k + 1]) == Due(c, rs[..k]) + if AlignmentError(c, rs[k]) then [] else Parts(c, rs[k])
  {
    assert rs[..k + 1][..k] == rs[..k];
    var us := Unrefused(c, rs[..k]);
    if !AlignmentError(c, rs[k]) {
      AllPartsNext(c, us + [rs[k]], |us|);
      assert (us + [rs[k]])[..|us|] == us && (us + [rs[k]])[..|us| + 1] == us + [rs[k]];
    }
  }

  /** The bursts of the current request that are still to come. */
  ghost function ToCome(c: Config, s: Regs, r: Req): seq<Part>
    requires ValidReq(c, r)
  {
    if s.pending && !AlignmentError(c, r) then PartsFrom(c, s.addrTmp, s.remaining, r.rem) else []
  }

  ghost predicate Inv(c: Config, rs: seq<Req>, r: Run)
    requires ValidReqs(c, rs) && r.done <= |rs|
  {
    if r.regs.pending then
      r.done < |rs| && r.issued + ToCome(c, r.regs, rs[r.done]) == Due(c, rs[..r.done + 1])
    else
      r.issued == Due(c, rs[..r.done])
  }

  /** One clock with the request `k.r`, if it is not refused: what is issued and what is to come make up its bursts. */
  lemma StepKeeps(c: Config, s: Regs, k: Clock)
    requires ValidClock(c, k) && !AlignmentError(c, k.r)
    ensures var t := Step(c, s, k); var all := if s.pending then ToCome(c, s, k.r) else Parts(c, k.r);
      && (AxiValid(c, k) && k.axiRd <==> InfoValid(c, k) && k.infoRd)
      && (AxiValid(c, k) && k.axiRd ==>
            all == [PartNow(c, s, k)] + ToCome(c, t, k.r) && (t.pending <==> !ReqReady(c, s, k)))
      && (!(AxiValid(c, k) && k.axiRd) ==> t.pending == s.pending && (s.pending ==> ToCome(c, t, k.r) == all))
      && (!(AxiValid(c, k) && k.axiRd) ==> !(k.vld && ReqReady(c, s, k)))
  {
  }

  lemma Issue<T>(issued: seq<T>, before: seq<T>, parts: seq<T>, all: seq<T>, p: T, rest: seq<T>, pending: bool)
    requires if pending then issued + all == before + parts else issued == before && all == parts
    requires all == [p] + rest
    ensures (issued + [p]) + rest == before + parts
  {
    assert (issued + [p]) + rest == issued + all;
  }

  lemma NextKeeps(c: Config, rs: seq<Req>, r: Run, e: Env)
    requires ValidReqs(c, rs) && r.done <= |rs| && Inv(c, rs, r)
    ensures Inv(c, rs, Next(c, rs, r, e))
  {
    if r.done < |rs| {
      DueNext(c, rs, r.done);
      if AlignmentError(c, rs[r.done]) {
        RefusedKeeps(c, rs, r, e);
      } else {
        UnrefusedKeeps(c, rs, r, e);
      }
    }
  }

  /** A refused request takes its clocks, but nothing is issued for it. */
  lemma RefusedKeeps(c: Config, rs: seq<Req>, r: Run, e: Env)
    requires ValidReqs(c, rs) && r.done < |rs| && Inv(c, rs, r) && AlignmentError(c, rs[r.done])
    requires Due(c, rs[..r.done + 1]) == Due(c, rs[..r.done])
    ensures Next(c, rs, r, e).issued == r.issued && Inv(c, rs, Next(c, rs, r, e))
  {
    assert r.issued + [] == r.issued;
  }

  lemma UnrefusedKeeps(c: Config, rs: seq<Req>, r: Run, e: Env)
    requires ValidReqs(c, rs) && r.done < |rs| && Inv(c, rs, r) && !AlignmentError(c, rs[r.done])
    requires Due(c, rs[..r.done + 1]) == Due(c, rs[..r.done]) + Parts(c, rs[r.done])
    ensures Inv(c, rs, Next(c, rs, r, e))
  {
    var k, t := ClockOf(rs, r.done, e), Next(c, rs, r, e);
    StepKeeps(c, r.regs, k);
    if AxiValid(c, k) && k.axiRd {
      var all := if r.regs.pending then ToCome(c, r.regs, k.r) else Parts(c, k.r);
      var rest := ToCome(c, t.regs, k.r);
      Issue(r.issued, Due(c, rs[..r.done]), Parts(c, k.r), all, PartNow(c, r.regs, k), rest, r.regs.pending);
      if !t.regs.pending { assert t.issued + rest == t.issued; }
    }
  }

  /**
   In every run, under any readiness of the bus and of the data path, the bursts issued are those of the accepted
   requests that pass the check of the address, in order, and the first ones of the current request.
   */
  lemma {:induction false} IssuesInOrder(c: Config, rs: seq<Req>, undefined: Regs, es: seq<Env>)
    requires ValidReqs(c, rs) && !undefined.pending
    ensures Inv(c, rs, Steps(c, rs, undefined, es))
    decreases |es|
  {
    if es != [] {
      IssuesInOrder(c, rs, undefined, es[..|es| - 1]);
      NextKeeps(c, rs, Steps(c, rs, undefined, es[..|es| - 1]), es[|es| - 1]);
    }
  }

  // ----- requests are finished

  /** The number of bursts for `n` + 1 words. */
  function Bursts(c: Config, n: nat): nat {
    if n > c.lenMax then 1 + Bursts(c, n - (c.lenMax + 1)) else 1
  }

  lemma {:induction false} BurstsOfParts(c: Config, word: nat, n: nat, rem: nat)
    requires ValidConfig(c)
    ensures |PartsFrom(c, word, n, rem)| == Bursts(c, n)
    decreases n
  {
    if n > c.lenMax { BurstsOfParts(c, Wrapped(word + (c.lenMax + 1), c.words), n - (c.lenMax + 1), rem); }
  }

  /** The words of the current request that are still to come, minus 1. */
  function LenLeft(c: Config, s: Regs, r: Req): nat {
    if s.pending then s.remaining else ReqLen(c, r)
  }

  /** The request is there, both consumers are ready, and there was no error. */
  predicate Free(e: Env) {
    e.vld && e.axiRd && e.infoRd && !e.err
  }

  ghost function Ahead(c: Config, rs: seq<Req>, r: Run, es: seq<Env>): (t: Run)
    requires ValidReqs(c, rs) && r.done <= |rs|
    ensures t.done <= |rs|
    decreases |es|
  {
    if es == [] then r else Ahead(c, rs, Next(c, rs, r, es[0]), es[1..])
  }

  /** A clock moves a request on exactly if it is free; a burst is handed over in it unless the request is refused. */
  lemma MovesExactly(c: Config, rs: seq<Req>, r: Run, e: Env)
    requires ValidReqs(c, rs) && r.done < |rs|
    ensures var t := Next(c, rs, r, e); var n := LenLeft(c, r.regs, rs[r.done]);
      && t.done == (if Free(e) && n <= c.lenMax then r.done + 1 else r.done)
      && |t.issued| == |r.issued| + (if Free(e) && !AlignmentError(c, rs[r.done]) then 1 else 0)
      && (Free(e) ==> t.regs.pending == (n > c.lenMax) && (n > c.lenMax ==> t.regs.remaining == n - (c.lenMax + 1)))
      && (!Free(e) ==> t.regs.pending == r.regs.pending && t.regs.remaining == r.regs.remaining)
  {
  }

  /** A request is accepted with the free clock of its last burst: it takes as many of them as it has bursts. */
  lemma {:induction false} RequestFinishes(c: Config, rs: seq<Req>, r: Run, es: seq<Env>)
    requires ValidReqs(c, rs) && r.done < |rs| && (forall e :: e in es ==> Free(e))
    requires |es| <= Bursts(c, LenLeft(c, r.regs, rs[r.done]))
    ensures var t := Ahead(c, rs, r, es);
      if |es| == Bursts(c, LenLeft(c, r.regs, rs[r.done])) then t.done == r.done + 1 && !t.regs.pending
      else t.done == r.done
    decreases |es|
  {
    if es != [] {
      MovesExactly(c, rs, r, es[0]);
      var n := LenLeft(c, r.regs, rs[r.done]);
      if n > c.lenMax {
        RequestFinishes(c, rs, Next(c, rs, r, es[0]), es[1..]);
      } else {
        assert es[1..] == [];
      }
    }
  }

  // ----- the component

  class AddrHandler {
    const c: Config
    var transPartPending: bool
    var addrTmp: nat
    var reqLenRemaining: nat

    ghost function Registers(): Regs
      reads this
    {
      Regs(transPartPending, addrTmp, reqLenRemaining)
    }

    constructor (c: Config, undefined: Regs)
      ensures this.c == c && Registers() == undefined.(pending := false)
    {
      this.c, transPartPending, addrTmp, reqLenRemaining := c, false, undefined.addrTmp, undefined.remaining;
    }

    /** One clock edge; the outputs are those before it. */
    method Clk(k: Clock) returns (reqRd: bool, axiVld: bool, infoVld: bool, part: Part)
      requires ValidReq(c, k.r)
      modifies this
      ensures reqRd == ReqReady(c, old(Registers()), k)
      ensures axiVld == AxiValid(c, k) && infoVld == InfoValid(c, k)
      ensures part == PartNow(c, old(Registers()), k)
      ensures Registers() == Step(c, old(Registers()), k)
    {
      var alignmentError := false;
      if c.alignAs != 1 { alignmentError := Wrapped(Address(c, k.r), Pow2(Log2Ceil(c.chunk))) != 0; }
      var reqLen: nat;
      var addr: nat;
      if transPartPending {
        reqLen, addr := reqLenRemaining, addrTmp;
      } else {
        reqLen, addr := k.r.len, k.r.word;
        if !AlwaysAligned(c) && k.r.offset != 0 && Crosses(c, k.r) { reqLen := k.r.len + 1; }
      }
      part := if reqLen > c.lenMax then Part(addr, c.lenMax, 0, false) else Part(addr, reqLen, k.r.rem, true);

      var moves := k.vld && k.axiRd && k.infoRd && !k.err;
      var pendingNext := if moves then reqLen > c.lenMax else transPartPending;
      reqRd := k.axiRd && k.infoRd && !pendingNext && !k.err;
      axiVld := k.vld && k.infoRd && !alignmentError && !k.err;
      infoVld := k.vld && k.axiRd && !alignmentError && !k.err;

      if transPartPending {
        if axiVld && k.axiRd { addrTmp := Wrapped(addrTmp + (c.lenMax + 1), c.words); }
      } else {
        addrTmp := Wrapped(k.r.word + (c.lenMax + 1), c.words);
      }
      if moves && reqLen > c.lenMax { reqLenRemaining := reqLen - (c.lenMax + 1); }
      transPartPending := pendingNext;
    }
  }
}
