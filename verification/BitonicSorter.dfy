/**
 The bitonic sorting network for ITEMS = 2^k, over any comparator.

 The correctness argument is by thresholds: a sequence is sorted exactly when, for every
 threshold, the sequence of "is above the threshold" bits is sorted, and a comparator acts on those bits as
 AND/OR. So everything about the merge is proved on bits.
 */
module BitonicSorter {
  import opened Arithmetic

  type Cmp<!T> = (T, T) -> bool

  // ----- the network, as built by the source

  /** One column of comparators between `x[i]` and `x[i + len / 2]`: keep the pair if `cmp` holds, else swap it. */
  function Compare<T>(cmp: Cmp<T>, x: seq<T>): (r: seq<T>)
    requires |x| % 2 == 0
    ensures |r| == |x|
  {
    var dist := |x| / 2;
    seq(|x|, i requires 0 <= i < |x| =>
      if i < dist then if cmp(x[i], x[i + dist]) then x[i] else x[i + dist]
      else if cmp(x[i - dist], x[i]) then x[i] else x[i - dist])
  }

  function Merge<T>(cmp: Cmp<T>, x: seq<T>, k: nat): (r: seq<T>)
    requires |x| == Pow2(k)
    ensures |r| == |x|
    decreases k
  {
    if k == 0 then x
    else
      var y, h := Compare(cmp, x), Pow2(k - 1);
      Merge(cmp, y[..h], k - 1) + Merge(cmp, y[h..], k - 1)
  }

  function Sort<T>(cmp: Cmp<T>, x: seq<T>, k: nat): (r: seq<T>)
    requires |x| == Pow2(k)
    ensures |r| == |x|
    decreases k
  {
    if k == 0 then x
    else
      var h := Pow2(k - 1);
      Merge(cmp, Sort(cmp, x[..h], k - 1) + Sort(Not(cmp), x[h..], k - 1), k)
  }

  /** The comparator of the second half. */
  function Not<T>(cmp: Cmp<T>): Cmp<T> {
    (a: T, b: T) => !cmp(a, b)
  }

  // ----- what the comparator has to be

  ghost predicate TotalPreorder<T(!new)>(le: (T, T) -> bool) {
    && (forall a, b :: le(a, b) || le(b, a))
    && (forall a, b, c :: le(a, b) && le(b, c) ==> le(a, c))
  }

  /** `cmp` decides `le`; on ties it may answer either way, so both `<` and `<=` qualify. */
  ghost predicate Decides<T(!new)>(cmp: Cmp<T>, le: (T, T) -> bool) {
    && TotalPreorder(le)
    && (forall a, b :: cmp(a, b) ==> le(a, b))
    && (forall a, b :: !cmp(a, b) ==> le(b, a))
  }

  ghost predicate Sorted<T(!new)>(le: (T, T) -> bool, x: seq<T>) {
    forall i, j :: 0 <= i < j < |x| ==> le(x[i], x[j])
  }

  ghost function Reverse<T(!new)>(le: (T, T) -> bool): (T, T) -> bool {
    (a: T, b: T) => le(b, a)
  }

  lemma NotDecidesReverse<T(!new)>(cmp: Cmp<T>, le: (T, T) -> bool)
    requires Decides(cmp, le)
    ensures Decides(Not(cmp), Reverse(le))
  {
  }

  // ----- thresholds

  /** Which items are strictly above `t`. */
  ghost function Above<T>(le: (T, T) -> bool, t: T, x: seq<T>): (r: seq<bool>)
    ensures |r| == |x|
  {
    seq(|x|, i requires 0 <= i < |x| => !le(x[i], t))
  }

  /** `x` is `c` on [0, i) and on [j, |x|), and `!c` between. */
  ghost predicate Hill(x: seq<bool>, c: bool, i: int, j: int) {
    && 0 <= i <= j <= |x|
    && forall k :: 0 <= k < |x| ==> x[k] == if i <= k < j then !c else c
  }

  ghost predicate BitonicBits(x: seq<bool>) {
    exists c, i, j :: Hill(x, c, i, j)
  }

  ghost predicate Bitonic<T(!new)>(le: (T, T) -> bool, x: seq<T>) {
    forall t :: BitonicBits(Above(le, t, x))
  }

  /** The network on bits: the smaller of two bits is their AND, the larger their OR. */
  ghost function CompareBits(x: seq<bool>): (r: seq<bool>)
    requires |x| % 2 == 0
    ensures |r| == |x|
  {
    var d := |x| / 2;
    seq(|x|, i requires 0 <= i < |x| => if i < d then x[i] && x[i + d] else x[i - d] || x[i])
  }

  ghost function MergeBits(x: seq<bool>, k: nat): (r: seq<bool>)
    requires |x| == Pow2(k)
    ensures |r| == |x|
    decreases k
  {
    if k == 0 then x
    else
      var y, h := CompareBits(x), Pow2(k - 1);
      MergeBits(y[..h], k - 1) + MergeBits(y[h..], k - 1)
  }

  /** The network acts on every threshold of its items as the network on bits does. */
  lemma CompareAtThreshold<T(!new)>(cmp: Cmp<T>, le: (T, T) -> bool, t: T, x: seq<T>)
    requires Decides(cmp, le) && |x| % 2 == 0
    ensures Above(le, t, Compare(cmp, x)) == CompareBits(Above(le, t, x))
  {
    forall i | 0 <= i < |x| ensures Above(le, t, Compare(cmp, x))[i] == CompareBits(Above(le, t, x))[i] {
      ItemAtThreshold(cmp, le, t, x, i);
    }
  }

  lemma ItemAtThreshold<T(!new)>(cmp: Cmp<T>, le: (T, T) -> bool, t: T, x: seq<T>, i: nat)
    requires Decides(cmp, le) && |x| % 2 == 0 && i < |x|
    ensures Above(le, t, Compare(cmp, x))[i] == CompareBits(Above(le, t, x))[i]
  {
    var d := |x| / 2;
    var p := if i < d then i else i - d;
    PairAtThreshold(cmp, le, t, x[p], x[p + d]);
  }

  lemma PairAtThreshold<T(!new)>(cmp: Cmp<T>, le: (T, T) -> bool, t: T, a: T, b: T)
    requires Decides(cmp, le)
    ensures !le(if cmp(a, b) then a else b, t) == (!le(a, t) && !le(b, t))
    ensures !le(if cmp(a, b) then b else a, t) == (!le(a, t) || !le(b, t))
  {
    if cmp(a, b) { assert le(a, b); } else { assert le(b, a); }
  }

  lemma {:induction false} MergeAtThreshold<T(!new)>(cmp: Cmp<T>, le: (T, T) -> bool, t: T, x: seq<T>, k: nat)
    requires Decides(cmp, le) && |x| == Pow2(k)
    ensures Above(le, t, Merge(cmp, x, k)) == MergeBits(Above(le, t, x), k)
    decreases k
  {
    if k > 0 {
      CompareAtThreshold(cmp, le, t, x);
      var y, h := Compare(cmp, x), Pow2(k - 1);
      MergeAtThreshold(cmp, le, t, y[..h], k - 1);
      MergeAtThreshold(cmp, le, t, y[h..], k - 1);
      AboveHalves(le, t, y, h);
      AboveConcat(le, t, Merge(cmp, y[..h], k - 1), Merge(cmp, y[h..], k - 1));
    }
  }

  lemma AboveHalves<T(!new)>(le: (T, T) -> bool, t: T, y: seq<T>, h: nat)
    requires h <= |y|
    ensures Above(le, t, y[..h]) == Above(le, t, y)[..h] && Above(le, t, y[h..]) == Above(le, t, y)[h..]
  {
  }

  lemma AboveConcat<T(!new)>(le: (T, T) -> bool, t: T, a: seq<T>, b: seq<T>)
    ensures Above(le, t, a + b) == Above(le, t, a) + Above(le, t, b)
  {
  }

  // ----- the half cleaner

  /** The half of the output that collects the values `v`: AND collects 0, OR collects 1. */
  ghost function Half(x: seq<bool>, v: bool): (h: seq<bool>)
    requires |x| % 2 == 0
    ensures |h| == |x| / 2
    ensures forall k :: 0 <= k < |x| / 2 ==> h[k] == if x[k] == v || x[k + |x| / 2] == v then v else !v
  {
    seq(|x| / 2, k requires 0 <= k < |x| / 2 => if x[k] == v || x[k + |x| / 2] == v then v else !v)
  }

  lemma HalvesOfCompare(x: seq<bool>)
    requires |x| % 2 == 0
    ensures Half(x, false) == CompareBits(x)[..|x| / 2] && Half(x, true) == CompareBits(x)[|x| / 2..]
  {
  }

  /**
   A hill (or valley) no wider than half the sequence: the half that collects the values `!c` gets
   the whole of it, shifted by a half turn where it was in the second half; the other half stays `c`.
   */
  lemma NarrowHill(x: seq<bool>, c: bool, i: int, j: int)
    requires |x| % 2 == 0 && Hill(x, c, i, j) && j - i <= |x| / 2
    ensures Hill(Half(x, c), c, 0, 0) && BitonicBits(Half(x, !c))
  {
    var d := |x| / 2;
    if j <= d {
      assert Hill(Half(x, !c), c, i, j);
    } else if d <= i {
      assert Hill(Half(x, !c), c, i - d, j - d);
    } else {
      assert Hill(Half(x, !c), !c, j - d, i);
    }
  }

  /** A wider one: every pair has a value `!c`, and both are `!c` on one stretch. */
  lemma WideHill(x: seq<bool>, c: bool, i: int, j: int)
    requires |x| % 2 == 0 && Hill(x, c, i, j) && j - i > |x| / 2
    ensures Hill(Half(x, !c), !c, 0, 0) && BitonicBits(Half(x, c))
  {
    assert Hill(Half(x, c), c, i, j - |x| / 2);
  }

  /** On a bitonic input one half of the output is constant, and both halves are bitonic again. */
  lemma HalfCleaner(x: seq<bool>)
    requires |x| % 2 == 0 && BitonicBits(x)
    ensures var d, y := |x| / 2, CompareBits(x);
      && BitonicBits(y[..d]) && BitonicBits(y[d..])
      && (Hill(y[..d], false, 0, 0) || Hill(y[d..], true, 0, 0))
  {
    var c, i, j :| Hill(x, c, i, j);
    if j - i <= |x| / 2 { NarrowHill(x, c, i, j); } else { WideHill(x, c, i, j); }
    HalvesOfCompare(x);
    var clean := if j - i <= |x| / 2 then c else !c;
    assert Hill(Half(x, clean), clean, 0, 0) && BitonicBits(Half(x, !clean));
  }

  ghost predicate SortedBits(x: seq<bool>) {
    forall i, j :: 0 <= i < j < |x| && x[i] ==> x[j]
  }

  lemma {:induction false} MergeKeepsConstant(x: seq<bool>, k: nat, c: bool)
    requires |x| == Pow2(k) && forall i :: 0 <= i < |x| ==> x[i] == c
    ensures forall i :: 0 <= i < |x| ==> MergeBits(x, k)[i] == c
    decreases k
  {
    if k > 0 {
      var y, h := CompareBits(x), Pow2(k - 1);
      MergeKeepsConstant(y[..h], k - 1, c);
      MergeKeepsConstant(y[h..], k - 1, c);
    }
  }

  lemma {:induction false} MergeSortsBits(x: seq<bool>, k: nat)
    requires |x| == Pow2(k) && BitonicBits(x)
    ensures SortedBits(MergeBits(x, k))
    decreases k
  {
    if k > 0 {
      HalfCleaner(x);
      var y, h := CompareBits(x), Pow2(k - 1);
      MergeSortsBits(y[..h], k - 1);
      MergeSortsBits(y[h..], k - 1);
      if Hill(y[..h], false, 0, 0) {
        MergeKeepsConstant(y[..h], k - 1, false);
      } else {
        MergeKeepsConstant(y[h..], k - 1, true);
      }
    }
  }

  // ----- back to items

  lemma SortedByThresholds<T(!new)>(le: (T, T) -> bool, x: seq<T>)
    requires TotalPreorder(le)
    ensures Sorted(le, x) <==> forall t :: SortedBits(Above(le, t, x))
  {
    if Sorted(le, x) {
      forall t ensures SortedBits(Above(le, t, x)) {
        forall i, j | 0 <= i < j < |x| && !le(x[i], t) ensures !le(x[j], t) {
          assert le(x[i], x[j]);
        }
      }
    }
    if forall t :: SortedBits(Above(le, t, x)) {
      forall i, j | 0 <= i < j < |x| ensures le(x[i], x[j]) {
        var b := Above(le, x[j], x);
        assert le(x[j], x[j]) && !b[j];
        assert SortedBits(b);
        assert !b[i];
      }
    }
  }

  /** The merge sorts every bitonic sequence. */
  lemma MergeSorts<T(!new)>(cmp: Cmp<T>, le: (T, T) -> bool, x: seq<T>, k: nat)
    requires Decides(cmp, le) && |x| == Pow2(k) && Bitonic(le, x)
    ensures Sorted(le, Merge(cmp, x, k))
  {
    forall t ensures SortedBits(Above(le, t, Merge(cmp, x, k))) {
      MergeAtThreshold(cmp, le, t, x, k);
      MergeSortsBits(Above(le, t, x), k);
    }
    SortedByThresholds(le, Merge(cmp, x, k));
  }

  /** The number of leading bits of a sorted sequence that are 0. */
  ghost function Zeros(x: seq<bool>): (z: nat)
    requires SortedBits(x)
    ensures z <= |x| && forall i :: 0 <= i < |x| ==> x[i] == (z <= i)
  {
    if x == [] || x[0] then 0 else 1 + Zeros(x[1..])
  }

  /** An ascending sequence followed by a descending one is bitonic. */
  lemma UpDownIsBitonic<T(!new)>(le: (T, T) -> bool, up: seq<T>, down: seq<T>)
    requires TotalPreorder(le) && Sorted(le, up) && Sorted(Reverse(le), down)
    ensures Bitonic(le, up + down)
  {
    forall t ensures BitonicBits(Above(le, t, up + down)) {
      var a, b, x := Above(le, t, up), Above(le, t, down), Above(le, t, up + down);
      var nb := seq(|b|, i requires 0 <= i < |b| => !b[i]);
      SortedByThresholds(le, up);
      assert SortedBits(nb) by {
        forall i, j | 0 <= i < j < |nb| && nb[i] ensures nb[j] { assert Reverse(le)(down[i], down[j]); }
      }
      assert x == a + b;
      var i, j := Zeros(a), |a| + Zeros(nb);
      forall k | 0 <= k < |x| ensures x[k] == (i <= k < j) {
        if k >= |a| { assert x[k] == b[k - |a|] == !nb[k - |a|]; }
      }
      assert Hill(x, false, i, j);
    }
  }

  lemma {:induction false} SortSorts<T(!new)>(cmp: Cmp<T>, le: (T, T) -> bool, x: seq<T>, k: nat)
    requires Decides(cmp, le) && |x| == Pow2(k)
    ensures Sorted(le, Sort(cmp, x, k))
    decreases k
  {
    if k > 0 {
      var h := Pow2(k - 1);
      NotDecidesReverse(cmp, le);
      SortSorts(cmp, le, x[..h], k - 1);
      SortSorts(Not(cmp), Reverse(le), x[h..], k - 1);
      UpDownIsBitonic(le, Sort(cmp, x[..h], k - 1), Sort(Not(cmp), x[h..], k - 1));
      MergeSorts(cmp, le, Sort(cmp, x[..h], k - 1) + Sort(Not(cmp), x[h..], k - 1), k);
    }
  }

  // ----- the output is a permutation of the input

  lemma {:induction false} PairwisePermutation<T>(a: seq<T>, b: seq<T>, lo: seq<T>, hi: seq<T>)
    requires |a| == |b| == |lo| == |hi|
    requires forall i :: 0 <= i < |a| ==> (lo[i] == a[i] && hi[i] == b[i]) || (lo[i] == b[i] && hi[i] == a[i])
    ensures multiset(lo + hi) == multiset(a + b)
  {
    if a != [] {
      PairwisePermutation(a[1..], b[1..], lo[1..], hi[1..]);
      HeadsOut(a, b);
      HeadsOut(lo, hi);
      assert multiset{lo[0], hi[0]} == multiset{a[0], b[0]};
    }
  }

  lemma HeadsOut<T>(a: seq<T>, b: seq<T>)
    requires a != [] && b != []
    ensures multiset(a + b) == multiset{a[0], b[0]} + multiset(a[1..] + b[1..])
  {
    assert a == [a[0]] + a[1..] && b == [b[0]] + b[1..];
  }

  lemma ComparePermutes<T>(cmp: Cmp<T>, x: seq<T>)
    requires |x| % 2 == 0
    ensures multiset(Compare(cmp, x)) == multiset(x)
  {
    var d, y := |x| / 2, Compare(cmp, x);
    PairwisePermutation(x[..d], x[d..], y[..d], y[d..]);
    HalvesPermute(x, d, x[..d], x[d..]);
    HalvesPermute(y, d, y[..d], y[d..]);
  }

  lemma HalvesPermute<T>(y: seq<T>, h: nat, a: seq<T>, b: seq<T>)
    requires h <= |y| && multiset(a) == multiset(y[..h]) && multiset(b) == multiset(y[h..])
    ensures multiset(a + b) == multiset(y)
  {
    assert y == y[..h] + y[h..];
  }

  lemma {:induction false} MergePermutes<T>(cmp: Cmp<T>, x: seq<T>, k: nat)
    requires |x| == Pow2(k)
    ensures multiset(Merge(cmp, x, k)) == multiset(x)
    decreases k, 1
  {
    if k > 0 {
      ComparePermutes(cmp, x);
      HalvesMergePermutes(cmp, Compare(cmp, x), k);
    }
  }

  lemma {:induction false} HalvesMergePermutes<T>(cmp: Cmp<T>, y: seq<T>, k: nat)
    requires k > 0 && |y| == Pow2(k)
    ensures var h := Pow2(k - 1);
      multiset(Merge(cmp, y[..h], k - 1) + Merge(cmp, y[h..], k - 1)) == multiset(y)
    decreases k, 0
  {
    var h := Pow2(k - 1);
    MergePermutes(cmp, y[..h], k - 1);
    MergePermutes(cmp, y[h..], k - 1);
    HalvesPermute(y, h, Merge(cmp, y[..h], k - 1), Merge(cmp, y[h..], k - 1));
  }

  lemma {:induction false} SortPermutes<T>(cmp: Cmp<T>, x: seq<T>, k: nat)
    requires |x| == Pow2(k)
    ensures multiset(Sort(cmp, x, k)) == multiset(x)
    decreases k
  {
    if k > 0 {
      var h := Pow2(k - 1);
      SortPermutes(cmp, x[..h], k - 1);
      SortPermutes(Not(cmp), x[h..], k - 1);
      MergePermutes(cmp, Sort(cmp, x[..h], k - 1) + Sort(Not(cmp), x[h..], k - 1), k);
      assert x == x[..h] + x[h..];
    }
  }

  // ----- the generator

  /** The loop that drives the outputs of one column of comparators, pair by pair. */
  method BitonicCompare<T>(cmp: Cmp<T>, x: seq<T>) returns (r: seq<T>)
    requires |x| % 2 == 0
    ensures r == Compare(cmp, x)
  {
    var dist := |x| / 2;
    r := x;
    for i := 0 to dist
      invariant |r| == |x|
      invariant forall j :: 0 <= j < |x| ==> r[j] == if j < i || dist <= j < dist + i then Compare(cmp, x)[j] else x[j]
    {
      if cmp(x[i], x[i + dist]) {
        r := r[i := x[i]][i + dist := x[i + dist]];
      } else {
        r := r[i := x[i + dist]][i + dist := x[i]];
      }
    }
  }

  method BitonicMerge<T>(cmp: Cmp<T>, x: seq<T>, k: nat) returns (r: seq<T>)
    requires |x| == Pow2(k)
    ensures r == Merge(cmp, x, k)
    decreases k
  {
    if |x| == 1 {
      MergeOfOne(cmp, x, k);
      return x;
    }
    var y := BitonicCompare(cmp, x);
    var offset := |y| / 2;
    var first := BitonicMerge(cmp, y[..offset], k - 1);
    var second := BitonicMerge(cmp, y[offset..], k - 1);
    r := first + second;
  }

  lemma MergeOfOne<T>(cmp: Cmp<T>, x: seq<T>, k: nat)
    requires |x| == Pow2(k) == 1
    ensures k == 0
  {
  }

  method BitonicSort<T>(cmp: Cmp<T>, x: seq<T>, k: nat) returns (r: seq<T>)
    requires |x| == Pow2(k)
    ensures r == Sort(cmp, x, k)
    decreases k
  {
    if |x| <= 1 {
      MergeOfOne(cmp, x, k);
      return x;
    }
    var offset := |x| / 2;
    var first := BitonicSort(cmp, x[..offset], k - 1);
    var second := BitonicSort(Not(cmp), x[offset..], k - 1);
    r := BitonicMerge(cmp, first + second, k);
  }

  /** The component: every comparator that decides a total preorder gives a sorted permutation of the inputs. */
  method BitonicSorter<T(!new)>(cmp: Cmp<T>, inputs: seq<T>, k: nat, ghost le: (T, T) -> bool) returns (outputs: seq<T>)
    requires |inputs| == Pow2(k) && Decides(cmp, le)
    ensures Sorted(le, outputs)
    ensures multiset(outputs) == multiset(inputs)
  {
    outputs := BitonicSort(cmp, inputs, k);
    SortSorts(cmp, le, inputs, k);
    SortPermutes(cmp, inputs, k);
  }
}
