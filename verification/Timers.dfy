/**
 Shared timers: `resolveSharing` picks a parent for every timer so that fewer counters are needed, and
 the generated counters must tick as if every timer had a counter of its own.
 */
module Timers {
  import opened Arithmetic
  import opened Wrappers

  // ----- the sharing optimizer

  /** The first earlier timer whose period is a multiple and which has no parent itself. */
  function FirstRootBefore(ps: seq<nat>, parents: seq<Option<nat>>, i: nat, j: nat): (r: Option<nat>)
    requires j <= i < |ps| && |parents| == i && ps[i] > 0
    ensures r.Some? ==> j <= r.value < i && ps[r.value] % ps[i] == 0 && parents[r.value].None?
    decreases i - j
  {
    if j == i then None
    else if ps[j] % ps[i] == 0 && parents[j].None? then Some(j)
    else FirstRootBefore(ps, parents, i, j + 1)
  }

  /** The first later timer whose period is a divisor. */
  function FirstDivisorAfter(ps: seq<nat>, i: nat, j: nat): (r: Option<nat>)
    requires i < j <= |ps| && forall k :: 0 <= k < |ps| ==> ps[k] > 0
    ensures r.Some? ==> j <= r.value < |ps| && ps[i] % ps[r.value] == 0
    decreases |ps| - j
  {
    if j == |ps| then None
    else if ps[i] % ps[j] == 0 then Some(j)
    else FirstDivisorAfter(ps, i, j + 1)
  }

  /** The parents of the first `n` of the timers with the (descending) periods `ps`. */
  function Parents(ps: seq<nat>, n: nat): (r: seq<Option<nat>>)
    requires n <= |ps| && forall k :: 0 <= k < |ps| ==> ps[k] > 0
    ensures |r| == n
  {
    if n == 0 then []
    else
      var before, i := Parents(ps, n - 1), n - 1;
      before + [if IsPow2(ps[i]) then FirstRootBefore(ps, before, i, 0) else FirstDivisorAfter(ps, i, i + 1)]
  }

  class TimerInfo {
    const maxVal: nat
    var parent: TimerInfo?

    constructor (maxVal: nat)
      ensures this.maxVal == maxVal && parent == null
    {
      this.maxVal, parent := maxVal, null;
    }
  }

  ghost predicate Distinct<T>(s: seq<T>) {
    forall i, j :: 0 <= i < j < |s| ==> s[i] != s[j]
  }

  function Periods(timers: seq<TimerInfo>): (ps: seq<nat>)
    ensures |ps| == |timers|
  {
    seq(|timers|, i requires 0 <= i < |timers| => timers[i].maxVal)
  }

  ghost predicate Descending(ps: seq<nat>) {
    forall i, j :: 0 <= i < j < |ps| ==> ps[i] >= ps[j]
  }

  /** The timers of one period, in order. */
  function WithPeriod(timers: seq<TimerInfo>, p: nat): seq<TimerInfo> {
    if timers == [] then []
    else WithPeriod(timers[..|timers| - 1], p) + if timers[|timers| - 1].maxVal == p then [timers[|timers| - 1]] else []
  }

  lemma {:induction false} WithPeriodConcat(a: seq<TimerInfo>, b: seq<TimerInfo>, p: nat)
    ensures WithPeriod(a + b, p) == WithPeriod(a, p) + WithPeriod(b, p)
    decreases |b|
  {
    if b == [] {
      assert a + b == a;
    } else {
      WithPeriodConcat(a, b[..|b| - 1], p);
      assert (a + b)[..|a + b| - 1] == a + b[..|b| - 1];
    }
  }

  lemma {:induction false} NoneWithPeriod(a: seq<TimerInfo>, p: nat)
    requires forall i :: 0 <= i < |a| ==> a[i].maxVal != p
    ensures WithPeriod(a, p) == []
    decreases |a|
  {
    if a != [] { NoneWithPeriod(a[..|a| - 1], p); }
  }

  /** A timer that is inserted before all those with smaller periods comes last among those of its own. */
  lemma InsertedLast(s: seq<TimerInfo>, t: TimerInfo, k: nat, p: nat)
    requires k <= |s| && forall j :: k <= j < |s| ==> s[j].maxVal < t.maxVal
    ensures WithPeriod(s[..k] + [t] + s[k..], p) == WithPeriod(s + [t], p)
  {
    WithPeriodConcat(s[..k] + [t], s[k..], p);
    WithPeriodConcat(s[..k], [t], p);
    WithPeriodConcat(s, [t], p);
    WithPeriodConcat(s[..k], s[k..], p);
    assert s[..k] + s[k..] == s;
    if t.maxVal == p {
      NoneWithPeriod(s[k..], p);
    } else {
      NoneWithPeriod([t], p);
    }
  }

  /** `sorted` by falling period, of the timers whose period is not 1; timers of one period keep their order. */
  method SortTimers(timers: seq<TimerInfo>) returns (s: seq<TimerInfo>)
    requires Distinct(timers)
    ensures Distinct(s) && Descending(Periods(s))
    ensures Stable(s, timers)
    ensures forall t :: t in s <==> t in timers && t.maxVal != 1
  {
    s := [];
    for n := 0 to |timers|
      invariant Distinct(s) && Descending(Periods(s))
      invariant forall t :: t in s <==> t in timers[..n] && t.maxVal != 1
      invariant Stable(s, timers[..n])
    {
      var t := timers[n];
      assert timers[..n + 1] == timers[..n] + [t];
      assert t !in timers[..n];
      if t.maxVal != 1 {
        var k := 0;
        while k < |s| && s[k].maxVal >= t.maxVal
          invariant k <= |s| && forall j :: 0 <= j < k ==> s[j].maxVal >= t.maxVal
        {
          k := k + 1;
        }
        assert forall j :: k <= j < |s| ==> s[j].maxVal < t.maxVal by {
          forall j | k <= j < |s| ensures s[j].maxVal < t.maxVal {
            assert Periods(s)[k] >= Periods(s)[j];
          }
        }
        ghost var was := s;
        s := s[..k] + [t] + s[k..];
        assert forall u :: u in s <==> u in was || u == t;
        InsertKeepsOrder(was, t, k);
        InsertStable(was, timers, n, k);
      } else {
        SkipStable(s, timers, n);
      }
    }
    assert timers[..|timers|] == timers;
  }

  /** The sorted timers of every period but 1 are those given. */
  ghost predicate Stable(s: seq<TimerInfo>, timers: seq<TimerInfo>) {
    forall p: nat :: p != 1 ==> WithPeriod(s, p) == WithPeriod(timers, p)
  }

  lemma InsertStable(s: seq<TimerInfo>, timers: seq<TimerInfo>, n: nat, k: nat)
    requires n < |timers| && k <= |s| && Stable(s, timers[..n])
    requires forall j :: k <= j < |s| ==> s[j].maxVal < timers[n].maxVal
    ensures Stable(s[..k] + [timers[n]] + s[k..], timers[..n + 1])
  {
    forall p: nat | p != 1 ensures WithPeriod(s[..k] + [timers[n]] + s[k..], p) == WithPeriod(timers[..n + 1], p) {
      InsertedLast(s, timers[n], k, p);
      assert timers[..n + 1][..n] == timers[..n] && (s + [timers[n]])[..|s|] == s;
    }
  }

  lemma SkipStable(s: seq<TimerInfo>, timers: seq<TimerInfo>, n: nat)
    requires n < |timers| && timers[n].maxVal == 1 && Stable(s, timers[..n])
    ensures Stable(s, timers[..n + 1])
  {
    assert timers[..n + 1][..n] == timers[..n];
  }

  lemma InsertKeepsOrder(s: seq<TimerInfo>, t: TimerInfo, k: nat)
    requires Distinct(s) && Descending(Periods(s)) && t !in s && k <= |s|
    requires forall j :: 0 <= j < k ==> s[j].maxVal >= t.maxVal
    requires forall j :: k <= j < |s| ==> s[j].maxVal < t.maxVal
    ensures Distinct(s[..k] + [t] + s[k..]) && Descending(Periods(s[..k] + [t] + s[k..]))
  {
    var r := s[..k] + [t] + s[k..];
    forall i, j | 0 <= i < j < |r| ensures r[i] != r[j] && r[i].maxVal >= r[j].maxVal {
      var i', j' := if i <= k then i else i - 1, if j <= k then j else j - 1;
      if i != k && j != k {
        assert r[i] == s[i'] && r[j] == s[j'];
        assert Periods(s)[i'] >= Periods(s)[j'];
      }
    }
  }

  /** The parent of every timer is the one the specification picks. */
  ghost predicate ParentsAre(s: seq<TimerInfo>, parents: seq<Option<nat>>)
    reads s
    requires |parents| <= |s|
  {
    forall k :: 0 <= k < |s| ==>
      s[k].parent == if k < |parents| && parents[k].Some? && parents[k].value < |s| then s[parents[k].value] else null
  }

  /** The inner loop for a timer whose period is a power of two. */
  method PickRootBefore(s: seq<TimerInfo>, i: nat, ghost parents: seq<Option<nat>>) returns (j: nat)
    requires i < |s| && |parents| == i && s[i].maxVal > 0
    requires Distinct(s) && ParentsAre(s, parents) && ValidParents(parents, |s|)
    ensures j <= i
    ensures FirstRootBefore(Periods(s), parents, i, 0) == if j < i then Some(j) else None
  {
    j := 0;
    while j < i && !(s[j].maxVal % s[i].maxVal == 0 && s[j].parent == null)
      invariant j <= i
      invariant FirstRootBefore(Periods(s), parents, i, 0) == FirstRootBefore(Periods(s), parents, i, j)
    {
      j := j + 1;
    }
  }

  /** The inner loop for any other timer; the parents of later timers are not assigned yet. */
  method PickDivisorAfter(s: seq<TimerInfo>, i: nat) returns (j: nat)
    requires i < |s| && forall k :: 0 <= k < |s| ==> s[k].maxVal > 0
    requires forall k :: i <= k < |s| ==> s[k].parent == null
    ensures i < j <= |s|
    ensures FirstDivisorAfter(Periods(s), i, i + 1) == if j < |s| then Some(j) else None
  {
    j := i + 1;
    while j < |s| && (s[i].maxVal % s[j].maxVal != 0 || s[j].parent == s[i])
      invariant i < j <= |s|
      invariant FirstDivisorAfter(Periods(s), i, i + 1) == FirstDivisorAfter(Periods(s), i, j)
    {
      j := j + 1;
    }
  }

  ghost predicate ValidParents(parents: seq<Option<nat>>, n: nat) {
    forall k :: 0 <= k < |parents| && parents[k].Some? ==> parents[k].value < n
  }

  lemma {:induction false} ParentsAreValid(ps: seq<nat>, n: nat)
    requires n <= |ps| && forall k :: 0 <= k < |ps| ==> ps[k] > 0
    ensures ValidParents(Parents(ps, n), |ps|)
  {
    if n > 0 { ParentsAreValid(ps, n - 1); }
  }

  /** One round of the outer loop. */
  method PickParent(s: seq<TimerInfo>, i: nat, ghost before: seq<Option<nat>>)
    requires i < |s| && Distinct(s) && forall k :: 0 <= k < |s| ==> s[k].maxVal > 0
    requires before == Parents(Periods(s), i) && ParentsAre(s, before)
    modifies s[i]
    ensures ParentsAre(s, Parents(Periods(s), i + 1))
  {
    ghost var ps := Periods(s);
    ParentsAreValid(ps, i);
    var t := s[i];
    var j;
    if IsPow2(t.maxVal) {
      j := PickRootBefore(s, i, before);
      if j == i { j := |s|; }
    } else {
      j := PickDivisorAfter(s, i);
    }
    ghost var after := Parents(ps, i + 1);
    assert after[..i] == before && after[i] == if j < |s| then Some(j) else None;
    if j < |s| { t.parent := s[j]; }
  }

  /** The outer loop. */
  method AssignParents(s: seq<TimerInfo>)
    requires Distinct(s) && forall k :: 0 <= k < |s| ==> s[k].maxVal > 0 && s[k].parent == null
    modifies s
    ensures ParentsAre(s, Parents(Periods(s), |s|))
  {
    ghost var parents: seq<Option<nat>> := [];
    for i := 0 to |s|
      invariant parents == Parents(Periods(s), i) && ParentsAre(s, parents)
    {
      PickParent(s, i, parents);
      parents := Parents(Periods(s), i + 1);
    }
  }

  /** `resolveSharing`: nested loops that assign `parent` fields. */
  method ResolveSharing(timers: seq<TimerInfo>) returns (s: seq<TimerInfo>)
    requires Distinct(timers)
    requires forall t :: t in timers ==> t.parent == null && t.maxVal > 0
    modifies timers
    ensures Distinct(s) && Descending(Periods(s))
    ensures Stable(s, timers)
    ensures forall t :: t in s <==> t in timers && t.maxVal != 1
    ensures forall t :: t in timers && t !in s ==> t.parent == null
    ensures forall k :: 0 <= k < |s| ==> Periods(s)[k] > 1
    ensures ParentsAre(s, Parents(Periods(s), |s|))
  {
    s := SortTimers(timers);
    assert forall k :: 0 <= k < |s| ==> s[k] in timers;
    AssignParents(s);
  }

  // ----- what the optimizer guarantees

  /**
   A power of two hangs on a counter of its own of a timer that is a multiple; any other timer hangs
   on a timer with a dividing period.
   */
  ghost predicate WellShared(ps: seq<nat>, parents: seq<Option<nat>>) {
    && |parents| == |ps| && Descending(ps) && (forall k :: 0 <= k < |ps| ==> ps[k] > 1)
    && forall i :: 0 <= i < |ps| && parents[i].Some? ==>
         var j := parents[i].value;
         if IsPow2(ps[i]) then j < i && ps[j] % ps[i] == 0 && parents[j].None?
         else i < j < |ps| && ps[i] % ps[j] == 0
  }

  lemma {:induction false} ParentsPrefix(ps: seq<nat>, n: nat, i: nat)
    requires i < n <= |ps| && Descending(ps) && forall k :: 0 <= k < |ps| ==> ps[k] > 1
    ensures Parents(ps, n)[i].Some? ==>
      var j := Parents(ps, n)[i].value;
      if IsPow2(ps[i]) then j < i && ps[j] % ps[i] == 0 && Parents(ps, n)[j].None?
      else i < j < |ps| && ps[i] % ps[j] == 0
  {
    if i < n - 1 {
      ParentsPrefix(ps, n - 1, i);
      assert Parents(ps, n)[..n - 1] == Parents(ps, n - 1);
    }
  }

  lemma ParentsAreWellShared(ps: seq<nat>)
    requires Descending(ps) && forall k :: 0 <= k < |ps| ==> ps[k] > 1
    ensures WellShared(ps, Parents(ps, |ps|))
  {
    forall i | 0 <= i < |ps| && Parents(ps, |ps|)[i].Some? ensures
      var j := Parents(ps, |ps|)[i].value;
      if IsPow2(ps[i]) then j < i && ps[j] % ps[i] == 0 && Parents(ps, |ps|)[j].None?
      else i < j < |ps| && ps[i] % ps[j] == 0
    {
      ParentsPrefix(ps, |ps|, i);
    }
  }

  /** A timer on which another one of a power of two could hang. */
  ghost predicate CouldBeRoot(ps: seq<nat>, parents: seq<Option<nat>>, i: nat, k: nat)
    requires k < i < |ps| && i <= |parents| && ps[i] > 0
  {
    ps[k] % ps[i] == 0 && parents[k].None?
  }

  /** A timer on which another one of any other period could hang. */
  ghost predicate CouldDivide(ps: seq<nat>, i: nat, k: nat)
    requires i < k < |ps| && ps[k] > 0
  {
    ps[i] % ps[k] == 0
  }

  lemma {:induction false} FirstRoot(ps: seq<nat>, parents: seq<Option<nat>>, i: nat, j: nat)
    requires j <= i < |ps| && |parents| == i && ps[i] > 0
    ensures var r := FirstRootBefore(ps, parents, i, j);
      && (r.Some? ==> CouldBeRoot(ps, parents, i, r.value))
      && forall k :: j <= k < (if r.Some? then r.value else i) ==> !CouldBeRoot(ps, parents, i, k)
    decreases i - j
  {
    if j < i && !CouldBeRoot(ps, parents, i, j) { FirstRoot(ps, parents, i, j + 1); }
  }

  lemma {:induction false} FirstDivisor(ps: seq<nat>, i: nat, j: nat)
    requires i < j <= |ps| && forall k :: 0 <= k < |ps| ==> ps[k] > 0
    ensures var r := FirstDivisorAfter(ps, i, j);
      && (r.Some? ==> CouldDivide(ps, i, r.value))
      && forall k :: j <= k < (if r.Some? then r.value else |ps|) ==> !CouldDivide(ps, i, k)
    decreases |ps| - j
  {
    if j < |ps| && !CouldDivide(ps, i, j) { FirstDivisor(ps, i, j + 1); }
  }

  /** A timer hangs on the first one that it could hang on; it has a counter of its own only if there is none. */
  ghost predicate SharesFirst(ps: seq<nat>, parents: seq<Option<nat>>, i: nat)
    requires i < |ps| == |parents| && forall k :: 0 <= k < |ps| ==> ps[k] > 0
  {
    if IsPow2(ps[i]) then
      && (parents[i].Some? ==> parents[i].value < i && CouldBeRoot(ps, parents, i, parents[i].value))
      && forall k :: 0 <= k < i && (parents[i].Some? ==> k < parents[i].value) ==> !CouldBeRoot(ps, parents, i, k)
    else
      && (parents[i].Some? ==> i < parents[i].value < |ps| && CouldDivide(ps, i, parents[i].value))
      && forall k :: i < k < |ps| && (parents[i].Some? ==> k < parents[i].value) ==> !CouldDivide(ps, i, k)
  }

  lemma {:induction false} ParentsAt(ps: seq<nat>, n: nat, i: nat)
    requires i < n <= |ps| && forall k :: 0 <= k < |ps| ==> ps[k] > 0
    ensures Parents(ps, n)[..i] == Parents(ps, i) && Parents(ps, n)[..i + 1] == Parents(ps, i + 1)
  {
    if i < n - 1 {
      ParentsAt(ps, n - 1, i);
      assert Parents(ps, n)[..n - 1] == Parents(ps, n - 1);
    }
  }

  lemma SharesTheFirst(ps: seq<nat>, i: nat)
    requires i < |ps| && forall k :: 0 <= k < |ps| ==> ps[k] > 0
    ensures SharesFirst(ps, Parents(ps, |ps|), i)
  {
    var parents, before := Parents(ps, |ps|), Parents(ps, i);
    ParentsAt(ps, |ps|, i);
    assert parents[i] == parents[..i + 1][i] == Parents(ps, i + 1)[i];
    if IsPow2(ps[i]) {
      FirstRoot(ps, before, i, 0);
      forall k | 0 <= k < i ensures CouldBeRoot(ps, parents, i, k) <==> CouldBeRoot(ps, before, i, k) {
        assert parents[k] == parents[..i][k];
      }
    } else {
      FirstDivisor(ps, i, i + 1);
    }
  }

  /** Distance to a counter that needs no parent. */
  ghost function Rank(ps: seq<nat>, parents: seq<Option<nat>>, i: nat): nat
    requires |parents| == |ps| && i < |ps|
  {
    if parents[i].None? then 0 else if IsPow2(ps[i]) then 1 else 2 + |ps| - i
  }

  /** A walk from a timer to its parent, to the parent of that, and so on. */
  ghost predicate Walk(parents: seq<Option<nat>>, path: seq<nat>) {
    && (forall k :: 0 <= k < |path| ==> path[k] < |parents|)
    && forall k :: 0 <= k < |path| - 1 ==> parents[path[k]] == Some(path[k + 1])
  }

  lemma {:induction false} WalkDescends(ps: seq<nat>, parents: seq<Option<nat>>, path: seq<nat>, a: nat, b: nat)
    requires WellShared(ps, parents) && Walk(parents, path) && a < b < |path|
    ensures Rank(ps, parents, path[a]) > Rank(ps, parents, path[b])
    decreases b
  {
    if a < b - 1 { WalkDescends(ps, parents, path, a, b - 1); }
    assert parents[path[b - 1]] == Some(path[b - 1 + 1]);
  }

  /** For every list of periods the parent relation has no cycle. */
  lemma Acyclic(ps: seq<nat>, path: seq<nat>, a: nat, b: nat)
    requires Descending(ps) && forall k :: 0 <= k < |ps| ==> ps[k] > 1
    requires Walk(Parents(ps, |ps|), path) && a < b < |path|
    ensures path[a] != path[b]
  {
    ParentsAreWellShared(ps);
    WalkDescends(ps, Parents(ps, |ps|), path, a, b);
  }
}
