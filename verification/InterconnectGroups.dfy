/**
 Bus interconnects, part one: masters and slaves fall into groups that have nothing to do with each other, for
 reads and for writes separately.
 */
module InterconnectGroups {
  import opened Wrappers

  datatype Access = Read | Write | ReadWrite

  /** The slaves a master is connected to, with the kind of access it has. */
  type Master = set<(nat, Access)>

  /** The slaves that a master reaches with one kind of access. */
  function SlavesOf(m: Master, access: Access): set<nat> {
    set c <- m | c.1 == access || c.1 == ReadWrite :: c.0
  }

  /** The connections: a tuple for a slave, of the kind asked for or for both kinds, and nothing else. */
  function MastersConnectedTo(masters: seq<Master>, access: Access): (mc: seq<set<nat>>)
    ensures |mc| == |masters|
    ensures forall a, s :: 0 <= a < |masters| ==>
      (s in mc[a] <==> (s, access) in masters[a] || (s, ReadWrite) in masters[a])
  {
    seq(|masters|, i requires 0 <= i < |masters| => SlavesOf(masters[i], access))
  }

  // ----- the connected relation

  /** Two masters share a slave. */
  ghost predicate Linked(mc: seq<set<nat>>, a: nat, b: nat)
    requires a < |mc| && b < |mc|
  {
    exists s :: s in mc[a] && s in mc[b]
  }

  ghost predicate Path(mc: seq<set<nat>>, p: seq<nat>) {
    && p != [] && (forall i :: 0 <= i < |p| ==> p[i] < |mc|)
    && forall i :: 0 < i < |p| ==> Linked(mc, p[i - 1], p[i])
  }

  /** Transitive closure of sharing a slave. */
  ghost predicate Connected(mc: seq<set<nat>>, a: nat, b: nat) {
    exists p :: Path(mc, p) && p[0] == a && p[|p| - 1] == b
  }

  lemma ConnectedSelf(mc: seq<set<nat>>, a: nat)
    requires a < |mc|
    ensures Connected(mc, a, a)
  {
    assert Path(mc, [a]) && [a][0] == a && [a][|[a]| - 1] == a;
  }

  lemma ConnectedStep(mc: seq<set<nat>>, a: nat, b: nat, c: nat)
    requires Connected(mc, a, b) && b < |mc| && c < |mc| && Linked(mc, b, c)
    ensures Connected(mc, a, c)
  {
    var p :| Path(mc, p) && p[0] == a && p[|p| - 1] == b;
    var q := p + [c];
    assert Path(mc, q) && q[0] == a && q[|q| - 1] == c;
  }

  /** A set of masters that no link leaves. */
  ghost predicate Closed(mc: seq<set<nat>>, ms: set<nat>) {
    forall a: nat, b: nat :: a in ms && a < |mc| && b < |mc| && Linked(mc, a, b) ==> b in ms
  }

  lemma {:induction false} PathStays(mc: seq<set<nat>>, ms: set<nat>, p: seq<nat>, i: nat)
    requires Path(mc, p) && Closed(mc, ms) && p[0] in ms && i < |p|
    ensures p[i] in ms
  {
    if i > 0 {
      PathStays(mc, ms, p, i - 1);
      assert Linked(mc, p[i - 1], p[i]);
    }
  }

  lemma ConnectedStays(mc: seq<set<nat>>, ms: set<nat>, a: nat, b: nat)
    requires Closed(mc, ms) && a in ms && Connected(mc, a, b)
    ensures b in ms
  {
    var p :| Path(mc, p) && p[0] == a && p[|p| - 1] == b;
    PathStays(mc, ms, p, |p| - 1);
  }

  lemma ConnectedSymmetric(mc: seq<set<nat>>, a: nat, b: nat)
    requires Connected(mc, a, b)
    ensures Connected(mc, b, a)
  {
    var p :| Path(mc, p) && p[0] == a && p[|p| - 1] == b;
    var q := seq(|p|, i requires 0 <= i < |p| => p[|p| - 1 - i]);
    forall i | 0 < i < |q| ensures Linked(mc, q[i - 1], q[i]) {
      var j := |p| - i;
      assert q[i - 1] == p[j] && q[i] == p[j - 1];
      assert Linked(mc, p[j - 1], p[j]);
    }
    assert Path(mc, q) && q[0] == b && q[|q| - 1] == a;
  }

  lemma ConnectedTransitive(mc: seq<set<nat>>, a: nat, b: nat, c: nat)
    requires Connected(mc, a, b) && Connected(mc, b, c)
    ensures Connected(mc, a, c)
  {
    var p :| Path(mc, p) && p[0] == a && p[|p| - 1] == b;
    var q :| Path(mc, q) && q[0] == b && q[|q| - 1] == c;
    var r := p + q[1..];
    forall i | 0 < i < |r| ensures Linked(mc, r[i - 1], r[i]) {
      if i >= |p| {
        assert r[i] == q[i - |p| + 1] && r[i - 1] == q[i - |p|];
      }
    }
    assert Path(mc, r) && r[0] == a && r[|r| - 1] == c;
  }

  // ----- the groups

  datatype Group = Group(masters: set<nat>, slaves: set<nat>)

  /** Exactly the masters that are connected to any one of them, and exactly their slaves. */
  ghost predicate IsComponent(mc: seq<set<nat>>, g: Group) {
    && g.masters != {} && (forall a :: a in g.masters ==> a < |mc|)
    && (forall a: nat, b: nat :: a in g.masters ==> (b in g.masters <==> Connected(mc, a, b)))
    && (forall s :: s in g.slaves <==> exists a :: a in g.masters && s in mc[a])
  }

  /** Different components share neither masters nor slaves. */
  lemma ComponentsAreDisjoint(mc: seq<set<nat>>, g: Group, h: Group)
    requires IsComponent(mc, g) && IsComponent(mc, h)
    ensures g == h || (g.masters !! h.masters && g.slaves !! h.slaves)
  {
    if a, b :| a in g.masters && b in h.masters && Connected(mc, a, b) {
      SameMasters(mc, g, h, a, b);
      assert forall s :: s in g.slaves <==> s in h.slaves;
      assert g.slaves == h.slaves;
    } else {
      forall a | a in g.masters ensures a !in h.masters {
        ConnectedSelf(mc, a);
      }
      forall s | s in g.slaves ensures s !in h.slaves {
        if s in h.slaves {
          var a :| a in g.masters && s in mc[a];
          var b :| b in h.masters && s in mc[b];
          ConnectedSelf(mc, a);
          ConnectedStep(mc, a, a, b);
        }
      }
    }
  }

  lemma SameMasters(mc: seq<set<nat>>, g: Group, h: Group, a: nat, b: nat)
    requires IsComponent(mc, g) && IsComponent(mc, h) && a in g.masters && b in h.masters && Connected(mc, a, b)
    ensures g.masters == h.masters
  {
    forall c | c in g.masters ensures c in h.masters {
      ConnectedSymmetric(mc, a, b);
      ConnectedTransitive(mc, b, a, c);
    }
    forall c | c in h.masters ensures c in g.masters {
      ConnectedTransitive(mc, a, b, c);
    }
  }

  ghost predicate InSomeGroup(groups: seq<Group>, a: nat) {
    exists i :: 0 <= i < |groups| && a in groups[i].masters
  }

  // ----- the algorithm

  predicate Has(sets: seq<set<nat>>, i: nat, x: nat) {
    i < |sets| && x in sets[i]
  }

  /** The inverse of the connection. */
  ghost predicate Inverse(mc: seq<set<nat>>, sc: seq<set<nat>>) {
    forall a: nat, s: nat :: Has(sc, s, a) <==> Has(mc, a, s)
  }

  lemma AddHas(sets: seq<set<nat>>, i: nat, x: nat)
    requires i < |sets|
    ensures forall j: nat, y: nat :: Has(sets[i := sets[i] + {x}], j, y) <==> Has(sets, j, y) || (j == i && y == x)
  {
    var t := sets[i := sets[i] + {x}];
    forall j: nat, y: nat ensures Has(t, j, y) <==> Has(sets, j, y) || (j == i && y == x) {
      if j < |sets| {
        assert t[j] == if j == i then sets[i] + {x} else sets[j];
      }
    }
  }

  /** The connections before that of the master `mi` to one of the slaves in `rest`. */
  ghost predicate Before(mc: seq<set<nat>>, mi: nat, rest: set<nat>, a: nat, s: nat) {
    Has(mc, a, s) && (a < mi || (a == mi && s !in rest))
  }

  lemma OneMoreBefore(mc: seq<set<nat>>, mi: nat, rest: set<nat>, si: nat)
    requires Has(mc, mi, si) && si in rest
    ensures forall a: nat, s: nat ::
      Before(mc, mi, rest - {si}, a, s) <==> Before(mc, mi, rest, a, s) || (s == si && a == mi)
  {
  }

  method SlavesConnectedTo(mc: seq<set<nat>>, slaves: nat) returns (sc: seq<set<nat>>)
    requires forall a: nat, s: nat :: Has(mc, a, s) ==> s < slaves
    ensures |sc| == slaves && Inverse(mc, sc)
  {
    assert forall a: nat, s: nat :: Has(mc, a, s) ==> a < |mc|;
    sc := seq(slaves, _ => {});
    for mi := 0 to |mc|
      invariant |sc| == slaves
      invariant forall a: nat, s: nat :: Has(sc, s, a) <==> a < mi && Has(mc, a, s)
    {
      var slvs := mc[mi];
      while slvs != {}
        invariant |sc| == slaves && slvs <= mc[mi]
        invariant forall a: nat, s: nat :: Has(sc, s, a) <==> Before(mc, mi, slvs, a, s)
        decreases slvs
      {
        var si :| si in slvs;
        assert Has(mc, mi, si);
        AddHas(sc, si, mi);
        OneMoreBefore(mc, mi, slvs, si);
        sc, slvs := sc[si := sc[si] + {mi}], slvs - {si};
      }
    }
  }

  /** `m_to_search.extend`, in any order of the set. */
  method Extend(stack: seq<nat>, more: set<nat>) returns (r: seq<nat>)
    ensures forall x: nat :: x in r <==> x in stack || x in more
  {
    r := stack;
    var rest := more;
    while rest != {}
      invariant rest <= more && forall x: nat :: x in r <==> x in stack || x in more - rest
      decreases rest
    {
      var x :| x in rest;
      r, rest := r + [x], rest - {x};
    }
  }

  /** The master `x` is one of those of the slaves `slvs`. */
  ghost predicate MasterOfSome(sc: seq<set<nat>>, slvs: set<nat>, x: nat) {
    exists s :: s in slvs && Has(sc, s, x)
  }

  lemma OneMoreSlave(sc: seq<set<nat>>, done: set<nat>, s: nat, x: nat)
    ensures MasterOfSome(sc, done + {s}, x) <==> MasterOfSome(sc, done, x) || Has(sc, s, x)
  {
    if Has(sc, s, x) { assert s in done + {s}; }
    if t :| t in done && Has(sc, t, x) { assert t in done + {s}; }
  }

  /** All masters of the slaves of a master are put on the stack. */
  method PushNeighbours(stack: seq<nat>, slvs: set<nat>, sc: seq<set<nat>>) returns (r: seq<nat>)
    requires forall s :: s in slvs ==> s < |sc|
    ensures forall x: nat :: x in r <==> x in stack || MasterOfSome(sc, slvs, x)
  {
    r := stack;
    var rest := slvs;
    while rest != {}
      invariant rest <= slvs
      invariant forall x: nat :: x in r <==> x in stack || MasterOfSome(sc, slvs - rest, x)
      decreases rest
    {
      var s :| s in rest;
      r := Extend(r, sc[s]);
      forall x: nat ensures MasterOfSome(sc, slvs - rest + {s}, x) <==> MasterOfSome(sc, slvs - rest, x) || x in sc[s] {
        OneMoreSlave(sc, slvs - rest, s, x);
      }
      assert slvs - (rest - {s}) == slvs - rest + {s};
      rest := rest - {s};
    }
  }

  ghost function Below(n: nat): (r: set<nat>)
    ensures forall a: nat :: a in r <==> a < n
  {
    if n == 0 then {} else Below(n - 1) + {n - 1}
  }

  /**
   What the worklist keeps: everything found is connected to the root, and nothing found has an unseen neighbour
   off the stack.
   */
  ghost predicate Searching(mc: seq<set<nat>>, root: nat, before: set<nat>, seen: set<nat>,
                            gm: set<nat>, stack: seq<nat>) {
    && seen == before + gm && before !! gm
    && (forall a :: a in gm ==> a < |mc| && Connected(mc, root, a))
    && (forall a :: a in stack ==> a < |mc| && Connected(mc, root, a))
    && (forall a: nat, b: nat :: a in gm && a < |mc| && b < |mc| && Linked(mc, a, b) ==> b in seen || b in stack)
    && (root in seen || root in stack)
  }

  lemma SearchStep(mc: seq<set<nat>>, root: nat, before: set<nat>, seen: set<nat>, gm: set<nat>, stack: seq<nat>,
                   mi: nat, more: seq<nat>)
    requires Searching(mc, root, before, seen, gm, stack + [mi]) && mi !in seen && mi < |mc|
    requires forall x: nat :: x in more <==> x in stack || (x < |mc| && Linked(mc, mi, x))
    ensures Searching(mc, root, before, seen + {mi}, gm + {mi}, more)
  {
    assert mi in stack + [mi];
    forall a | a in more ensures a < |mc| && Connected(mc, root, a) {
      if a in stack {
        assert a in stack + [mi];
      } else {
        ConnectedStep(mc, root, mi, a);
      }
    }
  }

  lemma SkipSeen(mc: seq<set<nat>>, root: nat, before: set<nat>, seen: set<nat>, gm: set<nat>, stack: seq<nat>,
                 mi: nat)
    requires Searching(mc, root, before, seen, gm, stack + [mi]) && mi in seen
    ensures Searching(mc, root, before, seen, gm, stack)
    ensures forall a :: a in stack ==> a in stack + [mi]
  {
    forall a | a in stack ensures a < |mc| && Connected(mc, root, a) {
      assert a in stack + [mi];
    }
    forall a: nat, b: nat | a in gm && a < |mc| && b < |mc| && Linked(mc, a, b) ensures b in seen || b in stack {
      assert b in seen || b in stack + [mi];
    }
  }

  lemma SearchDone(mc: seq<set<nat>>, root: nat, before: set<nat>, seen: set<nat>, gm: set<nat>)
    requires Searching(mc, root, before, seen, gm, []) && Closed(mc, before) && root < |mc|
    ensures Closed(mc, seen)
    ensures root !in before ==> forall a: nat, b: nat :: a in gm ==> (b in gm <==> Connected(mc, a, b))
  {
    if root !in before {
      forall a: nat, b: nat | a in gm && b < |mc| && Linked(mc, a, b) ensures b in gm {
        if b in before {
          assert Linked(mc, b, a);
        }
      }
      assert Closed(mc, gm);
      forall a: nat, b: nat | a in gm ensures b in gm <==> Connected(mc, a, b) {
        if b in gm {
          ConnectedSymmetric(mc, root, a);
          ConnectedTransitive(mc, a, root, b);
        }
        if Connected(mc, a, b) { ConnectedStays(mc, gm, a, b); }
      }
    }
  }

  /** The group of all ports that are somehow connected to the master `root`, unless it was seen before. */
  method ExtractSeparableGroup(root: nat, seenM: set<nat>, mc: seq<set<nat>>, sc: seq<set<nat>>)
    returns (g: Option<Group>, seen: set<nat>)
    requires root < |mc| && Inverse(mc, sc) && Closed(mc, seenM)
    ensures Closed(mc, seen)
    ensures g.None? <==> root in seenM
    ensures g.None? ==> seen == seenM
    ensures g.Some? ==> root in g.value.masters && seen == seenM + g.value.masters && IsComponent(mc, g.value)
  {
    var mToSearch: seq<nat>, gM: set<nat>, gS: set<nat> := [root], {}, {};
    seen := seenM;
    ConnectedSelf(mc, root);
    while mToSearch != []
      invariant Searching(mc, root, seenM, seen, gM, mToSearch)
      invariant forall s :: s in gS <==> exists a :: a in gM && s in mc[a]
      invariant root in seenM ==> gM == {} && forall a :: a in mToSearch ==> a in seenM
      decreases Below(|mc|) - seen, |mToSearch|
    {
      var mi := mToSearch[|mToSearch| - 1];
      var stack := mToSearch[..|mToSearch| - 1];
      assert mToSearch == stack + [mi];
      assert mi in mToSearch;
      if mi in seen {
        SkipSeen(mc, root, seenM, seen, gM, stack, mi);
        mToSearch := stack;
      } else {
        assert mi in Below(|mc|) - seen;
        var slvs := mc[mi];
        NeighboursAreLinked(mc, sc, mi);
        var more := PushNeighbours(stack, slvs, sc);
        SearchStep(mc, root, seenM, seen, gM, stack, mi, more);
        gM, seen, gS := gM + {mi}, seen + {mi}, gS + slvs;
        mToSearch := more;
      }
    }
    SearchDone(mc, root, seenM, seen, gM);
    g := if gM == {} && gS == {} then None else Some(Group(gM, gS));
  }

  lemma NeighboursAreLinked(mc: seq<set<nat>>, sc: seq<set<nat>>, mi: nat)
    requires mi < |mc| && Inverse(mc, sc)
    ensures forall s :: s in mc[mi] ==> s < |sc|
    ensures forall x: nat :: MasterOfSome(sc, mc[mi], x) <==> x < |mc| && Linked(mc, mi, x)
  {
    forall s | s in mc[mi] ensures s < |sc| {
      assert Has(mc, mi, s);
    }
    forall x: nat ensures MasterOfSome(sc, mc[mi], x) <==> x < |mc| && Linked(mc, mi, x) {
      if s :| s in mc[mi] && Has(sc, s, x) {
        assert Has(mc, x, s);
      }
      if x < |mc| && Linked(mc, mi, x) {
        var s :| s in mc[mi] && s in mc[x];
        assert Has(mc, x, s);
      }
    }
  }

  /** A group has the slaves for which one of its masters holds a tuple, and no others. */
  ghost predicate SlavesOfTuples(masters: seq<Master>, access: Access, g: Group) {
    forall s :: s in g.slaves <==>
      exists a :: a in g.masters && a < |masters| && ((s, access) in masters[a] || (s, ReadWrite) in masters[a])
  }

  /** With a master all others that hold a tuple for the same slave are in the group. */
  ghost predicate TogetherByTuples(masters: seq<Master>, access: Access, g: Group) {
    forall a: nat, b: nat, s: nat ::
      a in g.masters && a < |masters| && b < |masters|
      && ((s, access) in masters[a] || (s, ReadWrite) in masters[a])
      && ((s, access) in masters[b] || (s, ReadWrite) in masters[b])
      ==> b in g.masters
  }

  lemma ComponentByTuples(masters: seq<Master>, access: Access, g: Group)
    requires IsComponent(MastersConnectedTo(masters, access), g)
    ensures SlavesOfTuples(masters, access, g) && TogetherByTuples(masters, access, g)
  {
    var mc := MastersConnectedTo(masters, access);
    forall s ensures s in g.slaves <==>
      exists a :: a in g.masters && a < |masters| && ((s, access) in masters[a] || (s, ReadWrite) in masters[a])
    {
      SlaveByTuple(masters, access, g, s);
    }
    forall a: nat, b: nat, s: nat | a in g.masters && a < |masters| && b < |masters|
      && ((s, access) in masters[a] || (s, ReadWrite) in masters[a])
      && ((s, access) in masters[b] || (s, ReadWrite) in masters[b])
      ensures b in g.masters
    {
      assert s in mc[a] && s in mc[b];
      ConnectedSelf(mc, a);
      ConnectedStep(mc, a, a, b);
    }
  }

  lemma SlaveByTuple(masters: seq<Master>, access: Access, g: Group, s: nat)
    requires IsComponent(MastersConnectedTo(masters, access), g)
    ensures s in g.slaves <==>
      exists a :: a in g.masters && a < |masters| && ((s, access) in masters[a] || (s, ReadWrite) in masters[a])
  {
    var mc := MastersConnectedTo(masters, access);
    if s in g.slaves {
      var a :| a in g.masters && s in mc[a];
      assert a < |masters| && ((s, access) in masters[a] || (s, ReadWrite) in masters[a]);
    }
    if a :| a in g.masters && a < |masters| && ((s, access) in masters[a] || (s, ReadWrite) in masters[a]) {
      assert s in mc[a];
    }
  }

  /**
   The groups are the connected components: each is one, and every master is in exactly one. Masters with tuples for the
   same slave are together, and a group has exactly the slaves of the tuples of its masters.
   */
  method ExtractSeparableGroups(masters: seq<Master>, slaves: nat, access: Access) returns (groups: seq<Group>)
    requires forall m, c :: m in masters && c in m ==> c.0 < slaves
    ensures var mc := MastersConnectedTo(masters, access); forall g :: g in groups ==> IsComponent(mc, g)
    ensures forall a: nat :: a < |masters| ==> InSomeGroup(groups, a)
    ensures forall i, j :: 0 <= i < j < |groups| ==>
      groups[i].masters !! groups[j].masters && groups[i].slaves !! groups[j].slaves
    ensures forall g :: g in groups ==> SlavesOfTuples(masters, access, g) && TogetherByTuples(masters, access, g)
  {
    var mc := MastersConnectedTo(masters, access);
    var sc := SlavesConnectedTo(mc, slaves);
    var seen: set<nat> := {};
    groups := [];
    for mi := 0 to |mc|
      invariant Closed(mc, seen)
      invariant forall a :: 0 <= a < mi ==> a in seen
      invariant AreGroups(mc, groups, seen)
    {
      var g, seen' := ExtractSeparableGroup(mi, seen, mc, sc);
      if g.Some? {
        AddGroup(mc, groups, g.value, seen, mi);
        groups := groups + [g.value];
      }
      seen := seen';
    }
    forall g | g in groups ensures SlavesOfTuples(masters, access, g) && TogetherByTuples(masters, access, g) {
      ComponentByTuples(masters, access, g);
    }
  }

  /** Disjoint components that contain the masters `seen`. */
  ghost predicate AreGroups(mc: seq<set<nat>>, groups: seq<Group>, seen: set<nat>) {
    && (forall g :: g in groups ==> IsComponent(mc, g) && g.masters <= seen)
    && (forall a :: a in seen ==> InSomeGroup(groups, a))
    && (forall i, j :: 0 <= i < j < |groups| ==>
          groups[i].masters !! groups[j].masters && groups[i].slaves !! groups[j].slaves)
  }

  lemma AddGroup(mc: seq<set<nat>>, groups: seq<Group>, g: Group, seen: set<nat>, root: nat)
    requires AreGroups(mc, groups, seen) && IsComponent(mc, g) && root in g.masters && root !in seen
    ensures AreGroups(mc, groups + [g], seen + g.masters)
  {
    var more := groups + [g];
    forall h | h in more ensures IsComponent(mc, h) && h.masters <= seen + g.masters {
      if h != g { assert h in groups; }
    }
    forall a | a in seen + g.masters ensures InSomeGroup(more, a) {
      if a in seen {
        var i :| 0 <= i < |groups| && a in groups[i].masters;
        assert more[i] == groups[i];
      } else {
        assert more[|groups|] == g;
      }
    }
    forall i, j | 0 <= i < j < |more|
      ensures more[i].masters !! more[j].masters && more[i].slaves !! more[j].slaves
    {
      assert more[i] == groups[i];
      if j < |groups| {
        assert more[j] == groups[j];
      } else {
        OtherGroup(mc, groups, g, seen, root, i);
      }
    }
  }

  lemma OtherGroup(mc: seq<set<nat>>, groups: seq<Group>, g: Group, seen: set<nat>, root: nat, i: nat)
    requires AreGroups(mc, groups, seen) && IsComponent(mc, g) && root in g.masters && root !in seen && i < |groups|
    ensures groups[i].masters !! g.masters && groups[i].slaves !! g.slaves
  {
    assert groups[i] in groups;
    ComponentsAreDisjoint(mc, groups[i], g);
  }
}
