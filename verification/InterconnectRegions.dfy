/** Bus interconnects, part two: the address regions of the slaves, given or picked automatically. */
module InterconnectRegions {
  import opened Arithmetic
  import opened Wrappers

  datatype Address = Auto | At(address: int)

  datatype Config = Config(address: Address, size: nat)

  datatype Region = Region(addr: int, size: nat)

  datatype Error = SizeNotPow2 | Unaligned | Collision

  // ----- what is accepted

  predicate Contains(r: Region, a: int) {
    r.addr <= a < r.addr + r.size
  }

  /** Some address belongs to both regions. */
  ghost predicate Overlap(r: Region, q: Region) {
    exists a: int :: Contains(r, a) && Contains(q, a)
  }

  ghost predicate Disjoint(rs: seq<Region>) {
    forall i, j :: 0 <= i < j < |rs| ==> !Overlap(rs[i], rs[j])
  }

  /** The end of the regions, where the next one may be placed. */
  function MaxEnd(rs: seq<Region>): (e: nat)
    ensures forall r :: r in rs ==> r.addr + r.size <= e
    ensures e == 0 || exists r :: r in rs && r.addr + r.size == e
  {
    if rs == [] then 0
    else
      var e, last := MaxEnd(rs[..|rs| - 1]), rs[|rs| - 1];
      assert forall r :: r in rs ==> r in rs[..|rs| - 1] || r == last;
      if last.addr + last.size > e then last.addr + last.size else e
  }

  /** A slave can be placed: its size is a power of two and a given address is a multiple of it. */
  predicate Placeable(c: Config): (b: bool)
    ensures b ==> c.size > 0
  {
    IsPow2(c.size) && (c.address.At? ==> c.address.address % c.size == 0)
  }

  predicate AllPlaceable(cs: seq<Config>) {
    forall i :: 0 <= i < |cs| ==> Placeable(cs[i])
  }

  /** The least aligned address that is not below `a`. */
  function AlignUp(a: nat, size: nat): (r: nat)
    requires size > 0
    ensures a <= r < a + size && r % size == 0
  {
    Multiples(a, size);
    if a % size == 0 then a else (a / size + 1) * size
  }

  lemma Multiples(a: nat, size: nat)
    requires size > 0
    ensures (a / size + 1) * size % size == 0
    ensures a <= (a / size + 1) * size <= a + size && (a % size != 0 ==> (a / size + 1) * size < a + size)
  {
    assert (a / size + 1) * size == (a / size) * size + size;
    DivUnique((a / size + 1) * size, a / size + 1, 0, size);
  }

  /** The regions of the slaves, each placed after those before it or where it is told to be. */
  function Placed(cs: seq<Config>): (rs: seq<Region>)
    requires AllPlaceable(cs)
    ensures |rs| == |cs|
  {
    if cs == [] then []
    else
      var before, c := Placed(cs[..|cs| - 1]), cs[|cs| - 1];
      before + [Region(match c.address case Auto => AlignUp(MaxEnd(before), c.size) case At(a) => a, c.size)]
  }

  // ----- what the placement guarantees

  lemma {:induction false} PlacedPrefix(cs: seq<Config>, i: nat)
    requires i <= |cs| && AllPlaceable(cs)
    ensures Placed(cs)[..i] == Placed(cs[..i])
    decreases |cs|
  {
    if i < |cs| {
      PlacedPrefix(cs[..|cs| - 1], i);
      assert cs[..|cs| - 1][..i] == cs[..i];
      assert Placed(cs)[..i] == Placed(cs[..|cs| - 1])[..i];
    } else {
      assert cs[..i] == cs;
    }
  }

  /** Every region is aligned and has the size and the address that were given for it. */
  lemma PlacedAsTold(cs: seq<Config>, i: nat)
    requires i < |cs| && AllPlaceable(cs)
    ensures var r := Placed(cs)[i];
      r.size == cs[i].size > 0 && r.addr % r.size == 0 && (cs[i].address.At? ==> r.addr == cs[i].address.address)
  {
    PlacedPrefix(cs, i + 1);
    assert Placed(cs)[i] == Placed(cs[..i + 1])[i];
    assert cs[..i + 1][i] == cs[i];
  }

  lemma PlacedLast(cs: seq<Config>, j: nat)
    requires j < |cs| && AllPlaceable(cs) && cs[j].address.Auto?
    ensures Placed(cs)[j] == Region(AlignUp(MaxEnd(Placed(cs)[..j]), cs[j].size), cs[j].size)
  {
    PlacedPrefix(cs, j);
    PlacedPrefix(cs, j + 1);
    assert cs[..j + 1][..j] == cs[..j] && Placed(cs)[j] == Placed(cs[..j + 1])[j];
  }

  lemma AlignUpIsLeast(a: nat, size: nat, x: int)
    requires size > 0 && a <= x < AlignUp(a, size)
    ensures x % size != 0
  {
    if x % size == 0 { NoMultipleBetween(x, AlignUp(a, size), size); }
  }

  /**
   A region placed automatically overlaps no earlier one, and is placed as low as possible: it starts at the
   first aligned address after all of them.
   */
  lemma AutoOverlapsNothingBefore(cs: seq<Config>, i: nat, j: nat)
    requires i < j < |cs| && AllPlaceable(cs) && cs[j].address.Auto?
    ensures var rs := Placed(cs); var e := MaxEnd(rs[..j]);
      && !Overlap(rs[i], rs[j])
      && e <= rs[j].addr && forall a :: e <= a < rs[j].addr ==> a % cs[j].size != 0
  {
    PlacedLast(cs, j);
    var rs := Placed(cs);
    assert rs[..j][i] == rs[i] && rs[i] in rs[..j];
    forall a | MaxEnd(rs[..j]) <= a < rs[j].addr ensures a % cs[j].size != 0 {
      AlignUpIsLeast(MaxEnd(rs[..j]), cs[j].size, a);
    }
  }

  lemma NoMultipleBetween(a: int, b: int, size: nat)
    requires size > 0 && a < b && a % size == 0 && b % size == 0
    ensures b >= a + size
  {
    var p, q := a / size, b / size;
    assert (q - p) * size == q * size - p * size == b - a;
    Positive(q - p, size);
    MulGe(q - p, size);
  }

  lemma Positive(k: int, size: nat)
    requires k * size > 0
    ensures k >= 1
  {
  }

  // ----- the check for collisions

  ghost predicate Ordered(rs: seq<Region>) {
    forall i, j :: 0 <= i < j < |rs| ==> rs[i].addr <= rs[j].addr
  }

  ghost predicate FreeOf(rs: seq<Region>, r: Region) {
    forall i :: 0 <= i < |rs| ==> !Overlap(rs[i], r)
  }

  /** Where a region is inserted does not matter for whether the regions are disjoint. */
  lemma InsertDisjoint(rs: seq<Region>, k: nat, r: Region)
    requires k <= |rs|
    ensures Disjoint(rs[..k] + [r] + rs[k..]) <==> Disjoint(rs) && FreeOf(rs, r)
  {
    var t := rs[..k] + [r] + rs[k..];
    if Disjoint(t) {
      forall i, j | 0 <= i < j < |rs| ensures !Overlap(rs[i], rs[j]) {
        var i', j' := if i < k then i else i + 1, if j < k then j else j + 1;
        assert t[i'] == rs[i] && t[j'] == rs[j];
      }
      forall i | 0 <= i < |rs| ensures !Overlap(rs[i], r) {
        assert t[k] == r && t[if i < k then i else i + 1] == rs[i];
      }
    }
  }

  lemma SameFree(rs: seq<Region>, s: seq<Region>, r: Region)
    requires forall x :: x in rs <==> x in s
    ensures FreeOf(rs, r) <==> FreeOf(s, r)
  {
    if FreeOf(rs, r) {
      forall i | 0 <= i < |s| ensures !Overlap(s[i], r) { assert s[i] in rs; }
    }
    if FreeOf(s, r) {
      forall i | 0 <= i < |rs| ensures !Overlap(rs[i], r) { assert rs[i] in s; }
    }
  }

  /** The regions at one address, in order. */
  function AtAddress(rs: seq<Region>, a: int): seq<Region> {
    if rs == [] then [] else AtAddress(rs[..|rs| - 1], a) + if rs[|rs| - 1].addr == a then [rs[|rs| - 1]] else []
  }

  lemma {:induction false} AtAddressConcat(x: seq<Region>, y: seq<Region>, a: int)
    ensures AtAddress(x + y, a) == AtAddress(x, a) + AtAddress(y, a)
    decreases |y|
  {
    if y == [] {
      assert x + y == x;
    } else {
      AtAddressConcat(x, y[..|y| - 1], a);
      assert (x + y)[..|x + y| - 1] == x + y[..|y| - 1];
    }
  }

  lemma {:induction false} NoneAtAddress(x: seq<Region>, a: int)
    requires forall i :: 0 <= i < |x| ==> x[i].addr != a
    ensures AtAddress(x, a) == []
    decreases |x|
  {
    if x != [] { NoneAtAddress(x[..|x| - 1], a); }
  }

  /** A region that is inserted before all those at greater addresses comes last at its own. */
  lemma InsertedLast(s: seq<Region>, r: Region, k: nat, a: int)
    requires k <= |s| && forall j :: k <= j < |s| ==> s[j].addr > r.addr
    ensures AtAddress(s[..k] + [r] + s[k..], a) == AtAddress(s, a) + if r.addr == a then [r] else []
  {
    AtAddressConcat(s[..k] + [r], s[k..], a);
    AtAddressConcat(s[..k], [r], a);
    AtAddressConcat(s[..k], s[k..], a);
    assert s[..k] + s[k..] == s && [r][..0] == [];
    if r.addr == a { NoneAtAddress(s[k..], a); }
  }

  /** `sorted` by address; regions at one address keep their order. */
  method SortByAddress(rs: seq<Region>) returns (s: seq<Region>)
    ensures forall a: int :: AtAddress(s, a) == AtAddress(rs, a)
    ensures Ordered(s) && (forall r :: r in s <==> r in rs)
    ensures Disjoint(s) <==> Disjoint(rs)
  {
    s := [];
    for n := 0 to |rs|
      invariant Ordered(s) && forall r :: r in s <==> r in rs[..n]
      invariant Disjoint(s) <==> Disjoint(rs[..n])
      invariant forall a: int :: AtAddress(s, a) == AtAddress(rs[..n], a)
    {
      var r := rs[n];
      var k := 0;
      while k < |s| && s[k].addr <= r.addr
        invariant k <= |s| && forall j :: 0 <= j < k ==> s[j].addr <= r.addr
      {
        k := k + 1;
      }
      InsertDisjoint(s, k, r);
      InsertDisjoint(rs[..n], n, r);
      assert rs[..n + 1] == rs[..n][..n] + [r] + rs[..n][n..];
      SameFree(rs[..n], s, r);
      InsertOrdered(s, k, r);
      InsertStable(s, rs, n, k);
      s := s[..k] + [r] + s[k..];
    }
    assert rs[..|rs|] == rs;
  }

  lemma InsertStable(s: seq<Region>, rs: seq<Region>, n: nat, k: nat)
    requires n < |rs| && Ordered(s) && k <= |s| && (k < |s| ==> s[k].addr > rs[n].addr)
    requires forall a: int :: AtAddress(s, a) == AtAddress(rs[..n], a)
    ensures forall a: int :: AtAddress(s[..k] + [rs[n]] + s[k..], a) == AtAddress(rs[..n + 1], a)
  {
    assert forall j :: k <= j < |s| ==> s[k].addr <= s[j].addr;
    forall a: int ensures AtAddress(s[..k] + [rs[n]] + s[k..], a) == AtAddress(rs[..n + 1], a) {
      InsertedLast(s, rs[n], k, a);
      PrefixNext(rs, n, a);
    }
  }

  lemma PrefixNext(rs: seq<Region>, n: nat, a: int)
    requires n < |rs|
    ensures AtAddress(rs[..n + 1], a) == AtAddress(rs[..n], a) + if rs[n].addr == a then [rs[n]] else []
  {
    assert rs[..n + 1][..n] == rs[..n];
  }

  lemma InsertOrdered(s: seq<Region>, k: nat, r: Region)
    requires Ordered(s) && k <= |s| && (forall j :: 0 <= j < k ==> s[j].addr <= r.addr)
    requires k < |s| ==> s[k].addr > r.addr
    ensures Ordered(s[..k] + [r] + s[k..]) && forall x :: x in s[..k] + [r] + s[k..] <==> x in s || x == r
  {
    var t := s[..k] + [r] + s[k..];
    assert s == s[..k] + s[k..];
    forall i, j | 0 <= i < j < |t| ensures t[i].addr <= t[j].addr {
      var i', j' := if i <= k then i else i - 1, if j <= k then j else j - 1;
      if i != k && j != k {
        assert t[i] == s[i'] && t[j] == s[j'];
      } else if i == k {
        assert t[j] == s[j'] && s[k].addr <= s[j'].addr;
      }
    }
  }

  /** The regions in order of their addresses: each must start after the last address of the one before. */
  method CheckCollisions(s: seq<Region>) returns (ok: bool)
    requires Ordered(s) && forall i :: 0 <= i < |s| ==> s[i].size > 0
    ensures ok <==> Disjoint(s) && forall i :: 0 <= i < |s| ==> s[i].addr >= 0
  {
    var lastAddr := -1;
    for i := 0 to |s|
      invariant lastAddr == if i == 0 then -1 else s[i - 1].addr + s[i - 1].size - 1
      invariant lastAddr >= -1 && forall j :: 0 <= j < i ==> 0 <= s[j].addr && s[j].addr + s[j].size - 1 <= lastAddr
      invariant Disjoint(s[..i])
    {
      var r := s[i];
      if lastAddr >= r.addr {
        if i > 0 { assert Contains(s[i - 1], r.addr) && Contains(r, r.addr); }
        return false;
      }
      assert s[..i + 1] == s[..i] + [r];
      forall j | 0 <= j < i ensures !Overlap(s[j], r) {
        assert s[..i][j] == s[j];
      }
      lastAddr := r.addr + r.size - 1;
    }
    assert s[..|s|] == s;
    ok := true;
  }

  /** The address of the next slave. */
  method PickAddress(maxAddr: nat, c: Config) returns (r: Result<int, Error>)
    ensures r.Ok? <==> Placeable(c)
    ensures r.Ok? ==> r.value == match c.address case Auto => AlignUp(maxAddr, c.size) case At(a) => a
    ensures r.Err? ==> r.error == if IsPow2(c.size) then Unaligned else SizeNotPow2
  {
    var size := c.size;
    if !IsPow2(size) {
      return Err(SizeNotPow2);
    }
    assert size > 0;
    var address: int;
    match c.address {
      case Auto =>
        address := maxAddr;
        if address % size != 0 { address := (address / size + 1) * size; }
      case At(a) =>
        address := a;
        if address % size != 0 { return Err(Unaligned); }
    }
    r := Ok(address);
  }

  lemma PlacedNext(cs: seq<Config>, n: nat)
    requires n < |cs| && AllPlaceable(cs[..n]) && Placeable(cs[n])
    ensures AllPlaceable(cs[..n + 1])
    ensures var before, c := Placed(cs[..n]), cs[n];
      Placed(cs[..n + 1])
      == before + [Region(match c.address case Auto => AlignUp(MaxEnd(before), c.size) case At(a) => a, c.size)]
  {
    assert cs[..n + 1][..n] == cs[..n] && cs[..n + 1][n] == cs[n];
    assert forall i :: 0 <= i < n ==> cs[..n + 1][i] == cs[..n][i];
  }

  lemma MaxEndNext(rs: seq<Region>, r: Region)
    ensures MaxEnd(rs + [r]) == if r.addr + r.size > MaxEnd(rs) then r.addr + r.size else MaxEnd(rs)
  {
    assert (rs + [r])[..|rs + [r]| - 1] == rs;
  }

  /** The first loop: every slave gets its address, or is refused. */
  method PlaceSlaves(cs: seq<Config>) returns (r: Result<seq<Region>, Error>)
    ensures r.Ok? <==> AllPlaceable(cs)
    ensures r.Ok? ==> r.value == Placed(cs)
    ensures r.Err? ==> exists i :: 0 <= i < |cs| && AllPlaceable(cs[..i]) && !Placeable(cs[i])
                                   && r.error == if IsPow2(cs[i].size) then Unaligned else SizeNotPow2
  {
    var slaves: seq<Region>, maxAddr: nat := [], 0;
    for n := 0 to |cs|
      invariant AllPlaceable(cs[..n]) && slaves == Placed(cs[..n]) && maxAddr == MaxEnd(slaves)
    {
      var address := PickAddress(maxAddr, cs[n]);
      if address.Err? { return Err(address.error); }
      var region := Region(address.value, cs[n].size);
      PlacedNext(cs, n);
      MaxEndNext(slaves, region);
      slaves := slaves + [region];
      maxAddr := if region.addr + region.size > maxAddr then region.addr + region.size else maxAddr;
    }
    assert cs[..|cs|] == cs;
    r := Ok(slaves);
  }

  /** The slaves with their regions, in the order given; or why they are refused. */
  method NormalizeSlaveConfigs(cs: seq<Config>) returns (r: Result<seq<Region>, Error>)
    ensures r.Ok? <==> AllPlaceable(cs) && Disjoint(Placed(cs)) && forall i :: 0 <= i < |cs| ==> Placed(cs)[i].addr >= 0
    ensures r.Ok? ==> r.value == Placed(cs)
    ensures r == Err(Collision) ==> AllPlaceable(cs)
    ensures r == Err(SizeNotPow2) || r == Err(Unaligned) ==> !AllPlaceable(cs)
  {
    r := PlaceSlaves(cs);
    if r.Ok? {
      var sorted := SortByAddress(r.value);
      forall i | 0 <= i < |sorted| ensures sorted[i].size > 0 {
        assert sorted[i] in r.value;
        var k :| 0 <= k < |r.value| && r.value[k] == sorted[i];
        PlacedAsTold(cs, k);
      }
      var ok := CheckCollisions(sorted);
      SameElements(r.value, sorted);
      if !ok { r := Err(Collision); }
    }
  }

  lemma SameElements(a: seq<Region>, b: seq<Region>)
    requires forall r :: r in b <==> r in a
    ensures (forall i :: 0 <= i < |a| ==> a[i].addr >= 0) <==> (forall i :: 0 <= i < |b| ==> b[i].addr >= 0)
  {
    if forall i :: 0 <= i < |a| ==> a[i].addr >= 0 {
      forall i | 0 <= i < |b| ensures b[i].addr >= 0 { assert b[i] in a; }
    }
    if forall i :: 0 <= i < |b| ==> b[i].addr >= 0 {
      forall i | 0 <= i < |a| ensures a[i].addr >= 0 { assert a[i] in b; }
    }
  }
}
