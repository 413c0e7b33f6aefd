/** Many linked lists in one pool of slots: new lists, appends behind a tail, and pops of a head, in any mix. */
module FifoArray {
  /** `nexts` is the pointer array, `insertAddr` the slot the next insert will use. */
  datatype Regs<D> = Regs(valid: seq<bool>, last: seq<bool>, insertAddr: nat, values: seq<D>, nexts: seq<nat>)

  /** `append` = 0 starts a new list; `addr` is the tail to append to, and is written through in any case. */
  datatype Inputs<D> = Inputs(insertVld: bool, append: bool, addr: nat, data: D, popRdy: bool, popAddr: nat)

  ghost predicate Shape<D>(n: nat, s: Regs<D>) {
    1 < n == |s.valid| == |s.last| == |s.values| == |s.nexts| && s.insertAddr < n
  }

  /** The ready signal of the insert port. */
  predicate InsertRd<D>(s: Regs<D>) {
    false in s.valid
  }

  /** The valid signal of the pop port. */
  predicate PopVld<D>(s: Regs<D>) {
    true in s.valid
  }

  /** `oneHotToBin` of the inverted bitmap: the lowest free slot, the highest slot if none is free. */
  function FirstFree(valid: seq<bool>, i: nat): (a: nat)
    requires i < |valid|
    ensures i <= a < |valid|
    ensures (exists k :: i <= k < |valid| && !valid[k]) ==> !valid[a]
    decreases |valid| - i
  {
    if !valid[i] || i == |valid| - 1 then i else FirstFree(valid, i + 1)
  }

  function Step<D>(n: nat, s: Regs<D>, i: Inputs<D>): (t: Regs<D>)
    requires Shape(n, s) && i.addr < n && i.popAddr < n
    ensures Shape(n, t)
  {
    var insert, pop := i.insertVld && InsertRd(s), i.popRdy && PopVld(s);
    var popped := if pop then s.valid[i.popAddr := false] else s.valid;
    var valid := if insert then popped[s.insertAddr := true] else popped;
    var unlinked := if insert && i.append then s.last[i.addr := false] else s.last;
    Regs(valid, if insert then unlinked[s.insertAddr := true] else unlinked,
         FirstFree(valid, 0),
         if insert then s.values[s.insertAddr := i.data] else s.values,
         if insert then s.nexts[i.addr := s.insertAddr] else s.nexts)
  }

  // ----- the lists

  /** A word is taken over on the insert port. */
  predicate InsertTaken<D>(s: Regs<D>, i: Inputs<D>) {
    i.insertVld && InsertRd(s)
  }

  /** A word is taken over on the pop port. */
  predicate PopTaken<D>(s: Regs<D>, i: Inputs<D>) {
    i.popRdy && PopVld(s)
  }

  /**
   A list: its slots from head to tail, all words that the insert port has taken over for it, and all that the pop port
   has handed out of it.
   */
  datatype Chain<D> = Chain(slots: seq<nat>, put: seq<D>, got: seq<D>)

  /** Which list a slot belongs to, and which of the words put there it holds. */
  datatype Owner = Owner(chain: nat, index: nat)

  datatype Pool<D> = Pool(regs: Regs<D>, chains: seq<Chain<D>>, owner: seq<Owner>)

  ghost predicate Slots<D>(n: nat, p: Pool<D>)
    requires Shape(n, p.regs)
  {
    && |p.owner| == n
    && (forall j, k :: 0 <= j < |p.chains| && 0 <= k < |p.chains[j].slots| ==> SlotOk(n, p, j, k))
    && (forall a :: 0 <= a < n && p.regs.valid[a] ==> Owned(p, a))
  }

  ghost predicate SlotOk<D>(n: nat, p: Pool<D>, j: nat, k: nat)
    requires Shape(n, p.regs) && |p.owner| == n && j < |p.chains| && k < |p.chains[j].slots|
  {
    var a := p.chains[j].slots[k];
    a < n && p.regs.valid[a] && p.owner[a] == Owner(j, |p.chains[j].got| + k)
  }

  ghost predicate Owned<D>(p: Pool<D>, a: nat)
    requires a < |p.owner|
  {
    var o := p.owner[a];
    && o.chain < |p.chains|
    && var c := p.chains[o.chain];
       |c.got| <= o.index < |c.got| + |c.slots| && c.slots[o.index - |c.got|] == a
  }

  /** The registers hold the list: the pointers, the last flags and the words. */
  ghost predicate Linked<D>(n: nat, s: Regs<D>, c: Chain<D>)
    requires Shape(n, s)
  {
    && (forall k :: 0 <= k < |c.slots| ==> c.slots[k] < n && s.last[c.slots[k]] == (k == |c.slots| - 1))
    && (forall k :: 0 <= k < |c.slots| - 1 ==> s.nexts[c.slots[k]] == c.slots[k + 1])
    && |c.put| == |c.got| + |c.slots| && c.got == c.put[..|c.got|]
    && (forall k :: 0 <= k < |c.slots| ==> s.values[c.slots[k]] == c.put[|c.got| + k])
  }

  /** The lists are in the pool; what is left open is the slot for the next insert. */
  ghost predicate Lists<D>(n: nat, p: Pool<D>) {
    && Shape(n, p.regs) && Slots(n, p)
    && forall j :: 0 <= j < |p.chains| ==> Linked(n, p.regs, p.chains[j])
  }

  ghost predicate Inv<D>(n: nat, p: Pool<D>) {
    Lists(n, p) && (false in p.regs.valid ==> !p.regs.valid[p.regs.insertAddr])
  }

  /** Which lists a clock is about; they only matter if the clock appends or pops. */
  datatype Event<D> = Event(i: Inputs<D>, appendTo: nat, popFrom: nat)

  predicate IsTail<D>(c: Chain<D>, a: nat) { c.slots != [] && c.slots[|c.slots| - 1] == a }

  predicate IsHead<D>(c: Chain<D>, a: nat) { c.slots != [] && c.slots[0] == a }

  /** The slot is followed by another one in its list. */
  ghost predicate Interior<D>(p: Pool<D>, a: nat) {
    exists j, k :: 0 <= j < |p.chains| && 0 <= k < |p.chains[j].slots| - 1 && p.chains[j].slots[k] == a
  }

  /** Appends name a tail and pops a head. */
  predicate Allowed<D>(n: nat, p: Pool<D>, e: Event<D>) {
    && e.i.addr < n && e.i.popAddr < n
    && (InsertTaken(p.regs, e.i) && e.i.append ==> e.appendTo < |p.chains| && IsTail(p.chains[e.appendTo], e.i.addr))
    && (PopTaken(p.regs, e.i) ==> e.popFrom < |p.chains| && IsHead(p.chains[e.popFrom], e.i.popAddr))
  }

  // ----- one clock, as a pop and an insert

  /** A pop that hands out `d`. */
  function PopChain<D>(c: Chain<D>, d: D): Chain<D>
    requires c.slots != []
  {
    c.(slots := c.slots[1..], got := c.got + [d])
  }

  function PutChain<D>(c: Chain<D>, a: nat, d: D): Chain<D> {
    c.(slots := c.slots + [a], put := c.put + [d])
  }

  ghost function Popped<D>(p: Pool<D>, j: nat, d: D): Pool<D>
    requires j < |p.chains| && p.chains[j].slots != [] && p.chains[j].slots[0] < |p.regs.valid|
  {
    p.(regs := p.regs.(valid := p.regs.valid[p.chains[j].slots[0] := false]),
       chains := p.chains[j := PopChain(p.chains[j], d)])
  }

  /** A slot is in one place only. */
  lemma OnePlace<D>(n: nat, p: Pool<D>, j: nat, k: nat, j': nat, k': nat)
    requires Lists(n, p) && j < |p.chains| && k < |p.chains[j].slots| && j' < |p.chains| && k' < |p.chains[j'].slots|
    requires p.chains[j].slots[k] == p.chains[j'].slots[k']
    ensures j == j' && k == k'
  {
    assert SlotOk(n, p, j, k) && SlotOk(n, p, j', k');
  }

  lemma PopKeeps<D>(n: nat, p: Pool<D>, j: nat, d: D)
    requires Lists(n, p) && j < |p.chains| && p.chains[j].slots != []
    requires p.chains[j].slots[0] < n ==> d == p.regs.values[p.chains[j].slots[0]]
    ensures p.chains[j].slots[0] < n && Lists(n, Popped(p, j, d))
  {
    var c := p.chains[j];
    assert Linked(n, p.regs, c) && SlotOk(n, p, j, 0);
    PopSlots(n, p, j, d);
    forall i | 0 <= i < |p.chains| ensures Linked(n, Popped(p, j, d).regs, Popped(p, j, d).chains[i]) {
      assert Linked(n, p.regs, p.chains[i]);
      if i == j { PopLinked(n, p.regs, Popped(p, j, d).regs, c); }
    }
  }

  lemma PopLinked<D>(n: nat, s: Regs<D>, t: Regs<D>, c: Chain<D>)
    requires Shape(n, s) && Shape(n, t) && Linked(n, s, c) && c.slots != []
    requires t.last == s.last && t.nexts == s.nexts && t.values == s.values
    ensures Linked(n, t, PopChain(c, s.values[c.slots[0]]))
  {
    var d := PopChain(c, s.values[c.slots[0]]);
    forall k | 0 <= k < |d.slots|
      ensures d.slots[k] < n && t.last[d.slots[k]] == (k == |d.slots| - 1) && t.values[d.slots[k]] == d.put[|d.got| + k]
    {
      assert d.slots[k] == c.slots[k + 1];
    }
    forall k | 0 <= k < |d.slots| - 1 ensures t.nexts[d.slots[k]] == d.slots[k + 1] {
      assert d.slots[k] == c.slots[k + 1] && d.slots[k + 1] == c.slots[k + 1 + 1];
    }
  }

  lemma PopSlots<D>(n: nat, p: Pool<D>, j: nat, d: D)
    requires Lists(n, p) && j < |p.chains| && p.chains[j].slots != [] && p.chains[j].slots[0] < n
    ensures Slots(n, Popped(p, j, d))
  {
    var q, h := Popped(p, j, d), p.chains[j].slots[0];
    assert SlotOk(n, p, j, 0);
    forall i, k | 0 <= i < |q.chains| && 0 <= k < |q.chains[i].slots| ensures SlotOk(n, q, i, k) {
      var k' := if i == j then k + 1 else k;
      assert SlotOk(n, p, i, k');
    }
    forall a | 0 <= a < n && q.regs.valid[a] ensures Owned(q, a) {
      assert Owned(p, a);
      var o := p.owner[a];
      if o.chain == j {
        assert o.index != |p.chains[j].got|;
        assert q.chains[j].slots[o.index - |q.chains[j].got|] == p.chains[j].slots[o.index - |p.chains[j].got|];
      }
    }
  }

  // ----- the insert

  /** The slot `a`, free so far, becomes the tail of the list `j` (the number of lists: a new one). */
  ghost function Put<D>(p: Pool<D>, j: nat, a: nat, d: D, regs: Regs<D>): Pool<D>
    requires j <= |p.chains| && a < |p.owner|
  {
    var chain := if j < |p.chains| then p.chains[j] else Chain([], [], []);
    Pool(regs, if j < |p.chains| then p.chains[j := PutChain(chain, a, d)] else p.chains + [PutChain(chain, a, d)],
         p.owner[a := Owner(j, |chain.put|)])
  }

  /** The registers after an insert of `d` into `a` that writes the pointer of `addr`. */
  function Stored<D>(s: Regs<D>, a: nat, addr: nat, append: bool, d: D): Regs<D>
    requires a < |s.valid| == |s.last| == |s.values| == |s.nexts| && addr < |s.last|
  {
    s.(valid := s.valid[a := true], last := (if append then s.last[addr := false] else s.last)[a := true],
       values := s.values[a := d], nexts := s.nexts[addr := a])
  }

  lemma PutSlotOk<D>(n: nat, p: Pool<D>, j: nat, a: nat, d: D, regs: Regs<D>, i: nat, k: nat)
    requires Lists(n, p) && j <= |p.chains| && a < n && !p.regs.valid[a]
    requires Shape(n, regs) && regs.valid == p.regs.valid[a := true]
    requires i < |Put(p, j, a, d, regs).chains| && k < |Put(p, j, a, d, regs).chains[i].slots|
    ensures SlotOk(n, Put(p, j, a, d, regs), i, k)
  {
    if j < |p.chains| { assert Linked(n, p.regs, p.chains[j]); }
    if i < |p.chains| && k < |p.chains[i].slots| {
      assert SlotOk(n, p, i, k);
      assert Put(p, j, a, d, regs).chains[i].slots[k] == p.chains[i].slots[k];
    }
  }

  lemma PutOwned<D>(n: nat, p: Pool<D>, j: nat, a: nat, d: D, regs: Regs<D>, b: nat)
    requires Lists(n, p) && j <= |p.chains| && a < n && !p.regs.valid[a] && b < n
    requires p.regs.valid[b] || b == a
    ensures Owned(Put(p, j, a, d, regs), b)
  {
    var q := Put(p, j, a, d, regs);
    if j < |p.chains| { assert Linked(n, p.regs, p.chains[j]); }
    if b != a {
      assert Owned(p, b);
      var o := p.owner[b];
      assert q.chains[o.chain].slots[o.index - |p.chains[o.chain].got|] == b;
    }
  }

  lemma PutSlots<D>(n: nat, p: Pool<D>, j: nat, a: nat, d: D, regs: Regs<D>)
    requires Lists(n, p) && j <= |p.chains| && a < n && !p.regs.valid[a]
    requires Shape(n, regs) && regs.valid == p.regs.valid[a := true]
    ensures Slots(n, Put(p, j, a, d, regs))
  {
    var q := Put(p, j, a, d, regs);
    forall i, k | 0 <= i < |q.chains| && 0 <= k < |q.chains[i].slots| ensures SlotOk(n, q, i, k) {
      PutSlotOk(n, p, j, a, d, regs, i, k);
    }
    forall b | 0 <= b < n && q.regs.valid[b] ensures Owned(q, b) {
      PutOwned(n, p, j, a, d, regs, b);
    }
  }

  /** A list that the insert is not about keeps its links if its pointers are not written. */
  lemma OtherLinked<D>(n: nat, p: Pool<D>, i: nat, a: nat, addr: nat, append: bool, d: D)
    requires Lists(n, p) && i < |p.chains| && a < n && addr < n && !p.regs.valid[a]
    requires forall k :: 0 <= k < |p.chains[i].slots| - 1 ==> p.chains[i].slots[k] != addr
    requires append ==> forall k :: 0 <= k < |p.chains[i].slots| ==> p.chains[i].slots[k] != addr
    ensures Linked(n, Stored(p.regs, a, addr, append, d), p.chains[i])
  {
    var c := p.chains[i];
    assert Linked(n, p.regs, c);
    forall k | 0 <= k < |c.slots| ensures c.slots[k] != a {
      assert SlotOk(n, p, i, k);
    }
  }

  /** The list that is appended to gets a link from its old tail to the new one. */
  lemma AppendLinked<D>(n: nat, p: Pool<D>, i: nat, a: nat, d: D)
    requires Lists(n, p) && i < |p.chains| && a < n && !p.regs.valid[a] && p.chains[i].slots != []
    ensures var addr := p.chains[i].slots[|p.chains[i].slots| - 1];
      addr < n && Linked(n, Stored(p.regs, a, addr, true, d), PutChain(p.chains[i], a, d))
  {
    var c := p.chains[i];
    var m := |c.slots|;
    var addr := c.slots[m - 1];
    assert Linked(n, p.regs, c);
    forall k | 0 <= k < m ensures c.slots[k] != a && (k < m - 1 ==> c.slots[k] != addr) {
      assert SlotOk(n, p, i, k);
    }
    var t, e := Stored(p.regs, a, addr, true, d), PutChain(c, a, d);
    forall k | 0 <= k < |e.slots|
      ensures e.slots[k] < n && t.last[e.slots[k]] == (k == |e.slots| - 1) && t.values[e.slots[k]] == e.put[|e.got| + k]
    {
      if k < m { assert e.slots[k] == c.slots[k] && e.put[|e.got| + k] == c.put[|c.got| + k]; }
    }
    forall k | 0 <= k < |e.slots| - 1 ensures t.nexts[e.slots[k]] == e.slots[k + 1] {
      if k < m - 1 { assert e.slots[k] == c.slots[k] && e.slots[k + 1] == c.slots[k + 1]; }
    }
  }

  lemma AppendKeeps<D>(n: nat, p: Pool<D>, j: nat, a: nat, d: D)
    requires Lists(n, p) && j < |p.chains| && a < n && !p.regs.valid[a] && p.chains[j].slots != []
    ensures var addr := p.chains[j].slots[|p.chains[j].slots| - 1];
      addr < n && Lists(n, Put(p, j, a, d, Stored(p.regs, a, addr, true, d)))
  {
    AppendLinked(n, p, j, a, d);
    var m := |p.chains[j].slots| - 1;
    var addr := p.chains[j].slots[m];
    var q := Put(p, j, a, d, Stored(p.regs, a, addr, true, d));
    PutSlots(n, p, j, a, d, q.regs);
    forall i | 0 <= i < |q.chains| ensures Linked(n, q.regs, q.chains[i]) {
      if i != j {
        forall k | 0 <= k < |p.chains[i].slots| ensures p.chains[i].slots[k] != addr {
          if p.chains[i].slots[k] == addr { OnePlace(n, p, i, k, j, m); }
        }
        OtherLinked(n, p, i, a, addr, true, d);
      }
    }
  }

  /** A new list keeps the others exactly if its `addr` is not in the middle of one of them. */
  lemma NewListKeepsExactly<D>(n: nat, p: Pool<D>, a: nat, addr: nat, d: D)
    requires Lists(n, p) && a < n && addr < n && !p.regs.valid[a]
    ensures Lists(n, Put(p, |p.chains|, a, d, Stored(p.regs, a, addr, false, d))) <==> !Interior(p, addr)
  {
    var q := Put(p, |p.chains|, a, d, Stored(p.regs, a, addr, false, d));
    PutSlots(n, p, |p.chains|, a, d, q.regs);
    if Interior(p, addr) {
      var j, k :| 0 <= j < |p.chains| && 0 <= k < |p.chains[j].slots| - 1 && p.chains[j].slots[k] == addr;
      assert SlotOk(n, p, j, k + 1) && q.chains[j] == p.chains[j];
      assert q.regs.nexts[p.chains[j].slots[k]] == a != p.chains[j].slots[k + 1];
      assert !Linked(n, q.regs, q.chains[j]);
    } else {
      forall i | 0 <= i < |q.chains| ensures Linked(n, q.regs, q.chains[i]) {
        if i < |p.chains| { OtherLinked(n, p, i, a, addr, false, d); }
      }
    }
  }

  /** An append behind the sole item of a list in the clock that pops it: the list goes on with the new item. */
  lemma AppendToEmpty<D>(n: nat, p: Pool<D>, j: nat, a: nat, addr: nat, d: D)
    requires Lists(n, p) && j < |p.chains| && a < n && addr < n && a != addr && !p.regs.valid[a] && !p.regs.valid[addr]
    requires p.chains[j].slots == []
    ensures Lists(n, Put(p, j, a, d, Stored(p.regs, a, addr, true, d)))
  {
    var q := Put(p, j, a, d, Stored(p.regs, a, addr, true, d));
    PutSlots(n, p, j, a, d, q.regs);
    assert Linked(n, p.regs, p.chains[j]);
    forall i | 0 <= i < |q.chains| ensures Linked(n, q.regs, q.chains[i]) {
      if i != j {
        forall k | 0 <= k < |p.chains[i].slots| ensures p.chains[i].slots[k] != addr {
          assert SlotOk(n, p, i, k);
        }
        OtherLinked(n, p, i, a, addr, true, d);
      }
    }
  }

  /** The word on the pop port goes to the reader of the list. */
  ghost function AfterPop<D>(n: nat, p: Pool<D>, e: Event<D>): Pool<D>
    requires Lists(n, p) && Allowed(n, p, e)
  {
    if PopTaken(p.regs, e.i) then Popped(p, e.popFrom, p.regs.values[e.i.popAddr]) else p
  }

  /** A new list is inserted while `addr` names an item in the middle of a list: its pointer is overwritten. */
  ghost predicate CutsList<D>(n: nat, p: Pool<D>, e: Event<D>)
    requires Lists(n, p) && Allowed(n, p, e)
  {
    InsertTaken(p.regs, e.i) && !e.i.append && Interior(AfterPop(n, p, e), e.i.addr)
  }

  /** The pool after a clock: the pop, then the insert, on the lists; the registers as the component computes them. */
  ghost function Next<D>(n: nat, p: Pool<D>, e: Event<D>): Pool<D>
    requires Lists(n, p) && Allowed(n, p, e)
  {
    var mid, regs := AfterPop(n, p, e), Step(n, p.regs, e.i);
    if InsertTaken(p.regs, e.i) then
      PopKeepsCount(n, p, e);
      Put(mid, if e.i.append then e.appendTo else |p.chains|, p.regs.insertAddr, e.i.data, regs)
    else mid.(regs := regs)
  }

  lemma PopKeepsCount<D>(n: nat, p: Pool<D>, e: Event<D>)
    requires Lists(n, p) && Allowed(n, p, e)
    ensures Lists(n, AfterPop(n, p, e)) && |AfterPop(n, p, e).chains| == |p.chains|
  {
    if PopTaken(p.regs, e.i) { PopKeeps(n, p, e.popFrom, p.regs.values[e.i.popAddr]); }
  }

  /** The slot for the next insert does not matter to the lists. */
  lemma ListsIgnoreInsertAddr<D>(n: nat, p: Pool<D>, q: Pool<D>)
    requires Shape(n, p.regs) && Shape(n, q.regs)
    requires q == p.(regs := q.regs) && q.regs == p.regs.(insertAddr := q.regs.insertAddr)
    ensures Lists(n, p) <==> Lists(n, q)
  {
    if Lists(n, p) { ListsTransfer(n, p, q); }
    if Lists(n, q) { ListsTransfer(n, q, p); }
  }

  lemma ListsTransfer<D>(n: nat, p: Pool<D>, q: Pool<D>)
    requires Lists(n, p) && Shape(n, q.regs)
    requires q == p.(regs := q.regs) && q.regs == p.regs.(insertAddr := q.regs.insertAddr)
    ensures Lists(n, q)
  {
    forall j, k | 0 <= j < |q.chains| && 0 <= k < |q.chains[j].slots| ensures SlotOk(n, q, j, k) {
      assert SlotOk(n, p, j, k);
    }
    forall a | 0 <= a < n && q.regs.valid[a] ensures Owned(q, a) {
      assert Owned(p, a);
    }
    forall j | 0 <= j < |q.chains| ensures Linked(n, q.regs, q.chains[j]) {
      assert Linked(n, p.regs, p.chains[j]);
    }
  }

  lemma InsertKeepsExactly<D>(n: nat, p: Pool<D>, e: Event<D>)
    requires Inv(n, p) && Allowed(n, p, e) && InsertTaken(p.regs, e.i)
    ensures Lists(n, Next(n, p, e)) <==> !CutsList(n, p, e)
  {
    var mid, a := AfterPop(n, p, e), p.regs.insertAddr;
    PopKeepsCount(n, p, e);
    var j := if e.i.append then e.appendTo else |p.chains|;
    var q := Put(mid, j, a, e.i.data, Stored(mid.regs, a, e.i.addr, e.i.append, e.i.data));
    assert !mid.regs.valid[a];
    if !e.i.append {
      NewListKeepsExactly(n, mid, a, e.i.addr, e.i.data);
    } else if mid.chains[j].slots == [] {
      assert SlotOk(n, p, j, 0);
      AppendToEmpty(n, mid, j, a, e.i.addr, e.i.data);
    } else {
      TailStays(n, p, e);
      AppendKeeps(n, mid, j, a, e.i.data);
    }
    ListsIgnoreInsertAddr(n, q, Next(n, p, e));
  }

  lemma TailStays<D>(n: nat, p: Pool<D>, e: Event<D>)
    requires Lists(n, p) && Allowed(n, p, e) && InsertTaken(p.regs, e.i) && e.i.append
    ensures var c := AfterPop(n, p, e).chains[e.appendTo]; c.slots != [] ==> IsTail(c, e.i.addr)
  {
  }

  /**
   A clock with allowed pops and appends does to the lists what it should exactly if it does not cut one.
   Then the component is ready for the next clock.
   */
  lemma StepIsRightExactly<D>(n: nat, p: Pool<D>, e: Event<D>)
    requires Inv(n, p) && Allowed(n, p, e)
    ensures Inv(n, Next(n, p, e)) <==> !CutsList(n, p, e)
  {
    PopKeepsCount(n, p, e);
    if InsertTaken(p.regs, e.i) {
      InsertKeepsExactly(n, p, e);
    } else {
      ListsIgnoreInsertAddr(n, AfterPop(n, p, e), Next(n, p, e));
    }
    var v := Next(n, p, e).regs.valid;
    if false in v {
      var k :| 0 <= k < n && !v[k];
      assert !v[FirstFree(v, 0)];
    }
  }

  ghost predicate InList<D>(p: Pool<D>, a: nat) {
    exists j, k :: 0 <= j < |p.chains| && 0 <= k < |p.chains[j].slots| && p.chains[j].slots[k] == a
  }

  lemma ValidIsInList<D>(n: nat, p: Pool<D>, a: nat)
    requires Lists(n, p) && a < n
    ensures p.regs.valid[a] <==> InList(p, a)
  {
    if p.regs.valid[a] {
      assert Owned(p, a);
      var o := p.owner[a];
      assert p.chains[o.chain].slots[o.index - |p.chains[o.chain].got|] == a;
    }
    if j, k :| 0 <= j < |p.chains| && 0 <= k < |p.chains[j].slots| && p.chains[j].slots[k] == a {
      assert SlotOk(n, p, j, k);
    }
  }

  lemma HeadIsValid<D>(n: nat, p: Pool<D>, j: nat)
    requires Lists(n, p) && j < |p.chains| && p.chains[j].slots != []
    ensures PopVld(p.regs)
  {
    assert SlotOk(n, p, j, 0);
  }

  /** An insert is refused exactly if all slots are in lists, and a pop exactly if there is no item in any list. */
  lemma RefusedExactly<D>(n: nat, p: Pool<D>)
    requires Inv(n, p)
    ensures !InsertRd(p.regs) <==> forall a: nat :: a < n ==> InList(p, a)
    ensures !PopVld(p.regs) <==> forall j :: 0 <= j < |p.chains| ==> p.chains[j].slots == []
  {
    forall a: nat | a < n ensures p.regs.valid[a] <==> InList(p, a) { ValidIsInList(n, p, a); }
    if !PopVld(p.regs) {
      forall j | 0 <= j < |p.chains| ensures p.chains[j].slots == [] {
        if p.chains[j].slots != [] { HeadIsValid(n, p, j); }
      }
    } else {
      var a :| 0 <= a < n && p.regs.valid[a];
      assert InList(p, a);
    }
    if InsertRd(p.regs) {
      var a :| 0 <= a < n && !p.regs.valid[a];
      assert !InList(p, a);
    }
  }

  /** After a clock in which the pop port has handed out a word its slot is free. */
  lemma PoppedIsFree<D>(n: nat, p: Pool<D>, e: Event<D>)
    requires Inv(n, p) && Allowed(n, p, e) && PopTaken(p.regs, e.i) && !CutsList(n, p, e)
    ensures !Next(n, p, e).regs.valid[e.i.popAddr] && !InList(Next(n, p, e), e.i.popAddr)
  {
    assert SlotOk(n, p, e.popFrom, 0);
    StepIsRightExactly(n, p, e);
    ValidIsInList(n, Next(n, p, e), e.i.popAddr);
  }

  /** What the pop port shows: the oldest word of the list, whether it is the only one, and the next head. */
  lemma PopShowsHead<D>(n: nat, p: Pool<D>, e: Event<D>)
    requires Inv(n, p) && Allowed(n, p, e) && PopTaken(p.regs, e.i)
    ensures var c, a := p.chains[e.popFrom], e.i.popAddr;
      && |c.got| < |c.put| && p.regs.values[a] == c.put[|c.got|]
      && ((p.regs.last[a] && p.regs.valid[a]) <==> |c.slots| == 1)
      && (|c.slots| > 1 ==> p.regs.nexts[a] == c.slots[1])
  {
    assert SlotOk(n, p, e.popFrom, 0) && Linked(n, p.regs, p.chains[e.popFrom]);
  }

  // ----- runs

  ghost function Empty<D>(n: nat, values: seq<D>, nexts: seq<nat>): Pool<D>
    requires |values| == |nexts| == n
  {
    Pool(Regs(seq(n, _ => false), seq(n, _ => false), 0, values, nexts), [], seq(n, _ => Owner(0, 0)))
  }

  /** A run in which every clock is allowed and cuts no list, and where it ends. */
  ghost predicate Reaches<D>(n: nat, p: Pool<D>, es: seq<Event<D>>, q: Pool<D>)
    decreases |es|
  {
    if es == [] then p == q
    else Inv(n, p) && Allowed(n, p, es[0]) && !CutsList(n, p, es[0]) && Reaches(n, Next(n, p, es[0]), es[1..], q)
  }

  lemma {:induction false} RunKeepsInv<D>(n: nat, p: Pool<D>, es: seq<Event<D>>, q: Pool<D>)
    requires Inv(n, p) && Reaches(n, p, es, q)
    ensures Inv(n, q)
    decreases |es|
  {
    if es != [] {
      StepIsRightExactly(n, p, es[0]);
      RunKeepsInv(n, Next(n, p, es[0]), es[1..], q);
    }
  }

  // ----- an example of a list that is cut

  function NewList<D>(data: D): Event<D> {
    Event(Inputs(true, false, 0, data, false, 0), 0, 0)
  }

  /** An append behind slot 0, the tail of the first list. */
  function AppendToFirst<D>(data: D): Event<D> {
    Event(Inputs(true, true, 0, data, false, 0), 0, 0)
  }

  /** A clock that inserts and does not pop. */
  lemma InsertOnly<D>(p: Pool<D>, e: Event<D>, j: nat)
    requires Inv(4, p) && Allowed(4, p, e) && InsertTaken(p.regs, e.i) && !e.i.popRdy && !CutsList(4, p, e)
    requires j == if e.i.append then e.appendTo else |p.chains|
    ensures var q := Next(4, p, e);
      && Inv(4, q) && q.chains == Put(p, j, p.regs.insertAddr, e.i.data, q.regs).chains
      && q.regs.valid == p.regs.valid[p.regs.insertAddr := true] && q.regs.insertAddr == FirstFree(q.regs.valid, 0)
  {
    StepIsRightExactly(4, p, e);
  }

  lemma FirstFreeOfFour()
    ensures FirstFree([true, false, false, false], 0) == 1 && FirstFree([true, true, false, false], 0) == 2
  {
  }

  lemma NoneTaken<D>(values: seq<D>, nexts: seq<nat>)
    requires |values| == |nexts| == 4
    ensures Inv(4, Empty(4, values, nexts)) && Empty(4, values, nexts).regs.valid == [false, false, false, false]
  {
    assert seq(4, _ => false) == [false, false, false, false];
  }

  lemma OneSlot<D>(p: Pool<D>, a: D)
    requires Inv(4, p) && p.chains == [] && p.regs.valid == [false, false, false, false] && p.regs.insertAddr == 0
    ensures var e := NewList(a);
      && Allowed(4, p, e) && !CutsList(4, p, e) && Inv(4, Next(4, p, e))
      && var q := Next(4, p, e);
         && q.chains == [Chain([0], [a], [])] && q.regs.valid == [true, false, false, false] && q.regs.insertAddr == 1
  {
    assert !p.regs.valid[0];
    NoListIsCut(p, NewList(a));
    InsertOnly(p, NewList(a), 0);
    FirstChain(p, a, Next(4, p, NewList(a)).regs);
    assert p.regs.valid[0 := true] == [true, false, false, false];
    FirstFreeOfFour();
  }

  lemma FirstChain<D>(p: Pool<D>, a: D, regs: Regs<D>)
    requires p.chains == [] && |p.owner| == 4
    ensures Put(p, 0, 0, a, regs).chains == [Chain([0], [a], [])]
  {
    assert [] + [0] == [0] && [] + [a] == [a];
    assert [] + [Chain([0], [a], [])] == [Chain([0], [a], [])];
  }

  lemma NoListIsCut<D>(p: Pool<D>, e: Event<D>)
    requires Lists(4, p) && Allowed(4, p, e) && p.chains == [] && !e.i.popRdy
    ensures !CutsList(4, p, e)
  {
  }

  lemma TwoSlots<D>(p: Pool<D>, a: D, b: D)
    requires Inv(4, p) && p.chains == [Chain([0], [a], [])] && p.regs.valid == [true, false, false, false]
    requires p.regs.insertAddr == 1
    ensures var e := AppendToFirst(b);
      && Allowed(4, p, e) && !CutsList(4, p, e) && Inv(4, Next(4, p, e))
      && var q := Next(4, p, e);
         && q.chains == [Chain([0, 1], [a, b], [])] && q.regs.valid == [true, true, false, false]
         && q.regs.insertAddr == 2
  {
    assert !p.regs.valid[1];
    InsertOnly(p, AppendToFirst(b), 0);
    assert [0] + [1] == [0, 1] && [a] + [b] == [a, b];
    assert PutChain(p.chains[0], 1, b) == Chain([0, 1], [a, b], []);
    assert p.regs.valid[1 := true] == [true, true, false, false];
    FirstFreeOfFour();
  }

  lemma CutByThird<D>(p: Pool<D>, a: D, b: D, d: D)
    requires Inv(4, p) && p.chains == [Chain([0, 1], [a, b], [])] && p.regs.valid == [true, true, false, false]
    requires p.regs.insertAddr == 2
    ensures Allowed(4, p, NewList(d)) && CutsList(4, p, NewList(d)) && Next(4, p, NewList(d)).regs.nexts[0] == 2
  {
    assert !p.regs.valid[2] && p.chains[0].slots[0] == 0;
    assert Interior(p, 0);
  }

  lemma TwoClocks<D>(n: nat, p: Pool<D>, e: Event<D>, f: Event<D>)
    requires Inv(n, p) && Allowed(n, p, e) && !CutsList(n, p, e)
    requires Inv(n, Next(n, p, e)) && Allowed(n, Next(n, p, e), f) && !CutsList(n, Next(n, p, e), f)
    ensures Reaches(n, p, [e, f], Next(n, Next(n, p, e), f))
  {
    var q := Next(n, p, e);
    assert [e, f][1..] == [f] && [f][1..] == [];
    assert Reaches(n, Next(n, q, f), [], Next(n, q, f)) && Reaches(n, q, [f], Next(n, q, f));
  }

  /**
   A run from the empty pool of four slots: a list of two items, and a second list that is inserted with `addr` left
   at 0. The first item of the first list then points to the second list.
   */
  lemma CutHappens<D>(values: seq<D>, nexts: seq<nat>, a: D, b: D, d: D)
    requires |values| == |nexts| == 4
    ensures exists q: Pool<D> ::
      && Reaches(4, Empty(4, values, nexts), [NewList(a), AppendToFirst(b)], q) && Inv(4, q)
      && q.chains == [Chain([0, 1], [a, b], [])]
      && Allowed(4, q, NewList(d)) && CutsList(4, q, NewList(d)) && Next(4, q, NewList(d)).regs.nexts[0] == 2
  {
    var p := Empty(4, values, nexts);
    NoneTaken(values, nexts);
    OneSlot(p, a);
    var p1 := Next(4, p, NewList(a));
    TwoSlots(p1, a, b);
    var p2 := Next(4, p1, AppendToFirst(b));
    CutByThird(p2, a, b, d);
    TwoClocks(4, p, NewList(a), AppendToFirst(b));
  }

  // ----- what a user sees

  /** No slot is in two lists, or twice in one. */
  ghost predicate Disjoint<D>(chains: seq<Chain<D>>) {
    forall j, k, j', k' | 0 <= j < |chains| && 0 <= k < |chains[j].slots|
      && 0 <= j' < |chains| && 0 <= k' < |chains[j'].slots| ::
      chains[j].slots[k] == chains[j'].slots[k'] ==> j == j' && k == k'
  }

  /**
   From the empty pool, under any such mix of inserts, appends and pops: no slot is in two lists, and of every
   list the words popped are the first words put into it, the rest being in its slots in order.
   */
  lemma ListsAreFifos<D>(n: nat, values: seq<D>, nexts: seq<nat>, es: seq<Event<D>>, q: Pool<D>)
    requires 1 < n == |values| == |nexts| && Reaches(n, Empty(n, values, nexts), es, q)
    ensures Inv(n, q)
    ensures Disjoint(q.chains)
    ensures forall j :: 0 <= j < |q.chains| ==>
      q.chains[j].put == q.chains[j].got + Words(n, q, j)
  {
    RunKeepsInv(n, Empty(n, values, nexts), es, q);
    ListsAreDisjoint(n, q);
    forall j | 0 <= j < |q.chains| ensures q.chains[j].put == q.chains[j].got + Words(n, q, j) {
      WordsAreTheRest(n, q, j);
    }
  }

  lemma ListsAreDisjoint<D>(n: nat, q: Pool<D>)
    requires Inv(n, q)
    ensures Disjoint(q.chains)
  {
    forall j, k, j', k' | 0 <= j < |q.chains| && 0 <= k < |q.chains[j].slots| && 0 <= j' < |q.chains|
      && 0 <= k' < |q.chains[j'].slots| && q.chains[j].slots[k] == q.chains[j'].slots[k']
      ensures j == j' && k == k'
    {
      OnePlace(n, q, j, k, j', k');
    }
  }

  /** The words in the slots of a list, from head to tail. */
  ghost function Words<D>(n: nat, p: Pool<D>, j: nat): seq<D>
    requires Inv(n, p) && j < |p.chains|
  {
    assert Linked(n, p.regs, p.chains[j]);
    seq(|p.chains[j].slots|, k requires 0 <= k < |p.chains[j].slots| => p.regs.values[p.chains[j].slots[k]])
  }

  lemma WordsAreTheRest<D>(n: nat, q: Pool<D>, j: nat)
    requires Inv(n, q) && j < |q.chains|
    ensures q.chains[j].put == q.chains[j].got + Words(n, q, j)
  {
    var c := q.chains[j];
    assert Linked(n, q.regs, c);
    assert c.put == c.put[..|c.got|] + c.put[|c.got|..];
    assert Words(n, q, j) == c.put[|c.got|..];
  }

  class Component<D> {
    const n: nat
    var itemValid: seq<bool>
    var itemLast: seq<bool>
    var insertAddrNext: nat
    const values: array<D>
    const nextPtrs: array<nat>

    ghost function State(): Regs<D>
      reads this, values, nextPtrs
    {
      Regs(itemValid, itemLast, insertAddrNext, values[..], nextPtrs[..])
    }

    constructor (n: nat, values: array<D>, nextPtrs: array<nat>)
      requires 1 < n == values.Length == nextPtrs.Length && values as object != nextPtrs
      ensures this.n == n && this.values == values && this.nextPtrs == nextPtrs
      ensures State() == Empty(n, values[..], nextPtrs[..]).regs
    {
      this.n, this.values, this.nextPtrs := n, values, nextPtrs;
      itemValid, itemLast, insertAddrNext := seq(n, _ => false), seq(n, _ => false), 0;
    }

    /** One clock edge; the results are what the two ports show before it. */
    method Clk(i: Inputs<D>) returns (insertRd: bool, addrRet: nat, popVld: bool, data: D, last: bool, addrNext: nat)
      requires Shape(n, State()) && i.addr < n && i.popAddr < n && values as object != nextPtrs
      modifies this, values, nextPtrs
      ensures insertRd == (false in old(itemValid)) && addrRet == old(insertAddrNext)
      ensures popVld == (true in old(itemValid)) && data == old(values[i.popAddr])
              && addrNext == old(nextPtrs[i.popAddr])
      ensures last == old(itemLast[i.popAddr] && itemValid[i.popAddr])
      ensures State() == Step(n, old(State()), i)
    {
      insertRd, addrRet := false in itemValid, insertAddrNext;
      popVld, data, addrNext := true in itemValid, values[i.popAddr], nextPtrs[i.popAddr];
      last := itemLast[i.popAddr] && itemValid[i.popAddr];
      if popVld && i.popRdy {
        itemValid := itemValid[i.popAddr := false];
      }
      if i.insertVld && insertRd {
        if i.append { itemLast := itemLast[i.addr := false]; }
        itemValid, itemLast := itemValid[addrRet := true], itemLast[addrRet := true];
        nextPtrs[i.addr] := addrRet;
        values[addrRet] := i.data;
      }
      assert values[..] == if i.insertVld && insertRd then old(values[..])[addrRet := i.data] else old(values[..]);
      assert nextPtrs[..]
             == if i.insertVld && insertRd then old(nextPtrs[..])[i.addr := addrRet] else old(nextPtrs[..]);
      var a := 0;
      while a < n - 1 && itemValid[a]
        invariant a < n && FirstFree(itemValid, 0) == FirstFree(itemValid, a)
      {
        a := a + 1;
      }
      insertAddrNext := a;
    }
  }
}
