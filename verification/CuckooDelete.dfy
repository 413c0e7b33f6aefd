/** A run of the cuckoo hash table in which a delete destroys the item of another key. */
module CuckooDelete {
  import opened CuckooTables
  import opened CuckooHashTable

  function Parity(table: nat, k: Key): nat {
    k % 2
  }

  /** One table with two cells; odd keys go to the second one. */
  function Small(): (c: Config)
    ensures ValidConfig(c)
  {
    Config(1, 2, Parity, 1, 2)
  }

  /** No command, and everybody is ready. */
  function Wait(x: Stash): Inputs {
    Inputs(false, false, 0, false, 0, 0, false, 0, true, true, true, true, x)
  }

  function InsertCmd(x: Stash): Inputs {
    Wait(x).(insertVld := true, insertKey := 5, insertData := 7)
  }

  function DeleteCmd(x: Stash): Inputs {
    Wait(x).(deleteVld := true, deleteKey := 3)
  }

  lemma StepsNext(c: Config, r: Run, ins: seq<Inputs>, i: Inputs)
    requires RegsShape(c, r.regs)
    ensures Steps(c, r, ins + [i]) == RunStep(c, Steps(c, r, ins), i)
  {
    assert (ins + [i])[..|ins|] == ins;
  }

  // ----- the states of the run; `cell` is the second cell of the table

  /** What does not change in the whole run. */
  ghost predicate Quiet(r: Run, cell: Item) {
    && RegsShape(Small(), r.regs) && r.regs.tabs[0][1] == cell && r.regs.lookupInProgress == 0 && r.asked == []
  }

  /** Between commands. */
  ghost predicate Resting(r: Run, cell: Item, m: map<Key, Data>, lost: set<Key>) {
    && Quiet(r, cell) && r.regs.state == Idle && r.regs.pipe == [] && r.regs.stash.origin != LookupOp
    && r.model == m && r.lost == lost
  }

  lemma CleanFirst(r: Run, x: Stash)
    requires CleanTakenAt(Small(), r)
    ensures var t := RunStep(Small(), r, Wait(x));
      && RegsShape(Small(), t.regs) && t.regs.state == Cleaning && t.regs.cleanAddr == 1 && t.regs.stash == r.regs.stash
      && t.regs.lookupInProgress == 0 && t.regs.pipe == [] && t.model == map[] && t.asked == [] && t.lost == {}
  {
  }

  lemma CleanSecond(r: Run, x: Stash)
    requires RegsShape(Small(), r.regs) && r.regs.state == Cleaning && r.regs.cleanAddr == 1
    requires !r.regs.stash.itemVld && r.regs.stash.origin == Delete
    requires r.regs.lookupInProgress == 0 && r.regs.pipe == [] && r.model == map[] && r.asked == [] && r.lost == {}
    ensures Resting(RunStep(Small(), r, Wait(x)), Item(r.regs.stash.key, r.regs.stash.data, false), map[], {})
  {
  }

  /** The table is being looked up for a command. */
  ghost predicate Looking(r: Run, cell: Item, stash: Stash, m: map<Key, Data>) {
    && Quiet(r, cell) && r.regs.state == Lookup && r.regs.pipe == [] && r.regs.stash == stash
    && r.model == m && r.lost == {}
  }

  /** The table has answered. */
  ghost predicate Answered(r: Run, state: FsmState, cell: Item, stash: Stash, m: map<Key, Data>) {
    && Quiet(r, cell) && r.regs.state == state && r.regs.pipe == [Entry(stash.key, [cell])] && r.regs.stash == stash
    && r.model == m && r.lost == {}
  }

  lemma TakeInsert(r: Run, x: Stash, cell: Item)
    requires Resting(r, cell, map[], {})
    ensures Looking(RunStep(Small(), r, InsertCmd(x)), cell, Stash(5, 7, 1, true, Insert), map[5 := 7])
  {
  }

  /** The stash register of the delete. */
  predicate ForDelete(stash: Stash) {
    stash.key == 3 && stash.origin == Delete && !stash.itemVld
  }

  ghost predicate Deleting(r: Run, m: map<Key, Data>) {
    ForDelete(r.regs.stash) && Looking(r, Item(5, 7, true), r.regs.stash, m)
  }

  lemma TakeDelete(r: Run, x: Stash)
    requires Resting(r, Item(5, 7, true), map[5 := 7], {})
    ensures Deleting(RunStep(Small(), r, DeleteCmd(x)), map[5 := 7])
  {
    assert map[5 := 7] - {3} == map[5 := 7];
  }

  lemma AskTable(r: Run, x: Stash, cell: Item, stash: Stash, m: map<Key, Data>)
    requires Looking(r, cell, stash, m) && stash.key % 2 == 1
    requires stash.origin == Delete || (stash.origin == Insert && stash.reinsertCntr > 0)
    ensures Answered(RunStep(Small(), r, Wait(x)), LookupResWaitRd, cell, stash, m)
  {
    assert ReadTables(Small(), r.regs.tabs, stash.key).items == [cell];
  }

  /** The free cell is the target of the insert. */
  lemma ResolveFree(r: Run, x: Stash, cell: Item, stash: Stash, m: map<Key, Data>)
    requires Answered(r, LookupResWaitRd, cell, stash, m) && !cell.vld
    ensures var t := RunStep(Small(), r, Wait(x));
      Answered(t, LookupResAck, cell, stash, m) && t.regs.final && t.regs.targetOH == [true]
  {
    var e := r.regs.pipe[0];
    assert FoundOH(e) == [false] && EmptyOH(e) == [true];
    assert OneHot(0, 1) == [true];
  }

  /** No cell is free, and the only table is the target in turn. */
  lemma ResolveTaken(r: Run, x: Stash, cell: Item, stash: Stash, m: map<Key, Data>)
    requires Answered(r, LookupResWaitRd, cell, stash, m) && cell.vld && cell.key != stash.key && |r.regs.targetOH| == 1
    ensures var t := RunStep(Small(), r, Wait(x));
      Answered(t, LookupResAck, cell, stash, m) && !t.regs.final && t.regs.targetOH == [true]
  {
    var e := r.regs.pipe[0];
    assert FoundOH(e) == [false] && EmptyOH(e) == [false];
    assert r.regs.targetOH == [r.regs.targetOH[0]];
    assert RotateRight([true]) == [true] && OneHot(0, 1) == [true];
  }

  lemma StoreInsert(r: Run, x: Stash, cell: Item, m: map<Key, Data>)
    requires Answered(r, LookupResAck, cell, Stash(5, 7, 1, true, Insert), m)
    requires r.regs.final && r.regs.targetOH == [true]
    ensures Resting(RunStep(Small(), r, Wait(x)), Item(5, 7, true), m, {})
  {
    assert First([true], 0) == 0;
  }

  /** The delete writes its invalid item over the other one. */
  lemma ClearOther(r: Run, x: Stash, stash: Stash)
    requires Answered(r, LookupResAck, Item(5, 7, true), stash, map[5 := 7])
    requires !r.regs.final && r.regs.targetOH == [true]
    requires ForDelete(stash)
    ensures Resting(RunStep(Small(), r, Wait(x)), Item(3, stash.data, false), map[], {5})
  {
    assert First([true], 0) == 0;
    assert map[5 := 7] - {5} == map[];
  }

  // ----- the run, command by command

  /** The run `ins` of the small table from the state `r`. */
  ghost function After(r: Run, ins: seq<Inputs>): (t: Run)
    requires RegsShape(Small(), r.regs)
    ensures RegsShape(Small(), t.regs)
  {
    Steps(Small(), r, ins)
  }

  lemma Cleaned(r: Run, x: Stash)
    requires CleanTakenAt(Small(), r)
    ensures exists cell: Item :: !cell.vld && Resting(After(r, [Wait(x)] + [Wait(x)]), cell, map[], {})
  {
    var w := Wait(x);
    StepsNext(Small(), r, [], w);
    assert [] + [w] == [w];
    StepsNext(Small(), r, [w], w);
    var a := RunStep(Small(), r, w);
    CleanFirst(r, x);
    CleanSecond(a, x);
    assert Resting(After(r, [w] + [w]), Item(a.regs.stash.key, a.regs.stash.data, false), map[], {});
  }

  lemma InsertTaken5(r: Run, ins: seq<Inputs>, x: Stash, cell: Item)
    requires RegsShape(Small(), r.regs) && Resting(After(r, ins), cell, map[], {})
    ensures Looking(After(r, ins + [InsertCmd(x)]), cell, Stash(5, 7, 1, true, Insert), map[5 := 7])
  {
    StepsNext(Small(), r, ins, InsertCmd(x));
    TakeInsert(After(r, ins), x, cell);
  }

  lemma DeleteTaken3(r: Run, ins: seq<Inputs>, x: Stash)
    requires RegsShape(Small(), r.regs) && Resting(After(r, ins), Item(5, 7, true), map[5 := 7], {})
    ensures Deleting(After(r, ins + [DeleteCmd(x)]), map[5 := 7])
  {
    StepsNext(Small(), r, ins, DeleteCmd(x));
    TakeDelete(After(r, ins), x);
  }

  lemma Asked(r: Run, ins: seq<Inputs>, x: Stash, cell: Item, stash: Stash, m: map<Key, Data>)
    requires RegsShape(Small(), r.regs) && Looking(After(r, ins), cell, stash, m) && stash.key % 2 == 1
    requires stash.origin == Delete || (stash.origin == Insert && stash.reinsertCntr > 0)
    ensures Answered(After(r, ins + [Wait(x)]), LookupResWaitRd, cell, stash, m)
  {
    StepsNext(Small(), r, ins, Wait(x));
    AskTable(After(r, ins), x, cell, stash, m);
  }

  lemma InsertDone(r: Run, ins: seq<Inputs>, x: Stash, cell: Item)
    requires RegsShape(Small(), r.regs) && !cell.vld
    requires Answered(After(r, ins), LookupResWaitRd, cell, Stash(5, 7, 1, true, Insert), map[5 := 7])
    ensures Resting(After(r, ins + [Wait(x)] + [Wait(x)]), Item(5, 7, true), map[5 := 7], {})
  {
    StepsNext(Small(), r, ins, Wait(x));
    ResolveFree(After(r, ins), x, cell, Stash(5, 7, 1, true, Insert), map[5 := 7]);
    StepsNext(Small(), r, ins + [Wait(x)], Wait(x));
    StoreInsert(After(r, ins + [Wait(x)]), x, cell, map[5 := 7]);
  }

  lemma DeleteDone(r: Run, ins: seq<Inputs>, x: Stash, stash: Stash)
    requires RegsShape(Small(), r.regs) && ForDelete(stash)
    requires Answered(After(r, ins), LookupResWaitRd, Item(5, 7, true), stash, map[5 := 7])
    ensures Resting(After(r, ins + [Wait(x)] + [Wait(x)]), Item(3, stash.data, false), map[], {5})
  {
    StepsNext(Small(), r, ins, Wait(x));
    ResolveTaken(After(r, ins), x, Item(5, 7, true), stash, map[5 := 7]);
    StepsNext(Small(), r, ins + [Wait(x)], Wait(x));
    ClearOther(After(r, ins + [Wait(x)]), x, stash);
  }

  /**
   After a clean the key 5 is inserted, and then the key 3, which was never inserted, is deleted: the table is empty,
   and the key 5 is gone, although no command named it since.
   */
  lemma DeleteCanDestroy(r: Run, x: Stash)
    requires CleanTakenAt(Small(), r)
    ensures var w := [Wait(x)];
      var before := w + w + [InsertCmd(x)] + w + w + w;
      var all := before + [DeleteCmd(x)] + w + w + w;
      && After(r, before).regs.state == Idle && After(r, before).model == map[5 := 7] && After(r, before).lost == {}
      && After(r, all).regs.state == Idle && After(r, all).model == map[] && After(r, all).lost == {5}
      && !After(r, all).regs.tabs[0][1].vld
  {
    var w := [Wait(x)];
    var clean := w + w;
    Cleaned(r, x);
    var cell: Item :| !cell.vld && Resting(After(r, clean), cell, map[], {});
    InsertTaken5(r, clean, x, cell);
    Asked(r, clean + [InsertCmd(x)], x, cell, Stash(5, 7, 1, true, Insert), map[5 := 7]);
    InsertDone(r, clean + [InsertCmd(x)] + w, x, cell);
    var before := clean + [InsertCmd(x)] + w + w + w;
    DeleteTaken3(r, before, x);
    var st := After(r, before + [DeleteCmd(x)]).regs.stash;
    Asked(r, before + [DeleteCmd(x)], x, Item(5, 7, true), st, map[5 := 7]);
    DeleteDone(r, before + [DeleteCmd(x)] + w, x, st);
  }
}
