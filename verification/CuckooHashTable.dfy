/**
 The cuckoo hash table: a state machine around tables that are looked up in a pipeline, with a
 stash register through which items are swapped.
 */
module CuckooHashTable {
  import Arithmetic
  import opened CuckooTables
  import opened Wrappers

  datatype FsmState = Idle | Cleaning | Lookup | LookupResWaitRd | LookupResAck

  datatype Origin = Insert | LookupOp | Delete

  datatype Stash = Stash(key: Key, data: Data, reinsertCntr: nat, itemVld: bool, origin: Origin)

  /** A lookup inside the tables: the key, and what was read for it from every table. */
  datatype Entry = Entry(key: Key, items: seq<Item>)

  /** The registers, the tables and their lookup pipeline. */
  datatype Regs = Regs(state: FsmState, stash: Stash, targetOH: seq<bool>, final: bool, cleanAddr: nat,
                       lookupInProgress: nat, tabs: Tables, pipe: seq<Entry>)

  /**
   The inputs of a clock: the valid signals of the four command ports with their data, the ready
   signals of the two result ports, whether the tables take a lookup (`tabRd`) and whether the
   result of the oldest one is out (`resVld`). `x` are the values of everything that the source
   leaves undefined.
   */
  datatype Inputs = Inputs(cleanVld: bool, deleteVld: bool, deleteKey: Key, insertVld: bool, insertKey: Key,
                           insertData: Data, lookupVld: bool, lookupKey: Key,
                           insertResRd: bool, lookupResRd: bool, tabRd: bool, resVld: bool, x: Stash)

  /** What appears on the two result ports. */
  datatype InsertRes = InsertRes(vld: bool, key: Key, data: Data, pop: bool)
  datatype LookupRes = LookupRes(vld: bool, found: bool, item: Item)

  // ----- the signals of one clock

  predicate LookupNotInProgress(s: Regs) {
    s.lookupInProgress == 0 && s.stash.origin != LookupOp
  }

  predicate CleanTaken(s: Regs, i: Inputs) {
    s.state == Idle && LookupNotInProgress(s) && i.cleanVld
  }

  predicate DeleteTaken(s: Regs, i: Inputs) {
    s.state == Idle && LookupNotInProgress(s) && !i.cleanVld && i.deleteVld
  }

  predicate InsertTaken(s: Regs, i: Inputs) {
    s.state == Idle && LookupNotInProgress(s) && !i.cleanVld && !i.deleteVld && i.insertVld
  }

  predicate LookupTaken(c: Config, s: Regs, i: Inputs) {
    && s.state == Idle && !i.cleanVld && !i.deleteVld && !i.insertVld && i.lookupVld
    && (s.stash.origin != LookupOp || i.tabRd) && s.lookupInProgress != c.maxOverlap - 1
  }

  /** The stash key enters the tables: `lookup_en` and all tables ready. */
  predicate TablesLookUp(s: Regs, i: Inputs) {
    && i.tabRd
    && ((s.state == Lookup && (s.stash.reinsertCntr != 0 || s.stash.origin == Delete))
        || (s.state == Idle && s.stash.origin == LookupOp))
  }

  /** The result of the oldest lookup is out. */
  predicate ResVld(s: Regs, i: Inputs) {
    i.resVld && s.pipe != []
  }

  function NextState(s: Regs, i: Inputs, cleanLast: bool): FsmState {
    var isInsert := s.stash.origin == Insert;
    match s.state
    case Idle =>
      if LookupNotInProgress(s) && i.cleanVld then Cleaning
      else if LookupNotInProgress(s) && (i.insertVld || i.deleteVld) then Lookup
      else Idle
    case Cleaning => if cleanLast then Idle else Cleaning
    case Lookup =>
      if s.stash.reinsertCntr == 0 && isInsert && i.insertResRd then Idle
      else if (s.stash.reinsertCntr != 0 || !isInsert) && i.tabRd then LookupResWaitRd
      else Lookup
    case LookupResWaitRd => if ResVld(s, i) then LookupResAck else LookupResWaitRd
    case LookupResAck =>
      if s.stash.origin == Delete then Idle
      else if s.final && i.insertResRd then Idle
      else if !s.final then Lookup
      else LookupResAck
  }

  function InsertResult(s: Regs): InsertRes {
    InsertRes((s.state == Lookup && s.stash.origin == Insert && s.stash.reinsertCntr == 0)
              || (s.state == LookupResAck && s.final && s.stash.origin != Delete),
              s.stash.key, s.stash.data, s.stash.reinsertCntr == 0)
  }

  /** The first index from `i` on whose bit is set; the length if there is none. */
  function First(bits: seq<bool>, i: nat): (f: nat)
    requires i <= |bits|
    ensures i <= f <= |bits|
    ensures f < |bits| ==> bits[f]
    ensures forall j :: i <= j < f ==> !bits[j]
    decreases |bits| - i
  {
    if i == |bits| || bits[i] then i else First(bits, i + 1)
  }

  function OneHot(t: nat, n: nat): (oh: seq<bool>)
    ensures |oh| == n
  {
    seq(n, i => i == t)
  }

  /** `ror(_, 1)` */
  function RotateRight(oh: seq<bool>): (r: seq<bool>)
    requires oh != []
    ensures |r| == |oh|
  {
    oh[1..] + [oh[0]]
  }

  function FoundOH(e: Entry): (oh: seq<bool>)
    ensures |oh| == |e.items|
  {
    seq(|e.items|, i requires 0 <= i < |e.items| => e.items[i].vld && e.items[i].key == e.key)
  }

  function EmptyOH(e: Entry): (oh: seq<bool>)
    ensures |oh| == |e.items|
  {
    seq(|e.items|, i requires 0 <= i < |e.items| => !e.items[i].vld)
  }

  function LookupResult(s: Regs, i: Inputs): LookupRes
    requires s.pipe != [] ==> s.pipe[0].items != []
  {
    var vld := s.state == Idle && ResVld(s, i);
    if s.pipe == [] then LookupRes(vld, false, Item(0, 0, false))
    else
      var f := First(FoundOH(s.pipe[0]), 0);
      if f < |s.pipe[0].items| then LookupRes(vld, true, s.pipe[0].items[f])
      else LookupRes(vld, false, s.pipe[0].items[0])
  }

  /** Which table the item goes to: where it was found, else the first free one, else round robin. */
  function NextTarget(targetOH: seq<bool>, e: Entry): (oh: seq<bool>)
    requires |targetOH| == |e.items| > 0
    ensures |oh| == |targetOH|
  {
    var n := |targetOH|;
    if true in FoundOH(e) then FoundOH(e)
    else if true in EmptyOH(e) then OneHot(First(EmptyOH(e), 0), n)
    else if true in targetOH then RotateRight(targetOH)
    else OneHot(n - 1, n)
  }

  ghost predicate RegsShape(c: Config, s: Regs) {
    && Shape(c, s.tabs) && |s.targetOH| == c.tableCnt && s.cleanAddr < c.items
    && (forall j :: 0 <= j < |s.pipe| ==> |s.pipe[j].items| == c.tableCnt)
    && (s.state == LookupResAck ==> s.pipe != [])
  }

  /** `stash_load` */
  function NextStash(c: Config, s: Regs, i: Inputs): Stash
    requires RegsShape(c, s)
  {
    if s.state == Idle then
      if LookupNotInProgress(s) && i.cleanVld then s.stash.(origin := Delete, itemVld := false)
      else if LookupNotInProgress(s) && i.deleteVld then
        s.stash.(origin := Delete, key := i.deleteKey, itemVld := false)
      else if LookupNotInProgress(s) && i.insertVld then Stash(i.insertKey, i.insertData, c.maxReinsert, true, Insert)
      else if LookupTaken(c, s, i) then s.stash.(origin := LookupOp, key := i.lookupKey)
      else if i.tabRd then s.stash.(origin := Delete, key := i.x.key)
      else s.stash
    else if s.state == LookupResAck && NextState(s, i, false) != LookupResAck then
      var t := First(s.targetOH, 0);
      if t < c.tableCnt then
        var item := s.pipe[0].items[t];
        Stash(item.key, item.data, if s.stash.reinsertCntr == 0 then i.x.reinsertCntr else s.stash.reinsertCntr - 1,
              item.vld, s.stash.origin)
      else i.x.(origin := Delete)
    else s.stash
  }

  /** `tables_insert_driver`: all tables are written while cleaning, the target table while a result is acknowledged. */
  function NextTables(c: Config, s: Regs): (tabs: Tables)
    requires RegsShape(c, s)
    ensures Shape(c, tabs)
  {
    var item := Item(s.stash.key, s.stash.data, s.stash.itemVld);
    if s.state == Cleaning then
      seq(c.tableCnt, j requires 0 <= j < c.tableCnt => s.tabs[j][s.cleanAddr := item])
    else if s.state == LookupResAck then
      var t := First(s.targetOH, 0);
      if t == c.tableCnt then s.tabs
      else
        seq(c.tableCnt, j requires 0 <= j < c.tableCnt =>
          if s.targetOH[j] then s.tabs[j][c.hash(t, s.pipe[0].key) := item] else s.tabs[j])
    else s.tabs
  }

  function ReadTables(c: Config, tabs: Tables, k: Key): (e: Entry)
    requires Shape(c, tabs)
    ensures |e.items| == c.tableCnt
  {
    Entry(k, seq(c.tableCnt, j requires 0 <= j < c.tableCnt => Cell(c, tabs, j, k)))
  }

  /** The oldest lookup leaves with its result, the stash key enters. */
  function NextPipe(c: Config, s: Regs, i: Inputs): seq<Entry>
    requires RegsShape(c, s)
  {
    var out := (s.state == Idle && i.lookupResRd && ResVld(s, i))
               || (s.state == LookupResAck && NextState(s, i, false) != LookupResAck);
    (if out then s.pipe[1..] else s.pipe) + if TablesLookUp(s, i) then [ReadTables(c, s.tabs, s.stash.key)] else []
  }

  function NextCount(c: Config, s: Regs, i: Inputs): nat
    requires RegsShape(c, s)
  {
    var taken, done := LookupTaken(c, s, i), LookupResult(s, i).vld && i.lookupResRd;
    if taken && !done then s.lookupInProgress + 1
    else if !taken && done && s.lookupInProgress > 0 then s.lookupInProgress - 1
    else s.lookupInProgress
  }

  function Step(c: Config, s: Regs, i: Inputs): (t: Regs)
    requires RegsShape(c, s)
    ensures RegsShape(c, t)
  {
    var resolve := s.state == LookupResWaitRd && ResVld(s, i);
    var last := s.cleanAddr == c.items - 1;
    Regs(NextState(s, i, last), NextStash(c, s, i),
         if resolve then NextTarget(s.targetOH, s.pipe[0]) else s.targetOH,
         if resolve then true in FoundOH(s.pipe[0]) || true in EmptyOH(s.pipe[0]) else s.final,
         if s.state != Cleaning then s.cleanAddr else if last then 0 else s.cleanAddr + 1,
         NextCount(c, s, i), NextTables(c, s), NextPipe(c, s, i))
  }

  // ----- what a user of the component sees

  datatype Asked = Asked(key: Key, answer: Option<Data>)

  /**
   The inserts: how many were taken and how many answers were handed over, and for the last one the number of items
   that were replaced by another one on its behalf, and the table of the last of them.
   */
  datatype Inserting = Inserting(taken: nat, answered: nat, swaps: nat, from: Option<nat>)

  /**
   The component and its history: the map a user expects after the commands taken so far (`model`),
   the lookups that are taken but not answered, each with the answer of that map when it was
   taken, whether the delete in progress named a key of the map, the keys that a delete
   removed although nobody asked for it, and the inserts.
   */
  datatype Run = Run(regs: Regs, model: map<Key, Data>, asked: seq<Asked>, hit: bool, lost: set<Key>, ins: Inserting)

  function Answer(m: map<Key, Data>, k: Key): Option<Data> {
    if k in m then Some(m[k]) else None
  }

  /** A delete whose key was not found although all its cells are taken is about to clear this item. */
  ghost predicate Destroys(s: Regs) {
    s.state == LookupResAck && s.stash.origin == Delete && !s.final
  }

  ghost function Victim(c: Config, s: Regs): (k: Key)
    requires RegsShape(c, s) && s.state == LookupResAck
  {
    var t := First(s.targetOH, 0);
    if t < c.tableCnt then s.pipe[0].items[t].key else 0
  }

  ghost function NextModel(c: Config, s: Regs, m: map<Key, Data>, i: Inputs): map<Key, Data>
    requires RegsShape(c, s)
  {
    var res := InsertResult(s);
    if CleanTaken(s, i) then map[]
    else if DeleteTaken(s, i) then m - {i.deleteKey}
    else if InsertTaken(s, i) then m[i.insertKey := i.insertData]
    else if res.vld && i.insertResRd && res.pop then m - {res.key}
    else if Destroys(s) then m - {Victim(c, s)}
    else m
  }

  ghost function NextAsked(c: Config, r: Run, i: Inputs): seq<Asked>
    requires RegsShape(c, r.regs)
  {
    var rest := if LookupResult(r.regs, i).vld && i.lookupResRd && r.asked != [] then r.asked[1..] else r.asked;
    rest + if LookupTaken(c, r.regs, i) then [Asked(i.lookupKey, Answer(r.model, i.lookupKey))] else []
  }

  /** An answer to an insert is handed over. */
  predicate AnswerTaken(s: Regs, i: Inputs) {
    InsertResult(s).vld && i.insertResRd
  }

  /** On behalf of an insert an item is written over another one. */
  ghost predicate Swaps(c: Config, s: Regs)
    requires RegsShape(c, s)
  {
    && s.state == LookupResAck && s.stash.origin == Insert && First(s.targetOH, 0) < c.tableCnt
    && var cell := Cell(c, s.tabs, First(s.targetOH, 0), s.stash.key);
       cell.vld && cell.key != s.stash.key
  }

  ghost function NextInserting(c: Config, r: Run, i: Inputs): Inserting
    requires RegsShape(c, r.regs)
  {
    if InsertTaken(r.regs, i) then Inserting(r.ins.taken + 1, r.ins.answered, 0, None)
    else
      Inserting(r.ins.taken, if AnswerTaken(r.regs, i) then r.ins.answered + 1 else r.ins.answered,
                if Swaps(c, r.regs) then r.ins.swaps + 1 else r.ins.swaps,
                if Swaps(c, r.regs) then Some(First(r.regs.targetOH, 0)) else r.ins.from)
  }

  ghost function RunStep(c: Config, r: Run, i: Inputs): (t: Run)
    requires RegsShape(c, r.regs)
    ensures RegsShape(c, t.regs)
  {
    var s := r.regs;
    Run(Step(c, s, i), NextModel(c, s, r.model, i), NextAsked(c, r, i),
        if DeleteTaken(s, i) then i.deleteKey in r.model else r.hit,
        if Destroys(s) then r.lost + {Victim(c, s)} else r.lost, NextInserting(c, r, i))
  }

  // ----- the invariant

  /** The lookup was read from the tables as they are now. */
  ghost predicate Current(c: Config, tabs: Tables, e: Entry)
    requires Shape(c, tabs)
  {
    |e.items| == c.tableCnt && forall j :: 0 <= j < c.tableCnt ==> e.items[j] == Cell(c, tabs, j, e.key)
  }

  ghost predicate AllFree(c: Config, tabs: Tables, n: nat)
    requires Shape(c, tabs) && n <= c.items
  {
    forall j, a :: 0 <= j < c.tableCnt && 0 <= a < n ==> !tabs[j][a].vld
  }

  /** `insertTargetOH` has no reset value: it is one hot once an item has been placed. */
  ghost predicate TargetOk(c: Config, s: Regs)
    requires RegsShape(c, s)
  {
    (exists t :: 0 <= t < c.tableCnt && s.targetOH == OneHot(t, c.tableCnt)) || AllFree(c, s.tabs, c.items)
  }

  ghost predicate IdleInv(c: Config, r: Run)
    requires RegsShape(c, r.regs)
  {
    var s := r.regs;
    s.state == Idle ==>
      && Represents(c, s.tabs, r.model)
      && (forall j :: 0 <= j < |s.pipe| ==> Current(c, s.tabs, s.pipe[j]))
      && s.lookupInProgress == |r.asked| == |s.pipe| + (if s.stash.origin == LookupOp then 1 else 0) < c.maxOverlap
      && (forall j :: 0 <= j < |s.pipe| ==> r.asked[j] == Asked(s.pipe[j].key, Answer(r.model, s.pipe[j].key)))
      && (s.stash.origin == LookupOp ==> r.asked[|s.pipe|] == Asked(s.stash.key, Answer(r.model, s.stash.key)))
  }

  /** No lookup of a user is under way while a command is executed. */
  ghost predicate BusyInv(c: Config, r: Run) {
    var s := r.regs;
    s.state != Idle ==>
      && s.lookupInProgress == 0 && r.asked == [] && s.stash.origin != LookupOp
      && |s.pipe| == if s.state == LookupResWaitRd || s.state == LookupResAck then 1 else 0
  }

  ghost predicate CleaningInv(c: Config, r: Run)
    requires RegsShape(c, r.regs)
  {
    var s := r.regs;
    if s.state == Cleaning then r.model == map[] && !s.stash.itemVld && AllFree(c, s.tabs, s.cleanAddr)
    else s.cleanAddr == 0 && TargetOk(c, s)
  }

  /** The stash holds the one binding that the tables may be missing. */
  ghost predicate CommandInv(c: Config, r: Run)
    requires RegsShape(c, r.regs)
  {
    var s, st := r.regs, r.regs.stash;
    s.state != Idle && s.state != Cleaning ==>
      && RepresentsBut(c, s.tabs, r.model, st.key)
      && (st.itemVld <==> st.origin == Insert) && (st.itemVld <==> st.key in r.model)
      && (st.itemVld ==> r.model[st.key] == st.data && st.reinsertCntr <= c.maxReinsert)
  }

  ghost predicate LookupInv(c: Config, r: Run)
    requires RegsShape(c, r.regs)
  {
    var s, st := r.regs, r.regs.stash;
    s.state == Lookup || s.state == LookupResWaitRd ==>
      && (st.origin == Insert && st.reinsertCntr < c.maxReinsert ==> !Has(c, s.tabs, st.key))
      && (st.origin == Delete && r.hit ==> Has(c, s.tabs, st.key))
      && (s.state == LookupResWaitRd ==> s.pipe != [] && s.pipe[0].key == st.key && Current(c, s.tabs, s.pipe[0]))
      && (s.state == LookupResWaitRd && st.origin == Insert ==> st.reinsertCntr > 0)
  }

  /** The key is in no table, and all its cells are taken by other keys. */
  ghost predicate Blocked(c: Config, tabs: Tables, k: Key)
    requires Shape(c, tabs)
  {
    forall j :: 0 <= j < c.tableCnt ==> Cell(c, tabs, j, k).vld && !Found(c, tabs, j, k)
  }

  ghost predicate AckInv(c: Config, r: Run)
    requires RegsShape(c, r.regs)
  {
    var s, st := r.regs, r.regs.stash;
    s.state == LookupResAck ==>
      var t := First(s.targetOH, 0);
      && t < c.tableCnt && s.targetOH == OneHot(t, c.tableCnt) && s.pipe[0].key == st.key
      && (st.origin == Insert ==> st.reinsertCntr > 0)
      && (st.origin == Delete && r.hit ==> s.final)
      && (forall j :: 0 <= j < c.tableCnt && j != t ==> !Found(c, s.tabs, j, st.key))
      && (s.final && Cell(c, s.tabs, t, st.key).vld ==> Cell(c, s.tabs, t, st.key).key == st.key)
      && (!s.final ==> Current(c, s.tabs, s.pipe[0]) && Blocked(c, s.tabs, st.key))
  }

  /** An insert is under way. */
  predicate IsInserting(s: Regs) {
    (s.state == Lookup || s.state == LookupResWaitRd || s.state == LookupResAck) && s.stash.origin == Insert
  }

  /** The table before `t`, in turn. */
  function Turn(t: nat, n: nat): nat
    requires n > 0
  {
    if t == 0 then n - 1 else t - 1
  }

  /** The insert under way is the only one without an answer; its budget is what its swaps have left. */
  ghost predicate InsertInv(c: Config, r: Run)
    requires RegsShape(c, r.regs)
  {
    var s := r.regs;
    && r.ins.taken == r.ins.answered + (if IsInserting(s) then 1 else 0)
    && (IsInserting(s) ==> s.stash.reinsertCntr + r.ins.swaps == c.maxReinsert)
    && (IsInserting(s) && r.ins.from.Some? ==>
          && r.ins.from.value < c.tableCnt
          && (s.state != LookupResAck ==> s.targetOH == OneHot(r.ins.from.value, c.tableCnt))
          && (s.state == LookupResAck && !s.final ==> First(s.targetOH, 0) == Turn(r.ins.from.value, c.tableCnt)))
  }

  ghost predicate Inv(c: Config, r: Run) {
    && ValidConfig(c) && RegsShape(c, r.regs)
    && IdleInv(c, r) && BusyInv(c, r) && CleaningInv(c, r) && CommandInv(c, r) && LookupInv(c, r) && AckInv(c, r)
    && InsertInv(c, r)
  }

  // ----- preservation, state by state

  lemma TargetKeeps(c: Config, s: Regs, t: Regs)
    requires RegsShape(c, s) && RegsShape(c, t) && TargetOk(c, s)
    requires s.tabs == t.tabs && s.targetOH == t.targetOH
    ensures TargetOk(c, t)
  {
  }

  lemma IdleStep(c: Config, r: Run, i: Inputs)
    requires Inv(c, r) && r.regs.state == Idle
    ensures Inv(c, RunStep(c, r, i))
  {
    var s, t := r.regs, RunStep(c, r, i);
    assert t.regs.tabs == s.tabs && t.regs.targetOH == s.targetOH;
    TargetKeeps(c, s, t.regs);
    if CleanTaken(s, i) {
    } else if DeleteTaken(s, i) {
      IdleDelete(c, r, i);
    } else if InsertTaken(s, i) {
      IdleInsert(c, r, i);
    } else {
      assert t.regs.state == Idle && t.model == r.model;
      IdleLookups(c, r, i);
    }
  }

  lemma IdleDelete(c: Config, r: Run, i: Inputs)
    requires Inv(c, r) && DeleteTaken(r.regs, i)
    ensures var t := RunStep(c, r, i);
      t.regs.state == Lookup && BusyInv(c, t) && CommandInv(c, t) && LookupInv(c, t)
  {
    var t := RunStep(c, r, i);
    assert |r.regs.pipe| == 0;
    forall k | k != i.deleteKey ensures AgreesOn(c, t.regs.tabs, t.model, k) {
      assert AgreesOn(c, r.regs.tabs, r.model, k);
    }
    assert AgreesOn(c, r.regs.tabs, r.model, i.deleteKey);
  }

  lemma IdleInsert(c: Config, r: Run, i: Inputs)
    requires Inv(c, r) && InsertTaken(r.regs, i)
    ensures var t := RunStep(c, r, i);
      t.regs.state == Lookup && BusyInv(c, t) && CommandInv(c, t) && LookupInv(c, t)
  {
    var t := RunStep(c, r, i);
    assert |r.regs.pipe| == 0;
    forall k | k != i.insertKey ensures AgreesOn(c, t.regs.tabs, t.model, k) {
      assert AgreesOn(c, r.regs.tabs, r.model, k);
    }
  }

  lemma IdleLookups(c: Config, r: Run, i: Inputs)
    requires Inv(c, r) && r.regs.state == Idle
    requires RunStep(c, r, i).regs.state == Idle
    ensures IdleInv(c, RunStep(c, r, i))
  {
    var s, t := r.regs, RunStep(c, r, i);
    var out := i.lookupResRd && ResVld(s, i);
    var d := if out then 1 else 0;
    forall j | 0 <= j < |t.regs.pipe|
      ensures Current(c, t.regs.tabs, t.regs.pipe[j])
      ensures j < |t.asked| && t.asked[j] == Asked(t.regs.pipe[j].key, Answer(t.model, t.regs.pipe[j].key))
    {
      if j + d < |s.pipe| { assert t.regs.pipe[j] == s.pipe[j + d] && t.asked[j] == r.asked[j + d]; }
    }
  }

  lemma CleaningStep(c: Config, r: Run, i: Inputs)
    requires Inv(c, r) && r.regs.state == Cleaning
    ensures Inv(c, RunStep(c, r, i))
  {
    var s, t := r.regs, RunStep(c, r, i).regs;
    forall j, a | 0 <= j < c.tableCnt && 0 <= a <= s.cleanAddr ensures !t.tabs[j][a].vld {
    }
    if s.cleanAddr == c.items - 1 {
      assert AllFree(c, t.tabs, c.items);
      FreeTablesAreEmpty(c, t.tabs);
    }
  }

  lemma FreeTablesAreEmpty(c: Config, tabs: Tables)
    requires Shape(c, tabs) && AllFree(c, tabs, c.items)
    ensures Represents(c, tabs, map[])
  {
    forall i, k: Key | 0 <= i < c.tableCnt ensures !Found(c, tabs, i, k) {
      assert c.hash(i, k) < c.items;
    }
  }

  lemma LookupStep(c: Config, r: Run, i: Inputs)
    requires Inv(c, r) && r.regs.state == Lookup
    ensures Inv(c, RunStep(c, r, i))
  {
    var s, t := r.regs, RunStep(c, r, i);
    TargetKeeps(c, s, t.regs);
    if t.regs.state == Idle {
      forall k ensures AgreesOn(c, t.regs.tabs, t.model, k) {
        if k != s.stash.key { assert AgreesOn(c, s.tabs, r.model, k); }
      }
    }
  }

  lemma WaitStep(c: Config, r: Run, i: Inputs)
    requires Inv(c, r) && r.regs.state == LookupResWaitRd
    ensures Inv(c, RunStep(c, r, i))
  {
    var s, t := r.regs, RunStep(c, r, i);
    WaitKeepsInserting(c, r, i);
    if ResVld(s, i) {
      ResolveTarget(c, r, i);
    } else {
      TargetKeeps(c, s, t.regs);
    }
  }

  lemma OneHotAt(t: nat, n: nat)
    requires t < n
    ensures First(OneHot(t, n), 0) == t
  {
    assert OneHot(t, n)[t];
  }

  lemma RotateOneHot(t: nat, n: nat)
    requires t < n
    ensures RotateRight(OneHot(t, n)) == OneHot(if t == 0 then n - 1 else t - 1, n)
  {
  }

  lemma FoundBits(c: Config, tabs: Tables, e: Entry)
    requires Shape(c, tabs) && Current(c, tabs, e)
    ensures forall j :: 0 <= j < c.tableCnt ==> (FoundOH(e)[j] <==> Found(c, tabs, j, e.key))
    ensures forall j :: 0 <= j < c.tableCnt ==> (EmptyOH(e)[j] <==> !Cell(c, tabs, j, e.key).vld)
    ensures true in FoundOH(e) <==> Has(c, tabs, e.key)
    ensures true in EmptyOH(e) <==> exists j :: 0 <= j < c.tableCnt && !Cell(c, tabs, j, e.key).vld
  {
    if Has(c, tabs, e.key) {
      var j :| 0 <= j < c.tableCnt && Found(c, tabs, j, e.key);
      assert FoundOH(e)[j];
    }
    if j :| 0 <= j < c.tableCnt && !Cell(c, tabs, j, e.key).vld {
      assert EmptyOH(e)[j];
    }
  }

  /** The chosen table is the one that has the key; without one, the first with a free cell; without one, any. */
  ghost predicate Chosen(c: Config, tabs: Tables, k: Key, t: nat)
    requires Shape(c, tabs) && t < c.tableCnt
  {
    && (forall j :: 0 <= j < c.tableCnt && j != t ==> !Found(c, tabs, j, k))
    && (Has(c, tabs, k) ==> Found(c, tabs, t, k))
    && (!Has(c, tabs, k) && (exists j :: 0 <= j < c.tableCnt && !Cell(c, tabs, j, k).vld) ==> !Cell(c, tabs, t, k).vld)
  }

  lemma OnlyOneTable(c: Config, tabs: Tables, i: nat, j: nat, k: Key)
    requires WellPlaced(c, tabs) && i < c.tableCnt && j < c.tableCnt
    requires Found(c, tabs, i, k) && Found(c, tabs, j, k)
    ensures i == j
  {
  }

  /** The target that is chosen, in terms of the tables. */
  lemma Resolve(c: Config, oh: seq<bool>, tabs: Tables, e: Entry)
    requires WellPlaced(c, tabs) && |oh| == c.tableCnt && Current(c, tabs, e)
    requires (exists t :: 0 <= t < c.tableCnt && oh == OneHot(t, c.tableCnt)) || AllFree(c, tabs, c.items)
    ensures var n := NextTarget(oh, e);
      First(n, 0) < c.tableCnt && n == OneHot(First(n, 0), c.tableCnt) && Chosen(c, tabs, e.key, First(n, 0))
  {
    var n, f := c.tableCnt, FoundOH(e);
    FoundBits(c, tabs, e);
    if Has(c, tabs, e.key) {
      var t :| 0 <= t < n && Found(c, tabs, t, e.key);
      forall j | 0 <= j < n ensures f[j] == (j == t) {
        if f[j] { OnlyOneTable(c, tabs, j, t, e.key); }
      }
      assert f == OneHot(t, n);
      OneHotAt(t, n);
    } else if true in EmptyOH(e) {
      OneHotAt(First(EmptyOH(e), 0), n);
    } else {
      assert Cell(c, tabs, 0, e.key).vld;
      var t :| 0 <= t < n && oh == OneHot(t, n);
      assert oh[t];
      RotateOneHot(t, n);
      OneHotAt(if t == 0 then n - 1 else t - 1, n);
    }
  }

  /** If no cell of the key is its own or free, the target goes on in turn. */
  lemma ResolveInTurn(c: Config, tabs: Tables, e: Entry, t: nat)
    requires Shape(c, tabs) && Current(c, tabs, e) && t < c.tableCnt && Blocked(c, tabs, e.key)
    ensures First(NextTarget(OneHot(t, c.tableCnt), e), 0) == Turn(t, c.tableCnt)
  {
    FoundBits(c, tabs, e);
    assert OneHot(t, c.tableCnt)[t];
    RotateOneHot(t, c.tableCnt);
    OneHotAt(Turn(t, c.tableCnt), c.tableCnt);
  }

  lemma WaitKeepsInserting(c: Config, r: Run, i: Inputs)
    requires Inv(c, r) && r.regs.state == LookupResWaitRd
    ensures InsertInv(c, RunStep(c, r, i))
  {
    var s := r.regs;
    if ResVld(s, i) && r.ins.from.Some? && IsInserting(s) && !RunStep(c, r, i).regs.final {
      FoundBits(c, s.tabs, s.pipe[0]);
      ResolveInTurn(c, s.tabs, s.pipe[0], r.ins.from.value);
    }
  }

  lemma AckKeepsInserting(c: Config, r: Run, i: Inputs)
    requires Inv(c, r) && r.regs.state == LookupResAck
    ensures InsertInv(c, RunStep(c, r, i))
  {
    var s, f := r.regs, First(r.regs.targetOH, 0);
    assert s.final && Cell(c, s.tabs, f, s.stash.key).vld ==> Cell(c, s.tabs, f, s.stash.key).key == s.stash.key;
    assert !s.final ==> Cell(c, s.tabs, f, s.stash.key).vld && !Found(c, s.tabs, f, s.stash.key);
  }

  lemma ResolveTarget(c: Config, r: Run, i: Inputs)
    requires Inv(c, r) && r.regs.state == LookupResWaitRd && ResVld(r.regs, i)
    ensures var t := RunStep(c, r, i);
      AckInv(c, t) && TargetOk(c, t.regs)
  {
    var s, t := r.regs, RunStep(c, r, i);
    Resolve(c, s.targetOH, s.tabs, s.pipe[0]);
    FoundBits(c, s.tabs, s.pipe[0]);
    assert t.regs.targetOH == OneHot(First(t.regs.targetOH, 0), c.tableCnt);
  }

  lemma AckStep(c: Config, r: Run, i: Inputs)
    requires Inv(c, r) && r.regs.state == LookupResAck
    ensures Inv(c, RunStep(c, r, i))
  {
    var s, t := r.regs, RunStep(c, r, i);
    var f, item := First(s.targetOH, 0), Item(s.stash.key, s.stash.data, s.stash.itemVld);
    AckKeepsInserting(c, r, i);
    AckWrites(c, r);
    assert t.regs.tabs == Write(c, s.tabs, f, item.key, item);
    assert TargetOk(c, t.regs) by { assert t.regs.targetOH == OneHot(f, c.tableCnt); }
    if s.final {
      StoreItem(c, s.tabs, r.model, f, item);
      FoundAfterWrites(c, s.tabs, f, item);
    } else {
      SwapItem(c, s.tabs, r.model, f, item);
    }
  }

  lemma FoundAfterWrites(c: Config, tabs: Tables, t: nat, item: Item)
    requires Shape(c, tabs) && t < c.tableCnt
    requires forall j :: 0 <= j < c.tableCnt && j != t ==> !Found(c, tabs, j, item.key)
    ensures var w := Write(c, tabs, t, item.key, item);
      && Cell(c, w, t, item.key) == item
      && forall j :: 0 <= j < c.tableCnt && j != t ==> !Found(c, w, j, item.key)
  {
    forall j | 0 <= j < c.tableCnt && j != t ensures !Found(c, Write(c, tabs, t, item.key, item), j, item.key) {
      FoundAfterWrite(c, tabs, t, item, j, item.key);
    }
    FoundAfterWrite(c, tabs, t, item, t, item.key);
  }

  /** The write port of the one target table. */
  lemma AckWrites(c: Config, r: Run)
    requires Inv(c, r) && r.regs.state == LookupResAck
    ensures var s := r.regs;
      var item := Item(s.stash.key, s.stash.data, s.stash.itemVld);
      NextTables(c, s) == Write(c, s.tabs, First(s.targetOH, 0), item.key, item)
  {
  }

  lemma StepKeepsInv(c: Config, r: Run, i: Inputs)
    requires Inv(c, r)
    ensures Inv(c, RunStep(c, r, i))
  {
    match r.regs.state
    case Idle => IdleStep(c, r, i);
    case Cleaning => CleaningStep(c, r, i);
    case Lookup => LookupStep(c, r, i);
    case LookupResWaitRd => WaitStep(c, r, i);
    case LookupResAck => AckStep(c, r, i);
  }

  // ----- main results

  /** A clean has just been taken; registers without reset value, and the tables, hold anything. */
  ghost predicate CleanTakenAt(c: Config, r: Run) {
    var s := r.regs;
    && RegsShape(c, s) && s.state == Cleaning && s.cleanAddr == 0
    && !s.stash.itemVld && s.stash.origin == Delete && s.lookupInProgress == 0 && s.pipe == []
    && r.model == map[] && r.asked == [] && r.lost == {} && r.ins == Inserting(0, 0, 0, None)
  }

  ghost function Steps(c: Config, r: Run, ins: seq<Inputs>): (t: Run)
    requires RegsShape(c, r.regs)
    ensures RegsShape(c, t.regs)
    decreases |ins|
  {
    if ins == [] then r else RunStep(c, Steps(c, r, ins[..|ins| - 1]), ins[|ins| - 1])
  }

  lemma {:induction false} ReachableInv(c: Config, r: Run, ins: seq<Inputs>)
    requires CleanTakenAt(c, r)
    ensures Inv(c, Steps(c, r, ins))
    decreases |ins|
  {
    if ins != [] {
      ReachableInv(c, r, ins[..|ins| - 1]);
      StepKeepsInv(c, Steps(c, r, ins[..|ins| - 1]), ins[|ins| - 1]);
    }
  }

  /** Whenever the component is idle its tables hold exactly the expected map, each key once and at its own hash. */
  lemma TablesHoldTheMap(c: Config, r: Run, ins: seq<Inputs>)
    requires CleanTakenAt(c, r)
    ensures var t := Steps(c, r, ins);
      t.regs.state == Idle ==> Represents(c, t.regs.tabs, t.model)
  {
    ReachableInv(c, r, ins);
  }

  /**
   While a command moves items, the tables miss at most the binding in the stash: together they are
   the expected map. When the budget is used up it is the stash item that is handed out, and the
   tables are the map without it.
   */
  lemma NothingIsLostInFlight(c: Config, r: Run, ins: seq<Inputs>)
    requires CleanTakenAt(c, r)
    ensures var t := Steps(c, r, ins);
      var st := t.regs.stash;
      t.regs.state == Lookup && st.origin == Insert ==>
        && st.key in t.model && t.model[st.key] == st.data
        && (forall k :: k != st.key ==> AgreesOn(c, t.regs.tabs, t.model, k))
        && (st.reinsertCntr == 0 ==> InsertResult(t.regs) == InsertRes(true, st.key, st.data, true)
                                     && Represents(c, t.regs.tabs, t.model - {st.key}))
  {
    ReachableInv(c, r, ins);
    var t := Steps(c, r, ins);
    var st := t.regs.stash;
    if t.regs.state == Lookup && st.origin == Insert && st.reinsertCntr == 0 {
      forall k ensures AgreesOn(c, t.regs.tabs, t.model - {st.key}, k) {
        if k != st.key { assert AgreesOn(c, t.regs.tabs, t.model, k); }
      }
    }
  }

  // ----- what is taken, and what is answered

  /**
   Whenever the component is idle it takes the first command that is offered, in the order of the ports: a clean, a
   delete or an insert if no lookup is under way, and a lookup if its counter and its register have room.
   */
  lemma CommandsAreTaken(c: Config, r: Run, ins: seq<Inputs>, i: Inputs)
    requires CleanTakenAt(c, r)
    ensures var t := Steps(c, r, ins);
      var free, inTables := t.regs.state == Idle && t.asked == [], |t.asked| == |t.regs.pipe|;
      && (CleanTaken(t.regs, i) <==> free && i.cleanVld)
      && (DeleteTaken(t.regs, i) <==> free && i.deleteVld && !i.cleanVld)
      && (InsertTaken(t.regs, i) <==> free && i.insertVld && !i.deleteVld && !i.cleanVld)
      && (LookupTaken(c, t.regs, i) <==>
            && t.regs.state == Idle && i.lookupVld && !i.insertVld && !i.deleteVld && !i.cleanVld
            && |t.asked| < c.maxOverlap - 1 && (inTables || i.tabRd))
  {
    ReachableInv(c, r, ins);
  }

  /** In no state are there two inserts without an answer, and when the component is idle there is none. */
  lemma InsertsAreAnswered(c: Config, r: Run, ins: seq<Inputs>)
    requires CleanTakenAt(c, r)
    ensures var t := Steps(c, r, ins);
      && t.ins.answered <= t.ins.taken <= t.ins.answered + 1
      && (t.regs.state == Idle || t.regs.state == Cleaning ==> t.ins.taken == t.ins.answered)
  {
    ReachableInv(c, r, ins);
  }

  /**
   An answer is shown only for an insert without one, and again in the next clock if it was not handed over. If it is
   no pop, the answer names a binding of the map, and with its clock the tables are the map and hold this binding. If it
   is a pop, MAX_REINSERT items were replaced on behalf of the insert, the answer names the one binding of the map that
   the tables are missing, and they are the map without it.
   */
  lemma AnswersAreRight(c: Config, r: Run, ins: seq<Inputs>, i: Inputs)
    requires CleanTakenAt(c, r)
    ensures var t := Steps(c, r, ins);
      var res, u := InsertResult(t.regs), RunStep(c, t, i);
      res.vld ==>
        && t.ins.taken == t.ins.answered + 1
        && (if i.insertResRd then u.regs.state == Idle else InsertResult(u.regs) == res)
        && res.key in t.model && t.model[res.key] == res.data
        && (if res.pop then !Has(c, t.regs.tabs, res.key) && t.ins.swaps == c.maxReinsert
            else HoldsBinding(c, u.regs.tabs, res.key, res.data) && t.ins.swaps < c.maxReinsert)
        && (i.insertResRd ==>
              u.model == (if res.pop then t.model - {res.key} else t.model) && Represents(c, u.regs.tabs, u.model))
  {
    ReachableInv(c, r, ins);
    var t := Steps(c, r, ins);
    if InsertResult(t.regs).vld { AnswerIsRight(c, t, i); }
  }

  /** An item that was taken out of a table is not put over the one that replaced it, unless there is one table only. */
  lemma SwapsGoInTurn(c: Config, r: Run, ins: seq<Inputs>)
    requires CleanTakenAt(c, r)
    ensures var t := Steps(c, r, ins);
      Swaps(c, t.regs) && t.ins.from.Some? ==>
        && First(t.regs.targetOH, 0) == Turn(t.ins.from.value, c.tableCnt)
        && (c.tableCnt > 1 ==> First(t.regs.targetOH, 0) != t.ins.from.value)
  {
    ReachableInv(c, r, ins);
  }

  ghost predicate HoldsBinding(c: Config, tabs: Tables, k: Key, d: Data)
    requires Shape(c, tabs)
  {
    exists j :: 0 <= j < c.tableCnt && Cell(c, tabs, j, k) == Item(k, d, true)
  }

  lemma AnswerIsRight(c: Config, t: Run, i: Inputs)
    requires Inv(c, t) && InsertResult(t.regs).vld
    ensures var res, u := InsertResult(t.regs), RunStep(c, t, i);
      && t.ins.taken == t.ins.answered + 1
      && (if i.insertResRd then u.regs.state == Idle else InsertResult(u.regs) == res)
      && res.key in t.model && t.model[res.key] == res.data
      && (if res.pop then !Has(c, t.regs.tabs, res.key) && t.ins.swaps == c.maxReinsert
          else HoldsBinding(c, u.regs.tabs, res.key, res.data) && t.ins.swaps < c.maxReinsert)
      && (i.insertResRd ==>
            u.model == (if res.pop then t.model - {res.key} else t.model) && Represents(c, u.regs.tabs, u.model))
  {
    var s := t.regs;
    StepKeepsInv(c, t, i);
    if s.state == LookupResAck {
      var f, item := First(s.targetOH, 0), Item(s.stash.key, s.stash.data, s.stash.itemVld);
      AckWrites(c, t);
      FoundAfterWrites(c, s.tabs, f, item);
    }
  }

  /** The result is the answer to this lookup. */
  predicate Answers(res: LookupRes, a: Asked) {
    if res.found then a == Asked(res.item.key, Some(res.item.data)) else a.answer == None
  }

  lemma ResultAnswers(c: Config, r: Run, i: Inputs)
    requires Inv(c, r) && LookupResult(r.regs, i).vld
    ensures r.asked != [] && Answers(LookupResult(r.regs, i), r.asked[0])
    ensures r.asked[0].answer == Answer(r.model, r.asked[0].key)
  {
    var e := r.regs.pipe[0];
    assert Current(c, r.regs.tabs, e);
    FoundBits(c, r.regs.tabs, e);
    assert AgreesOn(c, r.regs.tabs, r.model, e.key);
    var f := First(FoundOH(e), 0);
    if Has(c, r.regs.tabs, e.key) {
      var j :| 0 <= j < c.tableCnt && Found(c, r.regs.tabs, j, e.key);
      assert FoundOH(e)[j] && f <= j;
      assert Found(c, r.regs.tabs, f, e.key);
    }
  }

  /** Every lookup result is the answer the map had when the lookup was taken, in the order they were taken. */
  lemma LookupsAreAnswered(c: Config, r: Run, ins: seq<Inputs>, i: Inputs)
    requires CleanTakenAt(c, r)
    ensures var t := Steps(c, r, ins);
      var res := LookupResult(t.regs, i);
      res.vld ==>
        t.asked != [] && Answers(res, t.asked[0]) && t.asked[0].answer == Answer(t.model, t.asked[0].key)
  {
    ReachableInv(c, r, ins);
    var t := Steps(c, r, ins);
    if LookupResult(t.regs, i).vld { ResultAnswers(c, t, i); }
  }

  /** No lookup is anywhere in the component in a clock that writes a table. */
  lemma LookupsNeverOverlapUpdates(c: Config, r: Run, ins: seq<Inputs>, i: Inputs)
    requires CleanTakenAt(c, r)
    ensures var t := Steps(c, r, ins);
      RunStep(c, t, i).regs.tabs != t.regs.tabs ==>
        t.asked == [] && t.regs.lookupInProgress == 0 && !LookupTaken(c, t.regs, i)
  {
    ReachableInv(c, r, ins);
  }

  /** A register as wide as `log2ceil` of its largest value holds this one. */
  predicate FitsIts(max: nat, value: nat) {
    value < Arithmetic.Pow2(Arithmetic.Log2Ceil(max))
  }

  /** All lookups, and nothing is answered. */
  function Asking(): Inputs {
    Inputs(false, false, 0, false, 0, 0, true, 0, false, false, true, false, Stash(0, 0, 0, false, Delete))
  }

  function AskingFor(n: nat): (ins: seq<Inputs>)
    ensures |ins| == n
  {
    if n == 0 then [] else AskingFor(n - 1) + [Asking()]
  }

  lemma AskingOn(c: Config, r: Run, n: nat)
    requires RegsShape(c, r.regs)
    ensures Steps(c, r, AskingFor(n + 1)) == RunStep(c, Steps(c, r, AskingFor(n)), Asking())
  {
    assert AskingFor(n + 1)[..n] == AskingFor(n);
  }

  lemma AskOnce(c: Config, t: Run)
    requires Inv(c, t)
    ensures var s, u := t.regs, Step(c, t.regs, Asking());
      && (s.state == Cleaning && s.cleanAddr < c.items - 1 ==> u.state == Cleaning && u.cleanAddr == s.cleanAddr + 1)
      && (s.state == Cleaning && s.cleanAddr == c.items - 1 ==> u.state == Idle && u.lookupInProgress == 0)
      && (s.state == Idle && s.lookupInProgress < c.maxOverlap - 1
          ==> u.state == Idle && u.lookupInProgress == s.lookupInProgress + 1)
  {
  }

  /** Both counters reach their largest values: first that of the clean, then that of the lookups. */
  lemma {:induction false} CountersReach(c: Config, r: Run, n: nat)
    requires CleanTakenAt(c, r) && n < c.items + c.maxOverlap
    ensures var s := Steps(c, r, AskingFor(n)).regs;
      if n < c.items then s.state == Cleaning && s.cleanAddr == n
      else s.state == Idle && s.lookupInProgress == n - c.items
  {
    if n > 0 {
      CountersReach(c, r, n - 1);
      ReachableInv(c, r, AskingFor(n - 1));
      AskingOn(c, r, n - 1);
      AskOnce(c, Steps(c, r, AskingFor(n - 1)));
    }
  }

  lemma LongestClean(c: Config, r: Run) returns (ins: seq<Inputs>)
    requires CleanTakenAt(c, r)
    ensures Steps(c, r, ins).regs.cleanAddr == c.items - 1
  {
    ins := AskingFor(c.items - 1);
    CountersReach(c, r, c.items - 1);
  }

  lemma MostLookups(c: Config, r: Run) returns (ins: seq<Inputs>)
    requires CleanTakenAt(c, r)
    ensures Steps(c, r, ins).regs.lookupInProgress == c.maxOverlap - 1
  {
    ins := AskingFor(c.items + c.maxOverlap - 1);
    CountersReach(c, r, c.items + c.maxOverlap - 1);
  }

  lemma CountersBounded(c: Config, r: Run, ins: seq<Inputs>)
    requires CleanTakenAt(c, r)
    ensures var s := Steps(c, r, ins).regs;
      s.cleanAddr <= c.items - 1 && s.lookupInProgress <= c.maxOverlap - 1
  {
    ReachableInv(c, r, ins);
  }

  lemma MaxFitsExactly(max: nat, value: nat)
    requires value <= max
    ensures FitsIts(max, max) <==> max <= 1 || !Arithmetic.IsPow2(max)
    ensures FitsIts(max, max) ==> FitsIts(max, value)
  {
    Arithmetic.FitsExactly(max);
  }

  /** The address of a clean stays in its register, of `log2ceil` of its largest value, if and only if that fits. */
  lemma CleanAddressFitsExactly(c: Config, r: Run)
    requires CleanTakenAt(c, r)
    ensures (forall ins :: FitsIts(c.items - 1, Steps(c, r, ins).regs.cleanAddr))
            <==> c.items - 1 <= 1 || !Arithmetic.IsPow2(c.items - 1)
  {
    var max := c.items - 1;
    MaxFitsExactly(max, max);
    if FitsIts(max, max) {
      forall ins ensures FitsIts(max, Steps(c, r, ins).regs.cleanAddr) {
        CountersBounded(c, r, ins);
        MaxFitsExactly(max, Steps(c, r, ins).regs.cleanAddr);
      }
    } else {
      var ins := LongestClean(c, r);
      assert !FitsIts(max, Steps(c, r, ins).regs.cleanAddr);
    }
  }

  /** And so does the number of lookups. */
  lemma LookupCountFitsExactly(c: Config, r: Run)
    requires CleanTakenAt(c, r)
    ensures (forall ins :: FitsIts(c.maxOverlap - 1, Steps(c, r, ins).regs.lookupInProgress))
            <==> c.maxOverlap - 1 <= 1 || !Arithmetic.IsPow2(c.maxOverlap - 1)
  {
    var max := c.maxOverlap - 1;
    MaxFitsExactly(max, max);
    if FitsIts(max, max) {
      forall ins ensures FitsIts(max, Steps(c, r, ins).regs.lookupInProgress) {
        CountersBounded(c, r, ins);
        MaxFitsExactly(max, Steps(c, r, ins).regs.lookupInProgress);
      }
    } else {
      var ins := MostLookups(c, r);
      assert !FitsIts(max, Steps(c, r, ins).regs.lookupInProgress);
    }
  }

  // ----- delete

  /**
   When a delete has its lookup result: if its key is in no table and all its cells are taken, it
   clears the item of another key of the map; otherwise the map afterwards is the one expected
   when the delete was taken.
   */
  lemma DeleteDestroysExactly(c: Config, r: Run, ins: seq<Inputs>, i: Inputs)
    requires CleanTakenAt(c, r)
    ensures var t := Steps(c, r, ins);
      t.regs.state == LookupResAck && t.regs.stash.origin == Delete ==>
        && Represents(c, RunStep(c, t, i).regs.tabs, RunStep(c, t, i).model)
        && if Blocked(c, t.regs.tabs, t.regs.stash.key)
           then Victim(c, t.regs) in t.model && RunStep(c, t, i).model == t.model - {Victim(c, t.regs)}
           else RunStep(c, t, i).model == t.model
  {
    ReachableInv(c, r, ins);
    var t := Steps(c, r, ins);
    var s := t.regs;
    if s.state == LookupResAck && s.stash.origin == Delete {
      StepKeepsInv(c, t, i);
      var f := First(s.targetOH, 0);
      if s.final {
        assert Cell(c, s.tabs, f, s.stash.key).vld ==> Found(c, s.tabs, f, s.stash.key);
      } else {
        assert Found(c, s.tabs, f, Victim(c, s)) && AgreesOn(c, s.tabs, t.model, Victim(c, s));
      }
    }
  }

  /** The delete under way, if any, named a key of the map, and nothing has been lost. */
  ghost predicate Careful(r: Run) {
    && r.lost == {}
    && (r.regs.state != Idle && r.regs.state != Cleaning && r.regs.stash.origin == Delete ==> r.hit)
  }

  lemma StaysCareful(c: Config, r: Run, i: Inputs)
    requires Inv(c, r) && Careful(r)
    requires DeleteTaken(r.regs, i) ==> i.deleteKey in r.model
    ensures Careful(RunStep(c, r, i))
  {
  }

  /** Every delete that is taken names a key of the map. */
  ghost predicate DeletesOnlyStored(c: Config, r: Run, ins: seq<Inputs>)
    requires RegsShape(c, r.regs)
    decreases |ins|
  {
    ins == []
    || (var before, i := ins[..|ins| - 1], ins[|ins| - 1];
        && DeletesOnlyStored(c, r, before)
        && (DeleteTaken(Steps(c, r, before).regs, i) ==> i.deleteKey in Steps(c, r, before).model))
  }

  /** If deletes only name keys of the map, nothing disappears that was not asked for. */
  lemma {:induction false} NothingIsLost(c: Config, r: Run, ins: seq<Inputs>)
    requires CleanTakenAt(c, r) && DeletesOnlyStored(c, r, ins)
    ensures Careful(Steps(c, r, ins))
    decreases |ins|
  {
    if ins != [] {
      var before, i := ins[..|ins| - 1], ins[|ins| - 1];
      NothingIsLost(c, r, before);
      ReachableInv(c, r, before);
      StaysCareful(c, Steps(c, r, before), i);
    }
  }

  // ----- termination

  /** An environment that lets the component move on. */
  ghost predicate Cooperative(i: Inputs) {
    i.insertResRd && i.tabRd && i.resVld
  }

  /** The number of cooperative clocks until the command is done, at most: three for each swap that is left. */
  ghost function Remaining(c: Config, s: Regs): int
    requires RegsShape(c, s)
  {
    var swaps := if s.stash.origin == Insert then s.stash.reinsertCntr else 0;
    match s.state
    case Idle => 0
    case Cleaning => c.items - s.cleanAddr
    case Lookup => 3 * swaps + 3
    case LookupResWaitRd => 3 * swaps + 2
    case LookupResAck => 3 * swaps + 1
  }

  lemma CommandProgress(c: Config, r: Run)
    requires Inv(c, r) && r.regs.state != Idle
    ensures 0 < Remaining(c, r.regs)
    ensures forall i :: Cooperative(i) ==> Remaining(c, RunStep(c, r, i).regs) < Remaining(c, r.regs)
  {
  }

  /** A command is finished within that many cooperative clocks, whatever else the inputs are. */
  lemma {:induction false} CommandFinishes(c: Config, r: Run, ins: seq<Inputs>)
    requires Inv(c, r) && r.regs.state != Idle
    requires (forall i :: i in ins ==> Cooperative(i)) && |ins| >= Remaining(c, r.regs)
    ensures exists n :: 0 < n <= Remaining(c, r.regs) && n <= |ins| && Finished(c, r, ins, n)
    decreases |ins|
  {
    CommandProgress(c, r);
    var t := RunStep(c, r, ins[0]);
    StepKeepsInv(c, r, ins[0]);
    if t.regs.state == Idle {
      assert Finished(c, r, ins, 1);
    } else {
      CommandFinishes(c, t, ins[1..]);
      var n :| 0 < n <= Remaining(c, t.regs) && n <= |ins[1..]| && Finished(c, t, ins[1..], n);
      assert Finished(c, r, ins, n + 1);
    }
  }

  /** The run after n clocks. */
  ghost function Ahead(c: Config, r: Run, ins: seq<Inputs>, n: nat): (t: Run)
    requires RegsShape(c, r.regs) && n <= |ins|
    ensures RegsShape(c, t.regs)
    decreases n
  {
    if n == 0 then r else Ahead(c, RunStep(c, r, ins[0]), ins[1..], n - 1)
  }

  /** The component is idle after n clocks, and not before. */
  ghost predicate Finished(c: Config, r: Run, ins: seq<Inputs>, n: nat)
    requires RegsShape(c, r.regs) && n <= |ins|
    decreases n
  {
    if n == 0 then r.regs.state == Idle else r.regs.state != Idle && Finished(c, RunStep(c, r, ins[0]), ins[1..], n - 1)
  }

  /** In these clocks no insert is taken, and the one under way is answered. */
  lemma {:induction false} AnsweredWhenFinished(c: Config, r: Run, ins: seq<Inputs>, n: nat)
    requires Inv(c, r) && n <= |ins| && Finished(c, r, ins, n)
    ensures var t := Ahead(c, r, ins, n);
      && Inv(c, t) && t.regs.state == Idle
      && t.ins.taken == t.ins.answered == r.ins.taken
    decreases n
  {
    if n > 0 {
      StepKeepsInv(c, r, ins[0]);
      AnsweredWhenFinished(c, RunStep(c, r, ins[0]), ins[1..], n - 1);
    }
  }

  /**
   So a taken insert needs at most MAX_REINSERT rounds of three clocks, and three clocks for the answer, which is handed
   over in these clocks, and only once.
   */
  lemma InsertFinishes(c: Config, r: Run, i: Inputs, ins: seq<Inputs>)
    requires Inv(c, r) && InsertTaken(r.regs, i)
    requires (forall j :: j in ins ==> Cooperative(j)) && |ins| >= 3 * c.maxReinsert + 3
    ensures exists n :: 0 < n <= 3 * c.maxReinsert + 3 && AnsweredOnce(c, RunStep(c, r, i), ins, n)
  {
    StepKeepsInv(c, r, i);
    AnswerComes(c, RunStep(c, r, i), ins);
  }

  /** The component is idle after n clocks, and one answer was handed over in them. */
  ghost predicate AnsweredOnce(c: Config, r: Run, ins: seq<Inputs>, n: nat)
    requires RegsShape(c, r.regs)
  {
    n <= |ins| && Finished(c, r, ins, n) && Ahead(c, r, ins, n).ins.answered == r.ins.answered + 1
  }

  lemma AnswerComes(c: Config, r: Run, ins: seq<Inputs>)
    requires Inv(c, r) && IsInserting(r.regs)
    requires (forall j :: j in ins ==> Cooperative(j)) && |ins| >= Remaining(c, r.regs)
    ensures exists n :: 0 < n <= Remaining(c, r.regs) && AnsweredOnce(c, r, ins, n)
  {
    CommandFinishes(c, r, ins);
    var n :| 0 < n <= Remaining(c, r.regs) && n <= |ins| && Finished(c, r, ins, n);
    AnsweredWhenFinished(c, r, ins, n);
    assert AnsweredOnce(c, r, ins, n) by { assert r.ins.taken == r.ins.answered + 1; }
  }

  // ----- lookups are answered in time

  /** The tables take a lookup and have a result, and the result is taken. */
  predicate Reading(i: Inputs) {
    i.tabRd && i.resVld && i.lookupResRd
  }

  /** The lookup results that are taken in a run, from this state on. */
  ghost function Results(c: Config, r: Run, ins: seq<Inputs>): seq<LookupRes>
    requires RegsShape(c, r.regs)
    decreases |ins|
  {
    if ins == [] then []
    else
      var res, later := LookupResult(r.regs, ins[0]), Results(c, RunStep(c, r, ins[0]), ins[1..]);
      if res.vld && ins[0].lookupResRd then [res] + later else later
  }

  /** Results that answer lookups, the first ones in the order of both. */
  ghost predicate AnswerFirst(results: seq<LookupRes>, asked: seq<Asked>, m: nat) {
    m <= |results| && m <= |asked| && forall k :: 0 <= k < m ==> Answers(results[k], asked[k])
  }

  lemma AnswerNext(res: LookupRes, results: seq<LookupRes>, asked: seq<Asked>, later: seq<Asked>, m: nat)
    requires asked != [] && Answers(res, asked[0]) && asked[1..] <= later
    requires m <= |asked| - 1 && AnswerFirst(results, later, m)
    ensures AnswerFirst([res] + results, asked, m + 1)
  {
    forall k | 1 <= k < m + 1 ensures Answers(([res] + results)[k], asked[k]) {
      assert asked[k] == asked[1..][k - 1] == later[k - 1];
    }
  }

  /** A clock with lookups under way: no command interferes, and the oldest one that is in the tables leaves. */
  lemma LookupProgress(c: Config, r: Run, i: Inputs)
    requires Inv(c, r) && r.regs.state == Idle && r.asked != [] && Reading(i)
    ensures var t := RunStep(c, r, i);
      && t.regs.state == Idle
      && (LookupResult(r.regs, i).vld <==> r.regs.pipe != [])
      && (if r.regs.pipe != [] then r.asked[1..] <= t.asked && |t.regs.pipe| == |r.asked| - 1
          else r.asked <= t.asked && t.regs.pipe != [])
  {
  }

  /** The clocks that the oldest `m` lookups need: one for each, and one more if none of them is in the tables. */
  function ClocksFor(s: Regs, m: nat): nat {
    if m == 0 then 0 else if s.pipe == [] then m + 1 else m
  }

  lemma NoneNow(c: Config, r: Run, ins: seq<Inputs>)
    requires RegsShape(c, r.regs) && ins != [] && !LookupResult(r.regs, ins[0]).vld
    ensures Results(c, r, ins) == Results(c, RunStep(c, r, ins[0]), ins[1..])
  {
  }

  lemma OneNow(c: Config, r: Run, ins: seq<Inputs>)
    requires RegsShape(c, r.regs) && ins != [] && LookupResult(r.regs, ins[0]).vld && ins[0].lookupResRd
    ensures Results(c, r, ins) == [LookupResult(r.regs, ins[0])] + Results(c, RunStep(c, r, ins[0]), ins[1..])
  {
  }

  lemma FirstAndRest(c: Config, r: Run, ins: seq<Inputs>, m: nat)
    requires Inv(c, r) && ins != [] && 0 < m <= |r.asked|
    requires LookupResult(r.regs, ins[0]).vld && ins[0].lookupResRd
    requires r.asked[1..] <= RunStep(c, r, ins[0]).asked
    requires AnswerFirst(Results(c, RunStep(c, r, ins[0]), ins[1..]), RunStep(c, r, ins[0]).asked, m - 1)
    ensures AnswerFirst(Results(c, r, ins), r.asked, m)
  {
    var res, t := LookupResult(r.regs, ins[0]), RunStep(c, r, ins[0]);
    assert Answers(res, r.asked[0]) by { ResultAnswers(c, r, ins[0]); }
    OneNow(c, r, ins);
    AnswerNext(res, Results(c, t, ins[1..]), r.asked, t.asked, m - 1);
  }

  /** The oldest lookups are answered, in order, within that many clocks, whatever else the inputs are. */
  lemma {:induction false} LookupsFinish(c: Config, r: Run, ins: seq<Inputs>, m: nat)
    requires Inv(c, r) && r.regs.state == Idle && m <= |r.asked|
    requires (forall i :: i in ins ==> Reading(i)) && |ins| >= ClocksFor(r.regs, m)
    ensures AnswerFirst(Results(c, r, ins), r.asked, m)
    decreases |ins|
  {
    if m > 0 {
      StepKeepsInv(c, r, ins[0]);
      LookupProgress(c, r, ins[0]);
      if r.regs.pipe != [] {
        LookupsFinish(c, RunStep(c, r, ins[0]), ins[1..], m - 1);
        FirstAndRest(c, r, ins, m);
      } else {
        LookupsFinish(c, RunStep(c, r, ins[0]), ins[1..], m);
        NoneNow(c, r, ins);
      }
    }
  }

  /** So a lookup is answered after at most MAX_LOOKUP_OVERLAP such clocks, as the map was when it was taken. */
  lemma LookupFinishes(c: Config, r: Run, i: Inputs, ins: seq<Inputs>)
    requires Inv(c, r) && LookupTaken(c, r.regs, i)
    requires (forall j :: j in ins ==> Reading(j)) && |ins| >= c.maxOverlap
    ensures var t := RunStep(c, r, i);
      && 0 < |t.asked| <= |Results(c, t, ins)|
      && Answers(Results(c, t, ins)[|t.asked| - 1], Asked(i.lookupKey, Answer(r.model, i.lookupKey)))
  {
    StepKeepsInv(c, r, i);
    var t := RunStep(c, r, i);
    LookupsFinish(c, t, ins, |t.asked|);
  }

  // ----- the component

  class CuckooTable {
    const c: Config
    var state: FsmState
    var stash: Stash
    var insertTargetOH: seq<bool>
    var insertFinal: bool
    var cleanupAddr: nat
    var lookupInProgress: nat
    var tables: Tables
    var pipeline: seq<Entry>

    function State(): Regs
      reads this
    {
      Regs(state, stash, insertTargetOH, insertFinal, cleanupAddr, lookupInProgress, tables, pipeline)
    }

    ghost predicate Valid()
      reads this
    {
      RegsShape(c, State())
    }

    /** After reset; the target register and the memories hold anything. */
    constructor (c: Config, tables: Tables, oh: seq<bool>, x: Stash, final: bool)
      requires Shape(c, tables) && |oh| == c.tableCnt
      ensures this.c == c && Valid()
      ensures State() == Regs(Idle, x.(origin := Delete), oh, final, 0, 0, tables, [])
    {
      this.c, this.tables, insertTargetOH, insertFinal := c, tables, oh, final;
      state, stash, cleanupAddr, lookupInProgress, pipeline := Idle, x.(origin := Delete), 0, 0, [];
    }

    /** One clock edge; the results are what the two result ports show before it. */
    method Clk(i: Inputs) returns (insertRes: InsertRes, lookupRes: LookupRes)
      requires Valid()
      modifies this
      ensures State() == Step(c, old(State()), i)
      ensures insertRes == InsertResult(old(State())) && lookupRes == LookupResult(old(State()), i)
    {
      insertRes := DriveInsertRes();
      lookupRes := DriveLookupRes(i);
      var cleanLast := cleanupAddr == c.items - 1;
      var stateNext := Fsm(i, cleanLast);
      var stashNext := StashLoad(i, stateNext);
      var tablesNext := DriveTables();
      var count := CountLookups(i, lookupRes);
      var pipelineNext := MovePipeline(i, stateNext);
      var targetNext, finalNext := ResolveTarget(i);
      if state == Cleaning {
        cleanupAddr := if cleanLast then 0 else cleanupAddr + 1;
      }
      insertTargetOH, insertFinal := targetNext, finalNext;
      state, stash, tables, lookupInProgress, pipeline := stateNext, stashNext, tablesNext, count, pipelineNext;
    }

    /** `tables_lookupRes_resolver` */
    method ResolveTarget(i: Inputs) returns (oh: seq<bool>, final: bool)
      requires Valid()
      ensures oh == if state == LookupResWaitRd && ResVld(State(), i)
                    then NextTarget(insertTargetOH, pipeline[0])
                    else insertTargetOH
      ensures final == if state == LookupResWaitRd && ResVld(State(), i)
                       then true in FoundOH(pipeline[0]) || true in EmptyOH(pipeline[0])
                       else insertFinal
    {
      oh, final := insertTargetOH, insertFinal;
      if state == LookupResWaitRd && i.resVld && pipeline != [] {
        var found, free := FoundOH(pipeline[0]), EmptyOH(pipeline[0]);
        if true in found {
          oh := found;
        } else if true in free {
          oh := OneHot(First(free, 0), c.tableCnt);
        } else if true in insertTargetOH {
          oh := RotateRight(insertTargetOH);
        } else {
          oh := OneHot(c.tableCnt - 1, c.tableCnt);
        }
        final := true in found || true in free;
      }
    }

    method MovePipeline(i: Inputs, stateNext: FsmState) returns (n: seq<Entry>)
      requires Valid() && (state == LookupResAck ==> stateNext == NextState(State(), i, false))
      ensures n == NextPipe(c, State(), i)
    {
      n := pipeline;
      if state == Idle && i.lookupResRd && i.resVld && pipeline != [] {
        n := n[1..];
      }
      if state == LookupResAck && stateNext != LookupResAck {
        n := n[1..];
      }
      if TablesLookUp(State(), i) {
        n := n + [ReadTables(c, tables, stash.key)];
      }
    }

    method DriveInsertRes() returns (res: InsertRes)
      ensures res == InsertResult(State())
    {
      var vld := false;
      if state == Lookup { vld := stash.origin == Insert && stash.reinsertCntr == 0; }
      if state == LookupResAck { vld := insertFinal && stash.origin != Delete; }
      res := InsertRes(vld, stash.key, stash.data, stash.reinsertCntr == 0);
    }

    method DriveLookupRes(i: Inputs) returns (res: LookupRes)
      requires Valid()
      ensures res == LookupResult(State(), i)
    {
      if pipeline == [] {
        return LookupRes(false, false, Item(0, 0, false));
      }
      var e, t := pipeline[0], 0;
      while t < c.tableCnt && !(e.items[t].vld && e.items[t].key == e.key)
        invariant t <= c.tableCnt
        invariant First(FoundOH(e), 0) == First(FoundOH(e), t)
      {
        t := t + 1;
      }
      var vld := state == Idle && i.resVld;
      res := if t < c.tableCnt then LookupRes(vld, true, e.items[t]) else LookupRes(vld, false, e.items[0]);
    }

    method Fsm(i: Inputs, cleanLast: bool) returns (n: FsmState)
      requires Valid()
      ensures n == NextState(State(), i, cleanLast)
    {
      var lookupNotInProgress := lookupInProgress == 0 && stash.origin != LookupOp;
      var timeout := stash.reinsertCntr == 0 && stash.origin == Insert;
      n := state;
      match state
      case Idle =>
        if lookupNotInProgress {
          if i.cleanVld { n := Cleaning; } else if i.insertVld || i.deleteVld { n := Lookup; }
        }
      case Cleaning =>
        if cleanLast { n := Idle; }
      case Lookup =>
        if timeout {
          if i.insertResRd { n := Idle; }
        } else if i.tabRd {
          n := LookupResWaitRd;
        }
      case LookupResWaitRd =>
        if i.resVld && pipeline != [] { n := LookupResAck; }
      case LookupResAck =>
        if stash.origin == Delete {
          n := Idle;
        } else if !insertFinal {
          n := Lookup;
        } else if i.insertResRd {
          n := Idle;
        }
    }

    method StashLoad(i: Inputs, stateNext: FsmState) returns (n: Stash)
      requires Valid() && (state == LookupResAck ==> stateNext == NextState(State(), i, false))
      ensures n == NextStash(c, State(), i)
    {
      n := stash;
      if state == Idle {
        var free := lookupInProgress == 0 && stash.origin != LookupOp;
        if free && i.cleanVld {
          n := n.(origin := Delete, itemVld := false);
        } else if free && i.deleteVld {
          n := n.(origin := Delete, key := i.deleteKey, itemVld := false);
        } else if free && i.insertVld {
          n := Stash(i.insertKey, i.insertData, c.maxReinsert, true, Insert);
        } else if LookupTaken(c, State(), i) {
          n := n.(origin := LookupOp, key := i.lookupKey);
        } else if i.tabRd {
          n := n.(origin := Delete, key := i.x.key);
        }
      } else if state == LookupResAck && stateNext != LookupResAck {
        var t := FirstTarget();
        if t == c.tableCnt {
          n := i.x.(origin := Delete);
        } else {
          var item := pipeline[0].items[t];
          var cntr := if stash.reinsertCntr == 0 then i.x.reinsertCntr else stash.reinsertCntr - 1;
          n := Stash(item.key, item.data, cntr, item.vld, stash.origin);
        }
      }
    }

    method FirstTarget() returns (t: nat)
      requires Valid()
      ensures t == First(insertTargetOH, 0)
    {
      t := 0;
      while t < c.tableCnt && !insertTargetOH[t]
        invariant t <= c.tableCnt && First(insertTargetOH, 0) == First(insertTargetOH, t)
      {
        t := t + 1;
      }
    }

    /** Every table has its own write enable; address and data are common. */
    method DriveTables() returns (n: Tables)
      requires Valid()
      ensures n == NextTables(c, State())
    {
      n := tables;
      var t := FirstTarget();
      var item := Item(stash.key, stash.data, stash.itemVld);
      if state == Cleaning || (state == LookupResAck && t < c.tableCnt) {
        for j := 0 to c.tableCnt
          invariant |n| == c.tableCnt
          invariant forall k :: 0 <= k < c.tableCnt ==> n[k] == if k < j then NextTables(c, State())[k] else tables[k]
        {
          if state == Cleaning {
            n := n[j := n[j][cleanupAddr := item]];
          } else if insertTargetOH[j] {
            n := n[j := n[j][c.hash(t, pipeline[0].key) := item]];
          }
        }
      }
    }

    method CountLookups(i: Inputs, res: LookupRes) returns (n: nat)
      requires Valid() && res == LookupResult(State(), i)
      ensures n == NextCount(c, State(), i)
    {
      n := lookupInProgress;
      var taken, done := LookupTaken(c, State(), i), res.vld && i.lookupResRd;
      if taken && !done {
        n := n + 1;
      } else if !taken && done && n > 0 {
        n := n - 1;
      }
    }
  }
}
