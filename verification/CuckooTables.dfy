/** The tables of a cuckoo hash: what they contain, and what one write to them does. */
module CuckooTables {
  type Key = nat
  type Data = nat

  /** One cell: `item_vld`, `data` and `key`. */
  datatype Item = Item(key: Key, data: Data, vld: bool)

  type Tables = seq<seq<Item>>

  /** Table count and size, the hash function of every table, and the limits of the component. */
  datatype Config = Config(tableCnt: nat, items: nat, hash: (nat, Key) -> nat, maxReinsert: nat, maxOverlap: nat)

  ghost predicate ValidConfig(c: Config) {
    && c.tableCnt > 0 && c.items > 0 && c.maxReinsert > 0 && c.maxOverlap >= 2
    && forall i, k {:trigger c.hash(i, k)} :: c.hash(i, k) < c.items
  }

  ghost predicate Shape(c: Config, tabs: Tables) {
    && ValidConfig(c) && |tabs| == c.tableCnt
    && forall i :: 0 <= i < c.tableCnt ==> |tabs[i]| == c.items
  }

  /** The cell of table `i` that may hold `k`. */
  function Cell(c: Config, tabs: Tables, i: nat, k: Key): Item
    requires Shape(c, tabs) && i < c.tableCnt
  {
    tabs[i][c.hash(i, k)]
  }

  predicate Found(c: Config, tabs: Tables, i: nat, k: Key)
    requires Shape(c, tabs) && i < c.tableCnt
  {
    Cell(c, tabs, i, k).vld && Cell(c, tabs, i, k).key == k
  }

  /** Every item is in the cell its hash says, and no key is in two tables. */
  ghost predicate WellPlaced(c: Config, tabs: Tables) {
    && Shape(c, tabs)
    && (forall i, a :: 0 <= i < c.tableCnt && 0 <= a < c.items && tabs[i][a].vld ==> c.hash(i, tabs[i][a].key) == a)
    && (forall i, j, k :: 0 <= i < j < c.tableCnt && Found(c, tabs, i, k) ==> !Found(c, tabs, j, k))
  }

  ghost predicate Has(c: Config, tabs: Tables, k: Key)
    requires Shape(c, tabs)
  {
    exists i :: 0 <= i < c.tableCnt && Found(c, tabs, i, k)
  }

  /** The tables agree with the map `m` about the key `k`. */
  ghost predicate AgreesOn(c: Config, tabs: Tables, m: map<Key, Data>, k: Key)
    requires Shape(c, tabs)
  {
    && (Has(c, tabs, k) <==> k in m)
    && forall i :: 0 <= i < c.tableCnt && Found(c, tabs, i, k) ==> k in m && Cell(c, tabs, i, k).data == m[k]
  }

  /** The tables hold exactly the bindings of `m`. */
  ghost predicate Represents(c: Config, tabs: Tables, m: map<Key, Data>) {
    WellPlaced(c, tabs) && forall k :: AgreesOn(c, tabs, m, k)
  }

  /** The tables hold exactly the bindings of `m`, except perhaps for the key `e`. */
  ghost predicate RepresentsBut(c: Config, tabs: Tables, m: map<Key, Data>, e: Key) {
    WellPlaced(c, tabs) && forall k :: k != e ==> AgreesOn(c, tabs, m, k)
  }

  function Write(c: Config, tabs: Tables, t: nat, k: Key, item: Item): (r: Tables)
    requires Shape(c, tabs) && t < c.tableCnt
    ensures Shape(c, r)
  {
    tabs[t := tabs[t][c.hash(t, k) := item]]
  }

  lemma FoundAfterWrite(c: Config, tabs: Tables, t: nat, item: Item, i: nat, k: Key)
    requires Shape(c, tabs) && t < c.tableCnt && i < c.tableCnt
    ensures var r := Write(c, tabs, t, item.key, item);
      && Cell(c, r, i, k) == (if i == t && c.hash(t, k) == c.hash(t, item.key) then item else Cell(c, tabs, i, k))
      && (Found(c, r, i, k) <==> if i == t && c.hash(t, k) == c.hash(t, item.key) then item.vld && item.key == k
                                 else Found(c, tabs, i, k))
  {
  }

  /** Writing an item into one of its own cells keeps the placement, if no other table has its key. */
  lemma WriteKeepsPlacement(c: Config, tabs: Tables, t: nat, item: Item)
    requires WellPlaced(c, tabs) && t < c.tableCnt
    requires forall i :: 0 <= i < c.tableCnt && i != t ==> !Found(c, tabs, i, item.key)
    ensures WellPlaced(c, Write(c, tabs, t, item.key, item))
  {
    var r := Write(c, tabs, t, item.key, item);
    forall i, j, k | 0 <= i < j < c.tableCnt && Found(c, r, i, k) ensures !Found(c, r, j, k) {
      FoundAfterWrite(c, tabs, t, item, i, k);
      FoundAfterWrite(c, tabs, t, item, j, k);
    }
  }

  /** Such a write changes what the tables say only about the written key and about the item it overwrites. */
  lemma WriteElsewhere(c: Config, tabs: Tables, m: map<Key, Data>, t: nat, item: Item, k: Key)
    requires WellPlaced(c, tabs) && t < c.tableCnt && k != item.key
    requires AgreesOn(c, tabs, m, k)
    requires var o := Cell(c, tabs, t, item.key); !(o.vld && o.key == k)
    ensures AgreesOn(c, Write(c, tabs, t, item.key, item), m, k)
  {
    var r := Write(c, tabs, t, item.key, item);
    forall i | 0 <= i < c.tableCnt
      ensures Found(c, r, i, k) <==> Found(c, tabs, i, k)
      ensures Found(c, r, i, k) ==> Cell(c, r, i, k) == Cell(c, tabs, i, k)
    {
      FoundAfterWrite(c, tabs, t, item, i, k);
    }
    if Has(c, tabs, k) {
      var i :| 0 <= i < c.tableCnt && Found(c, tabs, i, k);
      assert Found(c, r, i, k);
    }
  }

  /** About the written key the tables afterwards say exactly what was written. */
  lemma WriteHere(c: Config, tabs: Tables, m: map<Key, Data>, t: nat, item: Item)
    requires WellPlaced(c, tabs) && t < c.tableCnt
    requires forall i :: 0 <= i < c.tableCnt && i != t ==> !Found(c, tabs, i, item.key)
    requires item.vld <==> item.key in m
    requires item.vld ==> m[item.key] == item.data
    ensures AgreesOn(c, Write(c, tabs, t, item.key, item), m, item.key)
  {
    var r := Write(c, tabs, t, item.key, item);
    forall i | 0 <= i < c.tableCnt ensures Found(c, r, i, item.key) <==> i == t && item.vld {
      FoundAfterWrite(c, tabs, t, item, i, item.key);
    }
    assert item.vld ==> Found(c, r, t, item.key);
  }

  /** About the overwritten item they say that it is gone. */
  lemma WriteEvicts(c: Config, tabs: Tables, m: map<Key, Data>, t: nat, item: Item)
    requires WellPlaced(c, tabs) && t < c.tableCnt
    requires var o := Cell(c, tabs, t, item.key); o.vld && o.key != item.key && o.key !in m
    ensures AgreesOn(c, Write(c, tabs, t, item.key, item), m, Cell(c, tabs, t, item.key).key)
  {
    var r, o := Write(c, tabs, t, item.key, item), Cell(c, tabs, t, item.key);
    assert Found(c, tabs, t, o.key);
    forall i | 0 <= i < c.tableCnt ensures !Found(c, r, i, o.key) {
      FoundAfterWrite(c, tabs, t, item, i, o.key);
    }
  }

  /**
   The three uses of a write. The cell is free or has the key itself: the key's binding is
   stored (or, with an invalid item, removed), nothing else changes.
   */
  lemma StoreItem(c: Config, tabs: Tables, m: map<Key, Data>, t: nat, item: Item)
    requires RepresentsBut(c, tabs, m, item.key) && t < c.tableCnt
    requires forall i :: 0 <= i < c.tableCnt && i != t ==> !Found(c, tabs, i, item.key)
    requires var o := Cell(c, tabs, t, item.key); o.vld ==> o.key == item.key
    requires item.vld <==> item.key in m
    requires item.vld ==> m[item.key] == item.data
    ensures Represents(c, Write(c, tabs, t, item.key, item), m)
  {
    WriteKeepsPlacement(c, tabs, t, item);
    WriteHere(c, tabs, m, t, item);
    forall k | k != item.key ensures AgreesOn(c, Write(c, tabs, t, item.key, item), m, k) {
      WriteElsewhere(c, tabs, m, t, item, k);
    }
  }

  /** The cell has another item: that item is now the one the tables are missing. */
  lemma SwapItem(c: Config, tabs: Tables, m: map<Key, Data>, t: nat, item: Item)
    requires RepresentsBut(c, tabs, m, item.key) && t < c.tableCnt
    requires forall i :: 0 <= i < c.tableCnt ==> !Found(c, tabs, i, item.key)
    requires Cell(c, tabs, t, item.key).vld
    requires item.vld <==> item.key in m
    requires item.vld ==> m[item.key] == item.data
    ensures var o, r := Cell(c, tabs, t, item.key), Write(c, tabs, t, item.key, item);
      && o.key != item.key && o.key in m && m[o.key] == o.data
      && RepresentsBut(c, r, m, o.key) && !Has(c, r, o.key)
      && Represents(c, r, m - {o.key})
  {
    var o, r := Cell(c, tabs, t, item.key), Write(c, tabs, t, item.key, item);
    assert Found(c, tabs, t, o.key) && AgreesOn(c, tabs, m, o.key);
    WriteKeepsPlacement(c, tabs, t, item);
    WriteHere(c, tabs, m, t, item);
    WriteEvicts(c, tabs, m - {o.key}, t, item);
    forall k | k != o.key ensures AgreesOn(c, r, m, k) && AgreesOn(c, r, m - {o.key}, k) {
      if k != item.key { WriteElsewhere(c, tabs, m, t, item, k); }
    }
  }
}
