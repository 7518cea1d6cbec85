/**
 * Clients of the registry that use only the contracts of its operations,
 * the way a manager's create, delete and ident directives use them.
 */
module ObjectScenarios {
  import opened ObjectIds
  import opened Objects

  const AAAA: Name := BuildName(0x41, 0x41, 0x41, 0x41)
  const BBBB: Name := BuildName(0x42, 0x42, 0x42, 0x42)
  const CCCC: Name := BuildName(0x43, 0x43, 0x43, 0x43)
  const DDDD: Name := BuildName(0x44, 0x44, 0x44, 0x44)

  /**
   * A create directive: allocate the block at the head of the inactive
   * chain and open it under `name`.
   */
  method Create(r: Registry, name: Name) returns (obj: ObjectControl)
    requires r.Valid() && r.inactive != []
    modifies r, r.localTable, r.nameTable
    ensures r.Valid()
    ensures obj == r.pool[old(r.inactive)[0] - 1] && r.inactive == old(r.inactive)[1..]
    ensures r.localTable[..] == old(r.localTable[..])[old(r.inactive)[0] := obj]
    ensures r.nameTable[..] == old(r.nameTable[..])[old(r.inactive)[0] := name]
  {
    var a := r.Allocate();
    obj := a;
    r.PoolSlot(obj);
    r.Open(obj, name);
  }

  /**
   * A nameable class of three blocks on node 1 in which "AAAA", "BBBB" and
   * "CCCC" are created in turn: they get indices 1, 2 and 3 and exhaust
   * the class.
   */
  method CreateThree() returns (r: Registry)
    ensures r.Valid() && fresh(r.localTable) && fresh(r.nameTable)
    ensures r.localNode == 1 && !r.supportsGlobal && r.maximum == 3 && r.inactive == []
    ensures GetIndex(r.pool[0].id) == 1 && GetIndex(r.pool[1].id) == 2 && GetIndex(r.pool[2].id) == 3
    ensures r.localTable[..] == [null, r.pool[0], r.pool[1], r.pool[2]]
    ensures r.nameTable[..] == [0, AAAA, BBBB, CCCC]
  {
    r := new Registry(1, false, 3);
    assert r.inactive == [1, 2, 3];
    var a := Create(r, AAAA);
    var b := Create(r, BBBB);
    var c := Create(r, CCCC);
    assert GetIndex(r.pool[0].id) == 1 && GetIndex(r.pool[1].id) == 2 && GetIndex(r.pool[2].id) == 3;
    var full := r.Allocate();
    assert full == null;
  }

  /**
   * After the three creates, delete "BBBB" (get, close, free) and create
   * "DDDD": the deleted id no longer resolves, "DDDD" reuses index 2, and
   * looking "BBBB" up on the local node finds nothing.
   */
  method DeleteAndReuse() returns (stale: Location, reused: u32, lookup: Status)
    ensures stale == Error
    ensures reused == 2
    ensures lookup == NotFound
  {
    var r := CreateThree();
    var b := r.pool[1];
    var found, where := r.Get(b.id, false);
    assert where == Local && found == b;
    r.Close(b);
    r.Free(b);
    var gone;
    gone, stale := r.Get(b.id, false);

    var d := r.Allocate();
    assert d == b;
    r.Open(d, DDDD);
    reused := GetIndex(d.id);

    assert r.nameTable[..] == [0, AAAA, DDDD, CCCC];
    var id;
    lookup, id := r.NameToId(BBBB, SEARCH_LOCAL_NODE, (NotFound, 0));
  }

  /**
   * After the three creates and the close of index 2, a Get_next walk from
   * the initial id reports index 1, then index 3, then the end of the class.
   */
  method WalkSkipsClosed() returns (first: ObjectControl?, second: ObjectControl?, last: Location, lastId: Id)
    ensures first != null && GetIndex(first.id) == 1
    ensures second != null && GetIndex(second.id) == 3
    ensures last == Error && lastId == ID_FINAL
  {
    var r := CreateThree();
    r.Close(r.pool[1]);
    assert r.localTable[..] == [null, r.pool[0], null, r.pool[2]];
    var where, next;
    first, where, next := r.GetNext(IdInitial(1));
    assert FirstOpen(r.localTable[..], 1) == Some(1);
    second, where, next := r.GetNext(next);
    assert FirstOpen(r.localTable[..], 2) == Some(3);
    var none;
    none, last, lastId := r.GetNext(next);
    assert FirstOpen(r.localTable[..], 4) == None;
  }

  /**
   * In the class of the three creates, which has no global objects, a name
   * that is not open locally is not found under any selector that would
   * reach other nodes, whatever another node would have answered.
   */
  method LocalClassStaysLocal() returns (all: Status, others: Status)
    ensures all == NotFound
    ensures others == NotFound
  {
    var r := CreateThree();
    assert r.nameTable[..] == [0, AAAA, BBBB, CCCC];
    var remote := (Successful, BuildId(2, 1));
    var id;
    all, id := r.NameToId(DDDD, SEARCH_ALL_NODES, remote);
    others, id := r.NameToId(DDDD, SEARCH_OTHER_NODES, remote);
  }

  /**
   * Reporting slot `last` leaves the visits after it, which start at the next
   * open slot, if any.
   */
  lemma VisitStep(seen: seq<nat>, t: Table, last: nat)
    requires FirstOpen(t, last) == Some(last)
    ensures seen + Visits(t, last) == (seen + [last]) + Visits(t, last + 1)
    ensures FirstOpen(t, last + 1).None? ==> Visits(t, last + 1) == []
    ensures FirstOpen(t, last + 1).Some? ==>
              var j := FirstOpen(t, last + 1).value;
              FirstOpen(t, j) == Some(j) && Visits(t, last + 1) == Visits(t, j)
  {
  }

  /**
   * The walk a manager makes over a class: Get_next from the initial id,
   * then from each id it hands back, until it reports ERROR.  The indices
   * it reports are exactly `Visits`, i.e. every open slot once, ascending.
   */
  method Walk(r: Registry) returns (seen: seq<nat>)
    requires r.Valid()
    ensures seen == Visits(r.localTable[..], 1)
  {
    ghost var t := r.localTable[..];
    seen := [];
    var obj, location, next := r.GetNext(IdInitial(r.localNode));
    ghost var last: nat := if location == Local then FirstOpen(t, 1).value else 0;
    while location == Local
      invariant location == Local || location == Error
      invariant location == Local ==>
                  && 1 <= last <= r.maximum && GetIndex(next) == last + 1 && IsLocalId(next, r.localNode)
                  && FirstOpen(t, last) == Some(last) && seen + Visits(t, last) == Visits(t, 1)
      invariant location == Error ==> seen == Visits(t, 1)
      decreases if location == Local then r.maximum + 1 - last else 0
    {
      VisitStep(seen, t, last);
      seen := seen + [GetIndex(next) - 1];
      assert r.NextOpen(next) == FirstOpen(t, last + 1);
      ghost var found := FirstOpen(t, last + 1);
      obj, location, next := r.GetNext(next);
      if location == Local {
        last := found.value;
      }
    }
  }

  /**
   * In a class with global objects on node 1, an id of node 2 is REMOTE
   * only when the global table knows it as a global object; otherwise it
   * is an ERROR, like any id that names nothing.
   */
  method ForeignIds() returns (known: Location, unknown: Location)
    ensures known == Remote
    ensures unknown == Error
  {
    var r := new Registry(1, true, 3);
    var obj;
    obj, known := r.Get(BuildId(2, 1), true);
    obj, unknown := r.Get(BuildId(2, 0xFFFE), false);
  }
}
