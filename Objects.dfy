/**
 * The registry of one object class (Objects_Information) and its lifecycle
 * and lookup operations.
 *
 * Every control block of a class lives in a pool created when the class is
 * initialised; block `k` of the pool always carries the id of index `k + 1`
 * on the local node.  The local table maps an index to the block published
 * under it (null when the index is not open), the name table maps it to the
 * name the block was opened with (0 when not open), and the inactive chain
 * lists the indices of the blocks that are free, head first.
 */
module Objects {
  import opened ObjectIds

  datatype Option<T> = None | Some(value: T)

  /** Objects_Locations: OBJECTS_LOCAL (0), OBJECTS_REMOTE (1), OBJECTS_ERROR (2). */
  datatype Location = Local | Remote | Error

  /** The status codes a name search returns. */
  datatype Status = Successful | InvalidName | NotFound

  /** Objects_Control: the header every control block starts with. */
  class ObjectControl {
    const id: Id

    constructor (id: Id)
      ensures this.id == id
    {
      this.id := id;
    }
  }

  /** A snapshot of a local table: slot `i` holds the block open under index `i`. */
  type Table = seq<ObjectControl?>

  /** No index occurs twice in a chain. */
  predicate Distinct(s: seq<nat>) {
    forall a, b :: 0 <= a < b < |s| ==> s[a] != s[b]
  }

  /** Every index of a chain names a block of a pool of `n` blocks. */
  predicate InRange(s: seq<nat>, n: nat) {
    forall j :: 0 <= j < |s| ==> 1 <= s[j] <= n
  }

  /** A chain that holds any index at all needs a pool of at least one block. */
  lemma NonEmptyNeedsRoom(s: seq<nat>, n: nat)
    requires InRange(s, n)
    ensures |s| > 0 ==> n >= 1
  {
    if |s| > 0 {
      assert 1 <= s[0] <= n;
    }
  }

  /**
   * A chain of distinct indices of a pool of `n` blocks holds at most `n`
   * of them: a class never hands out more blocks than it was configured with.
   */
  lemma {:induction false} DistinctInRangeBound(s: seq<nat>, n: nat)
    requires Distinct(s) && InRange(s, n)
    ensures |s| <= n
  {
    if n == 0 {
      NonEmptyNeedsRoom(s, n);
    } else if p :| 0 <= p < |s| && s[p] == n {
      var rest := s[..p] + s[p + 1..];
      assert |rest| == |s| - 1;
      forall j | 0 <= j < |rest|
        ensures 1 <= rest[j] <= n - 1
      {
        if j < p {
          assert rest[j] == s[j];
        } else {
          assert rest[j] == s[j + 1];
        }
      }
      forall a, b | 0 <= a < b < |rest|
        ensures rest[a] != rest[b]
      {
        var a' := if a < p then a else a + 1;
        var b' := if b < p then b else b + 1;
        assert rest[a] == s[a'] && rest[b] == s[b'];
      }
      DistinctInRangeBound(rest, n - 1);
    } else {
      forall j | 0 <= j < |s|
        ensures 1 <= s[j] <= n - 1
      {
      }
      DistinctInRangeBound(s, n - 1);
    }
  }

  /** The indices a chain holds. */
  ghost function Elements(s: seq<nat>): set<nat> {
    set j | j in s
  }

  /** The indices `1..n` of a pool of `n` blocks, in order. */
  function AllIndices(n: nat): (s: seq<nat>)
    ensures |s| == n && Distinct(s) && InRange(s, n)
  {
    seq(n, j => j + 1)
  }

  /** A chain of distinct indices holds as many indices as it has entries. */
  lemma {:induction false} DistinctSize(s: seq<nat>)
    requires Distinct(s)
    ensures |Elements(s)| == |s|
  {
    if |s| > 0 {
      var init, last := s[..|s| - 1], s[|s| - 1];
      assert Distinct(init);
      DistinctSize(init);
      assert s == init + [last];
      assert last !in init by {
        forall a | 0 <= a < |init|
          ensures init[a] != last
        {
          assert init[a] == s[a];
        }
      }
      assert Elements(s) == Elements(init) + {last};
    }
  }

  /**
   * The shape of a consistent pair of tables over `pool`: slot 0 is never
   * used, an open slot holds the pool block of that index, and a slot that
   * is not open carries the null name.
   */
  predicate TablesConsistent(t: Table, names: seq<Name>, pool: seq<ObjectControl>) {
    && |t| == |pool| + 1 && |names| == |pool| + 1
    && t[0] == null && names[0] == 0
    && (forall i :: 1 <= i < |t| ==> t[i] == null || t[i] == pool[i - 1])
    && (forall i :: 1 <= i < |t| && t[i] == null ==> names[i] == 0)
  }

  /**
   * The classification _Objects_Get makes of `id`: a local id whose index
   * is open is LOCAL, an id of another node is REMOTE when the class
   * supports global objects and the id names a global object (`globalId`,
   * the answer of the global table), and everything else is an ERROR.
   */
  function Locate(t: Table, localNode: u32, supportsGlobal: bool, globalId: bool, id: Id): Location {
    if IsLocalId(id, localNode) then
      if 1 <= GetIndex(id) < |t| && t[GetIndex(id)] != null then Local else Error
    else if supportsGlobal && globalId then Remote
    else Error
  }

  /** Publishing a block under index `i` makes the local id of `i` resolve locally. */
  lemma OpenedIdIsLocal(t: Table, localNode: u32, supportsGlobal: bool, globalId: bool, i: nat, obj: ObjectControl)
    requires InField(localNode) && 1 <= i < |t| && i <= FIELD_MAX
    ensures Locate(t[i := obj], localNode, supportsGlobal, globalId, BuildId(localNode, i)) == Local
  {
  }

  /** Clearing index `i` makes the local id of `i` an error, whatever the class. */
  lemma ClosedIdIsError(t: Table, localNode: u32, supportsGlobal: bool, globalId: bool, i: nat)
    requires InField(localNode) && 1 <= i < |t| && i <= FIELD_MAX
    ensures Locate(t[i := null], localNode, supportsGlobal, globalId, BuildId(localNode, i)) == Error
  {
  }

  /** Writing slot `i` changes the classification of no id with another index. */
  lemma OtherIdsUnaffected(t: Table, localNode: u32, supportsGlobal: bool, globalId: bool, i: nat, x: ObjectControl?, id: Id)
    requires 1 <= i < |t| && GetIndex(id) != i
    ensures Locate(t[i := x], localNode, supportsGlobal, globalId, id) == Locate(t, localNode, supportsGlobal, globalId, id)
  {
  }

  /** The lowest open slot of `t` at or after `k`, if any. */
  function FirstOpen(t: Table, k: nat): (r: Option<nat>)
    decreases |t| - k
    ensures r.Some? ==> k <= r.value < |t| && t[r.value] != null
    ensures r.Some? ==> forall i :: k <= i < r.value ==> t[i] == null
    ensures r.None? ==> forall i :: k <= i < |t| ==> t[i] == null
  {
    if k >= |t| then None
    else if t[k] != null then Some(k)
    else FirstOpen(t, k + 1)
  }

  /**
   * The indices reported by successive _Objects_Get_next calls when the
   * first call starts at index `k` and each later call starts at the next
   * id the previous one returned.
   */
  function Visits(t: Table, k: nat): seq<nat>
    decreases |t| - k
  {
    match FirstOpen(t, k)
    case None => []
    case Some(j) => [j] + Visits(t, j + 1)
  }

  /**
   * Iteration completeness: the visits from `k` are exactly the open slots
   * at or after `k`, each once, in ascending order.
   */
  lemma {:induction false} VisitsAreOpenSlots(t: Table, k: nat)
    decreases |t| - k
    ensures forall j :: j in Visits(t, k) <==> k <= j < |t| && t[j] != null
    ensures forall a, b :: 0 <= a < b < |Visits(t, k)| ==> Visits(t, k)[a] < Visits(t, k)[b]
  {
    match FirstOpen(t, k)
    case None =>
    case Some(j) =>
      VisitsAreOpenSlots(t, j + 1);
      var rest := Visits(t, j + 1);
      assert Visits(t, k) == [j] + rest;
      forall a, b | 0 <= a < b < |Visits(t, k)|
        ensures Visits(t, k)[a] < Visits(t, k)[b]
      {
        if a == 0 {
          assert Visits(t, k)[b] == rest[b - 1];
          assert rest[b - 1] in rest;
        } else {
          assert Visits(t, k)[a] == rest[a - 1] && Visits(t, k)[b] == rest[b - 1];
        }
      }
  }

  /** Slot `i` is open under `name`. */
  predicate Named(t: Table, names: seq<Name>, name: Name, i: nat) {
    i < |t| && i < |names| && t[i] != null && names[i] == name
  }

  /** The lowest slot at or after `k` that is open under `name`, if any. */
  function FirstNamed(t: Table, names: seq<Name>, name: Name, k: nat): (r: Option<nat>)
    decreases |t| - k
    ensures r.Some? ==> k <= r.value && Named(t, names, name, r.value)
    ensures r.Some? ==> forall i :: k <= i < r.value ==> !Named(t, names, name, i)
    ensures r.None? ==> forall i :: k <= i ==> !Named(t, names, name, i)
  {
    if k >= |t| then None
    else if Named(t, names, name, k) then Some(k)
    else FirstNamed(t, names, name, k + 1)
  }

  /** The node selectors under which a name search scans this node's table. */
  predicate SearchesLocalNode(node: u32, localNode: u32) {
    node == SEARCH_ALL_NODES || node == SEARCH_LOCAL_NODE || IsLocalNode(node, localNode)
  }

  /** The node selectors under which a name search goes on to other nodes. */
  predicate SearchesOtherNodes(node: u32, localNode: u32) {
    !(node == SEARCH_LOCAL_NODE || IsLocalNode(node, localNode))
  }

  /** Objects_Information: the registry of one object class. */
  class Registry {
    /** _Objects_Local_node at the time the class was initialised. */
    const localNode: u32
    /** Whether the class has a global table, i.e. supports global objects. */
    const supportsGlobal: bool
    const maximum: nat
    const minimumId: Id
    const maximumId: Id
    /** The control blocks of the class; block `k` carries index `k + 1`. */
    const pool: seq<ObjectControl>
    const localTable: array<ObjectControl?>
    const nameTable: array<Name>
    /** The Inactive chain, as the indices of its blocks from head to tail. */
    var inactive: seq<nat>

    ghost predicate Valid()
      reads this, localTable, nameTable
    {
      && InField(localNode)
      && maximum < ID_FINAL_INDEX
      && minimumId == BuildId(localNode, 1)
      && maximumId == BuildId(localNode, maximum)
      && |pool| == maximum
      && (forall k :: 0 <= k < |pool| ==> pool[k].id == BuildId(localNode, (k + 1)))
      && TablesConsistent(localTable[..], nameTable[..], pool)
      && Distinct(inactive) && InRange(inactive, maximum)
      && (forall j :: 0 <= j < |inactive| ==> localTable[inactive[j]] == null)
    }

    /** The number of blocks currently held outside the inactive chain. */
    ghost function InUse(): (n: nat)
      reads this, localTable, nameTable
      requires Valid()
      ensures n <= maximum && n + |inactive| == maximum
    {
      DistinctInRangeBound(inactive, maximum);
      maximum - |inactive|
    }

    /**
     * The blocks in use, counted one by one: the indices of the pool that are
     * not on the inactive chain number exactly `InUse()`.
     */
    lemma HeldBlocks()
      requires Valid()
      ensures |Elements(AllIndices(maximum)) - Elements(inactive)| == InUse()
    {
      var all, chain := Elements(AllIndices(maximum)), Elements(inactive);
      DistinctSize(AllIndices(maximum));
      DistinctSize(inactive);
      assert chain <= all by {
        forall j | j in chain
          ensures j in all
        {
          var p :| 0 <= p < |inactive| && inactive[p] == j;
          assert AllIndices(maximum)[j - 1] == j;
        }
      }
      assert all * chain == chain;
    }

    /** The pool position of a block follows from the index in its id. */
    lemma PoolSlot(obj: ObjectControl)
      requires Valid() && obj in pool
      ensures 1 <= GetIndex(obj.id) <= maximum
      ensures pool[GetIndex(obj.id) - 1] == obj
      ensures obj.id == BuildId(localNode, GetIndex(obj.id))
    {
    }

    /**
     * _Objects_Initialize_information: a class of `maximum` blocks, all on
     * the inactive chain in index order, with empty local and name tables.
     */
    constructor (localNode: u32, supportsGlobal: bool, maximum: nat)
      requires InField(localNode) && maximum < ID_FINAL_INDEX
      ensures Valid() && fresh(localTable) && fresh(nameTable)
      ensures this.localNode == localNode && this.supportsGlobal == supportsGlobal
      ensures this.maximum == maximum
      ensures minimumId == BuildId(localNode, 1) && maximumId == BuildId(localNode, maximum)
      ensures inactive == AllIndices(maximum)
      ensures forall i :: 0 <= i < localTable.Length ==> localTable[i] == null
      ensures forall i :: 0 <= i < nameTable.Length ==> nameTable[i] == 0
    {
      var blocks: seq<ObjectControl> := [];
      var index := 1;
      while index <= maximum
        invariant 1 <= index <= maximum + 1
        invariant |blocks| == index - 1
        invariant forall k :: 0 <= k < |blocks| ==> blocks[k].id == BuildId(localNode, (k + 1))
      {
        var block := new ObjectControl(BuildId(localNode, index));
        blocks := blocks + [block];
        index := index + 1;
      }
      this.localNode := localNode;
      this.supportsGlobal := supportsGlobal;
      this.maximum := maximum;
      minimumId := BuildId(localNode, 1);
      maximumId := BuildId(localNode, maximum);
      pool := blocks;
      localTable := new ObjectControl?[maximum + 1](_ => null);
      nameTable := new Name[maximum + 1](_ => 0);
      inactive := AllIndices(maximum);
    }

    /**
     * _Objects_Allocate: takes the block at the head of the inactive chain,
     * or returns null when the chain is empty.
     */
    method Allocate() returns (obj: ObjectControl?)
      requires Valid()
      modifies this
      ensures Valid()
      ensures old(inactive) == [] ==> obj == null && inactive == []
      ensures old(inactive) != [] ==>
                obj == pool[old(inactive)[0] - 1] && inactive == old(inactive)[1..]
      ensures obj != null ==> obj in pool && localTable[GetIndex(obj.id)] == null
      ensures obj == null <==> old(InUse()) == maximum
      ensures InUse() == if obj == null then old(InUse()) else old(InUse()) + 1
    {
      if inactive == [] {
        obj := null;
      } else {
        obj := pool[inactive[0] - 1];
        PoolSlot(obj);
        inactive := inactive[1..];
      }
    }

    /**
     * _Objects_Free: returns a block to the tail of the inactive chain, first
     * clearing its slot in case it is still published.
     */
    method Free(obj: ObjectControl)
      requires Valid() && obj in pool && GetIndex(obj.id) !in inactive
      modifies this, localTable, nameTable
      ensures Valid()
      ensures inactive == old(inactive) + [GetIndex(obj.id)]
      ensures localTable[..] == old(localTable[..])[GetIndex(obj.id) := null]
      ensures nameTable[..] == old(nameTable[..])[GetIndex(obj.id) := 0]
      ensures InUse() == old(InUse()) - 1
    {
      PoolSlot(obj);
      var index := GetIndex(obj.id);
      localTable[index] := null;
      nameTable[index] := 0;
      inactive := inactive + [index];
      DistinctInRangeBound(inactive, maximum);
    }

    /**
     * _Objects_Open: publishes an allocated block and its name under the
     * index of its id; afterwards its id resolves to it.
     */
    method Open(obj: ObjectControl, name: Name)
      requires Valid() && obj in pool && GetIndex(obj.id) !in inactive
      modifies localTable, nameTable
      ensures Valid()
      ensures localTable[..] == old(localTable[..])[GetIndex(obj.id) := obj]
      ensures nameTable[..] == old(nameTable[..])[GetIndex(obj.id) := name]
      ensures forall globalId: bool :: Locate(localTable[..], localNode, supportsGlobal, globalId, obj.id) == Local
    {
      PoolSlot(obj);
      var index := GetIndex(obj.id);
      localTable[index] := obj;
      nameTable[index] := name;
      forall globalId: bool
        ensures Locate(localTable[..], localNode, supportsGlobal, globalId, obj.id) == Local
      {
        OpenedIdIsLocal(old(localTable[..]), localNode, supportsGlobal, globalId, index, obj);
      }
    }

    /**
     * _Objects_Close: removes a block and its name from the tables; its id
     * no longer resolves.  The block stays off the inactive chain.
     */
    method Close(obj: ObjectControl)
      requires Valid() && obj in pool
      modifies localTable, nameTable
      ensures Valid()
      ensures localTable[..] == old(localTable[..])[GetIndex(obj.id) := null]
      ensures nameTable[..] == old(nameTable[..])[GetIndex(obj.id) := 0]
      ensures forall globalId: bool :: Locate(localTable[..], localNode, supportsGlobal, globalId, obj.id) == Error
    {
      PoolSlot(obj);
      var index := GetIndex(obj.id);
      localTable[index] := null;
      nameTable[index] := 0;
      forall globalId: bool
        ensures Locate(localTable[..], localNode, supportsGlobal, globalId, obj.id) == Error
      {
        ClosedIdIsError(old(localTable[..]), localNode, supportsGlobal, globalId, index);
      }
    }

    /**
     * _Objects_Get: maps an id to its block.  The block is returned only
     * for LOCAL, and it is the block carrying exactly that id.  Whether an
     * id of another node names a global object is the answer of the global
     * table, `globalId`, which is consulted only for such ids.
     */
    method Get(id: Id, globalId: bool) returns (obj: ObjectControl?, location: Location)
      requires Valid()
      ensures location == Locate(localTable[..], localNode, supportsGlobal, globalId, id)
      ensures location == Local <==>
                IsLocalId(id, localNode) && 1 <= GetIndex(id) <= maximum
                && localTable[GetIndex(id)] != null
      ensures location == Remote <==> supportsGlobal && globalId && !IsLocalId(id, localNode)
      ensures location == Local ==>
                obj == localTable[GetIndex(id)] && obj != null && obj.id == id
      ensures location != Local ==> obj == null
    {
      if IsLocalId(id, localNode) {
        var index := GetIndex(id);
        if 1 <= index <= maximum && localTable[index] != null {
          obj, location := localTable[index], Local;
          BuildIdOfParts(id);
          assert pool[index - 1].id == BuildId(localNode, index);
          return;
        }
        obj, location := null, Error;
      } else if supportsGlobal && globalId {
        obj, location := null, Remote;
      } else {
        obj, location := null, Error;
      }
    }

    /** The id a Get_next scan starts from: the class's first id for the initial index. */
    function ScanStart(id: Id): Id
      reads this
    {
      if GetIndex(id) == ID_INITIAL_INDEX then minimumId else id
    }

    /**
     * The slot a Get_next scan from `id` stops at: the first open slot from
     * the scan's start index when the scan is on the local node, else none.
     */
    function NextOpen(id: Id): Option<nat>
      reads this, localTable
    {
      var start := ScanStart(id);
      if IsLocalId(start, localNode) then FirstOpen(localTable[..], GetIndex(start)) else None
    }

    /**
     * _Objects_Get_next: like _Objects_Get, but finds the first open block
     * at or after the index of `id` (index 0 meaning the first index), and
     * returns the id to continue from; once the scan passes the maximum it
     * reports an ERROR with the final id.
     */
    method GetNext(id: Id) returns (obj: ObjectControl?, location: Location, nextId: Id)
      requires Valid()
      ensures location == Local || location == Error
      ensures location == Local <==> NextOpen(id).Some?
      ensures NextOpen(id).Some? ==>
                && obj == localTable[NextOpen(id).value] && obj != null
                && nextId == BuildId(localNode, NextOpen(id).value + 1)
      ensures NextOpen(id).None? ==> location == Error && obj == null && nextId == ID_FINAL
    {
      var next := ScanStart(id);
      ghost var start := next;
      assert 1 <= GetIndex(start);
      while GetIndex(next) <= maximum
        invariant GetNode(next) == GetNode(start) && GetIndex(start) <= GetIndex(next)
        invariant GetIndex(next) <= maximum + 1 || next == start
        invariant IsLocalId(start, localNode) ==>
                    forall i :: GetIndex(start) <= i < GetIndex(next) ==>
                      i < localTable.Length && localTable[i] == null
        decreases maximum + 1 - GetIndex(next)
      {
        // Every id the scan visits is on the start's node and only LOCAL
        // stops it, so the global table has nothing to add.
        var candidate, where := Get(next, false);
        NextIndexSameNode(next);
        next := next + 1;
        if where == Local {
          BuildIdOfParts(next);
          return candidate, Local, next;
        }
      }
      obj, location, nextId := null, Error, ID_FINAL;
    }

    /**
     * _Objects_Name_to_id: the id of an open block of this class named
     * `name`.  The local table is scanned when the selector covers the local
     * node and the lowest matching index wins; when nothing matches locally,
     * the class supports global objects and the selector covers other nodes,
     * the answer of the global name search, `remote`, is returned as it is.
     * A class without global objects never looks beyond this node.
     */
    method NameToId(name: Name, node: u32, remote: (Status, Id)) returns (status: Status, id: Id)
      requires Valid()
      ensures !IsNameValid(name) ==> status == InvalidName
      ensures var found := FirstNamed(localTable[..], nameTable[..], name, 1);
              IsNameValid(name) && SearchesLocalNode(node, localNode) && found.Some? ==>
                status == Successful && id == BuildId(localNode, found.value)
                && (forall globalId: bool :: Locate(localTable[..], localNode, supportsGlobal, globalId, id) == Local)
                && nameTable[found.value] == name
      ensures var found := FirstNamed(localTable[..], nameTable[..], name, 1);
              IsNameValid(name) && !(SearchesLocalNode(node, localNode) && found.Some?) ==>
                if supportsGlobal && SearchesOtherNodes(node, localNode) then (status, id) == remote
                else status == NotFound
    {
      id := 0;
      if !IsNameValid(name) {
        return InvalidName, id;
      }
      if SearchesLocalNode(node, localNode) {
        var index := 1;
        while index <= maximum
          invariant 1 <= index <= maximum + 1
          invariant forall i :: 1 <= i < index ==> !Named(localTable[..], nameTable[..], name, i)
        {
          if nameTable[index] == name {
            id := BuildId(localNode, index);
            assert Named(localTable[..], nameTable[..], name, index);
            return Successful, id;
          }
          index := index + 1;
        }
        assert FirstNamed(localTable[..], nameTable[..], name, 1).None? by {
          assert !Named(localTable[..], nameTable[..], name, 0);
        }
      }
      if supportsGlobal && SearchesOtherNodes(node, localNode) {
        return remote.0, remote.1;
      }
      return NotFound, id;
    }
  }
}
