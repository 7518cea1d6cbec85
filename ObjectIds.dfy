/**
 * Identifier and name codec of the RTEMS Object Handler.
 *
 * An object id is a 32-bit word holding the node that owns the object in
 * its upper 16 bits and the object's index in its class table in its lower
 * 16 bits.  An object name is a 32-bit word holding four characters, the
 * first one in the most significant byte.
 *
 * Values the C code declares as `unsigned32` are modelled as integers in
 * [0, 2^32), and each bit operation is written as the arithmetic it performs
 * on such values: `x << k` is `x * 2^k` reduced modulo 2^32, `x >> k` is
 * `x / 2^k`, `x & (2^k - 1)` is `x % 2^k`, and `a | b` is `a + b` where the
 * bits of `a` and `b` do not overlap.
 */
module ObjectIds {

  const WORD: int := 0x1_0000_0000
  /** 2^16: one step of the node half of an id. */
  const HALF: int := 0x1_0000

  type u32 = x: int | 0 <= x < 0x1_0000_0000
  type Id = u32
  type Name = u32
  /** A character as one unsigned byte. */
  type Char = x: int | 0 <= x < 0x100

  /** Largest value that fits in either 16-bit half of an id. */
  const FIELD_MAX: u32 := 0xFFFF

  /** RTEMS_OBJECT_ID_INITIAL_INDEX and RTEMS_OBJECT_ID_FINAL_INDEX. */
  const ID_INITIAL_INDEX: u32 := 0
  const ID_FINAL_INDEX: u32 := 0xFFFF
  /** RTEMS_OBJECT_ID_FINAL, the id `~0` with every bit set. */
  const ID_FINAL: Id := 0xFFFF_FFFF

  /** The node selectors accepted by a name search. */
  const SEARCH_ALL_NODES: u32 := 0
  const SEARCH_OTHER_NODES: u32 := 0x7FFF_FFFE
  const SEARCH_LOCAL_NODE: u32 := 0x7FFF_FFFF

  /** Fits one 16-bit half of an id. */
  predicate InField(x: int) {
    0 <= x <= FIELD_MAX
  }

  /**
   * _Objects_Build_id: `(node << 16) | index`.  The node is shifted as a
   * 32-bit value, so a node wider than 16 bits loses its top bits; the index
   * must fit the low half, which every caller guarantees.
   */
  function BuildId(node: u32, index: u32): (id: Id)
    requires InField(index)
    ensures InField(node) ==> GetNode(id) == node
    ensures GetIndex(id) == index
  {
    (node * HALF) % WORD + index
  }

  /** rtems_get_node: `id >> 16`, the high half of an id. */
  function GetNode(id: Id): (node: u32)
    ensures InField(node)
  {
    id / HALF
  }

  /** rtems_get_index: `id & 0xFFFF`, the low half of an id. */
  function GetIndex(id: Id): (index: u32)
    ensures InField(index)
  {
    id % HALF
  }

  /** RTEMS_OBJECT_ID_INITIAL(node): the id on `node` with the initial index 0. */
  function IdInitial(node: u32): (id: Id)
    ensures InField(node) ==> GetNode(id) == node
    ensures GetIndex(id) == ID_INITIAL_INDEX
  {
    BuildId(node, ID_INITIAL_INDEX)
  }

  /** Every id is rebuilt from its own node and index: the codec loses nothing. */
  lemma BuildIdOfParts(id: Id)
    ensures BuildId(GetNode(id), GetIndex(id)) == id
  {
  }

  /** Two ids built from fields in range are equal only if their fields are. */
  lemma BuildIdInjective(n1: u32, i1: u32, n2: u32, i2: u32)
    requires InField(n1) && InField(i1) && InField(n2) && InField(i2)
    ensures BuildId(n1, i1) == BuildId(n2, i2) <==> n1 == n2 && i1 == i2
  {
  }

  /** The final id carries the final index, which no class table reaches. */
  lemma FinalIdFields()
    ensures GetIndex(ID_FINAL) == ID_FINAL_INDEX
    ensures GetNode(ID_FINAL) == FIELD_MAX
  {
  }

  /**
   * The `next_id++` of an id scan: when the index is below the final index,
   * adding one moves to the next index on the same node without wrapping.
   */
  lemma NextIndexSameNode(id: Id)
    requires GetIndex(id) < ID_FINAL_INDEX
    ensures id + 1 < WORD
    ensures GetNode(id + 1) == GetNode(id)
    ensures GetIndex(id + 1) == GetIndex(id) + 1
  {
  }

  /**
   * _Objects_Is_name_valid: only the all-zero name is invalid, so a name is
   * valid exactly when one of its four characters is not NUL.
   */
  predicate IsNameValid(name: Name): (valid: bool)
    ensures valid <==> NameToCharacters(name) != (0, 0, 0, 0)
  {
    if name == 0 then
      NameCharactersRoundTrip(0, 0, 0, 0);
      false
    else
      var cs := NameToCharacters(name);
      assert BuildName(cs.0, cs.1, cs.2, cs.3) != BuildName(0, 0, 0, 0);
      true
  }

  /** rtems_build_name: `c1 << 24 | c2 << 16 | c3 << 8 | c4`. */
  function BuildName(c1: Char, c2: Char, c3: Char, c4: Char): (name: Name)
    ensures name / 0x100_0000 == c1 && name % 0x100 == c4
  {
    c1 * 0x100_0000 + c2 * 0x1_0000 + c3 * 0x100 + c4
  }

  /** Dividing by 2^16 or 2^24 is dividing by 2^8 twice or three times. */
  lemma ShiftsCompose(x: nat)
    ensures x / 0x1_0000 == (x / 0x100) / 0x100
    ensures x / 0x100_0000 == (x / 0x1_0000) / 0x100
  {
  }

  /** The low byte and the rest of `hi * 2^8 + lo`. */
  lemma ByteSplit(hi: nat, lo: nat)
    requires lo < 0x100
    ensures (hi * 0x100 + lo) / 0x100 == hi && (hi * 0x100 + lo) % 0x100 == lo
  {
  }

  /**
   * rtems_name_to_characters: `(name >> 24) & 0xff`, `(name >> 16) & 0xff`,
   * `(name >> 8) & 0xff` and `name & 0xff`; packing them again gives the
   * name back.
   */
  function NameToCharacters(name: Name): (cs: (Char, Char, Char, Char))
    ensures BuildName(cs.0, cs.1, cs.2, cs.3) == name
  {
    ShiftsCompose(name);
    var q1 := name / 0x100;
    var q2 := q1 / 0x100;
    var q3 := q2 / 0x100;
    assert name == q1 * 0x100 + name % 0x100;
    assert q1 == q2 * 0x100 + q1 % 0x100;
    assert q2 == q3 * 0x100 + q2 % 0x100;
    assert q3 < 0x100;
    Unpack(name, q1, q2, q3, name % 0x100, q1 % 0x100, q2 % 0x100);
    ((name / 0x100_0000) % 0x100, (name / 0x1_0000) % 0x100,
     (name / 0x100) % 0x100, name % 0x100)
  }

  /** Peeling off the low byte three times leaves the high byte. */
  lemma Unpack(x: nat, q1: nat, q2: nat, q3: nat, r0: nat, r1: nat, r2: nat)
    requires x == q1 * 0x100 + r0 && q1 == q2 * 0x100 + r1 && q2 == q3 * 0x100 + r2
    ensures x == q3 * 0x100_0000 + r2 * 0x1_0000 + r1 * 0x100 + r0
  {
  }

  /** Splitting a built name gives back exactly the four characters, in order. */
  lemma NameCharactersRoundTrip(c1: Char, c2: Char, c3: Char, c4: Char)
    ensures NameToCharacters(BuildName(c1, c2, c3, c4)) == (c1, c2, c3, c4)
  {
    var name := BuildName(c1, c2, c3, c4);
    var high16 := c1 * 0x100 + c2;
    var high24 := high16 * 0x100 + c3;
    assert name == high24 * 0x100 + c4;
    ByteSplit(high24, c4);
    ByteSplit(high16, c3);
    ByteSplit(c1, c2);
    ShiftsCompose(name);
  }

  /** A built name is valid exactly when at least one character is not NUL. */
  lemma BuiltNameValid(c1: Char, c2: Char, c3: Char, c4: Char)
    ensures IsNameValid(BuildName(c1, c2, c3, c4)) <==> (c1, c2, c3, c4) != (0, 0, 0, 0)
  {
    NameCharactersRoundTrip(c1, c2, c3, c4);
  }

  /** _Objects_Is_local_node: the node is the one this processor runs as. */
  predicate IsLocalNode(node: u32, localNode: u32) {
    node == localNode
  }

  /** _Objects_Is_local_id: the node half of the id is the local node. */
  predicate IsLocalId(id: Id, localNode: u32) {
    IsLocalNode(GetNode(id), localNode)
  }

  /** An id built from fields in range is local exactly when its node is. */
  lemma BuiltIdLocal(node: u32, index: u32, localNode: u32)
    requires InField(node) && InField(index)
    ensures IsLocalId(BuildId(node, index), localNode) <==> node == localNode
  {
  }

  /** _Objects_Are_ids_equal: plain equality of the two words. */
  predicate AreIdsEqual(left: Id, right: Id) {
    left == right
  }

  /** Two ids are equal exactly when both their nodes and their indices agree. */
  lemma IdsEqualByParts(left: Id, right: Id)
    ensures AreIdsEqual(left, right) <==>
              GetNode(left) == GetNode(right) && GetIndex(left) == GetIndex(right)
  {
  }
}
