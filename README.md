# RTEMS Object Handler in Dafny

This project models the Object Handler of the RTEMS real-time executive, as
declared in `cpukit/score/include/rtems/score/object.h`. Every kernel manager
(tasks, semaphores, message queues, …) uses this handler to allocate, name,
identify and look up its control blocks.

- `ObjectIds.dfy` (module `ObjectIds`) is the identifier and name codec.
  `_Objects_Build_id`, `rtems_get_node`, `rtems_get_index`, `rtems_build_name`
  and `rtems_name_to_characters` are modelled, along with the predicates
  `_Objects_Is_name_valid`, `_Objects_Is_local_node`, `_Objects_Is_local_id`
  and `_Objects_Are_ids_equal`, and the search selectors and the Get_next
  sentinels of the header. An id holds
  the node in its high 16 bits and the index in its low 16 bits. `unsigned32`
  values are integers in [0, 2^32). Each shift, mask and `|` is written as the
  arithmetic it performs on such values: `<< 16` is `* 2^16 mod 2^32` and
  `& 0xFFFF` is `mod 2^16`.
- `Objects.dfy` (module `Objects`) is the registry of one object class
  (`Objects_Information`) as a class `Registry`.
  - A control block (`Objects_Control`) is an object of class `ObjectControl`.
    Its id is fixed when the class is initialised.
  - The pool is the sequence of the class's blocks. Block `k` carries index
    `k + 1` on the local node.
  - `local_table` and `name_table` are arrays over indices `0..maximum`, and
    slot 0 is never used.
  - The `Inactive` chain is the sequence of the indices of the free blocks,
    head first.
  - `Valid()` is the registry invariant. An open slot holds the pool block of
    its index. A slot that is not open carries the null name. No index is on
    the chain twice, and no block on the chain is open.
  - The lifecycle operations are Allocate, Free, Open and Close. The lookups
    are Get, Get_next and Name_to_id. Each lookup is stated against pure
    functions over snapshots of the tables: `Locate`, `NextOpen`, `FirstOpen`,
    `Visits` and `FirstNamed`. Allocate and Free state the new chain and
    tables in terms of the old ones, and the change in `InUse()`.
- `ObjectScenarios.dfy` holds clients that use only the operations'
  contracts. They create three named objects, delete one, reuse its index,
  look a name up, and walk the class with Get_next.

Design decisions the header leaves open:

- The chain behaves like `_Chain_Get` and `_Chain_Append`. Allocate takes the
  head and Free appends at the tail. A freshly initialised class holds its
  blocks in index order.
- Free also clears the block's slot and name. After Close this changes
  nothing. Freeing a block that is already on the chain is a caller error,
  excluded by Free's precondition.
- Get follows the header comment at object.h:176-183. LOCAL needs a local id
  whose index is in `1..maximum` and open. REMOTE needs a class with global
  objects and an id of another node that names a global object. Whether it
  does is the answer of the global table, the parameter `globalId` of `Get`.
  Everything else is ERROR, including any id of another node when the class
  has no global objects.
- Get_next starts from `minimum_id` when the id's index is the initial index
  0. It steps through ids with `next_id + 1` and calls Get on each one. It
  returns the first LOCAL block together with the id after it. Once the index
  passes `maximum`, it returns ERROR with `RTEMS_OBJECT_ID_FINAL`.
- Name_to_id returns `InvalidName` for the null name. It scans the name table
  in index order when the node selector covers the local node
  (`RTEMS_SEARCH_ALL_NODES`, `RTEMS_SEARCH_LOCAL_NODE` or the local node
  number). Only a class that supports global objects goes on to other nodes,
  and only for a selector other than `RTEMS_SEARCH_LOCAL_NODE` and the local
  node number (object.h:158-160). A match is always an open block, because
  closed slots carry the null name. When the search ends on this node without
  a match, the result is `NotFound`.

## Model

| member | source | states |
|---|---|---|
| `ObjectIds.BuildId` | cpukit/score/include/rtems/score/object.h:266-269 | the index is always recovered by rtems_get_index; the node is recovered by rtems_get_node whenever it fits 16 bits |
| `ObjectIds.GetNode` | cpukit/score/include/rtems/score/object.h:280-282 | the node part of any id fits the 16-bit node field |
| `ObjectIds.GetIndex` | cpukit/score/include/rtems/score/object.h:293-295 | the index part of any id fits the 16-bit index field |
| `ObjectIds.IdInitial` | cpukit/score/include/rtems/score/object.h:106-111 | RTEMS_OBJECT_ID_INITIAL(node) is on that node and carries index 0 |
| `ObjectIds.BuildIdOfParts` | cpukit/score/include/rtems/score/object.h:266-295 | every id is rebuilt exactly from its node and its index |
| `ObjectIds.BuildIdInjective` | cpukit/score/include/rtems/score/object.h:266-269 | two ids built from in-range fields are equal iff their nodes and indices are |
| `ObjectIds.FinalIdFields` | cpukit/score/include/rtems/score/object.h:107-112 | RTEMS_OBJECT_ID_FINAL carries the final index 0xffff |
| `ObjectIds.NextIndexSameNode` | cpukit/score/include/rtems/score/object.h:193-207 | below the final index, `id + 1` stays on the same node, moves to the next index and does not wrap |
| `ObjectIds.BuildName` | cpukit/score/include/rtems/score/object.h:222-236 | rtems_build_name puts the first character in the most significant byte and the last one in the least significant byte |
| `ObjectIds.IsNameValid` | cpukit/score/include/rtems/score/object.h:210-219 | a name is valid iff one of the four characters it splits into is not NUL, i.e. only the all-zero name is invalid |
| `ObjectIds.IsLocalNode` | cpukit/score/include/rtems/score/object.h:299-309 | definition: the node is the local node; BuiltIdLocal states what it means for built ids |
| `ObjectIds.IsLocalId` | cpukit/score/include/rtems/score/object.h:313-323 | definition: the node half of the id is the local node; BuiltIdLocal states it for every built id |
| `ObjectIds.AreIdsEqual` | cpukit/score/include/rtems/score/object.h:327-338 | definition: the two words are equal; IdsEqualByParts states it field by field |
| `ObjectIds.NameToCharacters` | cpukit/score/include/rtems/score/object.h:248-254 | the four characters a name splits into pack back to that name |
| `ObjectIds.NameCharactersRoundTrip` | cpukit/score/include/rtems/score/object.h:235-254 | splitting rtems_build_name(c1,c2,c3,c4) gives back c1, c2, c3, c4 in that order |
| `ObjectIds.BuiltNameValid` | cpukit/score/include/rtems/score/object.h:217-236 | a built name is valid iff some character is not NUL |
| `ObjectIds.BuiltIdLocal` | cpukit/score/include/rtems/score/object.h:307-323 | an id built from in-range fields is local iff its node is the local node |
| `ObjectIds.IdsEqualByParts` | cpukit/score/include/rtems/score/object.h:335-338 | two ids are equal iff their nodes and their indices are |
| `Objects.DistinctInRangeBound` | cpukit/score/include/rtems/score/object.h:71-75 | a chain of distinct indices of a pool of n blocks holds at most n of them |
| `Objects.OpenedIdIsLocal` | cpukit/score/include/rtems/score/object.h:369-383 | after a block is published under index i, the local id of i resolves LOCAL |
| `Objects.ClosedIdIsError` | cpukit/score/include/rtems/score/object.h:385-398 | after index i is cleared, the local id of i is an ERROR whether or not the class is global |
| `Objects.OtherIdsUnaffected` | cpukit/score/include/rtems/score/object.h:369-398 | writing one slot changes the classification of no id with another index |
| `Objects.FirstOpen` | cpukit/score/include/rtems/score/object.h:193-207 | the lowest open slot at or after k: open, with none open before it from k; none at all means no open slot from k |
| `Objects.VisitsAreOpenSlots` | cpukit/score/include/rtems/score/object.h:193-207 | the indices visited by repeated Get_next from k are exactly the open slots from k, strictly ascending |
| `Objects.FirstNamed` | cpukit/score/include/rtems/score/object.h:148-169 | the lowest slot from k open under the name, with no earlier one; none means no slot is open under it |
| `Objects.DistinctSize` | cpukit/score/include/rtems/score/object.h:71-75 | a chain with no index twice holds exactly as many different indices as it has entries |
| `Objects.Registry.HeldBlocks` | cpukit/score/include/rtems/score/object.h:71-75 | counted one by one, the pool indices that are not on the inactive chain number exactly InUse(), maximum minus the chain's length |
| `Objects.Registry.PoolSlot` | cpukit/score/include/rtems/score/object.h:58-76 | a pool block sits at the pool position given by its id's index, and its id is on the local node |
| `Objects.Registry.constructor` | cpukit/score/include/rtems/score/object.h:128-146 | a class of maximum blocks: minimum_id and maximum_id on the local node, all blocks inactive in index order, both tables empty |
| `Objects.Registry.Allocate` | cpukit/score/include/rtems/score/object.h:340-352 | removes the chain head and returns its block, which is not open; returns null, changing nothing, exactly when all maximum blocks are in use |
| `Objects.Registry.Free` | cpukit/score/include/rtems/score/object.h:354-367 | appends the block's index to the chain and clears its slot and name, so one block fewer is in use; no other slot changes |
| `Objects.Registry.Open` | cpukit/score/include/rtems/score/object.h:369-383 | local_table[index(id)] becomes the block and name_table[index(id)] the name; no other slot changes; the id then resolves LOCAL |
| `Objects.Registry.Close` | cpukit/score/include/rtems/score/object.h:385-398 | both entries of the block's index are cleared; no other slot changes; the block stays off the chain and its id resolves to ERROR |
| `Objects.Registry.Get` | cpukit/score/include/rtems/score/object.h:171-191 | LOCAL iff the id is local with an open index in 1..maximum, and then the block returned carries exactly that id; REMOTE iff the class is global, the node remote and the id known to the global table as a global object; otherwise ERROR; the registry is unchanged |
| `Objects.Registry.GetNext` | cpukit/score/include/rtems/score/object.h:193-207 | returns the first open block at or after the start index, and the id after it; once past maximum, ERROR and RTEMS_OBJECT_ID_FINAL; never REMOTE |
| `Objects.Registry.NameToId` | cpukit/score/include/rtems/score/object.h:148-169 | null name is InvalidName; a local search returns the id of the lowest open block with that name, which resolves LOCAL; with no local match, the other-node answer only for a class with global objects and a selector reaching other nodes, NotFound otherwise |
| `ObjectScenarios.Create` | cpukit/score/include/rtems/score/object.h:340-383 | a create directive (Allocate, then Open) publishes the chain head's block under its index with the given name |
| `ObjectScenarios.CreateThree` | cpukit/score/include/rtems/score/object.h:340-383 | three creates in a class of three get indices 1, 2, 3 and exhaust it |
| `ObjectScenarios.DeleteAndReuse` | cpukit/score/include/rtems/score/object.h:148-191 | a deleted id no longer resolves, the next create reuses its index, and its old name is NotFound |
| `ObjectScenarios.WalkSkipsClosed` | cpukit/score/include/rtems/score/object.h:193-207 | a Get_next walk reports the open indices 1 and 3, skips the closed 2, then ends with ERROR and the final id |
| `ObjectScenarios.LocalClassStaysLocal` | cpukit/score/include/rtems/score/object.h:148-169 | in a class without global objects, a name not open locally is NotFound under RTEMS_SEARCH_ALL_NODES and RTEMS_SEARCH_OTHER_NODES, whatever another node would answer |
| `ObjectScenarios.ForeignIds` | cpukit/score/include/rtems/score/object.h:176-183 | in a global class, an id of another node is REMOTE when it names a global object and ERROR when it does not |
| `ObjectScenarios.Walk` | cpukit/score/include/rtems/score/object.h:193-207 | repeated Get_next from RTEMS_OBJECT_ID_INITIAL, each call fed the id the previous one returned, reports exactly Visits from index 1: every open slot once, ascending |

## Left out

- `_Objects_Handler_initialization` (object.h:123-126) is represented by the `localNode` each registry is built with. The count of global objects it also receives only sizes the multiprocessing tables, which are not modelled.
- Multiprocessing: the contents of the global table, the resolution of REMOTE ids and the global name search (`rtems/objectmp.h` is not part of this model). A class's global table is represented only by whether it exists (`supportsGlobal`). The answer of the global name search is the parameter `remote` of `NameToId`, returned unchanged. Whether an id of another node names a global object is the parameter `globalId` of `Get`.
- `OBJECTS_ID_OF_SELF` and `RTEMS_WHO_AM_I`: resolving them to the executing thread depends on thread state outside this header. An id 0 is treated like any other id.
- `Chain_Control` and `Chain_Node` (`rtems/chain.h` is not part of this model). The inactive chain is a sequence of pool indices.
- Workspace allocation of the pool and the tables, the control-block `size` argument, pointer arithmetic and the fatal error when the workspace is too small.
- Interrupt and dispatch disabling around registry updates and lookups are concurrency concerns. Each operation is modelled as one atomic step.
- Numeric status codes: the `rtems_status_code` values are not in this header. `Status` names only the outcomes of a name search.
- `ObjectIds.BuildId`: requires the index to fit in 16 bits. An index that spills into the node half under `|` is not modelled, and every caller passes an index within the class maximum.
- `ObjectIds.BuildName`: the characters are unsigned bytes. With a signed `char`, a negative character would sign-extend into the higher bytes; that is not modelled.
- `ObjectIds.NameToCharacters`: returns unsigned bytes. `rtems_name_to_characters` (object.h:248-254) stores into `char *`, so where `char` is signed a byte of 0x80 or more comes back negative; that is not modelled.
- `Objects.Registry.constructor`: requires `maximum < 0xffff` and a local node that fits 16 bits. An index must fit the 16-bit index field, and 0xffff is reserved as `RTEMS_OBJECT_ID_FINAL_INDEX`. The bound also matters to Get_next: its scan stops once the index passes `maximum`, so with `maximum` at 0xffff an index can never pass it. On a table with no open slot, the `next_id + 1` step from index 0xffff would then carry into the node half and go on into the next node's ids instead of ending with ERROR. This follows from the scan as modelled (see the Get_next design decision); the header does not describe the scan and gives no bound on `maximum`.
- `c/src/optman/rtems/no-msg.c`, the message-queue manager configured out, which returns a fixed status from every directive, and `c/src/tests/psxtests/psxreaddir/test.c`, a file-system exerciser, are not part of the Object Handler.
