# plc_comm value tree and id encodings, in Dafny

This project models two parts of the plc_comm library.

The first is the **value tree** of `src/lib/plc_comm.c`. A PLC tag's value is a tree of typed nodes: bool, unsigned, signed and float scalars; arrays; structures; and a device, which is a structure whose type is `0x10000 + VAL_TYPE_STRUCTURE`. Every node has a parent link, a size and a `dirty` flag. Setters mark a node dirty. `clear_dirty` clears a subtree. `find_first_dirty` searches for a dirty node and leaves the path to it on a caller's stack.

The second is the **integer encodings** of `src/lib/include/plc_comm.h`: status codes, attribute identifiers `(id << 8) | type | access`, and kind-tagged handles `(serial << 4) | kind`.

Files:

- `wrappers.dfy` defines `Option`.
- `words.dfy` reads a 32-bit word as an `int32_t`.
- `plc_comm_ids.dfy` (module `PlcComm`) holds the header's status codes, attribute ids, handles and null ids. They are modelled as `bv32` with the header's shifts and masks.
- `values.dfy` (module `Values`) holds the node structs and the status and type enums of `src/plc_comm.h`.
  - The tree is an arena `nodes: seq<Node>`. A pointer is `Null` or `At(i)`.
  - Well-formedness numbers the nodes so that every child comes after its parent. That rules out cycles.
  - Well-formedness also says that a scalar node's decoder writes a value of the node's own C type, as its function pointer's parameter type requires.
  - A caller's out-pointer is a `Slot`: `NoSlot` stands for a NULL pointer.
- `value_access.dfy` (module `ValueAccess`) holds the checked accessors. They are functions, except the by-name search, which is a method with a loop.
- `dirty_tracking.dfy` (module `DirtyTracking`) holds `clear_dirty` and `find_first_dirty` as recursive functions over the arena, with the lemmas about them.
- `value_tree.dfy` (module `ValueTree`) holds the class `ValueTree`. Its `dirty: array<bool>` is updated in place by `mark_dirty`, the setters and `clear_dirty`. `find_first_dirty` writes the caller's stack array. The parent walk of `value_sync` is a loop.
  - `ClearDirty` is proved equal to `DirtyTracking.Clear` and `FindFirstDirty` to `DirtyTracking.Find`. The parent walk of `Sync` is proved equal to `ValueTree.DeviceAbove`.

Notes on reading the code:

- `mark_dirty`, `clear_dirty`, `value_sync` and `value_array_get_element_type` fall off their end without `return rc`. Each is modelled as returning `rc`, which is evidently what was meant.
- `value_float_get_value` expands `DECODE(value_int, …)`. The decoder pointer sits at the same offset in `value_int` and `value_float`, so the call reaches the float node's own decoder. The model calls that decoder.
- The scalar getters and setters cast their argument without checking its type. A node of another kind is undefined behaviour, so `GetValue` and `SetValue` require a node of the wrapper's kind, and a value or variable of that kind's C type.
- `find_first_dirty` does not null-check its argument. `Find` answers `None` whenever the C code would dereference a null child or write past the end of the stack. The method `FindFirstDirty` requires that this does not happen.
- `clear_dirty` and `find_first_dirty` descend only into nodes typed exactly ARRAY or STRUCTURE, so a device is not searched below. The structure accessors test `val_type & 0xFFFF` instead, so they accept devices.
- The handle range: `PLC_COMM_ID_MIN`..`PLC_COMM_ID_MAX` (1..0x07FFFFFF) bounds the serial, not the handle itself. The handle `(serial << 4) | kind` then lies in 0x10..0x7FFFFFFF and is a positive `int32_t`. The model follows that reading of the code.

## Model

| member | source | states |
|---|---|---|
| PlcComm.CommStatus.Code | src/lib/include/plc_comm.h:50-65 | every status code is zero or negative; only ILLEGAL is 0 and only OK is -1 |
| PlcComm.CommStatus.Word | src/lib/include/plc_comm.h:48-65 | the int32_t word of every status is not a positive int32_t |
| PlcComm.StatusWordIsCode | src/lib/include/plc_comm.h:48-65 | each status's 32-bit word, read as int32_t, is its enum value |
| PlcComm.StatusOf | src/lib/include/plc_comm.h:50-65 | reading a word as a status finds the status with that word, or none; a positive word is never a status |
| PlcComm.StatusRoundTrip | src/lib/include/plc_comm.h:50-65 | the status read back from a status's word is that status, so the codes are pairwise distinct |
| PlcComm.StatusCodesDistinct | src/lib/include/plc_comm.h:50-65 | two statuses with the same code are the same status |
| PlcComm.AttrType | src/lib/include/plc_comm.h:71-87 | `attr & 0x0F` is a type nibble |
| PlcComm.AttrAccess | src/lib/include/plc_comm.h:89-105 | `attr & 0xF0` is an access nibble |
| PlcComm.AttrNum | src/lib/include/plc_comm.h:69 | `attr >> 8` is below 2^24, and below 2^23 for a non-negative int32_t |
| PlcComm.AttrId | src/lib/include/plc_comm.h:68-107 | for an id below 2^23, a type nibble and an access nibble, `id << 8` or-ed with type and access gives back id, type and access and is a non-negative int32_t |
| PlcComm.AttrDecomposes | src/lib/include/plc_comm.h:68-107 | every non-negative int32_t word is the attribute id composed from its own three parts |
| PlcComm.AttrIdInjective | src/lib/include/plc_comm.h:68-107 | two attribute ids are equal exactly when id, type and access are equal |
| PlcComm.AccessIsNotAFlagSet | src/lib/include/plc_comm.h:91-93 | WRITE is READ or-ed with DUMMY_READ, so a writable attribute has both flag bits, yet the nibble-equality test grants it WRITE only |
| PlcComm.DeclaredAttributesDecode | src/lib/include/plc_comm.h:242-253 | the result-count attributes are (1, INT, READ), the element data is (2, PTR, READ), and the two counts are the same integer |
| PlcComm.IdKind.Tag | src/lib/include/plc_comm.h:115-118 | the four kinds are tags 1..4 |
| PlcComm.IdTypeOf | src/lib/include/plc_comm.h:110 | `id & 0x0F` is at most 15 |
| PlcComm.KindOfId | src/lib/include/plc_comm.h:110-118 | a handle names a declared kind exactly when its kind bits are 1..4, and then that kind's tag is those bits |
| PlcComm.MakeId | src/lib/include/plc_comm.h:110-113 | for a serial in [ID_MIN, ID_MAX] and a kind nibble, `serial << 4` or-ed with the kind gives back serial and kind and is a positive int32_t |
| PlcComm.HandleKindRoundTrip | src/lib/include/plc_comm.h:110-118 | the kind read back from a handle is the kind it was made with |
| PlcComm.HandleIsNeverAStatus | src/lib/include/plc_comm.h:110-113 | no handle equals any status code |
| PlcComm.NullId | src/lib/include/plc_comm.h:133-139 | each null id carries its kind's bits with serial 0, so it is not an allocated handle and not a status |
| Values.TagFacts | src/lib/plc_comm.c:88 | in a well-formed tree the type tag says which struct a node is, and `val_type & 0xFFFF` turns a device's type into STRUCTURE |
| ValueAccess.GetType | src/lib/plc_comm.c:162-174 | OK exactly when node and out-pointer are non-null; the type written is the node's own, or STRUCTURE for a device; on NULL_PTR nothing is written |
| ValueAccess.GetSize | src/lib/plc_comm.c:177-190 | OK with `value_size` when node and out-pointer are non-null; otherwise NULL_PTR and nothing written |
| ValueAccess.GetValue | src/lib/plc_comm.c:193-205 | NULL_PTR on a null node or result pointer; NOT_IMPLEMENTED without a decoder; otherwise the decoder's status and value; only the decoder writes the caller's variable, and what it writes is of the wrapper's C type |
| ValueAccess.ArrayGetElementType | src/lib/plc_comm.c:308-323 | OK with the element type exactly for an array; TYPE_MISMATCH for any other node; NULL_PTR for null pointers; nothing written on error |
| ValueAccess.ArrayGetElement | src/lib/plc_comm.c:326-347 | OK with `elements[index]` iff the node is an array and index < num_elements; OUT_OF_BOUNDS, TYPE_MISMATCH or NULL_PTR otherwise, each iff its condition; nothing written on error; the element is a child of the array |
| ValueAccess.StructureGetName | src/lib/plc_comm.c:351-369 | OK with the name exactly for a structure or a device; TYPE_MISMATCH otherwise; nothing written on error |
| ValueAccess.StructureGetNumFields | src/lib/plc_comm.c:372-390 | OK with the field count exactly for a structure or a device; nothing written on error |
| ValueAccess.StructureGetFieldName | src/lib/plc_comm.c:393-415 | OK with field i's name iff the node is structure-like and i < num_fields; OUT_OF_BOUNDS iff structure-like and i >= num_fields |
| ValueAccess.StructureGetFieldByIndex | src/lib/plc_comm.c:419-441 | OK with field i's value iff structure-like and i < num_fields; OUT_OF_BOUNDS iff i >= num_fields; the value is a child of the node |
| ValueAccess.FirstField | src/lib/plc_comm.c:445-470 | the index found is the lowest index from `from` on whose name equals the key; none means no field from `from` on has that name |
| ValueAccess.StructureGetFieldByName | src/lib/plc_comm.c:445-470 | OK iff the node is structure-like and some field has the key as its name, and then the value of the lowest such field; NOT_FOUND leaves the output untouched; NULL_PTR for any null argument |
| ValueAccess.NameLookupFindsField | src/lib/plc_comm.c:393-470 | looking up the name of field i finds field i or an earlier field of that name, and exactly field i when names are distinct |
| DirtyTracking.Clear | src/lib/plc_comm.c:500-522 | clear_dirty answers OK or NULL_PTR, keeps the flag count, and never sets a flag |
| DirtyTracking.ClearKids | src/lib/plc_comm.c:507-519 | the child loop answers OK or NULL_PTR and never sets a flag |
| DirtyTracking.ClearOkIffNoNull | src/lib/plc_comm.c:500-522 | clear_dirty answers OK exactly when its walk meets no null pointer |
| DirtyTracking.ClearKidsOkIffNoNull | src/lib/plc_comm.c:507-519 | the child loop answers OK exactly when no child walk meets a null pointer |
| DirtyTracking.ClearFrame | src/lib/plc_comm.c:500-522 | flags of nodes outside the walk keep their values |
| DirtyTracking.ClearKidsFrame | src/lib/plc_comm.c:507-519 | flags outside the children's walks keep their values |
| DirtyTracking.ClearCleansReach | src/lib/plc_comm.c:500-522 | after OK, no node of the walk is dirty |
| DirtyTracking.ClearKidsCleansReach | src/lib/plc_comm.c:507-519 | after OK from the loop, no node below those children is dirty |
| DirtyTracking.Find | src/lib/plc_comm.c:526-564 | the search answers OK, NOT_FOUND or OUT_OF_BOUNDS; it writes slot k with the node on OK and NULL otherwise, and writes no slot outside k..max(k, 50) |
| DirtyTracking.FindIn | src/lib/plc_comm.c:532-550 | the sibling loop answers OK, NOT_FOUND or OUT_OF_BOUNDS and writes no slot outside k..max(k, 50) |
| DirtyTracking.FindDefined | src/lib/plc_comm.c:526-564 | with no null pointer on the walk and a stack longer than max(k, 50), the search is defined: every slot it writes exists |
| DirtyTracking.FindInDefined | src/lib/plc_comm.c:532-550 | the same for the sibling loop |
| DirtyTracking.FindNotFoundAllClean | src/lib/plc_comm.c:526-564 | NOT_FOUND means every node of the walk is clean |
| DirtyTracking.FindInNotFoundAllClean | src/lib/plc_comm.c:532-550 | NOT_FOUND from the loop means every node below those children is clean |
| DirtyTracking.FindCleanNotOk | src/lib/plc_comm.c:526-564 | over a walk with no dirty node the answer is never OK |
| DirtyTracking.FindInCleanNotOk | src/lib/plc_comm.c:532-550 | the same for the sibling loop |
| DirtyTracking.FindShallowInBounds | src/lib/plc_comm.c:533-545 | a search starting at level k over a tree k + depth <= 50 never answers OUT_OF_BOUNDS |
| DirtyTracking.FindInShallowInBounds | src/lib/plc_comm.c:533-545 | the same for the sibling loop |
| DirtyTracking.FindDeepCleanOutOfBounds | src/lib/plc_comm.c:533-547 | over a clean, null-free walk deeper than 50 - k levels the search answers OUT_OF_BOUNDS |
| DirtyTracking.FindInDeepCleanOutOfBounds | src/lib/plc_comm.c:533-547 | the same for the sibling loop: a sibling that is too deep stops the loop with OUT_OF_BOUNDS |
| DirtyTracking.DeviceIsNotWalked | src/lib/plc_comm.c:500-564 | from a device, clear_dirty clears only the device's flag and find_first_dirty reads only that flag, whatever the device's fields hold |
| DirtyTracking.FindOkLeavesPath | src/lib/plc_comm.c:553-560 | on OK, slot k holds the node, and slots k..m hold a chain of clean descended nodes, each the parent of the next, ending at a dirty node of the walk |
| DirtyTracking.FindInOkLeavesPath | src/lib/plc_comm.c:532-560 | on OK from the loop, slot k holds one of the children and the slots from k on hold a path to a dirty node |
| DirtyTracking.ClearThenFindMisses | src/lib/plc_comm.c:500-564 | after clear_dirty answers OK, a search of the same subtree is defined and answers NOT_FOUND or OUT_OF_BOUNDS |
| DirtyTracking.FindLocatesDirty | src/lib/plc_comm.c:526-564 | a dirty node anywhere on a null-free walk that fits below depth 50 is found: the answer is OK |
| DirtyTracking.ChainWalkReachesSlotFifty | src/lib/plc_comm.c:533-560 | searching a chain of 51 clean arrays from node i at level i runs past a 50-slot stack, and on a 51-slot stack answers OUT_OF_BOUNDS with NULL in slot 50 |
| DirtyTracking.FiftySlotStackOverflows | src/lib/plc_comm.c:533-560 | from the root of 51 clean nested arrays the search writes slot 50, past the end of a 50-slot stack |
| ValueTree.DeviceAbove | src/lib/plc_comm.c:148-150 | the parent walk ends at a node typed DEVICE on the chain with no device nearer the start, or at NULL when the chain holds no device |
| ValueTree.ValueTree.MarkDirty | src/lib/plc_comm.c:475-497 | sets the flag of the node alone, leaving its children and every other flag as they were; NULL_PTR on a null node |
| ValueTree.ValueTree.SetValue | src/lib/plc_comm.c:207-222 | NULL_PTR on a null node, NOT_IMPLEMENTED without an encoder, otherwise the encoder's status; the node is marked dirty exactly when that status is OK, and no other flag changes |
| ValueTree.ValueTree.ClearDirty | src/lib/plc_comm.c:500-522 | the status and the new flags are those of Clear on the old flags |
| ValueTree.ValueTree.FindFirstDirty | src/lib/plc_comm.c:526-564 | the status and the new stack contents are those of Find on the old stack |
| ValueTree.ValueTree.Sync | src/lib/plc_comm.c:139-160 | answers OK; the walk starts at the node's parent and stops at the nearest device above it, or at NULL |
| ValueTree.ValueTree.SearchDirty | src/lib/plc_comm.c:526-564 | find_first_dirty from v at level 0 on a fresh 51-slot stack is defined; on a tree that fits below depth 50 it answers OK exactly when a node of the walk is dirty |

## Left out

- The request and result batch engine, connections, configuration and the result attribute getters are left out. The header only declares them and no body exists.
- `value_open_device` and `value_close_device`, and the symbol discovery behind them, are left out. They are only declared.
- The concrete encoders and decoders are left out. No code assigns them, so each node carries optional opaque functions that answer a status.
- The byte buffer behind each value (`buf_data`, `buf_data_size`, `offset`) is left out. Only the encoders would touch it.
- Floating-point values are left out. A double is carried as its 64 bits and never interpreted.
- The `busy` flag is left out. No shown code reads or writes it.
- Atomicity of `dirty` is left out. The code marks it FIXME, and concurrency is not modelled.
- `src/include/plc_comm.h` is left out. It is an older copy of the public header that does not compile. The value enums `value_status_t` and `value_type_t` that `src/lib/plc_comm.c` uses come from `src/plc_comm.h:41-67` and are modelled in `values.dfy`.
- The example programs under `src/examples` are left out. They are demo I/O.
- Field-name comparison with `strcmp` is modelled as string equality. A NULL field name inside a structure is not representable.
- ValueAccess.StructureGetNumFields: the count is a `nat`, not a `uint32_t`, because a field sequence longer than 2^32 - 1 cannot occur.
- DirtyTracking.FindOkLeavesPath: it does not state that the dirty node found is the first one in pre-order. It states only that the node is dirty, lies on the walk, and is reached through clean ancestors recorded on the stack.
- ValueTree.ValueTree.Sync: the search for dirty values after the parent walk is not written in the code. The model's `Sync` stops where the code stops. `SearchDirty` searches from the value it is given, not from the device `value_sync` climbs to. From a device, both walks read or clear only the device's own flag, as `DirtyTracking.DeviceIsNotWalked` shows, because they descend only into nodes typed exactly ARRAY or STRUCTURE.

## Findings

| source | as written | input that shows it | evidently intended | confidence | as-written member | corrected member |
|---|---|---|---|---|---|---|
| src/lib/plc_comm.c:154 | The stack is declared with VALUE_STACK_DEPTH (50) slots. `find_first_dirty` descends while `stack_index < 50`, and every call then writes `value_stack[stack_index]`, so the callee at level 50 writes slot 50. | 51 nested clean arrays, searched from the root at level 0 | a stack of VALUE_STACK_DEPTH + 1 slots, so every slot written exists (shown for a search from any value v) | not executed; `value_sync` does not call the search yet | DirtyTracking.FiftySlotStackOverflows | ValueTree.ValueTree.SearchDirty |
