# Transform hierarchy manager: a Dafny model

This project models `transform_manager_t` from the Brokkr framework
(`src/core/transform-manager.cpp`). The manager keeps a forest of scene nodes:

- a local matrix per node, stored in a packed free list (`transform_`);
- two arrays parallel to the pool's dense array: `parent_` (the parent handle of each node)
  and `world_` (its cached world matrix);
- a dirty flag, `hierarchy_changed_`.

`update()` re-sorts the nodes by depth when the flag is set, then composes world matrices
in dense order, so each parent's matrix is done before its children's are.

The model is imperative, like the source:

- `Transforms.TransformManager` is a class whose `seq` fields are the parallel arrays.
- `Pool.PackedFreeList` is a class over seq fields. They are the dense array, the ids owning each
  dense position, the slot table (dense position, generation, live bit) and a LIFO free
  list of slots.
- Matrices are a type parameter `M`. The product `Mul` is an arbitrary function fixed at
  construction. Composition is therefore stated exactly and holds for every product.

Three handle-keyed views tie the dense layout to what a client sees:

- `Forest()`: handle to parent handle;
- `Locals()`: handle to local matrix;
- `Worlds()`: handle to cached world matrix.

Each is `Assoc(ids, array)`: every live handle maps to the entry at its dense position.
Every operation is specified on these views, and every operation except `sortTransforms`
and `update` also on the raw arrays. The one exception on the view side is
`createTransform` as written: its `Forest()` is stated only when the new handle's slot
index equals its dense position, and otherwise through the raw `parent_` array, because the
entry it clears may belong to another live node. Those two state the layout after a re-sort only through
the views, its level order and the entries past the live count, because the order of nodes
of equal level is not fixed. The views are what stays fixed while the pool compacts and the re-sort moves
nodes.

Handles carry a generation. Removing a node moves its slot on to the next generation
(`GenerationAdvanced`), and nothing else ever changes a generation (`GenerationsKept`). So a
destroyed handle is `Retired` and does not resolve again until its slot's generation wraps
around at 2^32.

Depth is `Level(f, h)`:

- It is the number of hops of the ancestor chase that start at a parent which resolves.
- A parent that does not resolve ends the chase.
- `Acyclic(f)` says every chase ends within `|f|` hops.

`ChainWorld` is the matrix a node's whole parent chain composes. After `Update`, every
cached world matrix equals it.

`M` is left uninterpreted; the source uses `maths::mat4`. `Blank` stands for the
default-constructed matrix that `world_.resize` appends.

### Where the model follows the code rather than the design notes

- The re-sort's second loop swaps nodes in the pool and writes `parent_[i]` from the sorted
  entry. It does not touch `world_`; world matrices are recomputed right after.
- The sort is `std::sort`, which is not stable. Only "sorted by level and a permutation" is
  stated (`SortByLevel`).
- The ancestor chase has no cap on its number of hops. `Update` therefore requires an
  acyclic forest whenever a re-sort is pending. Nothing here claims the chase ends on a
  cycle.
- `createTransform` clears `parent_` at the new handle's slot index, not at its dense
  position (see Findings). `CreateTransform` reproduces line 41 as written.

## Model

| member | source | states |
|---|---|---|
| Handles.Find | src/core/transform-manager.cpp:53 | The dense position of a handle in the id array. None exactly when the handle is not live. |
| Handles.FindDistinct | src/core/transform-manager.cpp:141 | Live handles and dense positions are in bijection: looking up the handle owning position k yields k. |
| Pool.PackedFreeList.IndexOf | src/core/transform-manager.cpp:117 | Resolution through the slot table: a handle resolves exactly when it is live (slot live, generation equal), and then to its dense position. |
| Pool.PackedFreeList.Add | src/core/transform-manager.cpp:32 | Appends the value and a fresh handle to the dense arrays. The handle takes the most recently freed slot at that slot's current generation, or opens a new slot at the end of the table at generation 0. Its slot index differs from every live handle's, and no slot's generation changes. |
| Pool.PackedFreeList.Get | src/core/transform-manager.cpp:73 | The dense position of a resolving handle, None otherwise. |
| Pool.PackedFreeList.Store | src/core/transform-manager.cpp:81 | A write through the pointer `get` returned changes that one value and nothing else. |
| Pool.PackedFreeList.GetIndexFromId | src/core/transform-manager.cpp:53 | Found exactly when the handle is live; the index is its dense position. |
| Pool.PackedFreeList.GetIdFromIndex | src/core/transform-manager.cpp:141 | The handle owning a dense position, which resolves back to that position. |
| Pool.PackedFreeList.GetElementCount | src/core/transform-manager.cpp:136 | The number of live values. |
| Pool.PackedFreeList.GetData | src/core/transform-manager.cpp:174 | The dense value array, one value per live handle. |
| Pool.PackedFreeList.Remove | src/core/transform-manager.cpp:68 | Fails on a handle that does not resolve and changes nothing. Otherwise the last value and id move into the removed position and the arrays shrink by one. The freed slot joins the free list and its generation advances by one modulo 2^32, and no other generation changes, so the removed handle does not resolve again until that generation wraps. |
| Pool.PackedFreeList.Unlink | src/core/transform-manager.cpp:68 | The compaction inside `remove`: the last value and id fill the removed position, the moved handle's slot points there, the removed slot is released at the next generation, and every other slot keeps its generation and live bit. |
| Pool.PackedFreeList.Swap | src/core/transform-manager.cpp:156 | Exchanges the dense positions of two resolving handles with their values. Does nothing otherwise. No generation and no free slot changes. |
| Pool.PackedFreeList.Exchange | src/core/transform-manager.cpp:156 | The exchange inside `swap` once both handles resolved: values and ids trade positions, the pool stays consistent, and no generation or free slot changes. |
| Hierarchy.AssocFind | src/core/transform-manager.cpp:104-106 | A live handle's view entry is the array entry at the position where the handle is found. |
| Hierarchy.AssocAt | src/core/transform-manager.cpp:104-106 | The view entry of the handle owning position k is the entry at k. |
| Hierarchy.AssocSubLayout | src/core/transform-manager.cpp:53-68 | A layout whose handles each carry the entry they had in another layout agrees with the other's view on those handles. |
| Hierarchy.AssocRelabel | src/core/transform-manager.cpp:154-158 | Two layouts with the same handles, where each entry travelled with its handle, have the same view. |
| Hierarchy.AssocAppend | src/core/transform-manager.cpp:30-45 | Appending a fresh handle and its entry adds exactly that handle to the view. |
| Hierarchy.AssocUpdate | src/core/transform-manager.cpp:92-94 | Overwriting the entry at one position changes the view at exactly the handle owning it. |
| Pool.PackedFreeList.RetiredIsDead | src/core/transform-manager.cpp:71-74 | A handle whose slot has moved to another generation does not resolve. |
| Handles.SwapRemove | src/core/transform-manager.cpp:68 | Swap-with-last removal: the last entry takes the removed position, the rest stays put, and the length drops by one. |
| Handles.SwapAt | src/core/transform-manager.cpp:55-65 | Exchanges two entries, leaves every other entry unchanged, and is a permutation. |
| Hierarchy.SwapRemoveDistinct | src/core/transform-manager.cpp:68 | Removal keeps the live ids distinct and drops exactly the removed handle. |
| Hierarchy.SwapRemoveEntries | src/core/transform-manager.cpp:53-66 | After the mirrored removal, every surviving position holds the entry its handle had. |
| Hierarchy.AssocSwapRemove | src/core/transform-manager.cpp:53-68 | Mirroring the pool's removal on a parallel array keeps every surviving handle's entry and forgets the removed one's. |
| Hierarchy.MirrorRemoval | src/core/transform-manager.cpp:53-66 | The mirrored swap on a length-preserving parallel array: the removed position and the last live one exchange entries, and nothing else changes. |
| Hierarchy.AssocMirrorRemoval | src/core/transform-manager.cpp:53-68 | The view of `parent_` or `world_` after destroyTransform is the old view minus the removed handle. |
| Hierarchy.AssocSwapRemoveBoth | src/core/transform-manager.cpp:68 | The same for the pool's own value array, which shrinks with the ids. |
| Hierarchy.AssocSwap | src/core/transform-manager.cpp:156 | Swapping two positions of the ids and of a parallel array together keeps ids distinct and keeps the view. |
| Hierarchy.HopsMonotone | src/core/transform-manager.cpp:144-148 | A chase that has ended gives the same hop count for any larger hop budget. |
| Hierarchy.HopsStep | src/core/transform-manager.cpp:144-148 | One hop of the chase: from a live node the chase continues at its parent with one hop fewer. |
| Hierarchy.LevelOfParent | src/core/transform-manager.cpp:140-148 | A node whose parent does not resolve has level 0. Every other node is one level deeper than its parent. |
| Hierarchy.InsertByLevel | src/core/transform-manager.cpp:151 | Inserting an entry into a level-sorted sequence keeps it sorted and adds exactly that entry. |
| Hierarchy.SortByLevel | src/core/transform-manager.cpp:151 | The sort's result is ordered by ascending level and is a permutation of its input. |
| Hierarchy.SortedEntries | src/core/transform-manager.cpp:136-151 | The sorted helper vector has one entry per live handle and no handle twice. Each entry records its node's parent and level. |
| Hierarchy.SortedLayout | src/core/transform-manager.cpp:151-158 | The layout the reorder leaves describes the same forest, in level order, with every resolvable parent before its child. |
| Hierarchy.LevelSortedParentsFirst | src/core/transform-manager.cpp:151-158 | Level order puts every resolvable parent at a smaller dense position than its child. |
| Hierarchy.ParentsFirstAcyclic | src/core/transform-manager.cpp:175-181 | A parents-first layout has no parent cycle. |
| Hierarchy.HopsFromPosition | src/core/transform-manager.cpp:144-148 | In a parents-first layout the chase from position c ends within c + 1 hops. |
| Hierarchy.DenseWorldIsChainWorld | src/core/transform-manager.cpp:175-182 | If each position holds its local matrix times its parent's entry, and parents come first, then the entry is the product along the node's whole parent chain. |
| Hierarchy.DenseWorldsAreChainWorlds | src/core/transform-manager.cpp:175-182 | The same for every live handle, stated on the views. |
| Transforms.TransformManager.CreateTransform | src/core/transform-manager.cpp:30-45 | As written. Adds the local matrix under a fresh handle and grows both parallel arrays by one exactly when the slot index is new, the new `world_` entry being the default matrix. It sets `parent_` at the slot index to NULL_HANDLE, changes no other `parent_` entry, keeps every slot generation and sets the flag. The world view gains the new node with its appended entry. When the slot index equals the dense position, the view gains the new node as a root. |
| Transforms.TransformManager.GrowParallel | src/core/transform-manager.cpp:33-39 | When the slot index lies past the parallel arrays, both grow by one entry, a null parent and the default matrix; otherwise neither changes. |
| Transforms.TransformManager.CreateTransformCorrected | src/core/transform-manager.cpp:30-45 | Corrected. The same, except the entry cleared is the new node's own at its dense position, so the forest gains exactly one root. The appended `world_` entry is the default matrix, and the world view gains the new node with the entry at its dense position. |
| Transforms.TransformManager.DestroyTransform | src/core/transform-manager.cpp:47-69 | Always sets the flag and succeeds exactly when the handle resolves. When it is not the last, its parent and world entries trade places with the last live ones. The pool removes it, its slot moves to the next generation, and every view loses exactly that handle. |
| Transforms.TransformManager.RemoveNode | src/core/transform-manager.cpp:51-68 | The dense-layout part of destroyTransform: the same outcome on the pool, both parallel arrays and the slot generations. |
| Transforms.TransformManager.MirrorLast | src/core/transform-manager.cpp:51-66 | When the handle resolves, both parallel arrays undergo the mirrored swap of its position with the last live one; otherwise they are unchanged. The u32 wrap of `count - 1` on an empty pool is written out. |
| Transforms.TransformManager.SwapParallel | src/core/transform-manager.cpp:55-65 | Swaps the same two positions of `parent_` and `world_`. |
| Transforms.TransformManager.GetTransform | src/core/transform-manager.cpp:71-74 | The local matrix of a live handle, read at its dense position; nothing for any other handle. |
| Transforms.TransformManager.SetTransform | src/core/transform-manager.cpp:76-86 | Succeeds exactly for a live handle and then replaces only its local matrix, at its dense position. Fails and changes nothing otherwise. It never touches the flag, `parent_` or `world_`. |
| Transforms.TransformManager.SetParent | src/core/transform-manager.cpp:88-99 | Sets the flag even when it fails. On success it writes the parent verbatim into the node's dense position, with no cycle check, and no other `parent_` entry changes. On failure `parent_` is unchanged. |
| Transforms.TransformManager.GetParent | src/core/transform-manager.cpp:101-110 | The recorded parent of a live handle, read at its dense position; NULL_HANDLE for any other handle. |
| Transforms.TransformManager.GetWorldMatrix | src/core/transform-manager.cpp:112-123 | The cached world matrix of a live handle, read at its dense position; nothing for any other handle. |
| Transforms.TransformManager.EntryAt | src/core/transform-manager.cpp:140-148 | The chase loop: the entry for position i holds the node's handle, its recorded parent and its level. On an acyclic forest the chase ends. |
| Transforms.TransformManager.CollectEntries | src/core/transform-manager.cpp:136-149 | The first loop: one entry per dense position, in dense order, each describing its node. |
| Transforms.TransformManager.Reorder | src/core/transform-manager.cpp:154-158 | The second loop: position i ends up holding the node of sorted entry i and that entry's parent. Local matrices travel with their handles, `parent_` entries past the live count stay, and no generation changes. |
| Transforms.TransformManager.PlaceNode | src/core/transform-manager.cpp:156-157 | One step of that loop: a pool swap that leaves the positions already placed alone, then one `parent_` write. |
| Transforms.TransformManager.PlaceStep | src/core/transform-manager.cpp:154-158 | One iteration of that loop keeps its invariant: the pool stays consistent, the first i + 1 positions hold their sorted nodes and parents, and the entries past the live count, the generations and the local-matrix view stay. |
| Transforms.TransformManager.SortTransforms | src/core/transform-manager.cpp:125-159 | The re-sort keeps the live handles, the forest and the local matrices, and leaves the nodes in level order with every parent before its children. The slot table's size and generations and the `parent_` entries past the live count stay. |
| Transforms.TransformManager.ComposeWorlds | src/core/transform-manager.cpp:170-182 | Each position receives its local matrix, multiplied on the right by its parent's world matrix when the parent resolves. Entries past the live count stay. |
| Transforms.TransformManager.Update | src/core/transform-manager.cpp:161-183 | Re-sorts only when the flag was set, and clears it. Afterwards every cached world matrix is the product of local matrices along the node's parent chain. The slot table's size and generations, the array lengths and the entries past the live count stay. |
| Scenarios.ReusedSlotInheritsParent | src/core/transform-manager.cpp:41 | Under createTransform as written, a node created in a reused slot can inherit another node's parent. |
| Scenarios.ReusedSlotIsRoot | src/core/transform-manager.cpp:30-45 | With the correction, the same sequence leaves the new node a root. |
| Scenarios.DestroyedStaysDead | src/core/transform-manager.cpp:30-74 | After destroying A and creating C, whichever slot C takes, C is not A, and A has no local matrix and no parent. |
| Scenarios.CreateAfterUpdate | src/core/transform-manager.cpp:30-45 | A node can be created after update; it is a root holding its own local matrix. |
| Scenarios.SetThenGet | src/core/transform-manager.cpp:71-86 | getTransform after setTransform returns the stored matrix and leaves other nodes' matrices alone. Both fail on a non-resolving handle. |
| Scenarios.ChildWorld | src/core/transform-manager.cpp:161-183 | After making B a child of A and running update, B's world matrix is `Mul(local B, local A)`. |
| Scenarios.TwoNodeChain | src/core/transform-manager.cpp:175-182 | A root and its child form an acyclic forest. The child's chain world is its local matrix times the root's. |

## Left out

- The pool's own source file is not part of this model. `Pool.PackedFreeList` is a concrete
  free list whose contracts are what the manager's calls rely on.
  - Free slots are reused last-freed first (stated in `Add`'s contract).
  - A removal advances the slot's generation modulo 2^32 (stated in `Remove`'s contract).
  - The model's own choices are not claimed to match the original pool beyond those contracts.
- The constructors: the header that declares them is not part of this model.
  - The model's constructor starts empty with the flag clear.
  - It takes the matrix product and the default matrix as parameters.
- Floating-point matrix arithmetic is out of scope. `Mul` is an uninterpreted function.
- Pointers returned by `getTransform`, `getWorldMatrix` and `get` are modelled as the value or
  the dense position. Aliasing through a kept pointer is not modelled.
- Transforms.TransformManager.Update: requires an acyclic forest when a re-sort is pending,
  because the ancestor chase loops forever on a cycle. Behaviour on cyclic input is not
  modelled.
- Transforms.TransformManager.SortTransforms: requires an acyclic forest, for the same reason.
- Pool.PackedFreeList.Add: requires fewer than U32_MAX slots, so the slot index U32_MAX of
  NULL_HANDLE is never issued. The manager does not check this bound before calling `add`.
- The order `std::sort` gives nodes of equal level is not stated, since the sort is not stable.
- The second lookup in `getWorldMatrix` repeats the first one. The model makes both calls and
  uses the second.

## Findings

| source | as written | input that shows it | evidently intended | confidence | as-written member | corrected member |
|---|---|---|---|---|---|---|
| src/core/transform-manager.cpp:41 | `parent_` is cleared at the new handle's slot index, but the new node lives at the last dense position. | create A, create B, setParent(A, B), destroyTransform(A), create C: C sits at dense position 1, whose `parent_` entry is B. Whichever slot C gets (the model's last-freed-first pool gives it A's slot 0), it is not B's slot 1, so that entry is not cleared and getParent(C) returns B. The same write can also wipe a live node's parent: with A, P, B created, setParent(B, P), destroyTransform(A), a create that reuses slot 0 clears `parent_[0]`, which after the swap is B's, so B loses its parent P. | Clear the new node's own entry, at dense position `getElementCount() - 1`, so every new node is a root. | not executed | Scenarios.ReusedSlotInheritsParent | Transforms.TransformManager.CreateTransformCorrected |
