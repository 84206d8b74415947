/** The transform manager (`transform_manager_t`): local matrices in a handle pool, and
    two arrays kept parallel to the pool's dense array, the parent handle and the cached
    world matrix of each node. */
module Transforms {
  import opened Handles
  import opened Hierarchy
  import opened Pool

  class TransformManager<M> {
    /** Matrix product (`maths::mat4` operator*), left operand first. */
    const Mul: (M, M) -> M
    /** The value a default-constructed matrix holds when world_ grows. */
    const Blank: M
    /** transform_: the local matrix of every node. */
    const transform: PackedFreeList<M>
    /** parent_: the parent handle of the node at each dense position. */
    var parent: seq<Handle>
    /** world_: the cached world matrix of the node at each dense position. */
    var world: seq<M>
    /** hierarchy_changed_: a node was created, destroyed or reparented since the last
        re-sort. */
    var hierarchyChanged: bool

    /** The parallel arrays cover every slot index the pool has issued (so at least every
        dense position), and while no structural change is pending the layout from the
        last re-sort still has every parent before its children. */
    ghost predicate Valid()
      reads this, transform
    {
      && transform.Valid()
      && |parent| == transform.SlotCount()
      && |world| == |parent|
      && (!hierarchyChanged ==> ParentsFirst(transform.ids, parent))
    }

    /** Which handle each live node names as its parent. */
    ghost function Forest(): map<Handle, Handle>
      reads this`parent, transform`ids
      requires |transform.ids| <= |parent|
    {
      Assoc(transform.ids, parent)
    }

    /** The local matrix of each live node. */
    ghost function Locals(): map<Handle, M>
      reads transform`ids, transform`data
      requires |transform.ids| <= |transform.data|
    {
      Assoc(transform.ids, transform.data)
    }

    /** The cached world matrix of each live node. */
    ghost function Worlds(): map<Handle, M>
      reads this`world, transform`ids
      requires |transform.ids| <= |world|
    {
      Assoc(transform.ids, world)
    }

    constructor (mul: (M, M) -> M, blank: M)
      ensures Valid() && fresh(transform)
      ensures Mul == mul && Blank == blank
      ensures transform.ids == [] && parent == [] && world == [] && !hierarchyChanged
    {
      Mul := mul;
      Blank := blank;
      transform := new PackedFreeList();
      parent := [];
      world := [];
      hierarchyChanged := false;
    }

    /** createTransform, as written: the parent entry cleared is the one at the new
        handle's slot index, while the new node sits at the last dense position. The two
        agree as long as no slot has been reused. */
    method CreateTransform(local: M) returns (id: Handle)
      requires Valid() && transform.SlotCount() < U32_MAX
      modifies this, transform
      ensures Valid() && hierarchyChanged
      ensures transform.ids == old(transform.ids) + [id] && transform.data == old(transform.data) + [local]
      ensures id !in old(transform.ids) && id != NULL_HANDLE
      ensures forall h :: h in old(transform.ids) ==> h.index != id.index
      ensures Locals() == old(Locals())[id := local]
      ensures id.index >= old(|parent|) ==> |parent| == old(|parent|) + 1 && |world| == old(|world|) + 1
      ensures id.index < old(|parent|) ==> |parent| == old(|parent|) && |world| == old(|world|)
      ensures id.index < |parent| && parent[id.index] == NULL_HANDLE
      ensures forall k :: 0 <= k < old(|parent|) && k != id.index ==> parent[k] == old(parent)[k]
      ensures forall k :: 0 <= k < old(|world|) ==> world[k] == old(world)[k]
      ensures id.index >= old(|world|) ==> world[old(|world|)] == Blank
      ensures Worlds() == old(Worlds())[id := world[old(|transform.ids|)]]
      ensures GenerationsKept(old(transform.slots), transform.slots)
      ensures id.index == old(|transform.ids|) ==> Forest() == old(Forest())[id := NULL_HANDLE]
    {
      ghost var ids0, parent0 := transform.ids, parent;
      id := transform.Add(local);
      // resize by one; the new parent entry is overwritten just below
      GrowParallel(id.index);
      parent := parent[id.index := NULL_HANDLE];
      hierarchyChanged := true;
      AssocAppend(ids0, old(transform.data), id, transform.data);
      AssocAppend(ids0, old(world), id, world);
      if id.index == |ids0| {
        AssocAppend(ids0, parent0, id, parent);
      }
    }

    /** createTransform as evidently intended: the parent entry cleared is the new node's
        own, at its dense position, so the new node is a root and no other node's parent
        changes. */
    method CreateTransformCorrected(local: M) returns (id: Handle)
      requires Valid() && transform.SlotCount() < U32_MAX
      modifies this, transform
      ensures Valid() && hierarchyChanged
      ensures transform.ids == old(transform.ids) + [id] && transform.data == old(transform.data) + [local]
      ensures id !in old(transform.ids) && id != NULL_HANDLE
      ensures forall h :: h in old(transform.ids) ==> h.index != id.index
      ensures Locals() == old(Locals())[id := local]
      ensures Forest() == old(Forest())[id := NULL_HANDLE]
      ensures id.index >= old(|parent|) ==> |parent| == old(|parent|) + 1 && |world| == old(|world|) + 1
      ensures id.index < old(|parent|) ==> |parent| == old(|parent|) && |world| == old(|world|)
      ensures forall k :: 0 <= k < old(|world|) ==> world[k] == old(world)[k]
      ensures id.index >= old(|world|) ==> world[old(|world|)] == Blank
      ensures Worlds() == old(Worlds())[id := world[old(|transform.ids|)]]
      ensures GenerationsKept(old(transform.slots), transform.slots)
    {
      ghost var ids0, parent0 := transform.ids, parent;
      var oldCount := transform.GetElementCount();
      id := transform.Add(local);
      GrowParallel(id.index);
      parent := parent[oldCount := NULL_HANDLE];
      hierarchyChanged := true;
      AssocAppend(ids0, old(transform.data), id, transform.data);
      AssocAppend(ids0, old(world), id, world);
      AssocAppend(ids0, parent0, id, parent);
    }

    /** The resize in createTransform: when the new handle's slot index lies past the
        parallel arrays, both grow by one entry, a null parent and the default matrix. */
    method GrowParallel(index: nat)
      requires |world| == |parent|
      modifies this`parent, this`world
      ensures index >= old(|parent|) ==> parent == old(parent) + [NULL_HANDLE] && world == old(world) + [Blank]
      ensures index < old(|parent|) ==> parent == old(parent) && world == old(world)
    {
      if index >= |parent| {
        parent := parent + [NULL_HANDLE];
        world := world + [Blank];
      }
    }

    /** destroyTransform: mirrors the pool's swap-with-last on both parallel arrays, then
        removes the handle from the pool. The structure is marked changed even when the
        handle does not resolve. */
    method DestroyTransform(id: Handle) returns (ok: bool)
      requires Valid()
      modifies this, transform
      ensures Valid() && hierarchyChanged
      ensures ok <==> id in old(transform.ids)
      ensures ok ==> && transform.ids == SwapRemove(old(transform.ids), Find(old(transform.ids), id).value)
                     && transform.data == SwapRemove(old(transform.data), Find(old(transform.ids), id).value)
                     && parent == MirrorRemoval(old(parent), Find(old(transform.ids), id).value, old(|transform.ids|))
                     && world == MirrorRemoval(old(world), Find(old(transform.ids), id).value, old(|transform.ids|))
      ensures !ok ==> && transform.ids == old(transform.ids) && transform.data == old(transform.data)
                      && parent == old(parent) && world == old(world)
      ensures ok ==> GenerationAdvanced(old(transform.slots), transform.slots, id) && Retired(transform.slots, id)
      ensures !ok ==> transform.slots == old(transform.slots)
      ensures Forest() == old(Forest()) - {id}
      ensures Locals() == old(Locals()) - {id}
      ensures Worlds() == old(Worlds()) - {id}
    {
      ghost var ids0, data0, parent0, world0 := transform.ids, transform.data, parent, world;
      hierarchyChanged := true;
      ok := RemoveNode(id);
      if ok {
        var d := Find(ids0, id).value;
        AssocMirrorRemoval(ids0, parent0, d);
        AssocMirrorRemoval(ids0, world0, d);
        AssocSwapRemoveBoth(ids0, data0, d);
      } else {
        assert Assoc(ids0, parent0) - {id} == Assoc(ids0, parent0);
        assert Assoc(ids0, data0) - {id} == Assoc(ids0, data0);
        assert Assoc(ids0, world0) - {id} == Assoc(ids0, world0);
      }
    }

    /** The body of destroyTransform on the dense layout: the parallel arrays follow the
        swap-with-last the pool is about to make, then the pool removes the handle. */
    method RemoveNode(id: Handle) returns (ok: bool)
      requires transform.Valid() && |parent| == transform.SlotCount() && |world| == |parent|
      modifies this`parent, this`world, transform
      ensures transform.Valid() && transform.SlotCount() == old(transform.SlotCount())
      ensures ok <==> id in old(transform.ids)
      ensures ok ==> && transform.ids == SwapRemove(old(transform.ids), Find(old(transform.ids), id).value)
                     && transform.data == SwapRemove(old(transform.data), Find(old(transform.ids), id).value)
                     && parent == MirrorRemoval(old(parent), Find(old(transform.ids), id).value, old(|transform.ids|))
                     && world == MirrorRemoval(old(world), Find(old(transform.ids), id).value, old(|transform.ids|))
      ensures !ok ==> && transform.ids == old(transform.ids) && transform.data == old(transform.data)
                      && parent == old(parent) && world == old(world)
      ensures ok ==> GenerationAdvanced(old(transform.slots), transform.slots, id) && Retired(transform.slots, id)
      ensures !ok ==> transform.slots == old(transform.slots)
    {
      ghost var d := MirrorLast(id);
      ok := transform.Remove(id);
    }

    /** The first half of destroyTransform: when the handle resolves and is not the last
        live node, its `parent_` and `world_` entries trade places with the last live
        ones. The position found is returned for the proof. */
    method MirrorLast(id: Handle) returns (ghost d: Option<nat>)
      requires transform.Valid() && |parent| == transform.SlotCount() && |world| == |parent|
      modifies this`parent, this`world
      ensures d == Find(transform.ids, id)
      ensures d.Some? ==> && parent == MirrorRemoval(old(parent), d.value, |transform.ids|)
                          && world == MirrorRemoval(old(world), d.value, |transform.ids|)
      ensures d.None? ==> parent == old(parent) && world == old(world)
    {
      var count := transform.GetElementCount();
      // u32 arithmetic: on an empty pool count - 1 wraps to U32_MAX, and the lookup fails
      var lastTransform: u32 := if count == 0 then U32_MAX else count - 1;
      var found, index := transform.GetIndexFromId(id);
      if found {
        FindDistinct(transform.ids, index);
      }
      if found && index < lastTransform {
        SwapParallel(index, lastTransform);
      }
      d := if found then Some(index) else None;
    }

    /** The mirror of the pool's swap-with-last on the two parallel arrays. */
    method SwapParallel(i: nat, j: nat)
      requires i < |parent| && j < |parent| && |world| == |parent|
      modifies this`parent, this`world
      ensures parent == SwapAt(old(parent), i, j) && world == SwapAt(old(world), i, j)
    {
      parent := SwapAt(parent, i, j);
      world := SwapAt(world, i, j);
    }

    /** getTransform: the local matrix of a resolving handle; nothing otherwise. */
    method GetTransform(id: Handle) returns (r: Option<M>)
      requires Valid()
      ensures id in Locals() ==> r == Some(Locals()[id])
      ensures id in transform.ids ==> r == Some(transform.data[Find(transform.ids, id).value])
      ensures id !in Locals() ==> r == None
    {
      var ptr := transform.Get(id);
      if ptr.Some? {
        r := Some(transform.data[ptr.value]);
        AssocAt(transform.ids, transform.data, ptr.value);
      } else {
        r := None;
      }
    }

    /** setTransform: replaces the local matrix of a resolving handle. The structure is
        not marked changed and no world matrix is recomputed. */
    method SetTransform(id: Handle, local: M) returns (ok: bool)
      requires Valid()
      modifies transform
      ensures Valid()
      ensures ok <==> id in old(Locals())
      ensures Locals() == if ok then old(Locals())[id := local] else old(Locals())
      ensures transform.ids == old(transform.ids) && |transform.slots| == old(|transform.slots|)
      ensures ok ==> transform.data == old(transform.data)[Find(old(transform.ids), id).value := local]
      ensures !ok ==> transform.data == old(transform.data)
      ensures transform.slots == old(transform.slots)
    {
      var ptr := transform.Get(id);
      if ptr.Some? {
        AssocUpdate(transform.ids, transform.data, ptr.value, local);
        transform.Store(ptr.value, local);
        ok := true;
      } else {
        ok := false;
      }
    }

    /** setParent: records parentId verbatim for a resolving handle, with no cycle check.
        The structure is marked changed before the lookup, so also when it fails. */
    method SetParent(id: Handle, parentId: Handle) returns (ok: bool)
      requires Valid()
      modifies this
      ensures Valid() && hierarchyChanged
      ensures ok <==> id in old(Forest())
      ensures Forest() == if ok then old(Forest())[id := parentId] else old(Forest())
      ensures ok ==> parent == old(parent)[Find(old(transform.ids), id).value := parentId]
      ensures !ok ==> parent == old(parent)
      ensures world == old(world)
    {
      hierarchyChanged := true;
      var found, index := transform.GetIndexFromId(id);
      if found {
        AssocUpdate(transform.ids, parent, index, parentId);
        parent := parent[index := parentId];
      }
      ok := found;
    }

    /** getParent: the recorded parent of a resolving handle; NULL_HANDLE otherwise. */
    method GetParent(id: Handle) returns (p: Handle)
      requires Valid()
      ensures id in Forest() ==> p == Forest()[id]
      ensures id in transform.ids ==> p == parent[Find(transform.ids, id).value]
      ensures id !in Forest() ==> p == NULL_HANDLE
    {
      var found, index := transform.GetIndexFromId(id);
      if found {
        AssocAt(transform.ids, parent, index);
        return parent[index];
      }
      return NULL_HANDLE;
    }

    /** getWorldMatrix: the cached world matrix of a resolving handle; nothing otherwise.
        (The source performs the lookup twice; the first result is unused.) */
    method GetWorldMatrix(id: Handle) returns (r: Option<M>)
      requires Valid()
      ensures id in Worlds() ==> r == Some(Worlds()[id])
      ensures id in transform.ids ==> r == Some(world[Find(transform.ids, id).value])
      ensures id !in Worlds() ==> r == None
    {
      var _, _ := transform.GetIndexFromId(id);
      var found, index := transform.GetIndexFromId(id);
      if found {
        AssocAt(transform.ids, world, index);
        return Some(world[index]);
      }
      return None;
    }

    /** One iteration of the re-sort's first loop: the entry for dense position i, whose
        level is found by chasing parents until one does not resolve. The chase ends
        because the forest is acyclic. */
    method EntryAt(i: nat) returns (e: Entry)
      requires Valid() && Acyclic(Forest()) && i < |transform.ids|
      ensures e.id == transform.ids[i] && Describes(Forest(), e)
    {
      ghost var f := Forest();
      var parentId := parent[i];
      var id := transform.GetIdFromIndex(i);
      e := Entry(id, parentId, 0);
      AssocAt(transform.ids, parent, i);
      HopsStep(f, id);
      var found: bool, parentIndex: nat := transform.GetIndexFromId(parentId);
      while found
        invariant e == Entry(id, parent[i], e.level)
        invariant Hops(f, parentId, |f|).Some?
        invariant e.level + Hops(f, parentId, |f|).value == Level(f, id)
        invariant found <==> parentId in f
        invariant found ==> parentIndex < |transform.ids| && transform.ids[parentIndex] == parentId
        decreases Hops(f, parentId, |f|).value
      {
        AssocAt(transform.ids, parent, parentIndex);
        HopsStep(f, parentId);
        e := e.(level := e.level + 1);
        parentId := parent[parentIndex];
        found, parentIndex := transform.GetIndexFromId(parentId);
      }
    }

    /** The re-sort's first loop: one entry per dense position, in dense order. */
    method CollectEntries() returns (entries: seq<Entry>)
      requires Valid() && Acyclic(Forest())
      ensures |entries| == |transform.ids|
      ensures forall k :: 0 <= k < |entries| ==> entries[k].id == transform.ids[k] && Describes(Forest(), entries[k])
    {
      var count := transform.GetElementCount();
      ghost var f := Forest();
      entries := [];
      for i := 0 to count
        invariant |entries| == i
        invariant forall k :: 0 <= k < i ==> entries[k].id == transform.ids[k] && Describes(f, entries[k])
      {
        var e := EntryAt(i);
        ghost var prev := entries;
        entries := entries + [e];
        forall k | 0 <= k < i + 1 ensures entries[k].id == transform.ids[k] && Describes(f, entries[k]) {
          if k < i {
            assert entries[k] == prev[k];
          }
        }
      }
    }

    /** The re-sort's second loop: position i receives the node of ordered[i], swapped in
        from wherever it sits, together with the parent recorded in the entry. Local
        matrices travel with their handles; the world cache is not touched. */
    method Reorder(ordered: seq<Entry>)
      requires Valid() && |ordered| == |transform.ids|
      requires Distinct(IdsOf(ordered))
      requires forall k :: 0 <= k < |ordered| ==> ordered[k].id in transform.ids
      modifies this`parent, transform
      ensures transform.Valid() && transform.SlotCount() == old(transform.SlotCount()) && |parent| == old(|parent|)
      ensures transform.ids == IdsOf(ordered)
      ensures forall k :: 0 <= k < |ordered| ==> parent[k] == ordered[k].parent
      ensures forall k :: |ordered| <= k < |parent| ==> parent[k] == old(parent)[k]
      ensures GenerationsKept(old(transform.slots), transform.slots)
      ensures Locals() == old(Locals())
    {
      var count := transform.GetElementCount();
      ghost var os, locals0, parent0, slots0 := IdsOf(ordered), Locals(), parent, transform.slots;
      forall k | 0 <= k < |ordered| ensures ordered[k].id in locals0 {
        assert ordered[k].id in transform.ids;
      }
      for i := 0 to count
        invariant Placed(ordered, i, os, parent0, slots0, locals0)
      {
        PlaceStep(ordered, i, os, parent0, slots0, locals0);
      }
      forall k | count <= k < |parent| ensures parent[k] == parent0[k] {
        assert parent[k] == parent[count..][k - count];
      }
      assert transform.ids == os;
    }

    /** The state the reorder loop keeps: positions before i hold the nodes and parents of
        the first i sorted entries, the pool is consistent, and the entries past the live
        count, the slot generations and the local-matrix view are as they were. */
    ghost predicate Placed(ordered: seq<Entry>, i: nat, os: seq<Handle>, parent0: seq<Handle>,
                           slots0: seq<Slot>, locals0: map<Handle, M>)
      reads this, transform
    {
      && os == IdsOf(ordered) && Distinct(os) && i <= |ordered| == |transform.ids|
      && (forall k :: 0 <= k < |ordered| ==> ordered[k].id in locals0)
      && transform.Valid() && |parent| == transform.SlotCount() == |parent0|
      && (forall k :: 0 <= k < i ==> transform.ids[k] == os[k])
      && (forall k :: 0 <= k < i ==> parent[k] == ordered[k].parent)
      && parent[|ordered|..] == parent0[|ordered|..]
      && GenerationsKept(slots0, transform.slots)
      && Locals() == locals0
    }

    /** One iteration of that loop: position i receives its node and parent too. */
    method PlaceStep(ordered: seq<Entry>, i: nat, ghost os: seq<Handle>, ghost parent0: seq<Handle>,
                     ghost slots0: seq<Slot>, ghost locals0: map<Handle, M>)
      requires Placed(ordered, i, os, parent0, slots0, locals0) && i < |ordered|
      modifies this`parent, transform
      ensures Placed(ordered, i + 1, os, parent0, slots0, locals0)
    {
      ghost var before, parentBefore, slotsBefore := transform.ids, parent, transform.slots;
      assert ordered[i].id in before by {
        assert os[i] in locals0;
      }
      forall k | 0 <= k < i ensures before[k] != ordered[i].id {
        DistinctAt(os, k, i);
      }
      PlaceNode(i, ordered[i]);
      GenerationsKeptTransitive(slots0, slotsBefore, transform.slots);
      forall k | 0 <= k < i + 1 ensures transform.ids[k] == os[k] && parent[k] == ordered[k].parent {
        if k < i {
          assert transform.ids[k] == before[k] && parent[k] == parentBefore[k];
        }
      }
    }

    /** One step of the re-sort's second loop: the node of entry e is swapped into
        dense position i, and position i's parent becomes the one e recorded. Positions
        before i, which already hold their final nodes, keep them. */
    method PlaceNode(i: nat, e: Entry)
      requires transform.Valid() && |parent| == transform.SlotCount() && i < |transform.ids|
      requires e.id in transform.ids
      requires forall k :: 0 <= k < i ==> transform.ids[k] != e.id
      modifies this`parent, transform
      ensures transform.Valid() && transform.SlotCount() == old(transform.SlotCount())
      ensures transform.ids == SwapAt(old(transform.ids), i, Find(old(transform.ids), e.id).value)
      ensures Find(old(transform.ids), e.id).value >= i
      ensures parent == old(parent)[i := e.parent]
      ensures parent[|transform.ids|..] == old(parent)[|transform.ids|..]
      ensures GenerationsKept(old(transform.slots), transform.slots)
      ensures Locals() == old(Locals())
    {
      ghost var before, dataBefore := transform.ids, transform.data;
      var current := transform.GetIdFromIndex(i);
      ghost var j := Find(before, e.id).value;
      FindDistinct(before, i);
      transform.Swap(current, e.id);
      AssocSwap(before, dataBefore, i, j);
      parent := parent[i := e.parent];
    }

    /** sortTransforms: computes every node's level by chasing its ancestors, sorts the
        nodes by level and moves them into that order. The forest and every node's local
        matrix are unchanged as handle-keyed views; afterwards every parent sits before its
        children. */
    method SortTransforms()
      requires Valid() && Acyclic(Forest())
      modifies this`parent, transform
      ensures Valid()
      ensures transform.SlotCount() == old(transform.SlotCount()) && |parent| == old(|parent|)
      ensures |transform.ids| == old(|transform.ids|)
      ensures forall k :: |transform.ids| <= k < |parent| ==> parent[k] == old(parent)[k]
      ensures GenerationsKept(old(transform.slots), transform.slots)
      ensures forall h :: h in transform.ids <==> h in old(transform.ids)
      ensures Forest() == old(Forest()) && Locals() == old(Locals())
      ensures LevelSorted(Forest(), transform.ids)
      ensures ParentsFirst(transform.ids, parent)
    {
      ghost var ids0, parent0 := transform.ids, parent;
      var entries := CollectEntries();
      var ordered := SortByLevel(entries);
      SortedEntries(ids0, parent0, entries, ordered);
      forall k | 0 <= k < |ordered| ensures ordered[k].id in transform.ids {
        assert IdsOf(ordered)[k] in ids0;
      }
      Reorder(ordered);
      SortedLayout(ids0, parent0, ordered, parent);
    }

    /** update's second loop: each dense position receives its local matrix, multiplied
        by its parent's world matrix when the parent resolves. Parents come first, so the
        parent's entry is already this round's. */
    method ComposeWorlds()
      requires Valid() && !hierarchyChanged
      modifies this`world
      ensures Valid()
      ensures forall c :: 0 <= c < |transform.ids| ==> ComposedAt(transform.ids, parent, transform.data, world, Mul, c)
      ensures forall k :: |transform.ids| <= k < |world| ==> world[k] == old(world)[k]
    {
      var transforms := transform.GetData();
      ghost var ids := transform.ids;
      for i := 0 to |transforms|
        invariant |world| == |parent|
        invariant forall k :: |transforms| <= k < |world| ==> world[k] == old(world)[k]
        invariant forall k :: 0 <= k < i ==> ComposedAt(ids, parent, transforms, world, Mul, k)
      {
        ghost var prev := world;
        world := world[i := transforms[i]];
        var found, parentIndex := transform.GetIndexFromId(parent[i]);
        if found {
          assert Find(ids, parent[i]) == Some(parentIndex);
          world := world[i := Mul(world[i], world[parentIndex])];
        }
        forall k | 0 <= k < i ensures ComposedAt(ids, parent, transforms, world, Mul, k) {
          assert ComposedAt(ids, parent, transforms, prev, Mul, k);
          var q := Find(ids, parent[k]);
          if q.Some? {
            assert q.value < k && world[q.value] == prev[q.value];
          }
        }
      }
    }

    /** update: re-sorts when the structure changed, then composes world matrices in
        dense order. Every node's cached world matrix is then its local matrix composed
        along its whole parent chain; a parent that does not resolve makes the node a
        root. A parent cycle must not be pending: the ancestor chase would not end. */
    method Update()
      requires Valid()
      requires hierarchyChanged ==> Acyclic(Forest())
      modifies this, transform
      ensures Valid() && !hierarchyChanged
      ensures Forest() == old(Forest()) && Locals() == old(Locals())
      ensures forall h :: h in transform.ids <==> h in old(transform.ids)
      ensures transform.SlotCount() == old(transform.SlotCount()) && |transform.ids| == old(|transform.ids|)
      ensures GenerationsKept(old(transform.slots), transform.slots)
      ensures |parent| == old(|parent|) && |world| == old(|world|)
      ensures forall k :: |transform.ids| <= k < |parent| ==> parent[k] == old(parent)[k] && world[k] == old(world)[k]
      ensures !old(hierarchyChanged) ==>
                transform.ids == old(transform.ids) && transform.data == old(transform.data) && parent == old(parent)
      ensures old(hierarchyChanged) ==> LevelSorted(Forest(), transform.ids)
      ensures Acyclic(Forest())
      ensures forall h :: h in Worlds() ==> Worlds()[h] == ChainWorld(Forest(), Locals(), Mul, h)
    {
      if hierarchyChanged {
        SortTransforms();
        hierarchyChanged := false;
      }
      ComposeWorlds();
      DenseWorldsAreChainWorlds(transform.ids, parent, transform.data, world, Mul);
    }
  }
}
