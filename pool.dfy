/** The handle pool (`packed_freelist_t`): values kept in a dense array without holes,
    reached from outside through generation-checked handles. Its operations are those
    the transform manager calls; their contracts are what those calls rely on. */
module Pool {
  import opened Handles

  /** One entry of the indirection table: where the slot's value sits in the dense
      array, the slot's current generation, and whether a live value owns the slot. */
  datatype Slot = Slot(dense: nat, generation: u32, live: bool)

  /** From one table to a later one no slot's generation changed; the table may only
      have grown. */
  ghost predicate GenerationsKept(before: seq<Slot>, after: seq<Slot>)
  {
    && |before| <= |after|
    && forall s :: 0 <= s < |before| ==> after[s].generation == before[s].generation
  }

  /** Keeping generations composes. */
  lemma GenerationsKeptTransitive(a: seq<Slot>, b: seq<Slot>, c: seq<Slot>)
    requires GenerationsKept(a, b) && GenerationsKept(b, c)
    ensures GenerationsKept(a, c)
  {
  }

  /** From one table to the next, the slot of handle `freed` moved on to the next
      generation (wrapping at 2^32) and no other slot's generation changed. */
  ghost predicate GenerationAdvanced(before: seq<Slot>, after: seq<Slot>, freed: Handle)
  {
    && |before| == |after| && freed.index < |after|
    && after[freed.index].generation == (freed.generation + 1) % 0x1_0000_0000
    && forall s :: 0 <= s < |before| && s != freed.index ==> after[s].generation == before[s].generation
  }

  /** A handle whose slot has moved on to another generation: the value it named has been
      removed, and the handle cannot resolve again while the generations differ. */
  ghost predicate Retired(slots: seq<Slot>, h: Handle)
  {
    h.index < |slots| && slots[h.index].generation != h.generation
  }

  class PackedFreeList<T> {
    /** The dense array of values. */
    var data: seq<T>
    /** For each dense position, the handle that owns it. */
    var ids: seq<Handle>
    /** The indirection table, indexed by a handle's slot index. */
    var slots: seq<Slot>
    /** Slots that no live value owns, reused most recent first. */
    var freeList: seq<nat>

    ghost predicate Valid()
      reads this
      ensures Valid() ==> Distinct(ids)
      ensures Valid() ==> NULL_HANDLE !in ids
      ensures Valid() ==> |ids| <= |slots|
    {
      && |data| == |ids|
      && |slots| <= U32_MAX
      && |ids| + |freeList| == |slots|
      && (forall d :: 0 <= d < |ids| ==>
            ids[d].index < |slots| && slots[ids[d].index] == Slot(d, ids[d].generation, true))
      && (forall s :: 0 <= s < |slots| && slots[s].live ==>
            slots[s].dense < |ids| && ids[slots[s].dense].index == s)
      && (forall k :: 0 <= k < |freeList| ==> freeList[k] < |slots| && !slots[freeList[k]].live)
      && Distinct(freeList)
    }

    constructor ()
      ensures Valid() && data == [] && ids == [] && slots == []
    {
      data, ids, slots, freeList := [], [], [], [];
    }

    /** The size of the indirection table: every slot index ever handed out is below it. */
    function SlotCount(): nat
      reads this
    {
      |slots|
    }

    /** Handle resolution through the indirection table: a handle resolves exactly when
      it owns a dense position, and then to that position. */
    function IndexOf(id: Handle): (r: Option<nat>)
      reads this
      requires Valid()
      ensures r == Find(ids, id)
      ensures r.Some? <==> id in ids
    {
      if id.index < |slots| && slots[id.index].live && slots[id.index].generation == id.generation
      then
        var d := slots[id.index].dense;
        FindDistinct(ids, d);
        Some(d)
      else
        None
    }

    /** A retired handle does not resolve. */
    lemma RetiredIsDead(h: Handle)
      requires Valid() && Retired(slots, h)
      ensures h !in ids && IndexOf(h) == None
    {
    }

    /** `add`: appends the value; the handle reuses the most recently freed slot, at
      that slot's current generation, or opens a new slot at generation 0. */
    method Add(value: T) returns (id: Handle)
      requires Valid() && |slots| < U32_MAX
      modifies this
      ensures Valid()
      ensures data == old(data) + [value] && ids == old(ids) + [id]
      ensures id !in old(ids) && id != NULL_HANDLE && id.index < |slots|
      ensures forall h :: h in old(ids) ==> h.index != id.index
      ensures || (id.index < old(|slots|) && |slots| == old(|slots|))
              || (id.index == old(|slots|) && |slots| == old(|slots|) + 1)
      ensures old(|freeList|) > 0 ==>
                && id.index == old(freeList)[old(|freeList|) - 1]
                && freeList == old(freeList)[..old(|freeList|) - 1]
      ensures old(|freeList|) == 0 ==> id == Handle(old(|slots|), 0) && freeList == []
      ensures id.index < old(|slots|) ==> id.generation == old(slots)[id.index].generation
      ensures GenerationsKept(old(slots), slots)
    {
      assert Distinct(freeList);
      if |freeList| > 0 {
        var s := freeList[|freeList| - 1];
        DistinctPrefix(freeList, |freeList| - 1);
        forall k | 0 <= k < |freeList| - 1 ensures freeList[k] != s {
          DistinctAt(freeList, k, |freeList| - 1);
        }
        freeList := freeList[..|freeList| - 1];
        id := Handle(s, slots[s].generation);
        slots := slots[s := Slot(|ids|, slots[s].generation, true)];
      } else {
        id := Handle(|slots|, 0);
        slots := slots + [Slot(|ids|, 0, true)];
      }
      ids := ids + [id];
      data := data + [value];
    }

    /** `get`: the pointer into the dense array, as a position; None for a null pointer. */
    method Get(id: Handle) returns (ptr: Option<nat>)
      requires Valid()
      ensures ptr == IndexOf(id)
      ensures ptr.Some? ==> ptr.value < |data| && ids[ptr.value] == id
    {
      ptr := IndexOf(id);
    }

    /** A store through the pointer `get` returned. */
    method Store(pos: nat, value: T)
      requires Valid() && pos < |data|
      modifies this
      ensures Valid()
      ensures data == old(data)[pos := value] && ids == old(ids)
      ensures slots == old(slots) && freeList == old(freeList)
    {
      data := data[pos := value];
    }

    /** `getIndexFromId`: whether the handle resolves, and to which dense position. */
    method GetIndexFromId(id: Handle) returns (found: bool, index: nat)
      requires Valid()
      ensures found <==> id in ids
      ensures found ==> index < |ids| && ids[index] == id
    {
      var r := IndexOf(id);
      found := r.Some?;
      index := if found then r.value else 0;
    }

    /** `getIdFromIndex`: the handle owning a dense position. */
    method GetIdFromIndex(i: nat) returns (id: Handle)
      requires Valid() && i < |ids|
      ensures id == ids[i] && IndexOf(id) == Some(i)
    {
      id := ids[i];
      FindDistinct(ids, i);
    }

    /** `getElementCount`: the number of live values. */
    method GetElementCount() returns (n: nat)
      requires Valid()
      ensures n == |data| && n == |ids|
    {
      n := |data|;
    }

    /** `getData`: the dense array itself. */
    method GetData() returns (values: seq<T>)
      requires Valid()
      ensures values == data && |values| == |ids|
    {
      values := data;
    }

    /** `remove`: fails on a handle that does not resolve; otherwise the last value
      moves into the removed one's position, the array shrinks by one, and the freed
      slot's generation advances so the removed handle no longer resolves. */
    method Remove(id: Handle) returns (ok: bool)
      requires Valid()
      modifies this
      ensures Valid() && |slots| == old(|slots|)
      ensures ok <==> id in old(ids)
      ensures ok ==> && data == SwapRemove(old(data), Find(old(ids), id).value)
                     && ids == SwapRemove(old(ids), Find(old(ids), id).value)
      ensures !ok ==> data == old(data) && ids == old(ids)
      ensures id !in ids
      ensures ok ==> && GenerationAdvanced(old(slots), slots, id) && !slots[id.index].live
                     && Retired(slots, id)
      ensures ok ==> freeList == old(freeList) + [id.index]
      ensures !ok ==> slots == old(slots) && freeList == old(freeList)
    {
      var r := IndexOf(id);
      if r.None? {
        return false;
      }
      var d := r.value;
      Unlink(id, d);
      assert id.index !in freeList by {
        forall k | 0 <= k < |freeList| ensures freeList[k] != id.index {
          assert !old(slots)[freeList[k]].live;
        }
      }
      DistinctAppend<nat>(freeList, id.index);
      freeList := freeList + [id.index];
      ok := true;
    }

    /** The part of `remove` that compacts the dense arrays and updates the slot table:
      the last value and id move into position d, the moved handle's slot points there,
      and the removed handle's slot is released at the next generation. */
    method Unlink(id: Handle, d: nat)
      requires Valid() && d < |ids| && ids[d] == id
      modifies this
      ensures data == SwapRemove(old(data), d) && ids == SwapRemove(old(ids), d)
      ensures |slots| == old(|slots|) && freeList == old(freeList)
      ensures id.index < |slots| && slots[id.index] == Slot(old(slots)[id.index].dense, (id.generation + 1) % 0x1_0000_0000, false)
      ensures forall s :: 0 <= s < |slots| && s != id.index ==>
                slots[s].generation == old(slots)[s].generation && slots[s].live == old(slots)[s].live
      ensures forall e :: 0 <= e < |ids| ==>
                ids[e].index < |slots| && slots[ids[e].index] == Slot(e, ids[e].generation, true)
      ensures forall t :: 0 <= t < |slots| && slots[t].live ==>
                slots[t].dense < |ids| && ids[slots[t].dense].index == t
    {
      var last := |ids| - 1;
      var moved := ids[last];
      ghost var ids0, slots0 := ids, slots;
      data := data[d := data[last]][..last];
      ids := ids[d := ids[last]][..last];
      slots := slots[moved.index := Slot(d, moved.generation, true)];
      slots := slots[id.index := Slot(slots[id.index].dense, (id.generation + 1) % 0x1_0000_0000, false)];
      forall e | 0 <= e < |ids|
        ensures ids[e].index < |slots| && slots[ids[e].index] == Slot(e, ids[e].generation, true)
      {
        if e != d {
          assert ids[e] == ids0[e] && slots0[ids0[e].index].dense == e;
        }
      }
      forall t | 0 <= t < |slots| && slots[t].live
        ensures slots[t].dense < |ids| && ids[slots[t].dense].index == t
      {
        if t != moved.index {
          var e := slots0[t].dense;
          assert e != d && e != last && ids[e] == ids0[e];
        }
      }
    }

    /** `swap`: exchanges the dense positions of two resolving handles, values with them;
      does nothing when either does not resolve. */
    method Swap(a: Handle, b: Handle)
      requires Valid()
      modifies this
      ensures Valid() && |slots| == old(|slots|)
      ensures if a in old(ids) && b in old(ids) then
                && data == SwapAt(old(data), Find(old(ids), a).value, Find(old(ids), b).value)
                && ids == SwapAt(old(ids), Find(old(ids), a).value, Find(old(ids), b).value)
              else data == old(data) && ids == old(ids)
      ensures GenerationsKept(old(slots), slots) && freeList == old(freeList)
    {
      var ra, rb := IndexOf(a), IndexOf(b);
      if ra.Some? && rb.Some? {
        Exchange(a, b, ra.value, rb.value);
      }
    }

    /** The body of `swap` once both handles resolved, to positions i and j. */
    method Exchange(a: Handle, b: Handle, i: nat, j: nat)
      requires Valid() && i < |ids| && j < |ids| && ids[i] == a && ids[j] == b
      modifies this
      ensures Valid() && |slots| == old(|slots|)
      ensures data == SwapAt(old(data), i, j) && ids == SwapAt(old(ids), i, j)
      ensures GenerationsKept(old(slots), slots) && freeList == old(freeList)
    {
      ghost var ids0, slots0 := ids, slots;
      data := data[i := data[j]][j := data[i]];
      ids := ids[i := ids[j]][j := ids[i]];
      slots := slots[a.index := Slot(j, a.generation, true)][b.index := Slot(i, b.generation, true)];
      forall d | 0 <= d < |ids|
        ensures ids[d].index < |slots| && slots[ids[d].index] == Slot(d, ids[d].generation, true)
      {
        if d != i && d != j {
          assert ids[d] == ids0[d] && ids0[d].index != a.index && ids0[d].index != b.index;
        }
      }
      forall t | 0 <= t < |slots| && slots[t].live
        ensures slots[t].dense < |ids| && ids[slots[t].dense].index == t
      {
        if t != a.index && t != b.index {
          var e := slots0[t].dense;
          assert e != i && e != j;
        }
      }
    }
  }
}
