/** The transform hierarchy seen independently of the dense layout: which handle is
    whose parent, how deep each live node sits, the order the re-sort produces, and
    the world matrix each node's parent chain composes. */
module Hierarchy {
  import opened Handles

  /** The handle-keyed view of an array kept parallel to the dense id array: every
      live handle maps to the entry at its dense position (its first position, should
      it occur twice). */
  ghost function Assoc<V>(ids: seq<Handle>, vals: seq<V>): (m: map<Handle, V>)
    requires |ids| <= |vals|
    ensures forall h :: h in m <==> h in ids
  {
    if ids == [] then map[]
    else
      assert ids == [ids[0]] + ids[1..];
      Assoc(ids[1..], vals[1..])[ids[0] := vals[0]]
  }

  /** A handle's entry in the view is the entry at the position where it is found. */
  lemma {:induction false} AssocFind<V>(ids: seq<Handle>, vals: seq<V>, h: Handle)
    requires |ids| <= |vals| && h in ids
    ensures Assoc(ids, vals)[h] == vals[Find(ids, h).value]
  {
    if ids[0] != h {
      assert ids == [ids[0]] + ids[1..];
      AssocFind(ids[1..], vals[1..], h);
    }
  }

  lemma AssocAt<V>(ids: seq<Handle>, vals: seq<V>, k: nat)
    requires Distinct(ids) && |ids| <= |vals| && k < |ids|
    ensures ids[k] in Assoc(ids, vals) && Assoc(ids, vals)[ids[k]] == vals[k]
  {
    FindDistinct(ids, k);
    AssocFind(ids, vals, ids[k]);
  }

  /** A dense layout whose handles all occur in another, each with the entry it had
      there, agrees with the other's view on its handles. */
  lemma AssocSubLayout<V>(ids: seq<Handle>, vals: seq<V>, ids': seq<Handle>, vals': seq<V>)
    requires |ids| <= |vals| && |ids'| <= |vals'|
    requires forall h :: h in ids' ==> h in ids
    requires forall k :: 0 <= k < |ids'| ==> vals'[k] == vals[Find(ids, ids'[k]).value]
    ensures forall h :: h in ids' ==> Assoc(ids', vals')[h] == Assoc(ids, vals)[h]
  {
    forall h | h in ids' ensures Assoc(ids', vals')[h] == Assoc(ids, vals)[h] {
      AssocFind(ids', vals', h);
      AssocFind(ids, vals, h);
    }
  }

  /** Two dense layouts describe the same handle-keyed contents when they hold the
      same handles and each handle's entry travelled with it. */
  lemma AssocRelabel<V>(ids: seq<Handle>, vals: seq<V>, ids': seq<Handle>, vals': seq<V>)
    requires |ids| <= |vals| && |ids'| <= |vals'|
    requires forall h :: h in ids' <==> h in ids
    requires forall k :: 0 <= k < |ids'| ==> vals'[k] == vals[Find(ids, ids'[k]).value]
    ensures Assoc(ids', vals') == Assoc(ids, vals)
  {
    AssocSubLayout(ids, vals, ids', vals');
    assert Assoc(ids', vals').Keys == Assoc(ids, vals).Keys;
  }

  /** Appending a handle to the dense array, with its entry at the new position, adds
      that handle to the view and leaves every other entry alone. */
  lemma AssocAppend<V>(ids: seq<Handle>, vals: seq<V>, h: Handle, vals': seq<V>)
    requires Distinct(ids) && h !in ids && |ids| <= |vals| && |ids| < |vals'|
    requires forall k :: 0 <= k < |ids| ==> vals'[k] == vals[k]
    ensures Distinct(ids + [h])
    ensures Assoc(ids + [h], vals') == Assoc(ids, vals)[h := vals'[|ids|]]
  {
    var ids' := ids + [h];
    DistinctAppend(ids, h);
    var m, m' := Assoc(ids, vals), Assoc(ids', vals');
    forall x | x in m' ensures m'[x] == m[h := vals'[|ids|]][x] {
      var k := Find(ids', x).value;
      FindDistinct(ids', k);
      AssocFind(ids', vals', x);
      if k < |ids| {
        assert ids'[k] == ids[k];
        FindDistinct(ids, k);
        AssocFind(ids, vals, x);
      }
    }
    assert m'.Keys == m.Keys + {h};
  }

  /** Overwriting the entry at one dense position changes the view at exactly the
      handle that owns that position. */
  lemma AssocUpdate<V>(ids: seq<Handle>, vals: seq<V>, pos: nat, v: V)
    requires Distinct(ids) && |ids| <= |vals| && pos < |ids|
    ensures Assoc(ids, vals[pos := v]) == Assoc(ids, vals)[ids[pos] := v]
  {
    var m, m' := Assoc(ids, vals), Assoc(ids, vals[pos := v]);
    forall x | x in m' ensures m'[x] == m[ids[pos] := v][x] {
      var k := Find(ids, x).value;
      FindDistinct(ids, k);
      FindDistinct(ids, pos);
      AssocFind(ids, vals, x);
      AssocFind(ids, vals[pos := v], x);
    }
    assert m'.Keys == m.Keys;
  }

  lemma SwapRemoveDistinct(ids: seq<Handle>, d: nat)
    requires Distinct(ids) && d < |ids|
    ensures Distinct(SwapRemove(ids, d))
    ensures forall h :: h in SwapRemove(ids, d) <==> h in ids && h != ids[d]
  {
    var r := SwapRemove(ids, d);
    forall i, j | 0 <= i < j < |r| ensures !SameAt(r, i, j) {
      var si := if i == d then |ids| - 1 else i;
      var sj := if j == d then |ids| - 1 else j;
      assert r[i] == ids[si] && r[j] == ids[sj];
      DistinctAt(ids, si, sj);
    }
    forall k | 0 <= k < |r| ensures r[k] != ids[d] {
      var src := if k == d then |ids| - 1 else k;
      assert r[k] == ids[src];
      DistinctAt(ids, src, d);
    }
    forall h | h in ids && h != ids[d] ensures h in r {
      var k := Find(ids, h).value;
      if k == |ids| - 1 {
        assert r[d] == h;
      } else {
        assert r[k] == h;
      }
    }
  }

  /** After the removal every surviving position holds the entry its handle had. */
  lemma SwapRemoveEntries<V>(ids: seq<Handle>, vals: seq<V>, vals': seq<V>, d: nat)
    requires Distinct(ids) && d < |ids| <= |vals|
    requires |ids| - 1 <= |vals'|
    requires d < |ids| - 1 ==> vals'[d] == vals[|ids| - 1]
    requires forall k :: 0 <= k < |ids| - 1 && k != d ==> vals'[k] == vals[k]
    ensures forall k :: 0 <= k < |ids| - 1 ==> vals'[k] == vals[Find(ids, SwapRemove(ids, d)[k]).value]
  {
    var ids' := SwapRemove(ids, d);
    forall k | 0 <= k < |ids'| ensures vals'[k] == vals[Find(ids, ids'[k]).value] {
      var src := if k == d then |ids| - 1 else k;
      assert ids'[k] == ids[src] && vals'[k] == vals[src];
      FindDistinct(ids, src);
    }
  }

  /** Mirroring the pool's swap-with-last removal on a parallel array keeps every
      surviving handle's entry and forgets the removed one's. A parallel array that is
      not shortened keeps stale entries past the end; they are not part of the view. */
  lemma AssocSwapRemove<V>(ids: seq<Handle>, vals: seq<V>, vals': seq<V>, d: nat)
    requires Distinct(ids) && d < |ids| <= |vals|
    requires |ids| - 1 <= |vals'|
    requires d < |ids| - 1 ==> vals'[d] == vals[|ids| - 1]
    requires forall k :: 0 <= k < |ids| - 1 && k != d ==> vals'[k] == vals[k]
    ensures Assoc(SwapRemove(ids, d), vals') == Assoc(ids, vals) - {ids[d]}
  {
    var ids' := SwapRemove(ids, d);
    SwapRemoveDistinct(ids, d);
    SwapRemoveEntries(ids, vals, vals', d);
    AssocSubLayout(ids, vals, ids', vals');
    var m, m' := Assoc(ids, vals), Assoc(ids', vals');
    var target := m - {ids[d]};
    assert m'.Keys == target.Keys;
    forall h | h in m' ensures m'[h] == target[h] {
      assert h in ids';
    }
  }

  /** The removal as the manager performs it on a parallel array that keeps its length:
      the entry of the removed position is exchanged with the last live one, unless it
      already is the last. */
  function MirrorRemoval<V>(vals: seq<V>, d: nat, n: nat): (r: seq<V>)
    requires d < n <= |vals|
    ensures |r| == |vals| && r[d] == vals[n - 1] && r[n - 1] == vals[d]
    ensures forall k :: 0 <= k < |vals| && k != d && k != n - 1 ==> r[k] == vals[k]
  {
    if d < n - 1 then SwapAt(vals, d, n - 1) else vals
  }

  /** Mirroring the removal on a parallel array keeps the view of every other handle. */
  lemma AssocMirrorRemoval<V>(ids: seq<Handle>, vals: seq<V>, d: nat)
    requires Distinct(ids) && d < |ids| <= |vals|
    ensures Assoc(SwapRemove(ids, d), MirrorRemoval(vals, d, |ids|)) == Assoc(ids, vals) - {ids[d]}
  {
    AssocSwapRemove(ids, vals, MirrorRemoval(vals, d, |ids|), d);
  }

  /** The removal as the pool performs it on its own dense array. */
  lemma AssocSwapRemoveBoth<V>(ids: seq<Handle>, vals: seq<V>, d: nat)
    requires Distinct(ids) && d < |ids| == |vals|
    ensures Assoc(SwapRemove(ids, d), SwapRemove(vals, d)) == Assoc(ids, vals) - {ids[d]}
  {
    AssocSwapRemove(ids, vals, SwapRemove(vals, d), d);
  }

  /** Swapping two positions of the id array and of a parallel array together keeps
      the handle-keyed view. */
  lemma AssocSwap<V>(ids: seq<Handle>, vals: seq<V>, i: nat, j: nat)
    requires Distinct(ids) && i < |ids| && j < |ids| && |ids| <= |vals|
    ensures Distinct(SwapAt(ids, i, j))
    ensures Assoc(SwapAt(ids, i, j), SwapAt(vals, i, j)) == Assoc(ids, vals)
  {
    var ids', vals' := SwapAt(ids, i, j), SwapAt(vals, i, j);
    DistinctPermutation(ids, ids');
    forall h ensures h in ids' <==> h in ids {
      assert h in ids' <==> h in multiset(ids');
    }
    forall k | 0 <= k < |ids'| ensures vals'[k] == vals[Find(ids, ids'[k]).value] {
      var src := if k == i then j else if k == j then i else k;
      assert ids'[k] == ids[src] && vals'[k] == vals[src];
      FindDistinct(ids, src);
    }
    AssocRelabel(ids, vals, ids', vals');
  }

  // ---------------------------------------------------------------------------
  // Depth of a node: the ancestor chase
  // ---------------------------------------------------------------------------

  /** The number of hops the ancestor chase makes from handle h: each hop moves from a
      handle that resolves to its recorded parent; a handle that does not resolve ends
      the chase. None when the fuel runs out first. */
  ghost function Hops(f: map<Handle, Handle>, h: Handle, fuel: nat): Option<nat>
    decreases fuel
  {
    if h !in f then Some(0)
    else if fuel == 0 then None
    else match Hops(f, f[h], fuel - 1)
      case None => None
      case Some(k) => Some(k + 1)
  }

  /** More fuel never changes a chase that already finished. */
  lemma {:induction false} HopsMonotone(f: map<Handle, Handle>, h: Handle, fuel: nat, fuel': nat)
    requires Hops(f, h, fuel).Some? && fuel <= fuel'
    ensures Hops(f, h, fuel') == Hops(f, h, fuel)
    decreases fuel
  {
    if h in f {
      HopsMonotone(f, f[h], fuel - 1, fuel' - 1);
    }
  }

  /** No parent cycle among live nodes: every chase leaves the live set within as many
      hops as there are live nodes (a longer chase would revisit a node). */
  ghost predicate Acyclic(f: map<Handle, Handle>)
  {
    forall h :: h in f ==> Hops(f, h, |f|).Some?
  }

  /** One hop of the chase: from a live node it continues at its parent with one hop
      fewer to go. */
  lemma HopsStep(f: map<Handle, Handle>, h: Handle)
    requires h in f && Hops(f, h, |f|).Some?
    ensures Hops(f, h, |f|).value >= 1
    ensures Hops(f, f[h], |f|) == Some(Hops(f, h, |f|).value - 1)
  {
    HopsMonotone(f, f[h], |f| - 1, |f|);
  }

  /** The level the re-sort assigns a live node: the number of ancestor hops whose
      parent handle resolves, chasing from the node's recorded parent. */
  ghost function Level(f: map<Handle, Handle>, h: Handle): nat
    requires Acyclic(f) && h in f
  {
    HopsStep(f, h);
    Hops(f, f[h], |f|).value
  }

  /** A root (a node whose parent does not resolve) is at level 0; every other node is
      one level below its parent. */
  lemma LevelOfParent(f: map<Handle, Handle>, h: Handle)
    requires Acyclic(f) && h in f
    ensures f[h] !in f ==> Level(f, h) == 0
    ensures f[h] in f ==> Level(f, h) == Level(f, f[h]) + 1
  {
    if f[h] in f {
      HopsStep(f, f[h]);
    }
  }

  // ---------------------------------------------------------------------------
  // The re-sort
  // ---------------------------------------------------------------------------

  /** One element of the helper vector the re-sort builds. */
  datatype Entry = Entry(id: Handle, parent: Handle, level: nat)

  ghost predicate SortedByLevel(s: seq<Entry>)
  {
    forall i, j :: 0 <= i < j < |s| ==> s[i].level <= s[j].level
  }

  function InsertByLevel(e: Entry, s: seq<Entry>): (r: seq<Entry>)
    requires SortedByLevel(s)
    ensures |r| == |s| + 1 && (r[0] == e || (s != [] && r[0] == s[0]))
    ensures SortedByLevel(r)
    ensures multiset(r) == multiset(s) + multiset{e}
  {
    if s == [] then [e]
    else if e.level <= s[0].level then [e] + s
    else
      assert s == [s[0]] + s[1..];
      [s[0]] + InsertByLevel(e, s[1..])
  }

  /** The re-sort's ordering step: the result is sorted by ascending level and is a
      permutation of the input. Nothing more is promised about nodes of equal level. */
  function SortByLevel(s: seq<Entry>): (r: seq<Entry>)
    ensures SortedByLevel(r)
    ensures multiset(r) == multiset(s)
  {
    if s == [] then []
    else
      assert s == [s[0]] + s[1..];
      InsertByLevel(s[0], SortByLevel(s[1..]))
  }

  function IdsOf(s: seq<Entry>): (r: seq<Handle>)
    ensures |r| == |s| && forall k :: 0 <= k < |s| ==> r[k] == s[k].id
  {
    seq(|s|, k requires 0 <= k < |s| => s[k].id)
  }

  /** The entry the re-sort writes for a live node of forest f. */
  ghost predicate Describes(f: map<Handle, Handle>, e: Entry)
    requires Acyclic(f)
  {
    e.id in f && e.parent == f[e.id] && e.level == Level(f, e.id)
  }

  /** What the sorted helper vector holds when it was built from one entry per dense
      position: one entry per live handle, each describing its node, in level order. */
  lemma SortedEntries(ids: seq<Handle>, parent: seq<Handle>, entries: seq<Entry>, ordered: seq<Entry>)
    requires Distinct(ids) && |ids| <= |parent| && Acyclic(Assoc(ids, parent))
    requires |entries| == |ids|
    requires forall k :: 0 <= k < |ids| ==> entries[k].id == ids[k] && Describes(Assoc(ids, parent), entries[k])
    requires multiset(ordered) == multiset(entries)
    ensures |ordered| == |ids|
    ensures Distinct(IdsOf(ordered))
    ensures forall h :: h in IdsOf(ordered) <==> h in ids
    ensures forall k :: 0 <= k < |ordered| ==> Describes(Assoc(ids, parent), ordered[k])
  {
    var f := Assoc(ids, parent);
    assert |ordered| == |multiset(ordered)| == |entries|;
    forall k | 0 <= k < |ordered| ensures Describes(f, ordered[k]) && ordered[k].id in ids {
      assert ordered[k] in multiset(entries);
    }
    forall h | h in ids ensures h in IdsOf(ordered) {
      var k := Find(ids, h).value;
      assert entries[k] in multiset(ordered);
      var j :| 0 <= j < |ordered| && ordered[j] == entries[k];
      assert IdsOf(ordered)[j] == h;
    }
    assert Distinct(entries) by {
      forall i, j | 0 <= i < j < |entries| ensures !SameAt(entries, i, j) {
        DistinctAt(ids, i, j);
      }
    }
    DistinctPermutation(entries, ordered);
    var os := IdsOf(ordered);
    forall i, j | 0 <= i < j < |os| ensures !SameAt(os, i, j) {
      assert Describes(f, ordered[i]) && Describes(f, ordered[j]);
      DistinctAt(ordered, i, j);
    }
  }

  /** All live ids of forest f, in order of non-decreasing level. */
  ghost predicate LevelSorted(f: map<Handle, Handle>, ids: seq<Handle>)
  {
    && Acyclic(f)
    && (forall k :: 0 <= k < |ids| ==> ids[k] in f)
    && (forall i, j :: 0 <= i < j < |ids| ==> Level(f, ids[i]) <= Level(f, ids[j]))
  }

  /** The layout the re-sort leaves behind: the sorted entries' handles, each with the
      parent its entry recorded, describe the same forest, in level order, hence with
      parents first. */
  lemma SortedLayout(ids: seq<Handle>, parent: seq<Handle>, ordered: seq<Entry>, parent': seq<Handle>)
    requires Distinct(ids) && |ids| <= |parent| && Acyclic(Assoc(ids, parent))
    requires |ordered| == |ids| && SortedByLevel(ordered)
    requires Distinct(IdsOf(ordered)) && forall h :: h in IdsOf(ordered) <==> h in ids
    requires forall k :: 0 <= k < |ordered| ==> Describes(Assoc(ids, parent), ordered[k])
    requires |ids| <= |parent'| && forall k :: 0 <= k < |ordered| ==> parent'[k] == ordered[k].parent
    ensures Assoc(IdsOf(ordered), parent') == Assoc(ids, parent)
    ensures LevelSorted(Assoc(ids, parent), IdsOf(ordered))
    ensures ParentsFirst(IdsOf(ordered), parent')
  {
    var f, ids' := Assoc(ids, parent), IdsOf(ordered);
    forall k | 0 <= k < |ids'| ensures parent'[k] == parent[Find(ids, ids'[k]).value] {
      assert Describes(f, ordered[k]);
      AssocFind(ids, parent, ids'[k]);
    }
    AssocRelabel(ids, parent, ids', parent');
    forall i, j | 0 <= i < j < |ids'| ensures Level(f, ids'[i]) <= Level(f, ids'[j]) {
      assert Describes(f, ordered[i]) && Describes(f, ordered[j]);
    }
    LevelSortedParentsFirst(ids', parent');
  }

  /** Every parent that resolves sits at a smaller dense position than its child. */
  ghost predicate ParentsFirst(ids: seq<Handle>, parent: seq<Handle>)
  {
    && |ids| <= |parent|
    && forall c :: 0 <= c < |ids| && Find(ids, parent[c]).Some? ==> Find(ids, parent[c]).value < c
  }

  /** Sorting by level puts every resolvable parent strictly before its child. */
  lemma LevelSortedParentsFirst(ids: seq<Handle>, parent: seq<Handle>)
    requires Distinct(ids) && |ids| <= |parent|
    requires LevelSorted(Assoc(ids, parent), ids)
    ensures ParentsFirst(ids, parent)
  {
    var f := Assoc(ids, parent);
    forall c | 0 <= c < |ids| && Find(ids, parent[c]).Some? ensures Find(ids, parent[c]).value < c {
      var p := Find(ids, parent[c]).value;
      AssocAt(ids, parent, c);
      LevelOfParent(f, ids[c]);
      assert ids[p] == f[ids[c]] && ids[p] in f;
      LevelSortedBefore(f, ids, p, c);
    }
  }

  /** In a level-sorted sequence, a node of smaller level sits at a smaller position. */
  lemma LevelSortedBefore(f: map<Handle, Handle>, ids: seq<Handle>, i: nat, j: nat)
    requires LevelSorted(f, ids) && i < |ids| && j < |ids|
    requires Level(f, ids[i]) < Level(f, ids[j])
    ensures i < j
  {
  }

  /** A parents-first layout has no parent cycle: the chase from position c ends within
      c + 1 hops. */
  lemma ParentsFirstAcyclic(ids: seq<Handle>, parent: seq<Handle>)
    requires Distinct(ids) && ParentsFirst(ids, parent)
    ensures Acyclic(Assoc(ids, parent))
  {
    var f := Assoc(ids, parent);
    DistinctCardinality(ids);
    assert f.Keys == set h | h in ids;
    forall h | h in f ensures Hops(f, h, |f|).Some? {
      var c := Find(ids, h).value;
      HopsFromPosition(ids, parent, c);
      HopsMonotone(f, h, c + 1, |f|);
    }
  }

  lemma {:induction false} HopsFromPosition(ids: seq<Handle>, parent: seq<Handle>, c: nat)
    requires Distinct(ids) && ParentsFirst(ids, parent) && c < |ids|
    ensures Hops(Assoc(ids, parent), ids[c], c + 1).Some?
    decreases c
  {
    var f := Assoc(ids, parent);
    AssocAt(ids, parent, c);
    var q := Find(ids, parent[c]);
    if q.Some? {
      HopsFromPosition(ids, parent, q.value);
      HopsMonotone(f, ids[q.value], q.value + 1, c);
    }
  }

  lemma {:induction false} DistinctCardinality(s: seq<Handle>)
    requires Distinct(s)
    ensures |set h | h in s| == |s|
  {
    if |s| > 0 {
      var t := s[..|s| - 1];
      DistinctPrefix(s, |s| - 1);
      DistinctCardinality(t);
      assert (set h | h in s) == (set h | h in t) + {s[|s| - 1]};
      forall k | 0 <= k < |t| ensures t[k] != s[|s| - 1] {
        DistinctAt(s, k, |s| - 1);
      }
    }
  }

  // ---------------------------------------------------------------------------
  // World matrices
  // ---------------------------------------------------------------------------

  /** The world matrix of a live node: its local matrix composed with the world matrix
      of its parent when the parent resolves, its local matrix alone otherwise. */
  ghost function ChainWorld<M>(f: map<Handle, Handle>, local: map<Handle, M>, mul: (M, M) -> M, h: Handle): M
    requires Acyclic(f) && h in f && f.Keys <= local.Keys
    decreases Hops(f, h, |f|).value
  {
    HopsStep(f, h);
    if f[h] in f then mul(local[h], ChainWorld(f, local, mul, f[h])) else local[h]
  }

  /** What the world pass leaves at dense position c. */
  ghost predicate ComposedAt<M>(ids: seq<Handle>, parent: seq<Handle>, local: seq<M>, world: seq<M>, mul: (M, M) -> M, c: nat)
    requires c < |ids| <= |parent| && |ids| <= |world| && c < |local|
  {
    world[c] == match Find(ids, parent[c])
      case Some(p) => mul(local[c], world[p])
      case None => local[c]
  }

  /** When every dense position holds its local matrix composed with its parent's
      entry, and parents come first, each entry is the world matrix of that node's
      whole parent chain. */
  lemma {:induction false} DenseWorldIsChainWorld<M>(ids: seq<Handle>, parent: seq<Handle>, local: seq<M>,
                                                     world: seq<M>, mul: (M, M) -> M, c: nat)
    requires Distinct(ids) && ParentsFirst(ids, parent) && |ids| <= |local| && |ids| <= |world|
    requires Acyclic(Assoc(ids, parent))
    requires forall k :: 0 <= k < |ids| ==> ComposedAt(ids, parent, local, world, mul, k)
    requires c < |ids|
    ensures world[c] == ChainWorld(Assoc(ids, parent), Assoc(ids, local), mul, ids[c])
    decreases c
  {
    var f, l := Assoc(ids, parent), Assoc(ids, local);
    AssocAt(ids, parent, c);
    AssocAt(ids, local, c);
    assert ComposedAt(ids, parent, local, world, mul, c);
    var q := Find(ids, parent[c]);
    if q.Some? {
      DenseWorldIsChainWorld(ids, parent, local, world, mul, q.value);
    }
  }

  /** The same, for every live handle of the dense layout. */
  lemma DenseWorldsAreChainWorlds<M>(ids: seq<Handle>, parent: seq<Handle>, local: seq<M>,
                                     world: seq<M>, mul: (M, M) -> M)
    requires Distinct(ids) && ParentsFirst(ids, parent) && |ids| <= |local| && |ids| <= |world|
    requires forall k :: 0 <= k < |ids| ==> ComposedAt(ids, parent, local, world, mul, k)
    ensures Acyclic(Assoc(ids, parent))
    ensures forall h :: h in Assoc(ids, world) ==>
              Assoc(ids, world)[h] == ChainWorld(Assoc(ids, parent), Assoc(ids, local), mul, h)
  {
    ParentsFirstAcyclic(ids, parent);
    forall h | h in Assoc(ids, world)
      ensures Assoc(ids, world)[h] == ChainWorld(Assoc(ids, parent), Assoc(ids, local), mul, h)
    {
      var c := Find(ids, h).value;
      AssocAt(ids, world, c);
      DenseWorldIsChainWorld(ids, parent, local, world, mul, c);
    }
  }
}
