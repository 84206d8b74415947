/** Short call sequences on a fresh manager, each proved from the operations' contracts
    alone. */
module Scenarios {
  import opened Handles
  import opened Hierarchy
  import opened Transforms

  /** One node created on a fresh manager: it owns slot 0 and dense position 0, and is a
      root. */
  method FreshNode<M>(mul: (M, M) -> M, blank: M, la: M) returns (m: TransformManager<M>, a: Handle)
    ensures fresh(m) && fresh(m.transform) && m.Valid() && m.Mul == mul
    ensures m.transform.ids == [a] && a.index == 0 && |m.parent| == 1
    ensures m.Forest() == map[a := NULL_HANDLE] && m.Locals() == map[a := la]
  {
    m := new TransformManager(mul, blank);
    a := m.CreateTransform(la);
  }

  /** A second node created after that one: it owns slot 1 and dense position 1. */
  method FreshPair<M>(mul: (M, M) -> M, blank: M, la: M, lb: M) returns (m: TransformManager<M>, a: Handle, b: Handle)
    ensures fresh(m) && fresh(m.transform) && m.Valid() && m.Mul == mul
    ensures m.transform.ids == [a, b] && a.index == 0 && b.index == 1 && |m.parent| == 2
    ensures m.Forest() == map[a := NULL_HANDLE, b := NULL_HANDLE] && m.Locals() == map[a := la, b := lb]
  {
    m, a := FreshNode(mul, blank, la);
    b := m.CreateTransform(lb);
  }

  /** Two nodes created one after the other on a fresh manager, the first made a child
      of the second. */
  method ChildOfSecond<M>(mul: (M, M) -> M, blank: M, la: M, lb: M)
    returns (m: TransformManager<M>, a: Handle, b: Handle)
    ensures fresh(m) && fresh(m.transform) && m.Valid()
    ensures m.transform.ids == [a, b] && a.index == 0 && b.index == 1
    ensures m.transform.SlotCount() == 2 && m.parent[0] == b
  {
    m, a, b := FreshPair(mul, blank, la, lb);
    var ok := m.SetParent(a, b);
    AssocAt(m.transform.ids, m.parent, 0);
  }

  /** Two nodes created one after the other on a fresh manager, the second made a
      child of the first. */
  method ChildOfFirst<M>(mul: (M, M) -> M, blank: M, la: M, lb: M)
    returns (m: TransformManager<M>, a: Handle, b: Handle)
    ensures fresh(m) && fresh(m.transform) && m.Valid() && m.Mul == mul
    ensures a != b && a != NULL_HANDLE && b != NULL_HANDLE && b in m.transform.ids
    ensures m.Forest() == map[a := NULL_HANDLE, b := a] && m.Locals() == map[a := la, b := lb]
  {
    m, a, b := FreshPair(mul, blank, la, lb);
    ghost var f := m.Forest();
    var ok := m.SetParent(b, a);
    assert b in f;
    assert map[a := NULL_HANDLE, b := NULL_HANDLE][b := a] == map[a := NULL_HANDLE, b := a];
  }

  /** The same two nodes after the first, A, is destroyed: B moves to dense position 0,
      and A's parent entry, B, moves to position 1 past the live count. */
  method SecondAfterDestroyFirst<M>(mul: (M, M) -> M, blank: M, la: M, lb: M)
    returns (m: TransformManager<M>, b: Handle)
    ensures fresh(m) && fresh(m.transform) && m.Valid()
    ensures m.transform.ids == [b] && b.index == 1 && m.transform.SlotCount() == 2 && m.parent[1] == b
  {
    var a;
    m, a, b := ChildOfSecond(mul, blank, la, lb);
    var ok := m.DestroyTransform(a);
    assert Find([a, b], a) == Some(0);
  }

  /** createTransform as written, after a node has been destroyed: a node B is made the
      parent of A, A is destroyed (B moves to dense position 0, A's old parent entry, B,
      moves to position 1), and a new node C takes dense position 1. Whichever slot C
      gets, it is not B's slot 1, so parent_[1] is not the entry cleared; C inherits B as
      its parent although it was never reparented. */
  method ReusedSlotInheritsParent<M>(mul: (M, M) -> M, blank: M, la: M, lb: M, lc: M)
    returns (b: Handle, c: Handle, parentOfC: Handle)
    ensures b != NULL_HANDLE && c != b
    ensures parentOfC == b
  {
    var m;
    m, b := SecondAfterDestroyFirst(mul, blank, la, lb);
    c := m.CreateTransform(lc);
    assert m.transform.ids == [b, c] && m.parent[1] == b;
    AssocAt(m.transform.ids, m.parent, 1);
    parentOfC := m.GetParent(c);
  }

  /** The same sequence with the corrected createTransform: the new node is a root. */
  method ReusedSlotIsRoot<M>(mul: (M, M) -> M, blank: M, la: M, lb: M, lc: M)
    returns (b: Handle, c: Handle, parentOfC: Handle)
    ensures b != NULL_HANDLE && c != b
    ensures parentOfC == NULL_HANDLE
  {
    var m, a;
    m, a, b := ChildOfSecond(mul, blank, la, lb);
    var ok := m.DestroyTransform(a);
    c := m.CreateTransformCorrected(lc);
    parentOfC := m.GetParent(c);
  }

  /** A destroyed node's handle stays dead once its slot is reused: destroying A moves
      its slot to the next generation, creating C leaves every generation as it is, so C
      is not A and A resolves to nothing. */
  method DestroyedStaysDead<M>(mul: (M, M) -> M, blank: M, la: M, lb: M, lc: M)
    returns (a: Handle, c: Handle, r: Option<M>, p: Handle)
    ensures c != a
    ensures r == None && p == NULL_HANDLE
  {
    var m, b;
    m, a, b := FreshPair(mul, blank, la, lb);
    var ok := m.DestroyTransform(a);
    c := m.CreateTransform(lc);
    m.transform.RetiredIsDead(a);
    r := m.GetTransform(a);
    p := m.GetParent(a);
  }

  /** update keeps the slot table as it is, so a node can be created after it; that node
      is a root and holds its own local matrix. */
  method CreateAfterUpdate<M>(mul: (M, M) -> M, blank: M, la: M, lb: M)
    returns (b: Handle, parentOfB: Handle, r: Option<M>)
    ensures parentOfB == NULL_HANDLE && r == Some(lb)
  {
    var m, a := FreshNode(mul, blank, la);
    assert Hops(m.Forest(), a, 1) == Some(1);
    m.Update();
    b := m.CreateTransform(lb);
    parentOfB := m.GetParent(b);
    r := m.GetTransform(b);
  }

  /** setTransform followed by getTransform returns the matrix just stored, and leaves
      every other node's local matrix alone; on a handle that does not resolve both
      report failure. */
  method SetThenGet<M>(m: TransformManager<M>, id: Handle, other: Handle, local: M)
    returns (ok: bool, r: Option<M>, s: Option<M>)
    requires m.Valid()
    modifies m.transform
    ensures ok ==> r == Some(local)
    ensures !ok ==> r == None
    ensures other != id && other in old(m.Locals()) ==> s == Some(old(m.Locals())[other])
    ensures other !in old(m.Locals()) ==> s == None
  {
    ok := m.SetTransform(id, local);
    r := m.GetTransform(id);
    s := m.GetTransform(other);
  }

  /** A two-node chain: after B is made A's child and update runs, B's world matrix is
      its local matrix composed with A's. */
  method ChildWorld<M>(mul: (M, M) -> M, blank: M, la: M, lb: M) returns (w: Option<M>)
    ensures w == Some(mul(lb, la))
  {
    var m, a, b := ChildOfFirst(mul, blank, la, lb);
    TwoNodeChain(a, b, la, lb, mul);
    m.Update();
    assert b in m.transform.ids;
    w := m.GetWorldMatrix(b);
  }

  /** A root A and its child B: no cycle, and B's world matrix is its local one composed
      with A's. */
  lemma TwoNodeChain<M>(a: Handle, b: Handle, la: M, lb: M, mul: (M, M) -> M)
    requires a != b && a != NULL_HANDLE && b != NULL_HANDLE
    ensures Acyclic(map[a := NULL_HANDLE, b := a])
    ensures ChainWorld(map[a := NULL_HANDLE, b := a], map[a := la, b := lb], mul, b) == mul(lb, la)
  {
    var f := map[a := NULL_HANDLE, b := a];
    assert Hops(f, b, 2) == Some(2) by {
      assert Hops(f, a, 1) == Some(1);
    }
    assert Hops(f, a, 2) == Some(1);
    assert ChainWorld(f, map[a := la, b := lb], mul, a) == la;
  }
}
