/**
 src/rewrite_c_runtime.cpp:155-176: values of the emitted C.  A tuple owns a heap table of its elements, a vector
 owns a heap block, and every element points back at its parent.

 `Holds` says that a cell is the root of a given tree.  It speaks of the parent links of everything below the cell
 and not of the cell's own, which is what makes a value movable.
 */
module CHeap {
  import opened Kinds
  import opened Arena
  import opened ValueArenas

  datatype Ptr = Null | At(table: nat, index: nat)

  datatype CKind = CScalar | CVector | CTuple

  datatype Cell = Cell(kind: CKind, element: ScalarType, count: nat, scalar: ScalarValue, data: nat, parent: Ptr, parentIndex: nat, cleanup: nat)

  /** What clearing a cell leaves. */
  const ZERO := Cell(CScalar, Boolean, 0, EMPTY_SCALAR, 0, Null, 0, 0)

  /** Tables and blocks share their names; 0 is the null pointer and names below `next` were given out. */
  datatype Heap = Heap(tables: map<nat, seq<Cell>>, blocks: map<nat, seq<int>>, next: nat)

  predicate Points(h: Heap, p: Ptr) {
    p.At? && p.table in h.tables && p.index < |h.tables[p.table]|
  }

  function Load(h: Heap, p: Ptr): Cell
    requires Points(h, p)
  {
    h.tables[p.table][p.index]
  }

  function Store(h: Heap, p: Ptr, c: Cell): Heap
    requires Points(h, p)
  {
    h.(tables := h.tables[p.table := h.tables[p.table][p.index := c]])
  }

  lemma StoreLoad(h: Heap, p: Ptr, c: Cell, q: Ptr)
    requires Points(h, p)
    ensures Points(Store(h, p, c), q) <==> Points(h, q)
    ensures Points(h, q) ==> Load(Store(h, p, c), q) == if q == p then c else Load(h, q)
  {
  }

  predicate FreshNames(h: Heap) {
    0 !in h.tables && 0 !in h.blocks && h.next > 0
    && (forall id :: id in h.tables ==> id < h.next) && (forall id :: id in h.blocks ==> id < h.next)
  }

  // ---------------------------------------------------------------- trees in the heap

  /** The heap names a tree owns, below the cell at `p`. */
  ghost function Foot(h: Heap, p: Ptr, t: ValueTree): set<nat>
    requires Points(h, p)
    decreases t
  {
    match t.tag
    case ScalarLeaf(_) => {}
    case VectorLeaf(_, xs) => if xs == [] then {} else {Load(h, p).data}
    case TupleBranch => if t.kids == [] then {} else {Load(h, p).data} + KidsFoot(h, Load(h, p).data, t.kids)
  }

  ghost function KidsFoot(h: Heap, d: nat, kids: seq<ValueTree>): set<nat>
    decreases kids
  {
    if kids == [] then {}
    else
      var n := |kids| - 1;
      KidsFoot(h, d, kids[..n]) + (if Points(h, At(d, n)) then Foot(h, At(d, n), kids[n]) else {})
  }

  ghost predicate Holds(h: Heap, p: Ptr, t: ValueTree)
    requires Points(h, p)
    decreases t
  {
    var c := Load(h, p);
    match t.tag
    case ScalarLeaf(s) =>
      c.kind == CScalar && c.count == 1 && c.scalar == s && c.element == s.element && ValidScalarType(s.element) && c.data == 0 && c.cleanup == 0
      && t.kids == []
    case VectorLeaf(element, xs) =>
      && c.kind == CVector && c.element == element && ValidScalarType(element) && c.count == |xs| && c.cleanup == 0 && t.kids == []
      && (if xs == [] then c.data == 0 else c.data != 0 && c.data !in h.tables && c.data in h.blocks && h.blocks[c.data] == xs)
    case TupleBranch =>
      c.kind == CTuple && c.count == |t.kids| && c.cleanup == |t.kids| && TableHolds(h, p, c.data, t.kids, |t.kids|)
  }

  /** The table of a tuple cell at `p`, with `size` slots of which the first hold `kids`. */
  ghost predicate TableHolds(h: Heap, p: Ptr, d: nat, kids: seq<ValueTree>, size: nat)
    decreases kids, 1
  {
    && |kids| <= size
    && (if size == 0 then d == 0 else d != 0 && d in h.tables && |h.tables[d]| == size && d !in h.blocks)
    && KidsHold(h, p, d, kids)
  }

  /** Every child points back at `p`, and the children own disjoint parts of the heap. */
  ghost predicate KidsHold(h: Heap, p: Ptr, d: nat, kids: seq<ValueTree>)
    decreases kids, 0
  {
    kids == [] ||
    var n := |kids| - 1;
    var q := At(d, n);
    && KidsHold(h, p, d, kids[..n])
    && Points(h, q) && Load(h, q).parent == p && Load(h, q).parentIndex == n
    && Holds(h, q, kids[n])
    && Foot(h, q, kids[n]) !! KidsFoot(h, d, kids[..n]) && d !in Foot(h, q, kids[n])
  }

  // ---------------------------------------------------------------- frames

  /** `h` and `g` agree on the names in `ids`. */
  ghost predicate Same(h: Heap, g: Heap, ids: set<nat>) {
    forall id :: id in ids ==>
      && (id in h.tables <==> id in g.tables) && (id in h.tables ==> h.tables[id] == g.tables[id])
      && (id in h.blocks <==> id in g.blocks) && (id in h.blocks ==> h.blocks[id] == g.blocks[id])
  }

  /** Equal up to the parent fields. */
  predicate SameValue(c: Cell, e: Cell) {
    c == e.(parent := c.parent, parentIndex := c.parentIndex)
  }

  /** A tree is still there when its cell and the part of the heap it owns are. */
  lemma {:induction false} HoldsFrame(h: Heap, g: Heap, p: Ptr, t: ValueTree)
    requires Points(h, p) && Points(g, p) && Holds(h, p, t)
    requires SameValue(Load(g, p), Load(h, p)) && Same(h, g, Foot(h, p, t))
    ensures Holds(g, p, t) && Foot(g, p, t) == Foot(h, p, t)
    decreases t, 1
  {
    if t.tag == TupleBranch && t.kids != [] {
      var d := Load(h, p).data;
      KidsFrame(h, g, p, d, t.kids);
    }
  }

  lemma {:induction false} KidsFrame(h: Heap, g: Heap, p: Ptr, d: nat, kids: seq<ValueTree>)
    requires d in h.tables && d in g.tables && h.tables[d] == g.tables[d] && |kids| <= |h.tables[d]|
    requires KidsHold(h, p, d, kids) && Same(h, g, KidsFoot(h, d, kids))
    ensures KidsHold(g, p, d, kids) && KidsFoot(g, d, kids) == KidsFoot(h, d, kids)
    decreases kids, 0
  {
    if kids != [] {
      var n := |kids| - 1;
      var q := At(d, n);
      KidsFrame(h, g, p, d, kids[..n]);
      HoldsFrame(h, g, q, kids[n]);
    }
  }

  lemma {:induction false} KidsFootMember(h: Heap, d: nat, kids: seq<ValueTree>, x: nat)
    requires x in KidsFoot(h, d, kids)
    ensures exists k: nat :: k < |kids| && Points(h, At(d, k)) && x in Foot(h, At(d, k), kids[k])
    decreases |kids|
  {
    var n := |kids| - 1;
    if x in KidsFoot(h, d, kids[..n]) {
      KidsFootMember(h, d, kids[..n], x);
      var k: nat :| k < n && Points(h, At(d, k)) && x in Foot(h, At(d, k), kids[..n][k]);
      assert kids[..n][k] == kids[k];
    }
  }

  lemma {:induction false} KidsFootHas(h: Heap, d: nat, kids: seq<ValueTree>, k: nat)
    requires k < |kids| && Points(h, At(d, k))
    ensures Foot(h, At(d, k), kids[k]) <= KidsFoot(h, d, kids)
    decreases |kids|
  {
    var n := |kids| - 1;
    if k < n {
      KidsFootHas(h, d, kids[..n], k);
      assert kids[..n][k] == kids[k];
    }
  }

  /** One child of a tuple. */
  ghost predicate KidHolds(h: Heap, p: Ptr, d: nat, k: nat, t: ValueTree) {
    var q := At(d, k);
    Points(h, q) && Load(h, q).parent == p && Load(h, q).parentIndex == k && Holds(h, q, t) && d !in Foot(h, q, t)
  }

  lemma {:induction false} KidOf(h: Heap, p: Ptr, d: nat, kids: seq<ValueTree>, k: nat)
    requires KidsHold(h, p, d, kids) && k < |kids|
    ensures KidHolds(h, p, d, k, kids[k])
    decreases |kids|
  {
    var n := |kids| - 1;
    if k < n {
      KidOf(h, p, d, kids[..n], k);
      assert kids[..n][k] == kids[k];
    }
  }

  lemma {:induction false} PrefixHolds(h: Heap, p: Ptr, d: nat, kids: seq<ValueTree>, m: nat)
    requires KidsHold(h, p, d, kids) && m <= |kids|
    ensures KidsHold(h, p, d, kids[..m]) && KidsFoot(h, d, kids[..m]) <= KidsFoot(h, d, kids)
    decreases |kids|
  {
    if m == |kids| {
      assert kids[..m] == kids;
    } else {
      var n := |kids| - 1;
      PrefixHolds(h, p, d, kids[..n], m);
      assert kids[..n][..m] == kids[..m];
    }
  }

  ghost function SlotFoot(h: Heap, d: nat, k: nat, t: ValueTree): set<nat> {
    if Points(h, At(d, k)) then Foot(h, At(d, k), t) else {}
  }

  /** Children with disjoint parts, put together. */
  lemma {:induction false} KidsFromSlots(h: Heap, p: Ptr, d: nat, kids: seq<ValueTree>)
    requires forall k: nat :: k < |kids| ==> KidHolds(h, p, d, k, kids[k])
    requires forall j: nat, k: nat :: j < k < |kids| ==> SlotFoot(h, d, j, kids[j]) !! SlotFoot(h, d, k, kids[k])
    ensures KidsHold(h, p, d, kids)
    decreases |kids|
  {
    if kids != [] {
      var n := |kids| - 1;
      assert forall k: nat :: k < n ==> kids[..n][k] == kids[k];
      forall k: nat | k < n ensures KidHolds(h, p, d, k, kids[..n][k]) {
        assert KidHolds(h, p, d, k, kids[k]);
      }
      KidsFromSlots(h, p, d, kids[..n]);
      assert KidHolds(h, p, d, n, kids[n]);
      forall x | x in KidsFoot(h, d, kids[..n]) ensures x !in Foot(h, At(d, n), kids[n]) {
        KidsFootMember(h, d, kids[..n], x);
        var k: nat :| k < n && Points(h, At(d, k)) && x in Foot(h, At(d, k), kids[..n][k]);
        assert SlotFoot(h, d, k, kids[k]) !! SlotFoot(h, d, n, kids[n]);
      }
    }
  }

  lemma TableNotBelow(h: Heap, p: Ptr, d: nat, kids: seq<ValueTree>)
    requires KidsHold(h, p, d, kids)
    ensures d !in KidsFoot(h, d, kids)
  {
    if d in KidsFoot(h, d, kids) {
      KidsFootMember(h, d, kids, d);
      var k: nat :| k < |kids| && Points(h, At(d, k)) && d in Foot(h, At(d, k), kids[k]);
      KidOf(h, p, d, kids, k);
    }
  }

  // ---------------------------------------------------------------- moving a value

  /** The slots with the first `n` of them pointing back at `p`. */
  function Reparented(slots: seq<Cell>, p: Ptr, n: nat): (r: seq<Cell>)
    requires n <= |slots|
    ensures |r| == |slots|
    ensures forall k :: 0 <= k < |slots| ==> r[k] == if k < n then slots[k].(parent := p, parentIndex := k) else slots[k]
  {
    seq(|slots|, k requires 0 <= k < |slots| => if k < n then slots[k].(parent := p, parentIndex := k) else slots[k])
  }

  lemma {:induction false} KidsMove(h: Heap, g: Heap, p: Ptr, q: Ptr, d: nat, kids: seq<ValueTree>)
    requires d in h.tables && d in g.tables && |kids| <= |h.tables[d]| && g.tables[d] == Reparented(h.tables[d], q, |h.tables[d]|)
    requires KidsHold(h, p, d, kids) && Same(h, g, KidsFoot(h, d, kids))
    ensures KidsHold(g, q, d, kids) && KidsFoot(g, d, kids) == KidsFoot(h, d, kids)
    decreases |kids|
  {
    if kids != [] {
      var n := |kids| - 1;
      KidsMove(h, g, p, q, d, kids[..n]);
      HoldsFrame(h, g, At(d, n), kids[n]);
    }
  }

  /**
   A value survives being moved when only the links of its direct children are changed: whatever lies deeper
   points at table slots, and those stay where they are.
   */
  lemma MovedHolds(h: Heap, g: Heap, p: Ptr, q: Ptr, t: ValueTree)
    requires Points(h, p) && Points(g, q) && Holds(h, p, t) && SameValue(Load(g, q), Load(h, p))
    requires t.tag != TupleBranch || t.kids == [] ==> Same(h, g, Foot(h, p, t))
    requires t.tag == TupleBranch && t.kids != [] ==>
               var d := Load(h, p).data;
               && d in h.tables && d in g.tables && d !in g.blocks && g.tables[d] == Reparented(h.tables[d], q, |h.tables[d]|)
               && Same(h, g, Foot(h, p, t) - {d})
    ensures Holds(g, q, t) && Foot(g, q, t) == Foot(h, p, t)
  {
    if t.tag == TupleBranch && t.kids != [] {
      var d := Load(h, p).data;
      TableNotBelow(h, p, d, t.kids);
      KidsMove(h, g, p, q, d, t.kids);
    }
  }

  /** Children stay when their slots and whatever they own stay. */
  lemma {:induction false} KidsStay(h: Heap, g: Heap, p: Ptr, d: nat, kids: seq<ValueTree>)
    requires d in h.tables && d in g.tables && |kids| <= |h.tables[d]| && |kids| <= |g.tables[d]|
    requires forall k :: 0 <= k < |kids| ==> g.tables[d][k] == h.tables[d][k]
    requires KidsHold(h, p, d, kids) && Same(h, g, KidsFoot(h, d, kids))
    ensures KidsHold(g, p, d, kids) && KidsFoot(g, d, kids) == KidsFoot(h, d, kids)
    decreases |kids|
  {
    if kids != [] {
      var n := |kids| - 1;
      KidsStay(h, g, p, d, kids[..n]);
      HoldsFrame(h, g, At(d, n), kids[n]);
    }
  }
}
