/** src/rewrite_c_runtime.cpp:515-628: building tuples and fan-outs in the emitted C by moving values into a table. */
module CTuples {
  import opened Kinds
  import opened Arena
  import opened ValueArenas
  import opened Resources
  import opened CHeap
  import CApply

  const CELL_BYTES: nat := 72

  // ---------------------------------------------------------------- one move as a function

  /** The heap after moving the cell at `from` to `to`, the children of a tuple re-parented. */
  function MoveCell(h: Heap, from: Ptr, to: Ptr, parent: Ptr, index: nat): Heap
    requires Points(h, from) && Points(h, to)
  {
    var c := Load(h, from);
    var h1 := Store(h, to, c.(parent := parent, parentIndex := index));
    var h2 := if c.kind == CTuple && c.data in h1.tables && c.count == |h1.tables[c.data]|
              then h1.(tables := h1.tables[c.data := Reparented(h1.tables[c.data], to, c.count)]) else h1;
    Store(h2, from, ZERO)
  }

  ghost function OptionalFoot(h: Heap, p: Ptr, t: Option<ValueTree>): set<nat>
    requires Points(h, p)
  {
    if t == None then {} else Foot(h, p, t.value)
  }

  /** A cell to move: the root of a tree, or an empty cell. */
  ghost predicate Movable(h: Heap, p: Ptr, t: Option<ValueTree>)
    requires Points(h, p)
  {
    if t == None then Load(h, p).kind != CTuple else Holds(h, p, t.value)
  }

  /** Nothing moved but the cell and the links of its children. */
  ghost predicate Elsewhere(h: Heap, g: Heap, from: Ptr, to: Ptr, foot: set<nat>) {
    && g.next == h.next && g.blocks == h.blocks && g.tables.Keys == h.tables.Keys
    && (forall id :: id in h.tables ==> |g.tables[id]| == |h.tables[id]|)
    && (forall q: Ptr :: Points(h, q) && q != to && q != from && q.table !in foot ==> Load(g, q) == Load(h, q))
  }

  lemma MoveCellMoves(h: Heap, from: Ptr, to: Ptr, parent: Ptr, index: nat, t: Option<ValueTree>)
    requires Points(h, from) && Points(h, to) && from != to && Movable(h, from, t)
    requires from.table !in OptionalFoot(h, from, t) && to.table !in OptionalFoot(h, from, t)
    ensures var g := MoveCell(h, from, to, parent, index);
            && Points(g, to) && Points(g, from) && Load(g, from) == ZERO
            && Load(g, to) == Load(h, from).(parent := parent, parentIndex := index)
            && Elsewhere(h, g, from, to, OptionalFoot(h, from, t))
            && Movable(g, to, t) && OptionalFoot(g, to, t) == OptionalFoot(h, from, t)
  {
    hide MoveCell, KidsHold, KidsFoot, Elsewhere;
    var g, c := MoveCell(h, from, to, parent, index), Load(h, from);
    if t == None {
      MoveCellCells(h, from, to, parent, index);
      MovedElsewhere(h, from, to, parent, index, {});
    } else {
      var tree := t.value;
      if tree.tag == TupleBranch && tree.kids != [] { TupleParts(h, from, tree); }
      MoveCellCells(h, from, to, parent, index);
      MovedTable(h, from, to, parent, index);
      MovedElsewhere(h, from, to, parent, index, Foot(h, from, tree));
      MovedHolds(h, g, from, to, tree);
    }
  }

  /** Moving a tuple rewrites the links in its own table, which is neither end of the move. */
  ghost predicate TableApart(h: Heap, from: Ptr, to: Ptr)
    requires Points(h, from) && to.At?
  {
    var c := Load(h, from);
    c.kind == CTuple && c.count > 0 ==> c.data in h.tables && |h.tables[c.data]| == c.count && c.data != to.table && c.data != from.table
  }

  lemma MoveCellCells(h: Heap, from: Ptr, to: Ptr, parent: Ptr, index: nat)
    requires Points(h, from) && Points(h, to) && from != to && TableApart(h, from, to)
    ensures var g := MoveCell(h, from, to, parent, index);
            && Points(g, to) && Points(g, from) && Load(g, from) == ZERO
            && Load(g, to) == Load(h, from).(parent := parent, parentIndex := index)
            && g.blocks == h.blocks
  {
  }

  lemma MovedTable(h: Heap, from: Ptr, to: Ptr, parent: Ptr, index: nat)
    requires Points(h, from) && Points(h, to) && from != to && TableApart(h, from, to)
    ensures var g, c := MoveCell(h, from, to, parent, index), Load(h, from);
            && (c.kind == CTuple && c.count > 0 ==>
                  c.data in g.tables && g.tables[c.data] == Reparented(h.tables[c.data], to, |h.tables[c.data]|))
            && (forall id :: id != from.table && id != to.table && (c.kind == CTuple && c.count > 0 ==> id != c.data) ==>
                  (id in h.tables <==> id in g.tables) && (id in h.tables ==> g.tables[id] == h.tables[id]))
  {
  }

  lemma MovedElsewhere(h: Heap, from: Ptr, to: Ptr, parent: Ptr, index: nat, foot: set<nat>)
    requires Points(h, from) && Points(h, to) && from != to && TableApart(h, from, to)
    requires Load(h, from).kind == CTuple && Load(h, from).count > 0 ==> Load(h, from).data in foot
    ensures Elsewhere(h, MoveCell(h, from, to, parent, index), from, to, foot)
  {
  }

  lemma TupleParts(h: Heap, p: Ptr, t: ValueTree)
    requires Points(h, p) && Holds(h, p, t) && t.tag == TupleBranch && t.kids != []
    ensures var c := Load(h, p);
            && c.kind == CTuple && c.count == |t.kids| && c.data != 0 && c.data in h.tables && c.data !in h.blocks
            && |h.tables[c.data]| == |t.kids| && KidsHold(h, p, c.data, t.kids)
            && Foot(h, p, t) == {c.data} + KidsFoot(h, c.data, t.kids)
  {
    assert TableHolds(h, p, Load(h, p).data, t.kids, |t.kids|);
  }

  /** Parts of the heap that the move does not touch. */
  lemma ElsewhereSame(h: Heap, g: Heap, from: Ptr, to: Ptr, foot: set<nat>, ids: set<nat>)
    requires from.At? && to.At? && Elsewhere(h, g, from, to, foot)
    requires ids !! foot && from.table !in ids && to.table !in ids
    ensures Same(h, g, ids)
  {
    forall id | id in ids && id in h.tables ensures g.tables[id] == h.tables[id] {
      forall k: nat | k < |h.tables[id]| ensures g.tables[id][k] == h.tables[id][k] {
        assert Points(h, At(id, k)) && Load(g, At(id, k)) == Load(h, At(id, k));
      }
    }
  }

  /** A value somewhere else is not disturbed by the move. */
  lemma OtherStays(h: Heap, g: Heap, from: Ptr, to: Ptr, foot: set<nat>, p: Ptr, t: Option<ValueTree>)
    requires Points(h, p) && Points(h, from) && Points(h, to) && Elsewhere(h, g, from, to, foot) && Movable(h, p, t)
    requires p != from && p != to && p.table !in foot
    requires OptionalFoot(h, p, t) !! foot && from.table !in OptionalFoot(h, p, t) && to.table !in OptionalFoot(h, p, t)
    ensures Points(g, p) && Load(g, p) == Load(h, p) && Movable(g, p, t) && OptionalFoot(g, p, t) == OptionalFoot(h, p, t)
  {
    assert Load(g, p) == Load(h, p);
    if t.Some? {
      ElsewhereSame(h, g, from, to, foot, OptionalFoot(h, p, t));
      HoldsFrame(h, g, p, t.value);
    }
  }

  // ---------------------------------------------------------------- filling a table

  /** The elements to move into table `d` of `result` are distinct cells whose trees own disjoint parts of the heap. */
  ghost predicate Separate(h: Heap, result: Ptr, elements: seq<Ptr>, ts: seq<Option<ValueTree>>, d: nat) {
    && |ts| == |elements| && Points(h, result) && result !in elements && result.table != d
    && (forall k: nat :: k < |elements| ==> Points(h, elements[k]) && elements[k].table != d && Movable(h, elements[k], ts[k]))
    && (forall j: nat, k: nat :: j < k < |elements| ==> elements[j] != elements[k])
    && (forall k: nat :: k < |elements| ==> d !in OptionalFoot(h, elements[k], ts[k]) && result.table !in OptionalFoot(h, elements[k], ts[k]))
    && (forall j: nat, k: nat :: j < |elements| && k < |elements| ==> elements[j].table !in OptionalFoot(h, elements[k], ts[k]))
    && (forall j: nat, k: nat :: j < k < |elements| ==> OptionalFoot(h, elements[j], ts[j]) !! OptionalFoot(h, elements[k], ts[k]))
  }

  /** Slot `k` of the new table holds what element `k` held. */
  ghost predicate SlotFilled(h0: Heap, h: Heap, result: Ptr, from: Ptr, d: nat, k: nat, t: Option<ValueTree>)
    requires Points(h0, from)
  {
    var q := At(d, k);
    && Points(h, q) && Load(h, q).parent == result && Load(h, q).parentIndex == k
    && Movable(h, q, t) && OptionalFoot(h, q, t) == OptionalFoot(h0, from, t)
    && Points(h, from) && Load(h, from) == ZERO
  }

  ghost predicate Waiting(h0: Heap, h: Heap, from: Ptr, t: Option<ValueTree>)
    requires Points(h0, from)
  {
    && Points(h, from) && Load(h, from) == Load(h0, from)
    && Movable(h, from, t) && OptionalFoot(h, from, t) == OptionalFoot(h0, from, t)
  }

  /** A cell outside the new table, the moved elements and whatever they own. */
  ghost predicate Outside(h0: Heap, elements: seq<Ptr>, ts: seq<Option<ValueTree>>, d: nat, q: Ptr)
    requires |ts| == |elements| && forall k: nat :: k < |elements| ==> Points(h0, elements[k])
  {
    q.At? && q !in elements && q.table != d && forall k: nat :: k < |elements| ==> q.table !in OptionalFoot(h0, elements[k], ts[k])
  }

  /** After the first `i` moves, starting from `h0`. */
  ghost predicate Building(h0: Heap, h: Heap, result: Ptr, elements: seq<Ptr>, ts: seq<Option<ValueTree>>, d: nat, i: nat)
    requires Separate(h0, result, elements, ts, d) && i <= |elements|
  {
    && d in h.tables && |h.tables[d]| == |elements| && h.next == h0.next && h.blocks == h0.blocks && h.tables.Keys == h0.tables.Keys
    && (forall id :: id in h0.tables ==> |h.tables[id]| == |h0.tables[id]|)
    && Points(h, result) && Load(h, result) == Load(h0, result)
    && (forall k: nat :: k < i ==> SlotFilled(h0, h, result, elements[k], d, k, ts[k]))
    && (forall k: nat :: i <= k < |elements| ==> Waiting(h0, h, elements[k], ts[k]))
    && (forall q: Ptr :: Points(h0, q) && Outside(h0, elements, ts, d, q) ==> Load(h, q) == Load(h0, q))
  }

  lemma FilledStays(h0: Heap, h: Heap, g: Heap, result: Ptr, elements: seq<Ptr>, ts: seq<Option<ValueTree>>, d: nat, i: nat, k: nat)
    requires Separate(h0, result, elements, ts, d) && k < i < |elements| && Building(h0, h, result, elements, ts, d, i)
    requires Elsewhere(h, g, elements[i], At(d, i), OptionalFoot(h0, elements[i], ts[i]))
    ensures SlotFilled(h0, g, result, elements[k], d, k, ts[k])
  {
    assert SlotFilled(h0, h, result, elements[k], d, k, ts[k]) && Waiting(h0, h, elements[i], ts[i]);
    var foot := OptionalFoot(h0, elements[i], ts[i]);
    assert OptionalFoot(h0, elements[k], ts[k]) !! foot;
    OtherStays(h, g, elements[i], At(d, i), foot, At(d, k), ts[k]);
    assert Load(g, elements[k]) == Load(h, elements[k]);
  }

  lemma WaitingStays(h0: Heap, h: Heap, g: Heap, result: Ptr, elements: seq<Ptr>, ts: seq<Option<ValueTree>>, d: nat, i: nat, k: nat)
    requires Separate(h0, result, elements, ts, d) && i < k < |elements| && Building(h0, h, result, elements, ts, d, i)
    requires Elsewhere(h, g, elements[i], At(d, i), OptionalFoot(h0, elements[i], ts[i]))
    ensures Waiting(h0, g, elements[k], ts[k])
  {
    assert Waiting(h0, h, elements[k], ts[k]) && Waiting(h0, h, elements[i], ts[i]);
    var foot := OptionalFoot(h0, elements[i], ts[i]);
    assert foot !! OptionalFoot(h0, elements[k], ts[k]);
    OtherStays(h, g, elements[i], At(d, i), foot, elements[k], ts[k]);
  }

  /** One more element moves into its slot; the others, and the slots already filled, are not disturbed. */
  lemma BuildingStep(h0: Heap, h: Heap, result: Ptr, elements: seq<Ptr>, ts: seq<Option<ValueTree>>, d: nat, i: nat)
    requires Separate(h0, result, elements, ts, d) && i < |elements| && Building(h0, h, result, elements, ts, d, i)
    ensures Points(h, elements[i]) && Points(h, At(d, i)) && elements[i] != At(d, i)
    ensures Building(h0, MoveCell(h, elements[i], At(d, i), result, i), result, elements, ts, d, i + 1)
  {
    assert Waiting(h0, h, elements[i], ts[i]);
    var g := MoveCell(h, elements[i], At(d, i), result, i);
    MoveCellMoves(h, elements[i], At(d, i), result, i, ts[i]);
    hide Holds, Foot, MoveCell, Movable, OptionalFoot;
    forall k: nat | k < i ensures SlotFilled(h0, g, result, elements[k], d, k, ts[k]) {
      FilledStays(h0, h, g, result, elements, ts, d, i, k);
    }
    forall k: nat | i < k < |elements| ensures Waiting(h0, g, elements[k], ts[k]) {
      WaitingStays(h0, h, g, result, elements, ts, d, i, k);
    }
    assert Load(g, result) == Load(h, result);
    assert SlotFilled(h0, g, result, elements[i], d, i, ts[i]);
    forall q: Ptr | Points(h0, q) && Outside(h0, elements, ts, d, q) ensures Load(g, q) == Load(h0, q) {
      assert Points(h, q) && q != elements[i] && Load(g, q) == Load(h, q);
    }
  }

  // ---------------------------------------------------------------- tuples and fan-outs

  /** A tuple cell of `size` slots of which the first hold `kids`; only those are cleaned up. */
  ghost predicate PartHolds(h: Heap, p: Ptr, kids: seq<ValueTree>, size: nat)
    requires Points(h, p)
  {
    var c := Load(h, p);
    c.kind == CTuple && c.count == size && c.cleanup == |kids| && TableHolds(h, p, c.data, kids, size)
  }

  ghost function PartFoot(h: Heap, p: Ptr, kids: seq<ValueTree>): set<nat>
    requires Points(h, p)
  {
    (if Load(h, p).data == 0 then {} else {Load(h, p).data}) + KidsFoot(h, Load(h, p).data, kids)
  }

  /** A filled fan-out is a tuple. */
  lemma FullPartHolds(h: Heap, p: Ptr, kids: seq<ValueTree>)
    requires Points(h, p)
    ensures PartHolds(h, p, kids, |kids|) <==> Holds(h, p, Node(TupleBranch, kids))
    ensures PartHolds(h, p, kids, |kids|) ==> Foot(h, p, Node(TupleBranch, kids)) == PartFoot(h, p, kids)
  {
  }

  ghost function Trees(ts: seq<Option<ValueTree>>): (r: seq<ValueTree>)
    requires forall k :: 0 <= k < |ts| ==> ts[k].Some?
    ensures |r| == |ts| && forall k :: 0 <= k < |ts| ==> r[k] == ts[k].value
  {
    seq(|ts|, k requires 0 <= k < |ts| => ts[k].value)
  }

  /** A finished table of trees. */
  lemma BuiltTuple(h0: Heap, h: Heap, result: Ptr, elements: seq<Ptr>, ts: seq<Option<ValueTree>>, d: nat)
    requires Separate(h0, result, elements, ts, d) && Building(h0, h, result, elements, ts, d, |elements|)
    requires forall k :: 0 <= k < |ts| ==> ts[k].Some?
    ensures KidsHold(h, result, d, Trees(ts))
    ensures forall x :: x in KidsFoot(h, d, Trees(ts)) ==> exists k: nat :: k < |elements| && x in Foot(h0, elements[k], Trees(ts)[k])
  {
    hide Building, KidHolds, SlotFoot, OptionalFoot, KidsFoot, KidsHold, Movable;
    var kids := Trees(ts);
    forall k: nat | k < |kids|
      ensures KidHolds(h, result, d, k, kids[k]) && SlotFoot(h, d, k, kids[k]) == OptionalFoot(h0, elements[k], ts[k])
    {
      BuiltSlot(h0, h, result, elements, ts, d, k);
    }
    forall j: nat, k: nat | j < k < |kids| ensures SlotFoot(h, d, j, kids[j]) !! SlotFoot(h, d, k, kids[k]) {
      BuiltApart(h0, result, elements, ts, d, j, k);
    }
    KidsFromSlots(h, result, d, kids);
    forall x | x in KidsFoot(h, d, kids) ensures exists k: nat :: k < |elements| && x in Foot(h0, elements[k], kids[k]) {
      KidsFootMember(h, d, kids, x);
      var k: nat :| k < |kids| && Points(h, At(d, k)) && x in Foot(h, At(d, k), kids[k]);
      BuiltSlot(h0, h, result, elements, ts, d, k);
      assert x in Foot(h0, elements[k], kids[k]);
    }
  }

  lemma BuiltSlot(h0: Heap, h: Heap, result: Ptr, elements: seq<Ptr>, ts: seq<Option<ValueTree>>, d: nat, k: nat)
    requires Separate(h0, result, elements, ts, d) && Building(h0, h, result, elements, ts, d, |elements|)
    requires k < |elements| && ts[k].Some?
    ensures Points(h0, elements[k]) && KidHolds(h, result, d, k, ts[k].value)
    ensures SlotFoot(h, d, k, ts[k].value) == OptionalFoot(h0, elements[k], ts[k]) == Foot(h0, elements[k], ts[k].value)
    ensures Points(h, At(d, k)) && SlotFoot(h, d, k, ts[k].value) == Foot(h, At(d, k), ts[k].value)
  {
    assert SlotFilled(h0, h, result, elements[k], d, k, ts[k]);
  }

  lemma BuiltApart(h0: Heap, result: Ptr, elements: seq<Ptr>, ts: seq<Option<ValueTree>>, d: nat, j: nat, k: nat)
    requires Separate(h0, result, elements, ts, d) && j < k < |elements|
    ensures Points(h0, elements[j]) && Points(h0, elements[k])
    ensures OptionalFoot(h0, elements[j], ts[j]) !! OptionalFoot(h0, elements[k], ts[k])
  {
  }

  lemma {:induction false} FootInHeap(h: Heap, p: Ptr, t: ValueTree)
    requires Points(h, p) && Holds(h, p, t)
    ensures forall x :: x in Foot(h, p, t) ==> x in h.tables || x in h.blocks
    decreases t, 1
  {
    if t.tag == TupleBranch && t.kids != [] {
      TupleParts(h, p, t);
      KidsFootInHeap(h, p, Load(h, p).data, t.kids);
    }
  }

  lemma {:induction false} KidsFootInHeap(h: Heap, p: Ptr, d: nat, kids: seq<ValueTree>)
    requires KidsHold(h, p, d, kids)
    ensures forall x :: x in KidsFoot(h, d, kids) ==> x in h.tables || x in h.blocks
    decreases kids, 0
  {
    if kids != [] {
      KidsFootInHeap(h, p, d, kids[..|kids| - 1]);
      FootInHeap(h, At(d, |kids| - 1), kids[|kids| - 1]);
    }
  }

  /** Distinct cells with disjoint trees, before there is a table. */
  ghost predicate Gathered(h: Heap, result: Ptr, elements: seq<Ptr>, ts: seq<Option<ValueTree>>) {
    Separate(h, result, elements, ts, 0)
  }

  function Zeroed(n: nat): (r: seq<Cell>)
    ensures |r| == n
  {
    seq(n, _ => ZERO)
  }

  /** A tuple cell keeps its own link and its place. */
  function TupleCell(h: Heap, result: Ptr, count: nat): Cell
    requires Points(h, result)
  {
    Load(h, result).(kind := CTuple, count := count, data := if count == 0 then 0 else h.next, cleanup := count)
  }

  /** The heap once the table exists and the result cell names it. */
  function WithTable(h: Heap, result: Ptr, count: nat): Heap
    requires Points(h, result) && FreshNames(h)
  {
    if count == 0 then Store(h, result, TupleCell(h, result, count))
    else Store(h.(tables := h.tables[h.next := Zeroed(count)], next := h.next + 1), result, TupleCell(h, result, count))
  }

  /** The only new name is that of the table. */
  ghost predicate TableAdded(h: Heap, g: Heap, count: nat) {
    && g.blocks == h.blocks && g.next == (if count == 0 then h.next else h.next + 1)
    && g.tables.Keys == h.tables.Keys + (if count == 0 then {} else {h.next})
    && forall id :: id in h.tables ==> |g.tables[id]| == |h.tables[id]|
  }

  lemma TableStarted(h: Heap, result: Ptr, elements: seq<Ptr>, ts: seq<Option<ValueTree>>)
    requires FreshNames(h) && Gathered(h, result, elements, ts) && |elements| > 0
    ensures var h0 := WithTable(h, result, |elements|);
            && FreshNames(h0) && Separate(h0, result, elements, ts, h.next) && Building(h0, h0, result, elements, ts, h.next, 0)
            && forall k: nat :: k < |elements| ==> OptionalFoot(h0, elements[k], ts[k]) == OptionalFoot(h, elements[k], ts[k])
  {
    var h0, d := WithTable(h, result, |elements|), h.next;
    forall k: nat | k < |elements|
      ensures Points(h0, elements[k]) && elements[k].table != d && Load(h0, elements[k]) == Load(h, elements[k])
      ensures Movable(h0, elements[k], ts[k]) && OptionalFoot(h0, elements[k], ts[k]) == OptionalFoot(h, elements[k], ts[k])
      ensures d !in OptionalFoot(h, elements[k], ts[k])
    {
      assert elements[k] != result;
      if ts[k].Some? {
        FootInHeap(h, elements[k], ts[k].value);
        HoldsFrame(h, h0, elements[k], ts[k].value);
      }
    }
    hide Holds, Foot, Movable, OptionalFoot;
  }

  // ---------------------------------------------------------------- the program's heap

  class CProgram {
    var heap: Heap
    const resources: CApply.CResources

    constructor (heap: Heap, resources: CApply.CResources)
      ensures this.heap == heap && this.resources == resources
    {
      this.heap, this.resources := heap, resources;
    }

    /** src/rewrite_c_runtime.cpp:577-594: copy the cell, link it and the children of a tuple, and clear the old place. */
    method Move(from: Ptr, to: Ptr, parent: Ptr, index: nat)
      requires Points(heap, from) && Points(heap, to) && from != to && FreshNames(heap)
      requires var c := Load(heap, from);
               c.kind == CTuple && c.count > 0 ==>
                 c.data in heap.tables && |heap.tables[c.data]| == c.count && c.data != to.table && c.data != from.table
      requires var c := Load(heap, from); c.kind == CTuple && c.count == 0 ==> c.data == 0
      modifies this`heap
      ensures heap == MoveCell(old(heap), from, to, parent, index)
    {
      var c := Load(heap, from);
      heap := Store(heap, to, c.(parent := parent, parentIndex := index));
      if c.kind == CTuple {
        ghost var h1 := heap;
        for k := 0 to c.count
          invariant c.count > 0 ==> c.data in h1.tables && |h1.tables[c.data]| == c.count
          invariant heap == if k == 0 then h1 else h1.(tables := h1.tables[c.data := Reparented(h1.tables[c.data], to, k)])
        {
          ghost var before := heap;
          var nested := heap.tables[c.data][k];
          heap := Store(heap, At(c.data, k), nested.(parent := to, parentIndex := k));
          assert heap.tables[c.data] == Reparented(h1.tables[c.data], to, k + 1);
        }
      }
      heap := Store(heap, from, ZERO);
    }

    /** src/rewrite_c_runtime.cpp:562-594, for a table with slots. */
    method FillTable(result: Ptr, elements: seq<Ptr>, ghost ts: seq<Option<ValueTree>>)
      requires FreshNames(heap) && Gathered(heap, result, elements, ts) && |elements| > 0
      modifies this`heap
      ensures FreshNames(heap) && Points(heap, result)
      ensures var h0 := WithTable(old(heap), result, |elements|);
              Separate(h0, result, elements, ts, old(heap).next) && Building(h0, heap, result, elements, ts, old(heap).next, |elements|)
      ensures forall k: nat :: k < |elements| ==> Points(heap, elements[k]) && Load(heap, elements[k]) == ZERO
    {
      var d := heap.next;
      TableStarted(heap, result, elements, ts);
      heap := WithTable(heap, result, |elements|);
      ghost var h0 := heap;
      hide Separate, Building, MoveCell, WithTable, Gathered;
      for i := 0 to |elements|
        invariant FreshNames(heap) && Building(h0, heap, result, elements, ts, d, i)
      {
        BuildingStep(h0, heap, result, elements, ts, d, i);
        MovableParts(h0, heap, result, elements, ts, d, i);
        Move(elements[i], At(d, i), result, i);
        BuildingFresh(h0, heap, result, elements, ts, d, i + 1);
      }
      BuildingEnd(h0, heap, result, elements, ts, d);
    }

    /**
     src/rewrite_c_runtime.cpp:523-560: sixteen bytes for every element.  The ordinal is used up before the host
     allocator is asked; live bytes are charged by the caller once the table is filled.
     */
    method AdmitTable(count: nat, hostFails: bool) returns (why: Option<Failure>)
      requires resources.Valid() && resources.ordinal < SIZE_MAX
      modifies resources`ordinal
      ensures why == None <==>
                && count * SLOT_BYTES + resources.live <= SIZE_MAX && count * CELL_BYTES <= SIZE_MAX
                && Within(count * SLOT_BYTES, resources.limits.tupleTableBytes)
                && Within(resources.live + count * SLOT_BYTES, resources.limits.liveBytes)
                && (count != 0 ==> resources.failAt != Some(old(resources.ordinal)) && !hostFails)
      ensures old(resources.ordinal) <= resources.ordinal <= old(resources.ordinal) + 1
    {
      if count > SIZE_MAX / SLOT_BYTES {
        return Some(SizeOverflow);
      }
      var bytes := count * SLOT_BYTES;
      if bytes > SIZE_MAX - resources.live {
        return Some(SizeOverflow);
      }
      if resources.limits.tupleTableBytes.Some? && bytes > resources.limits.tupleTableBytes.value {
        return Some(LimitReached(MaxTupleTableBytes, resources.limits.tupleTableBytes.value, 0, bytes));
      }
      if resources.limits.liveBytes.Some? && resources.live + bytes > resources.limits.liveBytes.value {
        return Some(LimitReached(MaxLiveBytes, resources.limits.liveBytes.value, resources.live, bytes));
      }
      if count != 0 {
        if count > SIZE_MAX / CELL_BYTES {
          return Some(SizeOverflow);
        }
        var mine := resources.ordinal;
        resources.ordinal := (resources.ordinal + 1) % (SIZE_MAX + 1);
        if resources.failAt == Some(mine) || hostFails {
          return Some(Unavailable(None));
        }
      }
      why := None;
    }

    /**
     src/rewrite_c_runtime.cpp:515-596.  The elements' trees become the children of a new tuple; only the links of
     their own children are rewritten, and yet every link of the whole tree is right again.
     */
    method Tuple(result: Ptr, elements: seq<Ptr>, ghost ts: seq<Option<ValueTree>>, hostFails: bool) returns (why: Option<Failure>)
      requires resources.Valid() && resources.ordinal < SIZE_MAX && FreshNames(heap) && Gathered(heap, result, elements, ts)
      modifies this`heap, resources
      ensures FreshNames(heap) && resources.Valid()
      ensures why.Some? ==> heap == old(heap) && resources.live == old(resources.live)
      ensures why == None ==> TupleMade(old(heap), heap, result, elements, ts) && resources.live == old(resources.live) + |elements| * SLOT_BYTES
    {
      why := AdmitTable(|elements|, hostFails);
      if why.Some? {
        return;
      }
      hide Gathered, TupleMade, FreshNames;
      MakeTuple(result, elements, ts);
      resources.live := resources.live + |elements| * SLOT_BYTES;
    }

    /** src/rewrite_c_runtime.cpp:598-609: a tuple of empty cells that owns none of them yet. */
    method Fanout(result: Ptr, empties: seq<Ptr>, ghost ts: seq<Option<ValueTree>>, hostFails: bool) returns (why: Option<Failure>)
      requires resources.Valid() && resources.ordinal < SIZE_MAX && FreshNames(heap) && Gathered(heap, result, empties, ts)
      modifies this`heap, resources
      ensures FreshNames(heap) && resources.Valid()
      ensures why.Some? ==> heap == old(heap) && resources.live == old(resources.live)
      ensures why == None ==> FanoutMade(old(heap), heap, result, empties, ts) && resources.live == old(resources.live) + |empties| * SLOT_BYTES
    {
      why := Tuple(result, empties, ts, hostFails);
      if why.Some? {
        return;
      }
      ghost var made := heap;
      heap := Store(heap, result, Load(heap, result).(cleanup := 0));
      LoweredCleanup(old(heap), made, heap, result, empties, ts);
    }

    /**
     src/rewrite_c_runtime.cpp:611-628: the next slot of a fan-out takes a value over.  Again one level of links is
     rewritten, and the fan-out owns one more tree.
     */
    method Transfer(result: Ptr, index: nat, child: Ptr, ghost kids: seq<ValueTree>, ghost size: nat, ghost t: ValueTree)
      requires FreshNames(heap) && Transferable(heap, result, index, child, kids, size, t)
      modifies this`heap
      ensures FreshNames(heap) && Points(heap, result) && Points(heap, child) && Load(heap, child) == ZERO
      ensures PartHolds(heap, result, kids + [t], size)
      ensures PartFoot(heap, result, kids + [t]) == PartFoot(old(heap), result, kids) + Foot(old(heap), child, t)
      ensures Handed(old(heap), heap, result, index, child, Foot(old(heap), child, t))
    {
      hide *;
      TransferCells(heap, result, index, child, kids, size, t);
      var d := Load(heap, result).data;
      ghost var before := heap;
      TransferParts(heap, result, index, child, kids, size, t);
      MoveCellMoves(heap, child, At(d, index), result, index, Some(t));
      Move(child, At(d, index), result, index);
      ghost var moved := heap;
      SomeMovable(moved, At(d, index), t);
      TransferKids(before, moved, result, index, child, kids, size, t);
      heap := Store(heap, result, Load(heap, result).(cleanup := Load(heap, result).cleanup + 1));
      Transferred(before, moved, heap, result, child, kids, size, t);
    }

    /** src/rewrite_c_runtime.cpp:557-594: the table, the result cell, and the moves. */
    method MakeTuple(result: Ptr, elements: seq<Ptr>, ghost ts: seq<Option<ValueTree>>)
      requires FreshNames(heap) && Gathered(heap, result, elements, ts)
      modifies this`heap
      ensures FreshNames(heap) && TupleMade(old(heap), heap, result, elements, ts)
    {
      ghost var before := heap;
      if elements == [] {
        heap := WithTable(heap, result, 0);
      } else {
        FillTable(result, elements, ts);
        FilledTuple(before, heap, result, elements, ts);
      }
    }
  }

  /**
   What a new tuple at `result` is: its elements are the old trees, their old places are empty, and nothing else
   changed.  Until its clean-up index is raised again it owns none of the elements.
   */
  ghost predicate TupleMade(h: Heap, g: Heap, result: Ptr, elements: seq<Ptr>, ts: seq<Option<ValueTree>>)
    requires Gathered(h, result, elements, ts)
  {
    && TableAdded(h, g, |elements|)
    && Points(g, result) && Load(g, result) == TupleCell(h, result, |elements|)
    && (forall k: nat :: k < |elements| ==> Points(g, elements[k]) && Load(g, elements[k]) == ZERO)
    && PartHolds(Store(g, result, Load(g, result).(cleanup := 0)), result, [], |elements|)
    && ((forall k :: 0 <= k < |ts| ==> ts[k].Some?) ==>
          && Holds(g, result, Node(TupleBranch, Trees(ts)))
          && forall x :: x in Foot(g, result, Node(TupleBranch, Trees(ts))) ==>
               x == h.next || exists k: nat :: k < |elements| && x in Foot(h, elements[k], Trees(ts)[k]))
    && (forall q: Ptr :: Points(h, q) && q != result && Outside(h, elements, ts, h.next, q) ==> Points(g, q) && Load(g, q) == Load(h, q))
  }

  /** A fan-out is a tuple whose clean-up index is zero: it owns the table and none of the slots. */
  ghost predicate FanoutMade(h: Heap, g: Heap, result: Ptr, empties: seq<Ptr>, ts: seq<Option<ValueTree>>)
    requires Gathered(h, result, empties, ts)
  {
    && TableAdded(h, g, |empties|)
    && Points(g, result) && Load(g, result) == TupleCell(h, result, |empties|).(cleanup := 0)
    && PartHolds(g, result, [], |empties|)
    && (forall k: nat :: k < |empties| ==> Points(g, empties[k]) && Load(g, empties[k]) == ZERO)
    && (forall q: Ptr :: Points(h, q) && q != result && Outside(h, empties, ts, h.next, q) ==> Points(g, q) && Load(g, q) == Load(h, q))
  }

  lemma LoweredCleanup(h: Heap, made: Heap, g: Heap, result: Ptr, empties: seq<Ptr>, ts: seq<Option<ValueTree>>)
    requires Gathered(h, result, empties, ts) && TupleMade(h, made, result, empties, ts)
    requires g == Store(made, result, Load(made, result).(cleanup := 0))
    ensures FanoutMade(h, g, result, empties, ts)
  {
    assert result !in empties;
    hide Separate, Gathered, Outside, PartHolds, Holds, Foot;
    forall q: Ptr | Points(made, q) && q != result ensures Points(g, q) && Load(g, q) == Load(made, q) {
      StoreLoad(made, result, Load(made, result).(cleanup := 0), q);
    }
    assert g.tables.Keys == made.tables.Keys;
  }

  /** What a transfer changes: the two cells, the slot, and whatever the child owns. */
  ghost predicate Handed(h: Heap, g: Heap, result: Ptr, index: nat, child: Ptr, foot: set<nat>)
    requires Points(h, result)
  {
    && g.next == h.next && g.blocks == h.blocks && g.tables.Keys == h.tables.Keys
    && (forall id :: id in h.tables ==> |g.tables[id]| == |h.tables[id]|)
    && Points(g, result) && Load(g, result) == Load(h, result).(cleanup := Load(h, result).cleanup + 1)
    && (forall q: Ptr :: Points(h, q) && q != result && q != child && q != At(Load(h, result).data, index) && q.table !in foot ==>
          Load(g, q) == Load(h, q))
  }

  lemma GatheredCells(h: Heap, result: Ptr, elements: seq<Ptr>, ts: seq<Option<ValueTree>>)
    requires Gathered(h, result, elements, ts)
    ensures Points(h, result) && |ts| == |elements| && forall k: nat :: k < |elements| ==> Points(h, elements[k])
  {
  }

  lemma FilledTuple(h: Heap, g: Heap, result: Ptr, elements: seq<Ptr>, ts: seq<Option<ValueTree>>)
    requires FreshNames(h) && Gathered(h, result, elements, ts) && |elements| > 0
    requires var h0 := WithTable(h, result, |elements|);
             Separate(h0, result, elements, ts, h.next) && Building(h0, g, result, elements, ts, h.next, |elements|)
    ensures TupleMade(h, g, result, elements, ts)
  {
    hide Separate, Gathered, Building, WithTable, Outside, Movable, TableAdded, TupleCell, PartHolds, Holds, Foot, KidsHold, KidsFoot,
         OptionalFoot, FreshNames;
    GatheredCells(h, result, elements, ts);
    var h0 := WithTable(h, result, |elements|);
    TableStarted(h, result, elements, ts);
    OutsideStays(h, h0, g, result, elements, ts);
    BuildingEnd(h0, g, result, elements, ts, h.next);
    TableIsAdded(h, g, result, elements, ts);
    MadeCell(h, g, result, elements, ts);
    if forall k :: 0 <= k < |ts| ==> ts[k].Some? {
      BuiltTuple(h0, g, result, elements, ts, h.next);
      MadeTree(h, h0, g, result, elements, ts);
    }
  }

  lemma MadeCell(h: Heap, g: Heap, result: Ptr, elements: seq<Ptr>, ts: seq<Option<ValueTree>>)
    requires FreshNames(h) && Gathered(h, result, elements, ts) && |elements| > 0
    requires var h0 := WithTable(h, result, |elements|);
             Separate(h0, result, elements, ts, h.next) && Building(h0, g, result, elements, ts, h.next, |elements|)
    ensures Points(g, result) && Load(g, result) == TupleCell(h, result, |elements|) && h.next != 0
    ensures Load(g, result).kind == CTuple && Load(g, result).count == Load(g, result).cleanup == |elements| && Load(g, result).data == h.next
    ensures h.next in g.tables && |g.tables[h.next]| == |elements| && h.next !in g.blocks
    ensures PartHolds(Store(g, result, Load(g, result).(cleanup := 0)), result, [], |elements|)
  {
    var h0 := WithTable(h, result, |elements|);
    assert Load(h0, result) == TupleCell(h, result, |elements|) && Load(g, result) == Load(h0, result);
    assert result.table != h.next;
    hide Separate, Gathered, SlotFilled, Waiting, Outside;
  }

  lemma TableIsAdded(h: Heap, g: Heap, result: Ptr, elements: seq<Ptr>, ts: seq<Option<ValueTree>>)
    requires FreshNames(h) && Gathered(h, result, elements, ts) && |elements| > 0
    requires var h0 := WithTable(h, result, |elements|);
             Separate(h0, result, elements, ts, h.next) && Building(h0, g, result, elements, ts, h.next, |elements|)
    ensures TableAdded(h, g, |elements|)
  {
    assert Points(h, result);
    hide Separate, Gathered, SlotFilled, Waiting, Outside;
    var h0 := WithTable(h, result, |elements|);
    assert h0.tables.Keys == h.tables.Keys + {h.next};
    forall id | id in h.tables ensures |g.tables[id]| == |h.tables[id]| {
      assert |h0.tables[id]| == |h.tables[id]|;
    }
  }

  lemma MadeTree(h: Heap, h0: Heap, g: Heap, result: Ptr, elements: seq<Ptr>, ts: seq<Option<ValueTree>>)
    requires Gathered(h, result, elements, ts) && Separate(h0, result, elements, ts, h.next) && |elements| > 0 && h.next != 0
    requires forall k :: 0 <= k < |ts| ==> ts[k].Some?
    requires forall k: nat :: k < |elements| ==> OptionalFoot(h0, elements[k], ts[k]) == OptionalFoot(h, elements[k], ts[k])
    requires Points(g, result) && Load(g, result).kind == CTuple && Load(g, result).count == Load(g, result).cleanup == |elements|
    requires Load(g, result).data == h.next && h.next in g.tables && |g.tables[h.next]| == |elements| && h.next !in g.blocks
    requires KidsHold(g, result, h.next, Trees(ts))
    requires forall x :: x in KidsFoot(g, h.next, Trees(ts)) ==> exists k: nat :: k < |elements| && x in Foot(h0, elements[k], Trees(ts)[k])
    ensures Holds(g, result, Node(TupleBranch, Trees(ts)))
    ensures forall x :: x in Foot(g, result, Node(TupleBranch, Trees(ts))) ==>
              x == h.next || exists k: nat :: k < |elements| && x in Foot(h, elements[k], Trees(ts)[k])
  {
    FullPartHolds(g, result, Trees(ts));
    forall k: nat | k < |elements| ensures Foot(h0, elements[k], Trees(ts)[k]) == Foot(h, elements[k], Trees(ts)[k]) {
      assert OptionalFoot(h0, elements[k], ts[k]) == OptionalFoot(h, elements[k], ts[k]);
    }
    hide Separate, Gathered, KidsHold, Holds, Foot, KidsFoot;
  }

  lemma OutsideStays(h: Heap, h0: Heap, g: Heap, result: Ptr, elements: seq<Ptr>, ts: seq<Option<ValueTree>>)
    requires FreshNames(h) && Gathered(h, result, elements, ts) && |elements| > 0 && h0 == WithTable(h, result, |elements|)
    requires Separate(h0, result, elements, ts, h.next) && Building(h0, g, result, elements, ts, h.next, |elements|)
    requires forall k: nat :: k < |elements| ==> OptionalFoot(h0, elements[k], ts[k]) == OptionalFoot(h, elements[k], ts[k])
    ensures forall q: Ptr :: Points(h, q) && q != result && Outside(h, elements, ts, h.next, q) ==> Points(g, q) && Load(g, q) == Load(h, q)
  {
    hide SlotFilled, Waiting, Movable, OptionalFoot;
    forall q: Ptr | Points(h, q) && q != result && Outside(h, elements, ts, h.next, q) ensures Points(g, q) && Load(g, q) == Load(h, q) {
      assert Points(h0, q) && Load(h0, q) == Load(h, q) && Outside(h0, elements, ts, h.next, q);
    }
  }

  lemma MovableParts(h0: Heap, h: Heap, result: Ptr, elements: seq<Ptr>, ts: seq<Option<ValueTree>>, d: nat, i: nat)
    requires Separate(h0, result, elements, ts, d) && i < |elements| && Building(h0, h, result, elements, ts, d, i)
    ensures Points(h, elements[i])
    ensures var c := Load(h, elements[i]);
            && (c.kind == CTuple && c.count > 0 ==>
                  c.data in h.tables && |h.tables[c.data]| == c.count && c.data != d && c.data != elements[i].table)
            && (c.kind == CTuple && c.count == 0 ==> c.data == 0)
  {
    assert Waiting(h0, h, elements[i], ts[i]);
    if Load(h, elements[i]).kind == CTuple {
      var t := ts[i].value;
      assert TableHolds(h, elements[i], Load(h, elements[i]).data, t.kids, |t.kids|);
      if t.kids != [] { TupleParts(h, elements[i], t); }
    }
  }

  lemma BuildingFresh(h0: Heap, h: Heap, result: Ptr, elements: seq<Ptr>, ts: seq<Option<ValueTree>>, d: nat, i: nat)
    requires Separate(h0, result, elements, ts, d) && i <= |elements| && Building(h0, h, result, elements, ts, d, i) && FreshNames(h0)
    ensures FreshNames(h)
  {
    hide Separate, SlotFilled, Waiting;
    assert forall id :: id in h.tables ==> id in h0.tables.Keys;
  }

  lemma BuildingEnd(h0: Heap, h: Heap, result: Ptr, elements: seq<Ptr>, ts: seq<Option<ValueTree>>, d: nat)
    requires Separate(h0, result, elements, ts, d) && Building(h0, h, result, elements, ts, d, |elements|)
    ensures Points(h, result) && forall k: nat :: k < |elements| ==> Points(h, elements[k]) && Load(h, elements[k]) == ZERO
  {
    forall k: nat | k < |elements| ensures Points(h, elements[k]) && Load(h, elements[k]) == ZERO {
      assert SlotFilled(h0, h, result, elements[k], d, k, ts[k]);
    }
  }

  /** A fan-out with a free slot, and a value that lies elsewhere. */
  ghost predicate Transferable(h: Heap, result: Ptr, index: nat, child: Ptr, kids: seq<ValueTree>, size: nat, t: ValueTree) {
    && Points(h, result) && Points(h, child) && child != result
    && PartHolds(h, result, kids, size) && |kids| == index < size && Holds(h, child, t)
    && PartFoot(h, result, kids) !! Foot(h, child, t)
    && child.table !in PartFoot(h, result, kids) && child.table !in Foot(h, child, t)
    && result.table !in PartFoot(h, result, kids) && result.table !in Foot(h, child, t)
  }

  lemma TransferCells(h: Heap, result: Ptr, index: nat, child: Ptr, kids: seq<ValueTree>, size: nat, t: ValueTree)
    requires Transferable(h, result, index, child, kids, size, t)
    ensures Points(h, result) && Points(h, child) && index == |kids| && child != result
  {
  }

  lemma SomeMovable(h: Heap, p: Ptr, t: ValueTree)
    requires Points(h, p)
    ensures Movable(h, p, Some(t)) <==> Holds(h, p, t)
    ensures OptionalFoot(h, p, Some(t)) == Foot(h, p, t)
  {
  }

  lemma TransferParts(h: Heap, result: Ptr, index: nat, child: Ptr, kids: seq<ValueTree>, size: nat, t: ValueTree)
    requires FreshNames(h) && Transferable(h, result, index, child, kids, size, t)
    ensures var d := Load(h, result).data;
            && Points(h, At(d, index)) && At(d, index) != child && d !in Foot(h, child, t) && d != result.table && d != 0
            && Movable(h, child, Some(t)) && OptionalFoot(h, child, Some(t)) == Foot(h, child, t)
            && Points(h, result) && Points(h, child) && child.table !in Foot(h, child, t)
    ensures var c := Load(h, child);
            && (c.kind == CTuple && c.count > 0 ==>
                  c.data in h.tables && |h.tables[c.data]| == c.count && c.data != Load(h, result).data && c.data != child.table)
            && (c.kind == CTuple && c.count == 0 ==> c.data == 0)
  {
    assert TableHolds(h, result, Load(h, result).data, kids, size);
    if Load(h, child).kind == CTuple {
      assert TableHolds(h, child, Load(h, child).data, t.kids, |t.kids|);
      if t.kids != [] { TupleParts(h, child, t); }
    }
  }

  lemma TransferKids(h: Heap, g: Heap, result: Ptr, index: nat, child: Ptr, kids: seq<ValueTree>, size: nat, t: ValueTree)
    requires FreshNames(h) && Transferable(h, result, index, child, kids, size, t)
    requires var d := Load(h, result).data;
             && Points(h, At(d, index)) && At(d, index) != child && d !in Foot(h, child, t) && d != result.table && d != 0
             && Points(g, At(d, index)) && Elsewhere(h, g, child, At(d, index), Foot(h, child, t))
             && Holds(g, At(d, index), t) && Foot(g, At(d, index), t) == Foot(h, child, t)
             && Load(g, At(d, index)).parent == result && Load(g, At(d, index)).parentIndex == index
    ensures Points(g, result) && Load(g, result) == Load(h, result)
    ensures TableHolds(g, result, Load(h, result).data, kids + [t], size)
    ensures KidsFoot(g, Load(h, result).data, kids + [t]) == KidsFoot(h, Load(h, result).data, kids) + Foot(h, child, t)
  {
    var d := Load(h, result).data;
    assert TableHolds(h, result, d, kids, size);
    TableNotBelow(h, result, d, kids);
    assert KidsFoot(h, d, kids) !! Foot(h, child, t) && child.table !in KidsFoot(h, d, kids);
    ElsewhereSame(h, g, child, At(d, index), Foot(h, child, t), KidsFoot(h, d, kids));
    forall k: nat | k < |kids| ensures g.tables[d][k] == h.tables[d][k] {
      assert Points(h, At(d, k)) && Load(g, At(d, k)) == Load(h, At(d, k));
    }
    KidsStay(h, g, result, d, kids);
    assert (kids + [t])[..index] == kids && (kids + [t])[index] == t;
    assert Load(g, result) == Load(h, result);
  }

  /** The fan-out after its clean-up index was raised. */
  lemma Transferred(h: Heap, moved: Heap, g: Heap, result: Ptr, child: Ptr, kids: seq<ValueTree>, size: nat, t: ValueTree)
    requires FreshNames(h) && Transferable(h, result, |kids|, child, kids, size, t)
    requires Elsewhere(h, moved, child, At(Load(h, result).data, |kids|), Foot(h, child, t))
    requires Points(moved, result) && Load(moved, result) == Load(h, result) && Points(moved, child) && Load(moved, child) == ZERO
    requires TableHolds(moved, result, Load(h, result).data, kids + [t], size)
    requires KidsFoot(moved, Load(h, result).data, kids + [t]) == KidsFoot(h, Load(h, result).data, kids) + Foot(h, child, t)
    requires g == Store(moved, result, Load(moved, result).(cleanup := Load(moved, result).cleanup + 1))
    ensures FreshNames(g) && Points(g, result) && Points(g, child) && Load(g, child) == ZERO
    ensures PartHolds(g, result, kids + [t], size)
    ensures PartFoot(g, result, kids + [t]) == PartFoot(h, result, kids) + Foot(h, child, t)
    ensures Handed(h, g, result, |kids|, child, Foot(h, child, t))
  {
    hide Holds, Foot, TableHolds, KidsHold, KidsFoot;
    TransferParts(h, result, |kids|, child, kids, size, t);
    StoreLoad(moved, result, Load(moved, result).(cleanup := |kids| + 1), child);
    RaisedCleanup(moved, g, result, kids + [t], size);
  }

  lemma RaisedCleanup(h: Heap, g: Heap, p: Ptr, kids: seq<ValueTree>, size: nat)
    requires Points(h, p) && Load(h, p).kind == CTuple && Load(h, p).count == size && Load(h, p).cleanup + 1 == |kids|
    requires TableHolds(h, p, Load(h, p).data, kids, size) && size > 0
    requires g == Store(h, p, Load(h, p).(cleanup := |kids|))
    requires p.table != Load(h, p).data && p.table !in KidsFoot(h, Load(h, p).data, kids)
    ensures PartHolds(g, p, kids, size) && KidsFoot(g, Load(h, p).data, kids) == KidsFoot(h, Load(h, p).data, kids)
  {
    KidsStay(h, g, p, Load(h, p).data, kids);
  }
}
