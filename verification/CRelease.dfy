/**
 src/rewrite_c_runtime.cpp:630-656: releasing a value in the emitted C.  The loop goes down to the last child that
 is still owned and climbs by the parent links; it is proved against the tree it takes apart.
 */
module CRelease {
  import opened Kinds
  import opened Arena
  import opened ValueArenas
  import opened ValueBytes
  import opened CHeap
  import opened CTuples

  /** What the loop works on; `freed` lists the names given to the allocator, in order. */
  datatype RState = RState(heap: Heap, current: Ptr, live: nat, freed: seq<nat>)

  function Refunded(live: nat, bytes: nat): nat {
    if bytes <= live then live - bytes else live
  }

  function CellBytes(c: Cell): nat {
    match c.kind
    case CScalar => 0
    case CVector => c.count * Width(c.element)
    case CTuple => c.count * SLOT_BYTES
  }

  /** Free the cell's table or block; freeing the null pointer does nothing. */
  function FreeData(h: Heap, c: Cell): Heap {
    match c.kind
    case CScalar => h
    case CVector => h.(blocks := h.blocks - {c.data})
    case CTuple => h.(tables := h.tables - {c.data})
  }

  function FreedNames(c: Cell): seq<nat> {
    if c.kind == CScalar || c.data == 0 then [] else [c.data]
  }

  /** Only what is still there can be freed, and the cell itself outlives what it owns. */
  predicate Freeable(h: Heap, c: Cell, current: Ptr) {
    && (c.kind == CVector && c.data != 0 ==> c.data in h.blocks)
    && (c.kind == CTuple && c.data != 0 ==> c.data in h.tables)
    && Points(FreeData(h, c), current)
  }

  /** One iteration; a wild pointer or a wrong free would stop the loop for good. */
  function RStep(s: RState): RState {
    if !Points(s.heap, s.current) then s
    else
      var c := Load(s.heap, s.current);
      if c.kind == CTuple && c.cleanup != 0 then
        s.(heap := Store(s.heap, s.current, c.(cleanup := c.cleanup - 1)), current := At(c.data, c.cleanup - 1))
      else if !Freeable(s.heap, c, s.current) then s
      else RState(Store(FreeData(s.heap, c), s.current, ZERO), c.parent, Refunded(s.live, CellBytes(c)), s.freed + FreedNames(c))
  }

  function Run(s: RState, n: nat): RState {
    if n == 0 then s else RStep(Run(s, n - 1))
  }

  lemma {:induction false} RunAdd(s: RState, a: nat, b: nat)
    ensures Run(Run(s, a), b) == Run(s, a + b)
  {
    if b > 0 { RunAdd(s, a, b - 1); }
  }

  lemma {:induction false} Stuck(s: RState, n: nat)
    requires RStep(s) == s
    ensures Run(s, n) == s
  {
    if n > 0 { Stuck(s, n - 1); }
  }

  // ---------------------------------------------------------------- what a tree costs

  function Steps(t: ValueTree): nat
    decreases t
  {
    1 + (if t.tag == TupleBranch then KidSteps(t.kids) else 0)
  }

  function KidSteps(kids: seq<ValueTree>): nat
    decreases kids
  {
    if kids == [] then 0 else KidSteps(kids[..|kids| - 1]) + 1 + Steps(kids[|kids| - 1])
  }

  /** The names in the order in which they are freed: the last child first, each table after its children. */
  ghost function Order(h: Heap, p: Ptr, t: ValueTree): seq<nat>
    requires Points(h, p)
    decreases t
  {
    match t.tag
    case ScalarLeaf(_) => []
    case VectorLeaf(_, xs) => if xs == [] then [] else [Load(h, p).data]
    case TupleBranch => if t.kids == [] then [] else KidsOrder(h, Load(h, p).data, t.kids) + [Load(h, p).data]
  }

  ghost function KidsOrder(h: Heap, d: nat, kids: seq<ValueTree>): seq<nat>
    decreases kids
  {
    if kids == [] then []
    else
      var n := |kids| - 1;
      (if Points(h, At(d, n)) then Order(h, At(d, n), kids[n]) else []) + KidsOrder(h, d, kids[..n])
  }

  lemma {:induction false} OrderFrame(h: Heap, g: Heap, p: Ptr, t: ValueTree)
    requires Points(h, p) && Points(g, p) && Holds(h, p, t)
    requires SameValue(Load(g, p), Load(h, p)) && Same(h, g, Foot(h, p, t))
    ensures Order(g, p, t) == Order(h, p, t)
    decreases t, 1
  {
    if t.tag == TupleBranch && t.kids != [] {
      TupleParts(h, p, t);
      KidsOrderFrame(h, g, p, Load(h, p).data, t.kids);
    }
  }

  lemma {:induction false} KidsOrderFrame(h: Heap, g: Heap, p: Ptr, d: nat, kids: seq<ValueTree>)
    requires d in h.tables && d in g.tables && |kids| <= |h.tables[d]| && |kids| <= |g.tables[d]|
    requires forall k :: 0 <= k < |kids| ==> g.tables[d][k] == h.tables[d][k]
    requires KidsHold(h, p, d, kids) && Same(h, g, KidsFoot(h, d, kids))
    ensures KidsOrder(g, d, kids) == KidsOrder(h, d, kids)
    decreases kids, 0
  {
    if kids != [] {
      var n := |kids| - 1;
      KidsOrderFrame(h, g, p, d, kids[..n]);
      OrderFrame(h, g, At(d, n), kids[n]);
    }
  }

  /** The order lists every owned name exactly once. */
  lemma {:induction false} OrderOnce(h: Heap, p: Ptr, t: ValueTree)
    requires Points(h, p) && Holds(h, p, t)
    ensures Distinct(Order(h, p, t)) && forall x :: x in Order(h, p, t) <==> x in Foot(h, p, t)
    decreases t, 1
  {
    if t.tag == TupleBranch && t.kids != [] {
      var d := Load(h, p).data;
      TupleParts(h, p, t);
      KidsOrderOnce(h, p, d, t.kids);
      TableNotBelow(h, p, d, t.kids);
      DistinctJoin(KidsOrder(h, d, t.kids), [d]);
    }
  }

  lemma {:induction false} KidsOrderOnce(h: Heap, p: Ptr, d: nat, kids: seq<ValueTree>)
    requires KidsHold(h, p, d, kids)
    ensures Distinct(KidsOrder(h, d, kids)) && forall x :: x in KidsOrder(h, d, kids) <==> x in KidsFoot(h, d, kids)
    decreases kids, 0
  {
    if kids != [] {
      var n := |kids| - 1;
      KidsOrderOnce(h, p, d, kids[..n]);
      OrderOnce(h, At(d, n), kids[n]);
      DistinctJoin(Order(h, At(d, n), kids[n]), KidsOrder(h, d, kids[..n]));
    }
  }

  lemma DistinctJoin(a: seq<nat>, b: seq<nat>)
    requires Distinct(a) && Distinct(b) && forall x :: x in a ==> x !in b
    ensures Distinct(a + b)
  {
    forall i, j | 0 <= i < j < |a + b| ensures (a + b)[i] != (a + b)[j] {
      if i < |a| <= j { assert a[i] in a && b[j - |a|] in b; }
      else if j < |a| { assert a[i] != a[j]; }
      else { assert b[i - |a|] != b[j - |a|]; }
    }
  }

  // ---------------------------------------------------------------- the run

  ghost function Gone(h: Heap, ids: set<nat>): Heap {
    h.(tables := h.tables - ids, blocks := h.blocks - ids)
  }

  function Cleared(slots: seq<Cell>, n: nat): (r: seq<Cell>)
    requires n <= |slots|
    ensures |r| == |slots| && forall k :: 0 <= k < |slots| ==> r[k] == if k < n then ZERO else slots[k]
  {
    seq(|slots|, k requires 0 <= k < |slots| => if k < n then ZERO else slots[k])
  }

  /** The heap with the value at `p` gone and its cell cleared. */
  ghost function Released(h: Heap, p: Ptr, ids: set<nat>): Heap
    requires Points(h, p) && p.table !in ids
  {
    Store(Gone(h, ids), p, ZERO)
  }

  /** The heap after the children are gone: their slots are cleared and the clean-up index is back at zero. */
  ghost function KidsReleased(h: Heap, p: Ptr, d: nat, n: nat, ids: set<nat>): Heap
    requires Points(h, p) && p.table !in ids && p.table != d && d in h.tables && n <= |h.tables[d]|
  {
    Store(Gone(h.(tables := h.tables[d := Cleared(h.tables[d], n)]), ids), p, Load(h, p).(cleanup := 0))
  }

  predicate NoNull(h: Heap) {
    0 !in h.tables && 0 !in h.blocks
  }

  lemma {:induction false} ReleaseRun(h: Heap, p: Ptr, t: ValueTree, live: nat, freed: seq<nat>)
    requires Points(h, p) && Holds(h, p, t) && p.table !in Foot(h, p, t) && live >= TreeBytes(t) && NoNull(h)
    ensures Run(RState(h, p, live, freed), Steps(t))
         == RState(Released(h, p, Foot(h, p, t)), Load(h, p).parent, live - TreeBytes(t), freed + Order(h, p, t))
    decreases t, 3
  {
    if t.tag == TupleBranch {
      FullPartHolds(h, p, t.kids);
      assert t == Node(TupleBranch, t.kids);
      var d := Load(h, p).data;
      if t.kids == [] {
        EmptyTupleStep(h, p, 0, live, freed);
      } else {
        PartRun(h, p, t.kids, |t.kids|, live, freed);
      }
    } else {
      LeafStep(h, p, t, live, freed);
    }
  }

  lemma LeafStep(h: Heap, p: Ptr, t: ValueTree, live: nat, freed: seq<nat>)
    requires Points(h, p) && Holds(h, p, t) && t.tag != TupleBranch && p.table !in Foot(h, p, t) && live >= TreeBytes(t) && NoNull(h)
    ensures Run(RState(h, p, live, freed), Steps(t))
         == RState(Released(h, p, Foot(h, p, t)), Load(h, p).parent, live - TreeBytes(t), freed + Order(h, p, t))
  {
    var s := RState(h, p, live, freed);
    assert Run(s, 1) == RStep(Run(s, 0));
    assert h.tables - Foot(h, p, t) == h.tables && h.tables - {} == h.tables;
    assert h.blocks - {0} == h.blocks && h.blocks - {} == h.blocks;
    assert freed + [] == freed;
  }

  /** A tuple without slots, or a fan-out into which nothing was transferred. */
  lemma EmptyTupleStep(h: Heap, p: Ptr, size: nat, live: nat, freed: seq<nat>)
    requires Points(h, p) && PartHolds(h, p, [], size) && p.table !in PartFoot(h, p, []) && live >= size * SLOT_BYTES && NoNull(h)
    ensures Run(RState(h, p, live, freed), 1)
         == RState(Released(h, p, PartFoot(h, p, [])), Load(h, p).parent, live - size * SLOT_BYTES,
                   freed + (if size == 0 then [] else [Load(h, p).data]))
  {
    var s, c := RState(h, p, live, freed), Load(h, p);
    assert TableHolds(h, p, c.data, [], size);
    assert Run(s, 1) == RStep(Run(s, 0));
    assert h.tables - {0} == h.tables && h.tables - {} == h.tables && h.blocks - {} == h.blocks;
    assert h.blocks - {c.data} == h.blocks;
    assert freed + [] == freed;
  }

  /** The first iteration on a tuple goes down to its last child. */
  lemma DescendStep(h: Heap, p: Ptr, d: nat, kids: seq<ValueTree>, live: nat, freed: seq<nat>)
    requires Points(h, p) && kids != [] && KidsReady(h, p, d, kids)
    ensures var n := |kids| - 1;
            var h1 := Store(h, p, Load(h, p).(cleanup := n));
            && RStep(RState(h, p, live, freed)) == RState(h1, At(d, n), live, freed)
            && Points(h1, At(d, n)) && Holds(h1, At(d, n), kids[n]) && Foot(h1, At(d, n), kids[n]) == Foot(h, At(d, n), kids[n])
            && Order(h1, At(d, n), kids[n]) == Order(h, At(d, n), kids[n])
            && Load(h1, At(d, n)).parent == p && d !in Foot(h, At(d, n), kids[n])
            && p.table !in Foot(h, At(d, n), kids[n])
  {
    var n := |kids| - 1;
    var h1 := Store(h, p, Load(h, p).(cleanup := n));
    KidsFootHas(h, d, kids, n);
    HoldsFrame(h, h1, At(d, n), kids[n]);
    OrderFrame(h, h1, At(d, n), kids[n]);
  }

  /** The loop stands at a tuple cell whose children are all still there. */
  ghost predicate KidsReady(h: Heap, p: Ptr, d: nat, kids: seq<ValueTree>) {
    && Points(h, p) && Load(h, p).kind == CTuple && Load(h, p).data == d && Load(h, p).cleanup == |kids|
    && d in h.tables && |kids| <= |h.tables[d]| && d !in h.blocks && p.table != d
    && KidsHold(h, p, d, kids) && p.table !in KidsFoot(h, d, kids) && d !in KidsFoot(h, d, kids)
  }

  /** After one child is gone the loop stands at the tuple again, with one child less. */
  lemma ChildGone(h: Heap, p: Ptr, d: nat, kids: seq<ValueTree>)
    requires Points(h, p) && kids != [] && KidsReady(h, p, d, kids)
    ensures var n := |kids| - 1;
            var h1 := Store(h, p, Load(h, p).(cleanup := n));
            && Points(h1, At(d, n)) && d !in Foot(h, At(d, n), kids[n])
            && var h2 := Released(h1, At(d, n), Foot(h, At(d, n), kids[n]));
               && KidsReady(h2, p, d, kids[..n])
               && KidsFoot(h2, d, kids[..n]) == KidsFoot(h, d, kids[..n])
               && KidsOrder(h2, d, kids[..n]) == KidsOrder(h, d, kids[..n])
               && Load(h2, p) == Load(h, p).(cleanup := n)
  {
    var n := |kids| - 1;
    var gone := Foot(h, At(d, n), kids[n]);
    var h2 := Released(Store(h, p, Load(h, p).(cleanup := n)), At(d, n), gone);
    KidsFootHas(h, d, kids, n);
    assert KidsFoot(h, d, kids[..n]) <= KidsFoot(h, d, kids);
    assert Same(h, h2, KidsFoot(h, d, kids[..n]));
    KidsStay(h, h2, p, d, kids[..n]);
    KidsOrderFrame(h, h2, p, d, kids[..n]);
  }

  /** The heaps left by releasing the last child and then the others, put together. */
  lemma JoinReleased(h: Heap, p: Ptr, d: nat, kids: seq<ValueTree>)
    requires Points(h, p) && kids != [] && KidsReady(h, p, d, kids)
    requires var n := |kids| - 1;
             var h1 := Store(h, p, Load(h, p).(cleanup := n));
             && Points(h1, At(d, n)) && d !in Foot(h, At(d, n), kids[n])
             && var h2 := Released(h1, At(d, n), Foot(h, At(d, n), kids[n]));
                KidsReady(h2, p, d, kids[..n]) && KidsFoot(h2, d, kids[..n]) == KidsFoot(h, d, kids[..n])
    ensures var n := |kids| - 1;
            var h2 := Released(Store(h, p, Load(h, p).(cleanup := n)), At(d, n), Foot(h, At(d, n), kids[n]));
            KidsReleased(h2, p, d, n, KidsFoot(h2, d, kids[..n])) == KidsReleased(h, p, d, |kids|, KidsFoot(h, d, kids))
  {
    var n := |kids| - 1;
    var gone, rest := Foot(h, At(d, n), kids[n]), KidsFoot(h, d, kids[..n]);
    var h2 := Released(Store(h, p, Load(h, p).(cleanup := n)), At(d, n), gone);
    assert KidsFoot(h, d, kids) == rest + gone;
    var a, b := KidsReleased(h2, p, d, n, rest), KidsReleased(h, p, d, |kids|, KidsFoot(h, d, kids));
    assert a.blocks == b.blocks;
    assert Cleared(h2.tables[d], n) == Cleared(h.tables[d], |kids|);
    assert a.tables.Keys == b.tables.Keys;
    forall id | id in a.tables ensures a.tables[id] == b.tables[id] {
      if id == p.table {
        assert a.tables[id] == b.tables[id];
      }
    }
    assert a.tables == b.tables;
  }

  lemma RunChain(s: RState, a: nat, s1: RState, b: nat, s2: RState)
    requires Run(s, a) == s1 && Run(s1, b) == s2
    ensures Run(s, a + b) == s2
  {
    RunAdd(s, a, b);
  }

  lemma RunOnce(s: RState)
    ensures Run(s, 1) == RStep(s)
  {
    assert Run(s, 1) == RStep(Run(s, 0));
  }

  lemma NoKidsRun(h: Heap, p: Ptr, d: nat, live: nat, freed: seq<nat>)
    requires Points(h, p) && KidsReady(h, p, d, [])
    ensures Run(RState(h, p, live, freed), KidSteps([]))
         == RState(KidsReleased(h, p, d, 0, KidsFoot(h, d, [])), p, live - KidsBytes([]), freed + KidsOrder(h, d, []))
  {
    assert Cleared(h.tables[d], 0) == h.tables[d];
    assert h.tables[d := h.tables[d]] == h.tables && Gone(h, {}) == h;
    assert h.tables[p.table][p.index := Load(h, p)] == h.tables[p.table];
    assert h.tables[p.table := h.tables[p.table]] == h.tables;
    assert freed + [] == freed;
  }

  /** One child: down to it, and back up with its tree gone. */
  lemma OneKidRun(h: Heap, p: Ptr, d: nat, kids: seq<ValueTree>, live: nat, freed: seq<nat>)
    requires Points(h, p) && kids != [] && KidsReady(h, p, d, kids) && live >= TreeBytes(kids[|kids| - 1]) && NoNull(h)
    ensures var n := |kids| - 1;
            var h1 := Store(h, p, Load(h, p).(cleanup := n));
            && Points(h, At(d, n)) && Points(h1, At(d, n)) && d !in Foot(h, At(d, n), kids[n])
            && NoNull(Released(h1, At(d, n), Foot(h, At(d, n), kids[n])))
            && Run(RState(h, p, live, freed), 1 + Steps(kids[n]))
            == RState(Released(h1, At(d, n), Foot(h, At(d, n), kids[n])), p, live - TreeBytes(kids[n]), freed + Order(h, At(d, n), kids[n]))
    decreases kids, 0
  {
    var n := |kids| - 1;
    var h1 := Store(h, p, Load(h, p).(cleanup := n));
    DescendStep(h, p, d, kids, live, freed);
    KidOf(h, p, d, kids, n);
    RunOnce(RState(h, p, live, freed));
    assert NoNull(h1) && NoNull(Released(h1, At(d, n), Foot(h, At(d, n), kids[n])));
    hide KidsReady, Holds, Foot, Order, Run, Steps, TreeBytes, Released, KidsHold, RStep;
    ReleaseRun(h1, At(d, n), kids[n], live, freed);
    RunChain(RState(h, p, live, freed), 1, RState(h1, At(d, n), live, freed), Steps(kids[n]),
             RState(Released(h1, At(d, n), Foot(h, At(d, n), kids[n])), p, live - TreeBytes(kids[n]), freed + Order(h, At(d, n), kids[n])));
  }

  lemma LastKid(h: Heap, p: Ptr, d: nat, kids: seq<ValueTree>)
    requires KidsReady(h, p, d, kids) && kids != []
    ensures Points(h, At(d, |kids| - 1)) && p.table != d && p.table !in KidsFoot(h, d, kids) && d in h.tables && |kids| <= |h.tables[d]|
  {
    KidOf(h, p, d, kids, |kids| - 1);
  }

  lemma SumsSnoc(h: Heap, d: nat, kids: seq<ValueTree>, freed: seq<nat>)
    requires kids != [] && Points(h, At(d, |kids| - 1))
    ensures var n := |kids| - 1;
            && KidSteps(kids) == 1 + Steps(kids[n]) + KidSteps(kids[..n])
            && KidsBytes(kids) == TreeBytes(kids[n]) + KidsBytes(kids[..n])
            && freed + KidsOrder(h, d, kids) == freed + Order(h, At(d, n), kids[n]) + KidsOrder(h, d, kids[..n])
  {
    var n := |kids| - 1;
    assert freed + (Order(h, At(d, n), kids[n]) + KidsOrder(h, d, kids[..n])) == freed + Order(h, At(d, n), kids[n]) + KidsOrder(h, d, kids[..n]);
  }

  lemma {:induction false} KidsRun(h: Heap, p: Ptr, d: nat, kids: seq<ValueTree>, live: nat, freed: seq<nat>)
    requires Points(h, p) && KidsReady(h, p, d, kids) && live >= KidsBytes(kids) && NoNull(h)
    ensures Run(RState(h, p, live, freed), KidSteps(kids))
         == RState(KidsReleased(h, p, d, |kids|, KidsFoot(h, d, kids)), p, live - KidsBytes(kids), freed + KidsOrder(h, d, kids))
    decreases kids, 1
  {
    hide *;
    if kids == [] {
      NoKidsRun(h, p, d, live, freed);
    } else {
      var n := |kids| - 1;
      var q := At(d, n);
      LastKid(h, p, d, kids);
      ChildGone(h, p, d, kids);
      JoinReleased(h, p, d, kids);
      SumsSnoc(h, d, kids, freed);
      OneKidRun(h, p, d, kids, live, freed);
      var h1 := Store(h, p, Load(h, p).(cleanup := n));
      var h2 := Released(h1, q, Foot(h, q, kids[n]));
      var live2, freed2 := live - TreeBytes(kids[n]), freed + Order(h, q, kids[n]);
      KidsRun(h2, p, d, kids[..n], live2, freed2);
      RunChain(RState(h, p, live, freed), 1 + Steps(kids[n]), RState(h2, p, live2, freed2), KidSteps(kids[..n]),
               RState(KidsReleased(h, p, d, |kids|, KidsFoot(h, d, kids)), p, live - KidsBytes(kids), freed + KidsOrder(h, d, kids)));
    }
  }

  lemma FreeTable(h: Heap, p: Ptr, d: nat, n: nat, ids: set<nat>)
    requires Points(h, p) && p.table !in ids && p.table != d && d in h.tables && n <= |h.tables[d]| && d !in ids && d !in h.blocks
    requires Load(h, p).kind == CTuple && Load(h, p).data == d
    ensures var g := KidsReleased(h, p, d, n, ids);
            && Points(g, p) && Load(g, p) == Load(h, p).(cleanup := 0)
            && Freeable(g, Load(g, p), p)
            && Store(FreeData(g, Load(g, p)), p, ZERO) == Released(h, p, {d} + ids)
  {
    var g := KidsReleased(h, p, d, n, ids);
    assert Load(g, p) == Load(h, p).(cleanup := 0);
    var a, b := Store(FreeData(g, Load(g, p)), p, ZERO), Released(h, p, {d} + ids);
    assert a.tables.Keys == b.tables.Keys;
    assert a.tables[p.table] == b.tables[p.table];
    forall id | id in a.tables ensures a.tables[id] == b.tables[id] {}
    assert a.tables == b.tables;
    assert a.blocks == b.blocks;
  }

  /** The last iteration on a tuple frees its table. */
  lemma TableGone(h: Heap, p: Ptr, d: nat, n: nat, ids: set<nat>, size: nat, live: nat, freed: seq<nat>)
    requires Points(h, p) && p.table !in ids && p.table != d && d in h.tables && n <= |h.tables[d]| && d !in ids && d !in h.blocks && d != 0
    requires Load(h, p).kind == CTuple && Load(h, p).data == d && Load(h, p).count == size && live >= size * SLOT_BYTES
    ensures RStep(RState(KidsReleased(h, p, d, n, ids), p, live, freed))
         == RState(Released(h, p, {d} + ids), Load(h, p).parent, live - size * SLOT_BYTES, freed + [d])
  {
    FreeTable(h, p, d, n, ids);
    hide Released, KidsReleased, FreeData;
  }

  /**
   A tuple of `size` slots that owns `kids`, a fan-out that is partly filled included: every name it owns is freed
   once, exactly its bytes come off, and the loop ends at the parent.
   */
  lemma {:induction false} PartRun(h: Heap, p: Ptr, kids: seq<ValueTree>, size: nat, live: nat, freed: seq<nat>)
    requires Points(h, p) && PartHolds(h, p, kids, size) && size > 0 && p.table !in PartFoot(h, p, kids) && NoNull(h)
    requires live >= KidsBytes(kids) + size * SLOT_BYTES
    ensures Run(RState(h, p, live, freed), KidSteps(kids) + 1)
         == RState(Released(h, p, PartFoot(h, p, kids)), Load(h, p).parent, live - KidsBytes(kids) - size * SLOT_BYTES,
                   freed + KidsOrder(h, Load(h, p).data, kids) + [Load(h, p).data])
    decreases kids, 2
  {
    var d := Load(h, p).data;
    PartIsReady(h, p, kids, size);
    assert PartFoot(h, p, kids) == {d} + KidsFoot(h, d, kids);
    var ids := KidsFoot(h, d, kids);
    KidsRun(h, p, d, kids, live, freed);
    TableGone(h, p, d, |kids|, ids, size, live - KidsBytes(kids), freed + KidsOrder(h, d, kids));
    hide Run, RStep, KidsReleased, Released, KidsFoot, KidsOrder, KidSteps, KidsBytes, PartHolds, KidsReady;
    RunOnce(RState(KidsReleased(h, p, d, |kids|, ids), p, live - KidsBytes(kids), freed + KidsOrder(h, d, kids)));
    RunChain(RState(h, p, live, freed), KidSteps(kids), RState(KidsReleased(h, p, d, |kids|, ids), p, live - KidsBytes(kids), freed + KidsOrder(h, d, kids)),
             1, RState(Released(h, p, {d} + ids), Load(h, p).parent, live - KidsBytes(kids) - size * SLOT_BYTES, freed + KidsOrder(h, d, kids) + [d]));
  }

  lemma PartIsReady(h: Heap, p: Ptr, kids: seq<ValueTree>, size: nat)
    requires Points(h, p) && PartHolds(h, p, kids, size) && size > 0 && p.table !in PartFoot(h, p, kids)
    ensures KidsReady(h, p, Load(h, p).data, kids) && Load(h, p).count == size && Load(h, p).data != 0
  {
    assert TableHolds(h, p, Load(h, p).data, kids, size);
    TableNotBelow(h, p, Load(h, p).data, kids);
  }

  // ---------------------------------------------------------------- the loop

  lemma StillGoing(s: RState, i: nat, total: nat)
    requires i <= total && Run(s, total).current == Null && Run(s, i).current != Null
    ensures i < total && Points(Run(s, i).heap, Run(s, i).current)
    ensures var now := Run(s, i);
            var c := Load(now.heap, now.current);
            (c.kind == CTuple && c.cleanup != 0) || Freeable(now.heap, c, now.current)
  {
    var now := Run(s, i);
    if RStep(now) == now {
      Stuck(now, total - i);
      RunAdd(s, i, total - i);
    }
  }

  lemma NoMore(s: RState, i: nat, total: nat)
    requires i <= total && Run(s, i).current == Null
    ensures Run(s, total) == Run(s, i)
  {
    Stuck(Run(s, i), total - i);
    RunAdd(s, i, total - i);
  }

  /** src/rewrite_c_runtime.cpp:630-656. */
  method ReleaseLoop(prog: CProgram, value: Ptr, ghost total: nat) returns (freed: seq<nat>)
    requires Run(RState(prog.heap, value, prog.resources.live, []), total).current == Null
    modifies prog`heap, prog.resources`live
    ensures RState(prog.heap, Null, prog.resources.live, freed) == Run(RState(old(prog.heap), value, old(prog.resources.live), []), total)
  {
    ghost var start := RState(prog.heap, value, prog.resources.live, []);
    var current := value;
    freed := [];
    ghost var i := 0;
    while current != Null
      invariant i <= total && RState(prog.heap, current, prog.resources.live, freed) == Run(start, i)
      decreases total - i
    {
      StillGoing(start, i, total);
      assert Run(start, i + 1) == RStep(Run(start, i));
      var c := Load(prog.heap, current);
      i := i + 1;
      if c.kind == CTuple && c.cleanup != 0 {
        prog.heap := Store(prog.heap, current, c.(cleanup := c.cleanup - 1));
        current := At(c.data, c.cleanup - 1);
        continue;
      }
      if c.kind != CScalar {
        var bytes := if c.kind == CVector then c.count * Width(c.element) else c.count * SLOT_BYTES;
        if bytes <= prog.resources.live {
          prog.resources.live := prog.resources.live - bytes;
        }
        freed := freed + FreedNames(c);
        prog.heap := FreeData(prog.heap, c);
      }
      prog.heap := Store(prog.heap, current, ZERO);
      current := c.parent;
    }
    NoMore(start, i, total);
  }

  /**
   Releasing a root: the loop terminates, every table and every vector block of the value is freed exactly once,
   exactly its bytes come off the ledger, and nothing else in the heap changes.
   */
  method Release(prog: CProgram, value: Ptr, ghost t: ValueTree) returns (freed: seq<nat>)
    requires Points(prog.heap, value) && Holds(prog.heap, value, t) && Load(prog.heap, value).parent == Null
    requires value.table !in Foot(prog.heap, value, t) && NoNull(prog.heap) && prog.resources.live >= TreeBytes(t)
    modifies prog`heap, prog.resources`live
    ensures prog.heap == Released(old(prog.heap), value, Foot(old(prog.heap), value, t))
    ensures prog.resources.live == old(prog.resources.live) - TreeBytes(t)
    ensures Distinct(freed) && forall x :: x in freed <==> x in Foot(old(prog.heap), value, t)
  {
    hide *;
    ghost var h := prog.heap;
    ReleaseRun(h, value, t, prog.resources.live, []);
    OrderOnce(h, value, t);
    assert [] + Order(h, value, t) == Order(h, value, t);
    freed := ReleaseLoop(prog, value, Steps(t));
  }

  /** Releasing a fan-out after any number of transfers, as when a later branch fails. */
  method ReleaseFanout(prog: CProgram, value: Ptr, ghost kids: seq<ValueTree>, ghost size: nat) returns (freed: seq<nat>)
    requires Points(prog.heap, value) && PartHolds(prog.heap, value, kids, size) && Load(prog.heap, value).parent == Null
    requires value.table !in PartFoot(prog.heap, value, kids) && NoNull(prog.heap)
    requires prog.resources.live >= KidsBytes(kids) + size * SLOT_BYTES
    modifies prog`heap, prog.resources`live
    ensures prog.heap == Released(old(prog.heap), value, PartFoot(old(prog.heap), value, kids))
    ensures prog.resources.live == old(prog.resources.live) - KidsBytes(kids) - size * SLOT_BYTES
    ensures Distinct(freed) && forall x :: x in freed <==> x in PartFoot(old(prog.heap), value, kids)
  {
    hide *;
    ghost var h := prog.heap;
    PartGoes(h, value, kids, size, prog.resources.live);
    PartOrderOnce(h, value, kids, size);
    freed := ReleaseLoop(prog, value, KidSteps(kids) + 1);
  }

  /** A tuple of no slots is freed in one step, with nothing to free. */
  ghost function PartOrder(h: Heap, p: Ptr, kids: seq<ValueTree>, size: nat): seq<nat>
    requires Points(h, p)
  {
    if size == 0 then [] else KidsOrder(h, Load(h, p).data, kids) + [Load(h, p).data]
  }

  lemma PartGoes(h: Heap, p: Ptr, kids: seq<ValueTree>, size: nat, live: nat)
    requires Points(h, p) && PartHolds(h, p, kids, size) && p.table !in PartFoot(h, p, kids) && NoNull(h)
    requires live >= KidsBytes(kids) + size * SLOT_BYTES
    ensures Run(RState(h, p, live, []), KidSteps(kids) + 1)
         == RState(Released(h, p, PartFoot(h, p, kids)), Load(h, p).parent, live - KidsBytes(kids) - size * SLOT_BYTES, PartOrder(h, p, kids, size))
  {
    if size == 0 {
      NoSlots(h, p, kids);
      ReleaseRun(h, p, Node(TupleBranch, []), live, []);
    } else {
      PartRun(h, p, kids, size, live, []);
      assert [] + KidsOrder(h, Load(h, p).data, kids) == KidsOrder(h, Load(h, p).data, kids);
    }
    hide Run, RStep, PartHolds, PartFoot, Foot, Released, KidsOrder, KidsBytes;
  }

  lemma NoSlots(h: Heap, p: Ptr, kids: seq<ValueTree>)
    requires Points(h, p) && PartHolds(h, p, kids, 0)
    ensures kids == [] && Holds(h, p, Node(TupleBranch, [])) && Foot(h, p, Node(TupleBranch, [])) == PartFoot(h, p, kids) == {}
    ensures TreeBytes(Node(TupleBranch, [])) == KidsBytes(kids) == 0
    ensures Steps(Node(TupleBranch, [])) == KidSteps(kids) + 1 && Order(h, p, Node(TupleBranch, [])) == []
  {
  }

  lemma PartOrderOnce(h: Heap, p: Ptr, kids: seq<ValueTree>, size: nat)
    requires Points(h, p) && PartHolds(h, p, kids, size) && p.table !in PartFoot(h, p, kids)
    ensures var order := PartOrder(h, p, kids, size);
            Distinct(order) && forall x :: x in order <==> x in PartFoot(h, p, kids)
  {
    if size == 0 {
      NoSlots(h, p, kids);
    } else {
      var d := Load(h, p).data;
      PartIsReady(h, p, kids, size);
      KidsOrderOnce(h, p, d, kids);
      DistinctJoin(KidsOrder(h, d, kids), [d]);
    }
  }
}
