/**
 src/resources.cpp:2104-2640: a tuple whose tables are all allocated before its elements exist.  Elements are
 transferred one by one into fixed slots; publishing fills the tables and cannot fail once every capacity is used.
 */
module Preadmit {
  import opened Kinds
  import opened Arena
  import opened HostStorage
  import opened AccountRelease
  import opened ValueArenas
  import opened ValueElements
  import opened ValueAppend
  import opened ValueBuild
  import opened Resources
  import opened ValueTuple
  import opened PublishTables

  // ---------------------------------------------------------------- layout

  predicate RangeOk(first: nat, count: nat, edgeCount: nat) {
    first <= edgeCount && count <= edgeCount - first
  }

  ghost predicate NodeLayoutOk(t: TupleValue, i: nat)
    requires i < |t.nodes|
  {
    var n := t.nodes[i];
    match n.container
    case TupleC =>
      && RangeOk(n.firstChild, n.childCount, |t.childIndexes|) && n.reservation < |t.reservations|
      && forall k :: n.firstChild <= k < n.firstChild + n.childCount ==> t.childIndexes[k] < i
    case VectorC => n.payload < |t.payloads|
    case ScalarC => true
    case UnknownC => false
  }

  /** src/resources.cpp:2329-2385. */
  ghost predicate LayoutSafe(e: Value) {
    e.TupleV? ==>
      var t := e.tuple;
      && t.rootIndex == |t.nodes|
      && RangeOk(t.firstChild, t.childCount, |t.childIndexes|)
      && (forall i: nat :: i < |t.nodes| ==> NodeLayoutOk(t, i))
      && (forall k :: t.firstChild <= k < t.firstChild + t.childCount ==> t.childIndexes[k] < |t.nodes|)
  }

  /** No valid element is ever refused for its layout. */
  lemma ValidIsLayoutSafe(buffers: seq<HostBuffer>, owners: set<nat>, e: Value)
    requires ValidElementValue(buffers, owners, e)
    ensures LayoutSafe(e)
  {
    if e.TupleV? {
      var t, s := e.tuple, TableOf(e.tuple);
      forall i: nat, k | i < NodeCount(t) && InSpan(SpanOf(t, i), k) ensures t.childIndexes[k] < i {
        assert s.spans[i] == SpanOf(t, i) && s.edges[k] < i;
      }
      forall i: nat | i < |t.nodes| ensures NodeLayoutOk(t, i) {
        assert NodeFieldsOk(t, i) && SlotExists(t, SlotOf(t, i)) && SpanOf(t, i) == s.spans[i];
        assert SpanInRange(s, i);
      }
      assert SpanOf(t, |t.nodes|) == s.spans[|t.nodes|] && SpanInRange(s, |t.nodes|);
      forall k | t.firstChild <= k < t.firstChild + t.childCount ensures t.childIndexes[k] < |t.nodes| {
        assert InSpan(SpanOf(t, |t.nodes|), k);
      }
    }
  }

  method CheckNode(t: TupleValue, i: nat) returns (ok: bool)
    requires i < |t.nodes|
    ensures ok <==> NodeLayoutOk(t, i)
  {
    var n := t.nodes[i];
    if n.container == TupleC {
      if !RangeOk(n.firstChild, n.childCount, |t.childIndexes|) || n.reservation >= |t.reservations| {
        return false;
      }
      for k := n.firstChild to n.firstChild + n.childCount
        invariant forall j :: n.firstChild <= j < k ==> t.childIndexes[j] < i
      {
        if t.childIndexes[k] >= i {
          return false;
        }
      }
      return true;
    }
    if n.container == VectorC {
      return n.payload < |t.payloads|;
    }
    return n.container == ScalarC;
  }

  method CheckLayout(e: Value) returns (ok: bool)
    ensures ok <==> LayoutSafe(e)
  {
    if !e.TupleV? {
      return true;
    }
    var t := e.tuple;
    if t.rootIndex != |t.nodes| || !RangeOk(t.firstChild, t.childCount, |t.childIndexes|) {
      return false;
    }
    for i := 0 to |t.nodes|
      invariant forall j: nat :: j < i ==> NodeLayoutOk(t, j)
    {
      var sound := CheckNode(t, i);
      if !sound {
        return false;
      }
    }
    for k := t.firstChild to t.firstChild + t.childCount
      invariant forall j :: t.firstChild <= j < k ==> t.childIndexes[j] < |t.nodes|
    {
      if t.childIndexes[k] >= |t.nodes| {
        return false;
      }
    }
    ok := true;
  }

  /** src/resources.cpp:2387-2414: what one element takes up. */
  function SizesOf(e: Value): Capacity {
    Capacity(CountOf(e), |ShapeOfElement(e).edges|, |PayloadsOf(e)|, |ReservationsOf(e)|)
  }

  function Plus(a: Capacity, b: Capacity): Capacity {
    Capacity(a.nodes + b.nodes, a.edges + b.edges, a.payloads + b.payloads, a.reservations + b.reservations)
  }

  lemma TotalsSnoc(slots: seq<Value>, e: Value)
    ensures TotalsOf(slots + [e]) == Plus(TotalsOf(slots), SizesOf(e))
  {
    ValueTuple.TotalsStep(slots + [e], |slots|);
    assert (slots + [e])[..|slots|] == slots && (slots + [e])[..|slots| + 1] == slots + [e];
  }

  function Values(slots: seq<Option<Value>>): (r: seq<Value>)
    requires forall k :: 0 <= k < |slots| ==> slots[k].Some?
    ensures |r| == |slots| && forall k :: 0 <= k < |slots| ==> r[k] == slots[k].value
  {
    seq(|slots|, k requires 0 <= k < |slots| => slots[k].value)
  }

  // ---------------------------------------------------------------- writing behind a cursor

  method WriteAll<T>(a: array<T>, at: nat, xs: seq<T>)
    requires at + |xs| <= a.Length
    modifies a
    ensures a[..at + |xs|] == old(a[..at]) + xs
    ensures a[at + |xs|..] == old(a[at + |xs|..])
  {
    for k := 0 to |xs|
      invariant a[..at + k] == old(a[..at]) + xs[..k]
      invariant a[at + k..] == old(a[at + k..])
    {
      a[at + k] := xs[k];
      assert a[..at + k + 1] == a[..at + k] + [xs[k]];
    }
  }

  function MovedNodes(source: seq<ValueNode>, at: Offsets): (r: seq<ValueNode>)
    ensures |r| == |source| && forall j :: 0 <= j < |source| ==> r[j] == MovedNode(source[j], at)
  {
    seq(|source|, j requires 0 <= j < |source| => MovedNode(source[j], at))
  }

  method WriteNodes(a: array<ValueNode>, cursor: nat, source: seq<ValueNode>, at: Offsets)
    requires cursor + |source| <= a.Length
    modifies a
    ensures a[..cursor + |source|] == old(a[..cursor]) + MovedNodes(source, at)
  {
    for k := 0 to |source|
      invariant a[..cursor + k] == old(a[..cursor]) + MovedNodes(source, at)[..k]
    {
      var n := source[k];
      if n.container == TupleC {
        n := n.(firstChild := n.firstChild + at.edges, reservation := n.reservation + at.reservations);
      } else if n.container == VectorC {
        n := n.(payload := n.payload + at.payloads);
      }
      a[cursor + k] := n;
      assert a[..cursor + k + 1] == a[..cursor + k] + [n];
    }
  }

  method WriteEdges(a: array<nat>, cursor: nat, source: seq<nat>, offset: nat)
    requires cursor + |source| <= a.Length
    modifies a
    ensures a[..cursor + |source|] == old(a[..cursor]) + MovedEdges(source, offset)
    ensures a[cursor + |source|..] == old(a[cursor + |source|..])
  {
    for k := 0 to |source|
      invariant a[..cursor + k] == old(a[..cursor]) + MovedEdges(source, offset)[..k]
      invariant a[cursor + k..] == old(a[cursor + k..])
    {
      a[cursor + k] := source[k] + offset;
      assert a[..cursor + k + 1] == a[..cursor + k] + [source[k] + offset];
    }
  }

  function SizesOfTables(a: TupleValue): Capacity {
    Capacity(|a.nodes|, |a.childIndexes|, |a.payloads|, |a.reservations|)
  }

  lemma AppendSlotSizes(a: TupleValue, e: Value)
    ensures SizesOfTables(AppendSlot(a, e)) == Plus(SizesOfTables(a), SizesOf(e))
  {
  }

  lemma TupleTables(a: TupleValue, t: TupleValue)
    ensures AppendSlot(a, TupleV(t)) ==
            a.(nodes := a.nodes + MovedNodes(t.nodes, OffsetsOf(a))
                        + [ValueNode(TupleC, EMPTY_SCALAR, t.firstChild + |a.childIndexes|, t.childCount, |a.reservations| + |t.reservations|, 0)],
               childIndexes := a.childIndexes + MovedEdges(t.childIndexes, |a.nodes|),
               payloads := a.payloads + t.payloads,
               reservations := a.reservations + t.reservations + [t.rootReservation])
  {
    var e, at := TupleV(t), OffsetsOf(a);
    assert NodesOf(e, at) == MovedNodes(t.nodes, at) + [NodeOf(e, |t.nodes|, at)];
    assert a.nodes + NodesOf(e, at) == a.nodes + MovedNodes(t.nodes, at) + [NodeOf(e, |t.nodes|, at)];
    assert a.reservations + ReservationsOf(e) == a.reservations + t.reservations + [t.rootReservation];
  }

  lemma LeafTables(a: TupleValue, e: Value)
    requires !e.TupleV?
    ensures AppendSlot(a, e) ==
            a.(nodes := a.nodes + [if e.ScalarV? then ValueNode(ScalarC, e.scalar, 0, 0, 0, |a.payloads|)
                                   else ValueNode(VectorC, EMPTY_SCALAR, 0, 0, 0, |a.payloads|)],
               payloads := a.payloads + PayloadsOf(e))
  {
    LeafAppended(a, e);
  }

  lemma SlotTablesStep(slots: seq<Value>, k: nat)
    requires k < |slots|
    ensures SlotTables(slots[..k + 1]) == AppendSlot(SlotTables(slots[..k]), slots[k])
    ensures BuildRoots(slots[..k + 1]) == BuildRoots(slots[..k]) + [|SlotTables(slots[..k + 1]).nodes| - 1]
    ensures SizesOfTables(SlotTables(slots[..k])) == TotalsOf(slots[..k]) && SizesOfTables(SlotTables(slots[..k + 1])) == TotalsOf(slots[..k + 1])
    ensures FitsIn(TotalsOf(slots[..k + 1]), TotalsOf(slots))
  {
    assert slots[..k + 1] == slots[..k] + [slots[k]];
    hide SlotTables, Build, BuildRoots, AppendSlot, AppendValue;
    SlotSnoc(slots[..k], slots[k]);
    BuildSnoc(slots[..k], slots[k]);
    SlotTablesAgree(slots[..k]);
    SlotTablesAgree(slots[..k + 1]);
    TotalsGrow(slots, k + 1);
  }

  class PreadmittedTuple {
    const nodes: array<ValueNode>
    const edges: array<nat>
    const payloads: array<Payload>
    const reservations: array<Reservation>
    const slots: array<Option<Value>>
    var root: Reservation
    var claimed: bool
    var elementCount: nat
    var transferred: nat
    var counts: Capacity

    /** src/resources.cpp:2168-2261: the tables are full of blanks from the start, so that every index exists. */
    constructor (elementCount: nat, cap: Capacity, root: Reservation)
      requires cap.edges >= elementCount
      ensures Valid() && claimed && this.root == root && this.elementCount == elementCount && transferred == 0
      ensures Room() == cap.(edges := cap.edges - elementCount)
      ensures fresh(nodes) && fresh(edges) && fresh(payloads) && fresh(reservations) && fresh(slots)
    {
      nodes := new ValueNode[cap.nodes](_ => ValueNode(ScalarC, EMPTY_SCALAR, 0, 0, 0, 0));
      edges := new nat[cap.edges](_ => 0);
      payloads := new Payload[cap.payloads](_ => Payload(Boolean, [], EMPTY_ACCOUNT));
      reservations := new Reservation[cap.reservations](_ => NO_RESERVATION);
      slots := new Option<Value>[elementCount](_ => None);
      this.root, this.claimed, this.elementCount, this.transferred, this.counts := root, true, elementCount, 0, Capacity(0, 0, 0, 0);
    }

    /** Capacities for the elements; one edge per slot is kept for the root. */
    function Room(): Capacity
      requires edges.Length >= elementCount
      reads this
    {
      Capacity(nodes.Length, edges.Length - elementCount, payloads.Length, reservations.Length)
    }

    ghost predicate Valid()
      reads this, slots
    {
      claimed ==>
        && slots.Length == elementCount && edges.Length >= elementCount && transferred <= elementCount
        && (forall k :: 0 <= k < transferred ==> slots[k].Some? && LayoutSafe(slots[k].value))
        && counts == TotalsOf(Filled())
        && FitsIn(counts, Room())
    }

    /** The elements transferred so far. */
    ghost function Filled(): (r: seq<Value>)
      requires transferred <= slots.Length && forall k :: 0 <= k < transferred ==> slots[k].Some?
      reads this, slots
      ensures |r| == transferred
    {
      Values(slots[..transferred])
    }

    /** Everything a transfer into the next slot needs. */
    ghost predicate Takes(e: Option<Value>)
      requires edges.Length >= elementCount
      reads this
    {
      transferred < elementCount && e.Some? && LayoutSafe(e.value) && FitsIn(Plus(counts, SizesOf(e.value)), Room())
    }

    /**
     src/resources.cpp:2458-2505.  The element is moved out of its place exactly when it is accepted; a refused
     transfer changes nothing.
     */
    method Transfer(e: Option<Value>) returns (ok: bool, e': Option<Value>)
      requires Valid()
      modifies this`transferred, this`counts, slots
      ensures Valid()
      ensures ok <==> old(claimed && Takes(e))
      ensures ok ==> e' == None && transferred == old(transferred) + 1 && Filled() == old(Filled()) + [e.value]
      ensures !ok ==> e' == e && transferred == old(transferred) && counts == old(counts) && slots[..] == old(slots[..])
    {
      hide TotalsOf, SizesOf, LayoutSafe;
      if !claimed || transferred == elementCount || e == None {
        return false, e;
      }
      var safe := CheckLayout(e.value);
      if !safe {
        return false, e;
      }
      var size, room := SizesOf(e.value), Room();
      if size.nodes > room.nodes - counts.nodes || size.edges > room.edges - counts.edges
         || size.payloads > room.payloads - counts.payloads || size.reservations > room.reservations - counts.reservations {
        return false, e;
      }
      Accept(e.value);
      return true, None;
    }

    method Accept(e: Value)
      requires Valid() && claimed && Takes(Some(e))
      modifies this`transferred, this`counts, slots
      ensures Valid() && transferred == old(transferred) + 1 && Filled() == old(Filled()) + [e]
    {
      hide TotalsOf, SizesOf, LayoutSafe;
      ghost var before := Filled();
      TotalsSnoc(before, e);
      ghost var taken := slots[..transferred];
      slots[transferred] := Some(e);
      assert slots[..transferred + 1] == taken + [Some(e)];
      transferred := transferred + 1;
      counts := Plus(counts, SizesOf(e));
      assert Filled() == before + [e];
    }

    /** Every slot is filled and every capacity is used up. */
    predicate Complete()
      reads this
    {
      && transferred == elementCount && counts.nodes == nodes.Length && counts.edges + elementCount == edges.Length
      && counts.payloads == payloads.Length && counts.reservations == reservations.Length
    }

    /** src/resources.cpp:2521-2548: the sizes are counted again; a complete assembly always passes. */
    method Recount() returns (ok: bool)
      requires Valid() && claimed && Complete()
      ensures ok
    {
      hide TotalsOf, SizesOf;
      var total, room := Capacity(0, 0, 0, 0), Room();
      ghost var es := Filled();
      TotalsStart(es);
      for k := 0 to elementCount
        invariant total == TotalsOf(es[..k])
      {
        TotalsSnoc(es[..k], es[k]);
        assert es[..k + 1] == es[..k] + [es[k]] && es[k] == slots[k].value;
        TotalsGrow(es, k + 1);
        var safe := CheckLayout(slots[k].value);
        var size := SizesOf(slots[k].value);
        if !safe || size.nodes > room.nodes - total.nodes || size.edges > room.edges - total.edges
           || size.payloads > room.payloads - total.payloads || size.reservations > room.reservations - total.reservations {
          return false;
        }
        total := Plus(total, size);
      }
      assert es[..elementCount] == es;
      ok := total.nodes == nodes.Length && total.edges + elementCount == edges.Length && total.payloads == payloads.Length
            && total.reservations == reservations.Length;
    }

    // -------------------------------------------------------------- publishing

    /** The tables up to the cursors. */
    ghost predicate Placed(a: TupleValue)
      reads nodes, edges, payloads, reservations
    {
      && |a.nodes| <= nodes.Length && nodes[..|a.nodes|] == a.nodes
      && |a.childIndexes| <= edges.Length && edges[..|a.childIndexes|] == a.childIndexes
      && |a.payloads| <= payloads.Length && payloads[..|a.payloads|] == a.payloads
      && |a.reservations| <= reservations.Length && reservations[..|a.reservations|] == a.reservations
    }

    /** Room for everything placed so far and for one more element, below the root edges. */
    ghost predicate HasRoom(a: TupleValue, begin: nat)
      reads this
    {
      begin <= edges.Length && FitsIn(SizesOfTables(a), Capacity(nodes.Length, begin, payloads.Length, reservations.Length))
    }

    /** src/resources.cpp:2558-2576. */
    method PlaceLeaf(e: Value, position: nat, c: Capacity, begin: nat, ghost a: TupleValue)
      requires !e.TupleV? && Placed(a) && c == SizesOfTables(a) && HasRoom(AppendSlot(a, e), begin) && begin + position < edges.Length
      modifies nodes, edges, payloads
      ensures Placed(AppendSlot(a, e))
      ensures edges[begin..] == old(edges[begin..])[position := c.nodes]
    {
      LeafTables(a, e);
      AppendSlotSizes(a, e);
      hide AppendSlot, SizesOf;
      ghost var n, q, roots := nodes[..c.nodes], payloads[..c.payloads], edges[begin..];
      if e.VectorV? {
        payloads[c.payloads] := e.payload;
        assert payloads[..c.payloads + 1] == q + [e.payload];
      }
      edges[begin + position] := c.nodes;
      assert edges[begin..] == roots[position := c.nodes];
      nodes[c.nodes] := ValueNode(if e.VectorV? then VectorC else ScalarC, if e.ScalarV? then e.scalar else EMPTY_SCALAR, 0, 0, 0, c.payloads);
      assert nodes[..c.nodes + 1] == n + [nodes[c.nodes]];
      assert edges[..c.edges] == a.childIndexes;
    }

    /** Room for the tables of a tuple element, its root included. */
    ghost predicate TupleFits(a: TupleValue, t: TupleValue, begin: nat)
      reads this
    {
      && |a.nodes| + |t.nodes| < nodes.Length
      && |a.childIndexes| + |t.childIndexes| <= begin <= edges.Length
      && |a.payloads| + |t.payloads| <= payloads.Length
      && |a.reservations| + |t.reservations| < reservations.Length
    }

    lemma RoomForTuple(a: TupleValue, t: TupleValue, begin: nat)
      requires HasRoom(AppendSlot(a, TupleV(t)), begin)
      ensures TupleFits(a, t, begin)
    {
      TupleTables(a, t);
      hide AppendSlot;
    }

    /** src/resources.cpp:2583-2606: the tables of a tuple element go behind those placed so far. */
    method CopyTables(t: TupleValue, c: Capacity, begin: nat, ghost a: TupleValue)
      requires Placed(a) && c == SizesOfTables(a) && TupleFits(a, t, begin)
      modifies nodes, edges, payloads, reservations
      ensures nodes[..c.nodes + |t.nodes|] == a.nodes + MovedNodes(t.nodes, OffsetsOf(a))
      ensures edges[..c.edges + |t.childIndexes|] == a.childIndexes + MovedEdges(t.childIndexes, c.nodes)
      ensures payloads[..c.payloads + |t.payloads|] == a.payloads + t.payloads
      ensures reservations[..c.reservations + |t.reservations|] == a.reservations + t.reservations
      ensures edges[begin..] == old(edges[begin..])
    {
      ghost var roots := edges[begin..];
      WriteNodes(nodes, c.nodes, t.nodes, Offsets(c.edges, c.payloads, c.reservations));
      WriteEdges(edges, c.edges, t.childIndexes, c.nodes);
      assert edges[begin..] == edges[c.edges + |t.childIndexes|..][begin - c.edges - |t.childIndexes|..];
      assert edges[begin..] == roots;
      WriteAll(payloads, c.payloads, t.payloads);
      WriteAll(reservations, c.reservations, t.reservations);
    }

    /** src/resources.cpp:2578-2618. */
    method PlaceTuple(t: TupleValue, position: nat, c: Capacity, begin: nat, ghost a: TupleValue)
      requires Placed(a) && c == SizesOfTables(a) && HasRoom(AppendSlot(a, TupleV(t)), begin) && begin + position < edges.Length
      modifies nodes, edges, payloads, reservations
      ensures Placed(AppendSlot(a, TupleV(t)))
      ensures edges[begin..] == old(edges[begin..])[position := c.nodes + |t.nodes|]
    {
      hide AppendSlot, MovedNodes, MovedEdges, HasRoom;
      TupleTables(a, t);
      RoomForTuple(a, t, begin);
      var rootNode: nat := c.nodes + |t.nodes|;
      CopyTables(t, c, begin, a);
      ghost var n, r, g, roots := nodes[..rootNode], reservations[..c.reservations + |t.reservations|], edges[..c.edges + |t.childIndexes|], edges[begin..];
      reservations[c.reservations + |t.reservations|] := t.rootReservation;
      assert reservations[..c.reservations + |t.reservations| + 1] == r + [t.rootReservation];
      edges[begin + position] := rootNode;
      assert edges[begin..] == roots[position := rootNode];
      assert edges[..c.edges + |t.childIndexes|] == g;
      nodes[rootNode] := ValueNode(TupleC, EMPTY_SCALAR, t.firstChild + c.edges, t.childCount, c.reservations + |t.reservations|, 0);
      assert nodes[..rootNode + 1] == n + [nodes[rootNode]];
    }

    /** src/resources.cpp:2549-2623: every slot is moved out and its table written behind the previous ones. */
    method Fill(ghost es: seq<Value>)
      requires Valid() && claimed && Complete() && es == Filled()
      modifies nodes, edges, payloads, reservations, slots
      ensures Placed(SlotTables(es)) && SizesOfTables(SlotTables(es)) == TotalsOf(es)
      ensures edges[edges.Length - elementCount..] == BuildRoots(es)
    {
      hide SlotTables, BuildRoots, TotalsOf, LayoutSafe, AppendSlot;
      var begin, c := edges.Length - elementCount, Capacity(0, 0, 0, 0);
      FillStart(es);
      for k := 0 to elementCount
        invariant forall j :: k <= j < elementCount ==> slots[j] == Some(es[j])
        invariant Placed(SlotTables(es[..k])) && c == SizesOfTables(SlotTables(es[..k])) == TotalsOf(es[..k])
        invariant edges[begin..][..k] == BuildRoots(es[..k])
      {
        SlotTablesStep(es, k);
        AppendSlotSizes(SlotTables(es[..k]), es[k]);
        var e := slots[k].value;
        slots[k] := None;
        ghost var roots := edges[begin..];
        if e.TupleV? {
          PlaceTuple(e.tuple, k, c, begin, SlotTables(es[..k]));
        } else {
          PlaceLeaf(e, k, c, begin, SlotTables(es[..k]));
        }
        c := Plus(c, SizesOf(e));
        assert edges[begin..] == roots[k := c.nodes - 1];
        assert edges[begin..][..k + 1] == roots[..k] + [c.nodes - 1];
      }
      assert es[..elementCount] == es;
      assert edges[begin..][..elementCount] == edges[begin..];
    }

    /** src/resources.cpp:2625-2628. */
    method Collect(ghost es: seq<Value>) returns (v: TupleValue)
      requires elementCount == |es| && elementCount <= edges.Length
      requires Placed(SlotTables(es))
      requires SizesOfTables(SlotTables(es)) == Capacity(nodes.Length, edges.Length - elementCount, payloads.Length, reservations.Length)
      requires edges[edges.Length - elementCount..] == BuildRoots(es)
      ensures v == Published(es, root)
    {
      var begin := edges.Length - elementCount;
      v := TupleValue(nodes[..], edges[..], nodes.Length, payloads[..], reservations[..], root, begin, elementCount);
      PublishedFields(es, root);
      hide SlotTables, BuildRoots, Published;
      assert nodes[..nodes.Length] == nodes[..] && payloads[..payloads.Length] == payloads[..] && reservations[..reservations.Length] == reservations[..];
      assert edges[..] == edges[..begin] + edges[begin..];
    }

    /**
     src/resources.cpp:2507-2640.  Publishing succeeds exactly when every capacity is used; the assembly is then
     given up.  Otherwise nothing changes.
     */
    method Publish() returns (r: Option<TupleValue>)
      requires Valid()
      modifies this, nodes, edges, payloads, reservations, slots
      ensures Valid()
      ensures r.Some? <==> old(claimed && Complete())
      ensures r.Some? ==> r.value == Published(old(Filled()), old(root)) && !claimed && transferred == 0
      ensures r == None ==>
                && slots[..] == old(slots[..]) && transferred == old(transferred) && counts == old(counts) && claimed == old(claimed)
                && nodes[..] == old(nodes[..]) && edges[..] == old(edges[..])
                && payloads[..] == old(payloads[..]) && reservations[..] == old(reservations[..])
    {
      if !claimed || !Complete() {
        return None;
      }
      var ok := Recount();
      if !ok {
        return None;
      }
      ghost var es := Filled();
      Fill(es);
      hide SlotTables, BuildRoots, TotalsOf, LayoutSafe, Published, SizesOfTables, Placed;
      var v := Collect(es);
      claimed, elementCount, transferred, counts := false, 0, 0, Capacity(0, 0, 0, 0);
      return Some(v);
    }
  }

  lemma FillStart(es: seq<Value>)
    ensures SlotTables(es[..0]) == EmptyTuple() && BuildRoots(es[..0]) == [] && TotalsOf(es[..0]) == Capacity(0, 0, 0, 0)
  {
    assert es[..0] == [];
  }

  lemma PublishedFields(es: seq<Value>, root: Reservation)
    ensures var a := SlotTables(es);
            Published(es, root) ==
            TupleValue(a.nodes, a.childIndexes + BuildRoots(es), |a.nodes|, a.payloads, a.reservations, root, |a.childIndexes|, |es|)
  {
  }
}
