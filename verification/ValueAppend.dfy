/** Appending one element table to a growing tuple keeps everything a finished tuple must satisfy. */
module ValueAppend {
  import opened Kinds
  import opened Arena
  import opened ArenaGraft
  import opened HostStorage
  import opened ValueArenas
  import opened ValueElements

  /** A tuple under construction: tables filled so far, the root still empty. */
  function EmptyTuple(): TupleValue {
    TupleValue([], [], 0, [], [], NO_RESERVATION, 0, 0)
  }

  function OffsetsOf(a: TupleValue): Offsets {
    Offsets(|a.childIndexes|, |a.payloads|, |a.reservations|)
  }

  /** `b` is `a` with the table of `e` behind it. */
  ghost predicate AppendedElement(a: TupleValue, e: Value, b: TupleValue) {
    && |b.nodes| == |a.nodes| + CountOf(e) && a.nodes <= b.nodes
    && (forall j: nat :: j < CountOf(e) ==> b.nodes[|a.nodes| + j] == NodeOf(e, j, OffsetsOf(a)))
    && |b.childIndexes| == |a.childIndexes| + |ShapeOfElement(e).edges| && a.childIndexes <= b.childIndexes
    && (forall k: nat :: k < |ShapeOfElement(e).edges| ==>
          b.childIndexes[|a.childIndexes| + k] == ShapeOfElement(e).edges[k] + |a.nodes|)
    && b.payloads == a.payloads + PayloadsOf(e)
    && b.reservations == a.reservations + ReservationsOf(e)
    && b.rootReservation == a.rootReservation == NO_RESERVATION && b.childCount == a.childCount == 0
  }

  /** The table of the nodes alone, without the root. */
  function NodesShape(a: TupleValue): (s: Shape)
    ensures |s.spans| == |a.nodes| && s.edges == a.childIndexes
    ensures forall i :: 0 <= i < |s.spans| ==> s.spans[i] == Span(a.nodes[i].firstChild, a.nodes[i].childCount)
  {
    Shape(seq(|a.nodes|, i requires 0 <= i < |a.nodes| => Span(a.nodes[i].firstChild, a.nodes[i].childCount)), a.childIndexes)
  }

  ghost function NodeTags(a: TupleValue): (r: seq<ValueTag>)
    requires SlotsExist(a)
    ensures |r| == |a.nodes| && forall i: nat :: i < |r| ==> r[i] == ValueTagAt(a, i)
  {
    ValueTags(a)[..|a.nodes|]
  }

  /** The slots and buffers of the nodes are in order. */
  ghost predicate SlotsInv(buffers: seq<HostBuffer>, owners: set<nat>, a: TupleValue) {
    && SlotsExist(a)
    && (forall i: nat :: i < |a.nodes| ==> NodeFieldsOk(a, i) && SlotOk(buffers, owners, a, i))
    && SlotsUnshared(a)
    && SlotsUsed(a)
    && StoragesDistinct(a)
  }

  /** No buffer of the element is already in the tuple. */
  ghost predicate StoragesApart(a: TupleValue, e: Value)
    requires SlotsExist(a) && SlotsInRange(e)
  {
    forall i: nat, j: nat :: i < |a.nodes| && j < CountOf(e) && StorageAt(a, i) == AccountIn(e, SlotIn(e, j)).storage ==> StorageAt(a, i) == 0
  }

  // ---------------------------------------------------------------- slots

  lemma OldSlot(a: TupleValue, e: Value, b: TupleValue, i: nat)
    requires AppendedElement(a, e, b) && SlotsExist(a) && i < |a.nodes|
    ensures SlotOf(b, i) == SlotOf(a, i) && SlotOf(a, i) != RootSlot && SlotExists(b, SlotOf(b, i))
    ensures AccountOf(b, SlotOf(b, i)) == AccountOf(a, SlotOf(a, i)) && ValueTagAt(b, i) == ValueTagAt(a, i)
    ensures NodeFieldsOk(b, i) == NodeFieldsOk(a, i) && SpanOf(b, i) == SpanOf(a, i)
  {
    assert b.nodes[i] == a.nodes[i] && SlotExists(a, SlotOf(a, i));
  }

  lemma NewSlot(buffers: seq<HostBuffer>, owners: set<nat>, a: TupleValue, e: Value, b: TupleValue, j: nat)
    requires AppendedElement(a, e, b) && ElementOk(buffers, owners, e) && j < CountOf(e)
    ensures SlotOf(b, |a.nodes| + j) == MovedSlot(SlotIn(e, j), OffsetsOf(a)) && SlotExists(b, SlotOf(b, |a.nodes| + j))
    ensures AccountOf(b, SlotOf(b, |a.nodes| + j)) == AccountIn(e, SlotIn(e, j))
    ensures ValueTagAt(b, |a.nodes| + j) == TagIn(e, j)
    ensures NodeFieldsOk(b, |a.nodes| + j) && SpanOf(b, |a.nodes| + j).count == ShapeOfElement(e).spans[j].count
  {
    assert b.nodes[|a.nodes| + j] == NodeOf(e, j, OffsetsOf(a));
    assert SlotInRange(e, SlotIn(e, j));
    if e.TupleV? {
      assert SlotExists(e.tuple, SlotOf(e.tuple, j));
      if j < |e.tuple.nodes| { assert NodeFieldsOk(e.tuple, j); }
    }
  }

  lemma OldSlotOk(buffers: seq<HostBuffer>, owners: set<nat>, a: TupleValue, e: Value, b: TupleValue, i: nat)
    requires AppendedElement(a, e, b) && SlotsExist(a) && i < |a.nodes| && SlotOk(buffers, owners, a, i)
    requires SlotExists(b, SlotOf(b, i))
    ensures SlotOk(buffers, owners, b, i)
  {
    OldSlot(a, e, b, i);
  }

  lemma NewSlotOk(buffers: seq<HostBuffer>, owners: set<nat>, a: TupleValue, e: Value, b: TupleValue, j: nat)
    requires AppendedElement(a, e, b) && ElementOk(buffers, owners, e) && j < CountOf(e)
    requires SlotExists(b, SlotOf(b, |a.nodes| + j))
    ensures SlotOk(buffers, owners, b, |a.nodes| + j)
  {
    NewSlot(buffers, owners, a, e, b, j);
    assert SlotOkIn(buffers, owners, e, j);
    match SlotIn(e, j) {
      case PayloadSlot(k) => assert b.payloads[k + |a.payloads|] == PayloadsOf(e)[k];
      case TableSlot(k) => assert b.reservations[k + |a.reservations|] == ReservationsOf(e)[k];
      case _ =>
    }
  }

  lemma AppendSlots(buffers: seq<HostBuffer>, owners: set<nat>, a: TupleValue, e: Value, b: TupleValue)
    requires AppendedElement(a, e, b) && ElementOk(buffers, owners, e) && SlotsInv(buffers, owners, a) && StoragesApart(a, e)
    ensures SlotsInv(buffers, owners, b)
  {
    var n := |a.nodes|;
    forall i: nat | i < |b.nodes| ensures SlotExists(b, SlotOf(b, i)) && NodeFieldsOk(b, i) && SlotOk(buffers, owners, b, i) {
      if i < n { OldSlot(a, e, b, i); OldSlotOk(buffers, owners, a, e, b, i); }
      else { NewSlot(buffers, owners, a, e, b, i - n); NewSlotOk(buffers, owners, a, e, b, i - n); }
    }
    assert SlotExists(b, SlotOf(b, |b.nodes|));
    AppendUnshared(buffers, owners, a, e, b);
    AppendUsed(buffers, owners, a, e, b);
    AppendStorages(buffers, owners, a, e, b);
  }

  /** Slots of old nodes stay below the old tables, slots of new nodes lie behind them. */
  lemma AppendParts(buffers: seq<HostBuffer>, owners: set<nat>, a: TupleValue, e: Value, b: TupleValue)
    requires AppendedElement(a, e, b) && ElementOk(buffers, owners, e) && SlotsInv(buffers, owners, a)
    ensures SlotsExist(a) && SlotsInRange(e) && |b.nodes| == |a.nodes| + CountOf(e)
    ensures forall i: nat :: i < |a.nodes| ==> SlotExists(a, SlotOf(a, i))
  {
  }

  lemma SlotOrigin(buffers: seq<HostBuffer>, owners: set<nat>, a: TupleValue, e: Value, b: TupleValue, i: nat)
    requires AppendedElement(a, e, b) && ElementOk(buffers, owners, e) && SlotsInv(buffers, owners, a) && i < |b.nodes|
    ensures SlotOf(b, i) != RootSlot
    ensures i < |a.nodes| ==>
              && SlotOf(b, i) == SlotOf(a, i)
              && (SlotOf(b, i).PayloadSlot? ==> SlotOf(b, i).index < |a.payloads|)
              && (SlotOf(b, i).TableSlot? ==> SlotOf(b, i).index < |a.reservations|)
    ensures i >= |a.nodes| ==>
              && SlotOf(b, i) == MovedSlot(SlotIn(e, i - |a.nodes|), OffsetsOf(a))
              && (SlotOf(b, i).PayloadSlot? ==> SlotOf(b, i).index >= |a.payloads|)
              && (SlotOf(b, i).TableSlot? ==> SlotOf(b, i).index >= |a.reservations|)
  {
    hide AppendedElement, ElementOk, SlotsInv, SlotOf, SlotsExist, SlotIn;
    AppendParts(buffers, owners, a, e, b);
    if i < |a.nodes| {
      OldSlot(a, e, b, i);
    } else {
      NewSlot(buffers, owners, a, e, b, i - |a.nodes|);
      assert SlotInRange(e, SlotIn(e, i - |a.nodes|));
    }
  }

  lemma AppendUnshared(buffers: seq<HostBuffer>, owners: set<nat>, a: TupleValue, e: Value, b: TupleValue)
    requires AppendedElement(a, e, b) && ElementOk(buffers, owners, e) && SlotsInv(buffers, owners, a)
    ensures SlotsUnshared(b)
  {
    var n := |a.nodes|;
    assert SlotsUnshared(a) && |b.nodes| == n + CountOf(e);
    assert forall i: nat, j: nat :: i < CountOf(e) && j < CountOf(e) && SlotIn(e, i) == SlotIn(e, j) != NoSlot ==> i == j;
    hide AppendedElement, ElementOk, SlotsInv, SlotIn, SlotOf;
    forall i: nat, j: nat | i < NodeCount(b) && j < NodeCount(b) && SlotOf(b, i) == SlotOf(b, j) != NoSlot ensures i == j {
      if i < |b.nodes| { SlotOrigin(buffers, owners, a, e, b, i); } else { RootHasRootSlot(b); }
      if j < |b.nodes| { SlotOrigin(buffers, owners, a, e, b, j); } else { RootHasRootSlot(b); }
    }
  }

  lemma RootHasRootSlot(b: TupleValue)
    ensures SlotOf(b, |b.nodes|) == RootSlot
  {
  }

  lemma AppendUsed(buffers: seq<HostBuffer>, owners: set<nat>, a: TupleValue, e: Value, b: TupleValue)
    requires AppendedElement(a, e, b) && ElementOk(buffers, owners, e) && SlotsInv(buffers, owners, a)
    ensures SlotsUsed(b)
  {
    var n := |a.nodes|;
    forall k: nat | k < |b.payloads| ensures SlotUsed(b, PayloadSlot(k)) {
      if k < |a.payloads| {
        assert SlotUsed(a, PayloadSlot(k));
        var i: nat :| i < NodeCount(a) && SlotOf(a, i) == PayloadSlot(k);
        OldSlot(a, e, b, i);
      } else {
        assert SlotInUse(e, PayloadSlot(k - |a.payloads|));
        var j: nat :| j < CountOf(e) && SlotIn(e, j) == PayloadSlot(k - |a.payloads|);
        NewSlot(buffers, owners, a, e, b, j);
      }
    }
    forall k: nat | k < |b.reservations| ensures SlotUsed(b, TableSlot(k)) {
      if k < |a.reservations| {
        assert SlotUsed(a, TableSlot(k));
        var i: nat :| i < NodeCount(a) && SlotOf(a, i) == TableSlot(k);
        OldSlot(a, e, b, i);
      } else {
        assert SlotInUse(e, TableSlot(k - |a.reservations|));
        var j: nat :| j < CountOf(e) && SlotIn(e, j) == TableSlot(k - |a.reservations|);
        NewSlot(buffers, owners, a, e, b, j);
      }
    }
  }

  lemma StorageOrigin(buffers: seq<HostBuffer>, owners: set<nat>, a: TupleValue, e: Value, b: TupleValue, i: nat)
    requires AppendedElement(a, e, b) && ElementOk(buffers, owners, e) && SlotsInv(buffers, owners, a) && SlotsExist(b) && i < |b.nodes|
    ensures i < |a.nodes| ==> StorageAt(b, i) == StorageAt(a, i)
    ensures i >= |a.nodes| ==> StorageAt(b, i) == AccountIn(e, SlotIn(e, i - |a.nodes|)).storage
  {
    hide AppendedElement, ElementOk, SlotsInv, SlotOf, SlotIn, SlotExists, SlotInRange, AccountOf, AccountIn;
    AppendParts(buffers, owners, a, e, b);
    if i < |a.nodes| {
      OldSlot(a, e, b, i);
    } else {
      NewSlot(buffers, owners, a, e, b, i - |a.nodes|);
    }
  }

  lemma AppendStorages(buffers: seq<HostBuffer>, owners: set<nat>, a: TupleValue, e: Value, b: TupleValue)
    requires AppendedElement(a, e, b) && ElementOk(buffers, owners, e) && SlotsInv(buffers, owners, a) && StoragesApart(a, e) && SlotsExist(b)
    ensures StoragesDistinct(b)
  {
    assert StoragesInDistinct(e) && StoragesDistinct(a) && |b.nodes| == |a.nodes| + CountOf(e);
    assert StorageAt(b, |b.nodes|) == 0;
    hide AppendedElement, ElementOk, SlotsInv, SlotIn, SlotOf, StorageAt, SlotsExist, AccountIn;
    forall i: nat, j: nat | i < j < NodeCount(b) && StorageAt(b, i) == StorageAt(b, j) ensures StorageAt(b, i) == 0 {
      if j < |b.nodes| {
        StorageOrigin(buffers, owners, a, e, b, i);
        StorageOrigin(buffers, owners, a, e, b, j);
      }
    }
  }

  // ---------------------------------------------------------------- shape and meaning

  lemma AppendShape(buffers: seq<HostBuffer>, owners: set<nat>, a: TupleValue, e: Value, b: TupleValue)
    requires AppendedElement(a, e, b) && ElementOk(buffers, owners, e)
    ensures Appended(NodesShape(a), ShapeOfElement(e), NodesShape(b))
  {
    var f, s, g := NodesShape(a), ShapeOfElement(e), NodesShape(b);
    forall j | 0 <= j < |s.spans| ensures MovedSpan(s.spans[j], g.spans[|f.spans| + j], |f.edges|, |g.edges|) {
      assert b.nodes[|a.nodes| + j] == NodeOf(e, j, OffsetsOf(a));
      if e.TupleV? {
        assert s.spans[j] == SpanOf(e.tuple, j);
        if j < |e.tuple.nodes| { assert NodeFieldsOk(e.tuple, j); }
      }
    }
  }

  ghost function TagsIn(e: Value): (r: seq<ValueTag>)
    requires e.TupleV? ==> SlotsExist(e.tuple)
    ensures |r| == CountOf(e) && forall j: nat :: j < |r| ==> r[j] == TagIn(e, j)
  {
    seq(CountOf(e), j requires 0 <= j < CountOf(e) => TagIn(e, j))
  }

  lemma ElementDenotes(buffers: seq<HostBuffer>, owners: set<nat>, e: Value)
    requires ValidElementValue(buffers, owners, e) && ElementOk(buffers, owners, e)
    ensures Denote(ShapeOfElement(e), TagsIn(e), Root(ShapeOfElement(e))) == ElementTree(buffers, owners, e)
  {
    if e.TupleV? {
      assert TagsIn(e) == ValueTags(e.tuple);
    } else {
      assert Denote(ShapeOfElement(e), TagsIn(e), 0).kids == [];
    }
  }

  /** The trees of the elements appended so far. */
  ghost predicate TreesInv(a: TupleValue, roots: seq<nat>, trees: seq<ValueTree>) {
    && SlotsExist(a)
    && ForestWF(NodesShape(a), roots) && RootsIn(NodesShape(a), roots)
    && RootTrees(NodesShape(a), NodeTags(a), roots) == trees
  }

  lemma AppendTrees(buffers: seq<HostBuffer>, owners: set<nat>, a: TupleValue, e: Value, b: TupleValue, roots: seq<nat>, trees: seq<ValueTree>)
    requires AppendedElement(a, e, b) && ValidElementValue(buffers, owners, e) && ElementOk(buffers, owners, e)
    requires TreesInv(a, roots, trees) && SlotsExist(b)
    ensures TreesInv(b, roots + [|b.nodes| - 1], trees + [ElementTree(buffers, owners, e)])
  {
    hide AppendedElement, ElementOk, ValidElementValue, ForestWF, RootsIn, RootTrees, SlotsExist, NodeTags, TagsIn, ElementTree,
         ShapeOfElement, NodesShape, Appended, WellFormed, Denote;
    AppendShape(buffers, owners, a, e, b);
    ElementDenotes(buffers, owners, e);
    AppendTags(buffers, owners, a, e, b);
    ElementSizes(buffers, owners, a, e, b);
    AppendRootTrees(NodesShape(a), NodeTags(a), roots, ShapeOfElement(e), TagsIn(e), NodesShape(b), NodeTags(b));
  }

  lemma ElementSizes(buffers: seq<HostBuffer>, owners: set<nat>, a: TupleValue, e: Value, b: TupleValue)
    requires AppendedElement(a, e, b) && ValidElementValue(buffers, owners, e) && ElementOk(buffers, owners, e)
    requires SlotsExist(a) && SlotsExist(b)
    ensures e.TupleV? ==> SlotsExist(e.tuple)
    ensures WellFormed(ShapeOfElement(e)) && |b.nodes| == |a.nodes| + CountOf(e) && Root(ShapeOfElement(e)) + 1 == CountOf(e)
    ensures |NodesShape(a).spans| == |NodeTags(a)| == |a.nodes| && |NodesShape(b).spans| == |NodeTags(b)| == |b.nodes|
    ensures |ShapeOfElement(e).spans| == |TagsIn(e)| == CountOf(e)
  {
  }

  /** The appended table shows the tags of both parts. */
  lemma AppendTags(buffers: seq<HostBuffer>, owners: set<nat>, a: TupleValue, e: Value, b: TupleValue)
    requires AppendedElement(a, e, b) && ElementOk(buffers, owners, e) && SlotsExist(a) && SlotsExist(b)
    ensures |b.nodes| == |a.nodes| + CountOf(e) && NodeTags(a) <= NodeTags(b)
    ensures forall j: nat :: j < CountOf(e) ==> NodeTags(b)[|a.nodes| + j] == TagsIn(e)[j]
  {
    assert |b.nodes| == |a.nodes| + CountOf(e);
    hide AppendedElement, ElementOk, SlotsExist, ValueTagAt, TagIn;
    forall i: nat | i < |a.nodes| ensures NodeTags(b)[i] == NodeTags(a)[i] {
      OldSlot(a, e, b, i);
    }
    forall j: nat | j < CountOf(e) ensures NodeTags(b)[|a.nodes| + j] == TagsIn(e)[j] {
      NewSlot(buffers, owners, a, e, b, j);
    }
  }
}
