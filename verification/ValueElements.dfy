/**
 Tuple elements as tables.  A scalar or a vector is a table of one node; a tuple is its nodes followed by its
 implicit root, whose reservation comes after the others.  Appending such tables one after another is how
 src/resources.cpp builds tuples, both in `make_tuple_value` and in `publish_preadmitted_tuple`.
 */
module ValueElements {
  import opened Kinds
  import opened Arena
  import opened ArenaGraft
  import opened HostStorage
  import opened ValueArenas

  datatype Value = ScalarV(scalar: ScalarValue) | VectorV(payload: Payload) | TupleV(tuple: TupleValue)

  ghost predicate ValidElementValue(buffers: seq<HostBuffer>, owners: set<nat>, e: Value) {
    match e
    case ScalarV(s) => ValidScalar(s)
    case VectorV(p) => PayloadOk(buffers, owners, p)
    case TupleV(t) => ValidTuple(buffers, owners, t)
  }

  ghost function ElementTree(buffers: seq<HostBuffer>, owners: set<nat>, e: Value): ValueTree
    requires ValidElementValue(buffers, owners, e)
  {
    match e
    case ScalarV(s) => Node(ScalarLeaf(s), [])
    case VectorV(p) => Node(VectorLeaf(p.element, p.elements), [])
    case TupleV(t) => ValueOf(t)
  }

  // ---------------------------------------------------------------- an element as a table

  function CountOf(e: Value): nat {
    if e.TupleV? then NodeCount(e.tuple) else 1
  }

  function PayloadsOf(e: Value): seq<Payload> {
    match e
    case ScalarV(_) => []
    case VectorV(p) => [p]
    case TupleV(t) => t.payloads
  }

  function ReservationsOf(e: Value): seq<Reservation> {
    if e.TupleV? then e.tuple.reservations + [e.tuple.rootReservation] else []
  }

  function ShapeOfElement(e: Value): (s: Shape)
    ensures |s.spans| == CountOf(e)
  {
    if e.TupleV? then TableOf(e.tuple) else Shape([Span(0, 0)], [])
  }

  /** Where the tables stand before an element is appended. */
  datatype Offsets = Offsets(edges: nat, payloads: nat, reservations: nat)

  function MovedNode(n: ValueNode, at: Offsets): ValueNode {
    match n.container
    case TupleC => n.(firstChild := n.firstChild + at.edges, reservation := n.reservation + at.reservations)
    case VectorC => n.(payload := n.payload + at.payloads)
    case _ => n
  }

  /** The node that element `e` contributes at its own position `j`. */
  function NodeOf(e: Value, j: nat, at: Offsets): ValueNode
    requires j < CountOf(e)
  {
    match e
    case ScalarV(s) => ValueNode(ScalarC, s, 0, 0, 0, 0)
    case VectorV(_) => ValueNode(VectorC, EMPTY_SCALAR, 0, 0, 0, at.payloads)
    case TupleV(t) =>
      if j < |t.nodes| then MovedNode(t.nodes[j], at)
      else ValueNode(TupleC, EMPTY_SCALAR, t.firstChild + at.edges, t.childCount, at.reservations + |t.reservations|, 0)
  }

  /** The slot of position `j`, counted in `PayloadsOf` and `ReservationsOf`. */
  function SlotIn(e: Value, j: nat): Slot
    requires j < CountOf(e)
  {
    match e
    case ScalarV(_) => NoSlot
    case VectorV(_) => PayloadSlot(0)
    case TupleV(t) => if j == |t.nodes| then TableSlot(|t.reservations|) else SlotOf(t, j)
  }

  function TagIn(e: Value, j: nat): ValueTag
    requires j < CountOf(e) && (e.TupleV? ==> SlotExists(e.tuple, SlotOf(e.tuple, j)))
  {
    match e
    case ScalarV(s) => ScalarLeaf(s)
    case VectorV(p) => VectorLeaf(p.element, p.elements)
    case TupleV(t) => ValueTagAt(t, j)
  }

  function MovedSlot(s: Slot, at: Offsets): Slot {
    match s
    case PayloadSlot(k) => PayloadSlot(k + at.payloads)
    case TableSlot(k) => TableSlot(k + at.reservations)
    case _ => s
  }

  ghost predicate SlotInRange(e: Value, s: Slot) {
    match s
    case PayloadSlot(k) => k < |PayloadsOf(e)|
    case TableSlot(k) => k < |ReservationsOf(e)|
    case RootSlot => false
    case NoSlot => true
  }

  function AccountIn(e: Value, s: Slot): Account
    requires SlotInRange(e, s)
  {
    match s
    case PayloadSlot(k) => PayloadsOf(e)[k].account
    case TableSlot(k) => ReservationsOf(e)[k].account
    case _ => EMPTY_ACCOUNT
  }

  ghost predicate SlotOkIn(buffers: seq<HostBuffer>, owners: set<nat>, e: Value, j: nat)
    requires j < CountOf(e) && SlotInRange(e, SlotIn(e, j))
  {
    match SlotIn(e, j)
    case PayloadSlot(k) => PayloadOk(buffers, owners, PayloadsOf(e)[k])
    case TableSlot(k) => ReservationOk(buffers, owners, ReservationsOf(e)[k], ShapeOfElement(e).spans[j].count)
    case _ => true
  }

  ghost predicate SlotInUse(e: Value, s: Slot) {
    exists j: nat :: j < CountOf(e) && SlotIn(e, j) == s
  }

  ghost predicate SlotsInRange(e: Value) {
    forall j: nat :: j < CountOf(e) ==> SlotInRange(e, SlotIn(e, j))
  }

  /** The element's buffers are distinct. */
  ghost predicate StoragesInDistinct(e: Value)
    requires SlotsInRange(e)
  {
    forall i: nat, j: nat :: i < j < CountOf(e) && AccountIn(e, SlotIn(e, i)).storage == AccountIn(e, SlotIn(e, j)).storage ==>
      AccountIn(e, SlotIn(e, i)).storage == 0
  }

  /** Everything appending needs to know about a valid element. */
  ghost predicate ElementOk(buffers: seq<HostBuffer>, owners: set<nat>, e: Value) {
    && WellFormed(ShapeOfElement(e))
    && SlotsInRange(e)
    && (forall j: nat :: j < CountOf(e) ==> SlotOkIn(buffers, owners, e, j))
    && (forall i: nat, j: nat :: i < CountOf(e) && j < CountOf(e) && SlotIn(e, i) == SlotIn(e, j) != NoSlot ==> i == j)
    && (forall k: nat :: k < |PayloadsOf(e)| ==> SlotInUse(e, PayloadSlot(k)))
    && (forall k: nat :: k < |ReservationsOf(e)| ==> SlotInUse(e, TableSlot(k)))
    && StoragesInDistinct(e)
    && (e.TupleV? ==> SlotsExist(e.tuple) && forall j: nat :: j < |e.tuple.nodes| ==> NodeFieldsOk(e.tuple, j))
    && (e.ScalarV? ==> ValidScalar(e.scalar))
  }

  lemma LeafShape()
    ensures WellFormed(Shape([Span(0, 0)], []))
  {
  }

  lemma ValidIsElementOk(buffers: seq<HostBuffer>, owners: set<nat>, e: Value)
    requires ValidElementValue(buffers, owners, e)
    ensures ElementOk(buffers, owners, e)
  {
    match e
    case ScalarV(_) => LeafShape();
    case VectorV(p) =>
      LeafShape();
      assert SlotIn(e, 0) == PayloadSlot(0);
    case TupleV(t) => TupleIsElementOk(buffers, owners, t);
  }

  lemma TupleSlots(t: TupleValue)
    requires Structured(t)
    ensures var e := TupleV(t);
            && SlotsInRange(e)
            && (forall j: nat :: j < CountOf(e) ==> AccountIn(e, SlotIn(e, j)) == AccountOf(t, SlotOf(t, j)))
  {
    forall j: nat | j < NodeCount(t)
      ensures SlotInRange(TupleV(t), SlotIn(TupleV(t), j)) && AccountIn(TupleV(t), SlotIn(TupleV(t), j)) == AccountOf(t, SlotOf(t, j))
    {
      assert SlotExists(t, SlotOf(t, j));
    }
  }

  lemma TupleIsElementOk(buffers: seq<HostBuffer>, owners: set<nat>, t: TupleValue)
    requires ValidTuple(buffers, owners, t)
    ensures ElementOk(buffers, owners, TupleV(t))
  {
    var e := TupleV(t);
    TupleSlots(t);
    hide WellFormed;
    forall j: nat | j < CountOf(e) ensures SlotOkIn(buffers, owners, e, j) {
      assert SlotExists(t, SlotOf(t, j)) && SlotOk(buffers, owners, t, j);
    }
    forall i: nat, j: nat | i < CountOf(e) && j < CountOf(e) && SlotIn(e, i) == SlotIn(e, j) != NoSlot ensures i == j {
      assert SlotExists(t, SlotOf(t, i)) && SlotExists(t, SlotOf(t, j));
    }
    forall k: nat | k < |PayloadsOf(e)| ensures SlotInUse(e, PayloadSlot(k)) {
      assert SlotUsed(t, PayloadSlot(k));
      var i: nat :| i < NodeCount(t) && SlotOf(t, i) == PayloadSlot(k);
      assert SlotIn(e, i) == PayloadSlot(k);
    }
    forall k: nat | k < |ReservationsOf(e)| ensures SlotInUse(e, TableSlot(k)) {
      if k < |t.reservations| {
        assert SlotUsed(t, TableSlot(k));
        var i: nat :| i < NodeCount(t) && SlotOf(t, i) == TableSlot(k);
        assert SlotIn(e, i) == TableSlot(k);
      } else {
        assert SlotIn(e, |t.nodes|) == TableSlot(k);
      }
    }
    forall i: nat, j: nat | i < j < CountOf(e) && AccountIn(e, SlotIn(e, i)).storage == AccountIn(e, SlotIn(e, j)).storage
      ensures AccountIn(e, SlotIn(e, i)).storage == 0
    {
      assert StorageAt(t, i) == StorageAt(t, j);
    }
  }
}
