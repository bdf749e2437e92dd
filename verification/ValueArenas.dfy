/** include/bennu/value.hpp, src/value.cpp: tuple values, what a valid one is and which tree it denotes. */
module ValueArenas {
  import opened Kinds
  import opened Arena
  import opened ArenaScan
  import opened HostStorage
  import Binary64

  datatype Container = ScalarC | VectorC | TupleC | UnknownC

  /** Doubles are kept as their bit pattern. */
  datatype ScalarValue = ScalarValue(element: ScalarType, boolean: bool, integer: int, double: nat)

  datatype ValueNode = ValueNode(container: Container, scalar: ScalarValue, firstChild: nat, childCount: nat,
                                 reservation: nat, payload: nat)

  /** The elements of a vector: 0 or 1 for booleans, the bit pattern for doubles. */
  datatype Payload = Payload(element: ScalarType, elements: seq<int>, account: Account)

  datatype Reservation = Reservation(elementCount: nat, account: Account)

  /** The root is implicit: it has index `|nodes|`, its own edge range and its own reservation. */
  datatype TupleValue = TupleValue(nodes: seq<ValueNode>, childIndexes: seq<nat>, rootIndex: nat,
                                   payloads: seq<Payload>, reservations: seq<Reservation>,
                                   rootReservation: Reservation, firstChild: nat, childCount: nat)

  const EMPTY_SCALAR := ScalarValue(Boolean, false, 0, 0)
  const EMPTY_ACCOUNT := Account(0, 0, false, 0, None)
  const NO_RESERVATION := Reservation(0, EMPTY_ACCOUNT)

  /** Explicit table of bytes per tuple slot (src/resources.cpp:1546). */
  const SLOT_BYTES: nat := 16

  function Width(element: ScalarType): nat {
    if element == Boolean then 1 else 8
  }

  const CANONICAL_NAN: nat := 0x7ff8_0000_0000_0000

  /** Every NaN is the canonical one. */
  predicate CanonicalDouble(bits: nat) {
    !Binary64.IsNaN(bits) || bits == CANONICAL_NAN
  }

  /** src/value.cpp:88-113. */
  predicate ValidScalar(s: ScalarValue) {
    match s.element
    case Boolean => s.integer == 0 && s.double == 0
    case Integer => !s.boolean && s.double == 0
    case DoublePrecision => !s.boolean && s.integer == 0 && CanonicalDouble(s.double)
    case UnknownScalar => false
  }

  predicate ValidElement(element: ScalarType, x: int) {
    match element
    case Boolean => 0 <= x <= 1
    case Integer => true
    case DoublePrecision => 0 <= x && CanonicalDouble(x)
    case UnknownScalar => false
  }

  /** src/value.cpp:375-402: accounting fields of a vector payload of `bytes` bytes. */
  predicate PayloadAccountOk(buffers: seq<HostBuffer>, owners: set<nat>, a: Account, bytes: nat) {
    && a.bytes == bytes
    && (bytes == 0 ==> !a.active && a.ordinal == None)
    && (a.active ==> a.owner != 0 && a.owner in owners && Matches(buffers, a, VectorPayload))
    && (!a.active ==> a.owner == 0)
  }

  predicate PayloadOk(buffers: seq<HostBuffer>, owners: set<nat>, p: Payload) {
    && ValidScalarType(p.element)
    && ((p.elements == []) == (p.account.storage == 0))
    && |p.elements| <= SIZE_MAX / Width(p.element)
    && (p.account.storage != 0 ==>
          ValidAddress(buffers, p.account.storage) && buffers[p.account.storage - 1].byteCount == |p.elements| * Width(p.element))
    && (forall k :: 0 <= k < |p.elements| ==> ValidElement(p.element, p.elements[k]))
    && PayloadAccountOk(buffers, owners, p.account, |p.elements| * Width(p.element))
  }

  /** src/value.cpp:921-953: a reservation for `count` tuple slots. */
  predicate ReservationOk(buffers: seq<HostBuffer>, owners: set<nat>, r: Reservation, count: nat) {
    var a, bytes := r.account, count * SLOT_BYTES;
    && count <= SIZE_MAX / SLOT_BYTES
    && r.elementCount == count && a.bytes == bytes
    && ((bytes == 0) == (a.storage == 0))
    && (a.storage != 0 ==> ValidAddress(buffers, a.storage) && buffers[a.storage - 1].byteCount == bytes)
    && (bytes != 0 && a.active ==> a.owner != 0 && a.owner in owners && Matches(buffers, a, TupleTable))
    && (bytes == 0 ==> a.ordinal == None && a.owner == 0)
    && (!a.active ==> a.owner == 0)
  }

  // ---------------------------------------------------------------- the logical table, root included

  function NodeCount(v: TupleValue): nat {
    |v.nodes| + 1
  }

  function ContainerOf(v: TupleValue, i: nat): Container
    requires i < NodeCount(v)
  {
    if i == |v.nodes| then TupleC else v.nodes[i].container
  }

  function SpanOf(v: TupleValue, i: nat): Span
    requires i < NodeCount(v)
  {
    if i == |v.nodes| then Span(v.firstChild, v.childCount) else Span(v.nodes[i].firstChild, v.nodes[i].childCount)
  }

  function TableOf(v: TupleValue): (s: Shape)
    ensures |s.spans| == NodeCount(v) && s.edges == v.childIndexes
    ensures forall i :: 0 <= i < |s.spans| ==> s.spans[i] == SpanOf(v, i)
  {
    Shape(seq(NodeCount(v), i requires 0 <= i < NodeCount(v) => SpanOf(v, i)), v.childIndexes)
  }

  /** The buffer a node stands for. */
  datatype Slot = NoSlot | PayloadSlot(index: nat) | TableSlot(index: nat) | RootSlot

  function SlotOf(v: TupleValue, i: nat): Slot
    requires i < NodeCount(v)
  {
    if i == |v.nodes| then RootSlot
    else match v.nodes[i].container
         case TupleC => TableSlot(v.nodes[i].reservation)
         case VectorC => PayloadSlot(v.nodes[i].payload)
         case _ => NoSlot
  }

  predicate SlotExists(v: TupleValue, s: Slot) {
    match s
    case PayloadSlot(k) => k < |v.payloads|
    case TableSlot(k) => k < |v.reservations|
    case _ => true
  }

  function AccountOf(v: TupleValue, s: Slot): Account
    requires SlotExists(v, s)
  {
    match s
    case PayloadSlot(k) => v.payloads[k].account
    case TableSlot(k) => v.reservations[k].account
    case RootSlot => v.rootReservation.account
    case NoSlot => EMPTY_ACCOUNT
  }

  /** What one node must satisfy on its own. */
  predicate NodeFieldsOk(v: TupleValue, i: nat)
    requires i < NodeCount(v)
  {
    i == |v.nodes| ||
    var n := v.nodes[i];
    match n.container
    case ScalarC => n.firstChild == 0 && n.childCount == 0 && n.reservation == 0 && n.payload == 0 && ValidScalar(n.scalar)
    case VectorC => n.firstChild == 0 && n.childCount == 0 && n.reservation == 0 && n.scalar == EMPTY_SCALAR
    case TupleC => n.payload == 0 && n.scalar == EMPTY_SCALAR
    case UnknownC => false
  }

  predicate SlotOk(buffers: seq<HostBuffer>, owners: set<nat>, v: TupleValue, i: nat)
    requires i < NodeCount(v) && SlotExists(v, SlotOf(v, i))
  {
    match SlotOf(v, i)
    case NoSlot => true
    case PayloadSlot(k) => PayloadOk(buffers, owners, v.payloads[k])
    case TableSlot(k) => ReservationOk(buffers, owners, v.reservations[k], SpanOf(v, i).count)
    case RootSlot => ReservationOk(buffers, owners, v.rootReservation, v.childCount)
  }

  ghost predicate SlotsExist(v: TupleValue) {
    forall i: nat :: i < NodeCount(v) ==> SlotExists(v, SlotOf(v, i))
  }

  /** No buffer slot belongs to two nodes. */
  ghost predicate SlotsUnshared(v: TupleValue) {
    forall i: nat, j: nat :: i < NodeCount(v) && j < NodeCount(v) && SlotOf(v, i) == SlotOf(v, j) != NoSlot ==> i == j
  }

  ghost predicate SlotUsed(v: TupleValue, s: Slot) {
    exists i: nat :: i < NodeCount(v) && SlotOf(v, i) == s
  }

  ghost predicate SlotsUsed(v: TupleValue) {
    && (forall k: nat :: k < |v.payloads| ==> SlotUsed(v, PayloadSlot(k)))
    && (forall k: nat :: k < |v.reservations| ==> SlotUsed(v, TableSlot(k)))
  }

  /** The buffer address of node `i`, 0 when it has none. */
  function StorageAt(v: TupleValue, i: nat): nat
    requires i < NodeCount(v) && SlotExists(v, SlotOf(v, i))
  {
    AccountOf(v, SlotOf(v, i)).storage
  }

  ghost predicate StoragesDistinct(v: TupleValue)
    requires SlotsExist(v)
  {
    forall i: nat, j: nat :: i < j < NodeCount(v) && StorageAt(v, i) == StorageAt(v, j) ==> StorageAt(v, i) == 0
  }

  /** The tables encode one tree and every buffer slot belongs to exactly one node. */
  ghost predicate Structured(v: TupleValue) {
    && v.rootIndex == |v.nodes|
    && WellFormed(TableOf(v))
    && SlotsExist(v)
    && (forall i: nat :: i < NodeCount(v) ==> NodeFieldsOk(v, i))
    && SlotsUnshared(v)
    && SlotsUsed(v)
    && StoragesDistinct(v)
  }

  /** A structured value whose buffers and accounting fields are in order. */
  ghost predicate ValidTuple(buffers: seq<HostBuffer>, owners: set<nat>, v: TupleValue) {
    Structured(v) && forall i: nat :: i < NodeCount(v) ==> SlotOk(buffers, owners, v, i)
  }

  // ---------------------------------------------------------------- meaning

  datatype ValueTag = ScalarLeaf(value: ScalarValue) | VectorLeaf(element: ScalarType, elements: seq<int>) | TupleBranch

  type ValueTree = Tree<ValueTag>

  function ValueTagAt(v: TupleValue, i: nat): ValueTag
    requires i < NodeCount(v) && SlotExists(v, SlotOf(v, i))
  {
    match ContainerOf(v, i)
    case ScalarC => ScalarLeaf(v.nodes[i].scalar)
    case VectorC => VectorLeaf(v.payloads[v.nodes[i].payload].element, v.payloads[v.nodes[i].payload].elements)
    case _ => TupleBranch
  }

  ghost function ValueTags(v: TupleValue): (r: seq<ValueTag>)
    requires SlotsExist(v)
    ensures |r| == NodeCount(v) && forall i: nat :: i < |r| ==> r[i] == ValueTagAt(v, i)
  {
    seq(NodeCount(v), i requires 0 <= i < NodeCount(v) => ValueTagAt(v, i))
  }

  ghost function ValueAt(v: TupleValue, i: nat): ValueTree
    requires Structured(v) && i < NodeCount(v)
  {
    Denote(TableOf(v), ValueTags(v), i)
  }

  /** The tree a structured tuple value stands for. */
  ghost function ValueOf(v: TupleValue): ValueTree
    requires Structured(v)
  {
    ValueAt(v, v.rootIndex)
  }
}
