/** src/value.cpp:515-993: validation of tuple values. */
module ValueValidate {
  import opened Kinds
  import opened Arena
  import opened ArenaScan
  import opened HostStorage
  import opened ValueArenas

  datatype ValueInvariant =
    | UnknownContainer | UnknownScalarType | InactiveScalarField | InactiveVectorPayload | InvalidBooleanElement | NoncanonicalNan
    | InvalidValueRoot | NonfinalValueRoot | InactiveTupleField | InvalidTupleRange | OverlappingTupleRange | InvalidTupleChildIndex | NonPostorderTupleChild
    | AliasedTupleChild | InvalidVectorPayloadHandle | AliasedVectorPayload | OrphanValueNode | OrphanTupleEdge
    | OrphanVectorPayloadHandle | MissingTupleReservation | AliasedTupleReservation | InvalidTupleReservationCount
    | OrphanTupleReservation

  datatype ValueVerdict = ValidValue | InvalidValue(reason: ValueInvariant, node: nat, edge: Option<nat>)

  // ---------------------------------------------------------------- which node owns which buffer slot

  /** Position of a reservation in the owner flags; the root's own reservation comes last. */
  function TableIndex(v: TupleValue, s: Slot): nat {
    match s
    case TableSlot(k) => k
    case _ => |v.reservations|
  }

  predicate IsTable(s: Slot) {
    s.TableSlot? || s.RootSlot?
  }

  /** Another node has the slot of node `i`, or its buffer. */
  ghost predicate SharedAt(v: TupleValue, i: nat)
    requires i < NodeCount(v)
  {
    && SlotExists(v, SlotOf(v, i))
    && exists j: nat :: j < NodeCount(v) && j != i && SharesWith(v, i, j)
  }

  ghost predicate SharesWith(v: TupleValue, i: nat, j: nat)
    requires i < NodeCount(v) && j < NodeCount(v) && SlotExists(v, SlotOf(v, i))
  {
    SlotExists(v, SlotOf(v, j)) && (SlotOf(v, j) == SlotOf(v, i) != NoSlot || StorageAt(v, j) == StorageAt(v, i) != 0)
  }

  /** src/value.cpp:88-113: what is wrong with a scalar. */
  ghost predicate ScalarFault(s: ScalarValue, reason: ValueInvariant) {
    match reason
    case UnknownScalarType => s.element == UnknownScalar
    case InactiveScalarField =>
      || (s.element == Boolean && (s.integer != 0 || s.double != 0))
      || (s.element == Integer && (s.boolean || s.double != 0))
      || (s.element == DoublePrecision && (s.boolean || s.integer != 0))
    case NoncanonicalNan => s.element == DoublePrecision && !CanonicalDouble(s.double)
    case _ => false
  }

  /** src/value.cpp:365-470: what is wrong with a vector payload. */
  ghost predicate PayloadFault(buffers: seq<HostBuffer>, owners: set<nat>, p: Payload, reason: ValueInvariant) {
    match reason
    case UnknownScalarType => p.element == UnknownScalar
    case InactiveVectorPayload => (p.elements == []) != (p.account.storage == 0)
    case InvalidBooleanElement => p.element == Boolean && exists k :: 0 <= k < |p.elements| && !(0 <= p.elements[k] <= 1)
    case NoncanonicalNan => p.element == DoublePrecision && exists k :: 0 <= k < |p.elements| && !ValidElement(DoublePrecision, p.elements[k])
    case InvalidVectorPayloadHandle => ValidScalarType(p.element) && HandleFault(buffers, owners, p)
    case _ => false
  }

  /** The size, the buffer or the accounting does not go with the elements. */
  ghost predicate HandleFault(buffers: seq<HostBuffer>, owners: set<nat>, p: Payload)
    requires ValidScalarType(p.element)
  {
    || |p.elements| > SIZE_MAX / Width(p.element)
    || (p.account.storage != 0 &&
        !(ValidAddress(buffers, p.account.storage) && buffers[p.account.storage - 1].byteCount == |p.elements| * Width(p.element)))
    || !PayloadAccountOk(buffers, owners, p.account, |p.elements| * Width(p.element))
  }

  /** What each reported reason says about the value, at the reported node and edge. */
  ghost predicate ValueFault(buffers: seq<HostBuffer>, owners: set<nat>, v: TupleValue, reason: ValueInvariant, i: nat, edge: Option<nat>) {
    match reason
    case InvalidValueRoot => i == v.rootIndex > |v.nodes|
    case NonfinalValueRoot => i == v.rootIndex < |v.nodes|
    case OrphanValueNode => i < NodeCount(v) && !Reachable(TableOf(v), i)
    case OrphanTupleEdge => i == v.rootIndex && edge.Some? && edge.value < |v.childIndexes| && OrphanEdge(v, edge.value)
    case OrphanVectorPayloadHandle => i == v.rootIndex && exists k: nat :: k < |v.payloads| && !SlotUsed(v, PayloadSlot(k))
    case OrphanTupleReservation => i == v.rootIndex && exists k: nat :: k < |v.reservations| && !SlotUsed(v, TableSlot(k))
    case AliasedTupleChild => edge.Some? && exists j: nat :: j < NodeCount(v) && FaultAt(TableOf(v), j, Alias(i, edge.value))
    case _ => i < NodeCount(v) && NodeFault(buffers, owners, v, reason, i, edge)
  }

  ghost predicate OrphanEdge(v: TupleValue, e: nat) {
    forall j: nat :: j < NodeCount(v) && InSpan(TableOf(v).spans[j], e) ==> !Reachable(TableOf(v), j)
  }

  /** A reservation index one past the last names the root's own reservation. */
  ghost predicate NodeFault(buffers: seq<HostBuffer>, owners: set<nat>, v: TupleValue, reason: ValueInvariant, i: nat, edge: Option<nat>)
    requires i < NodeCount(v)
  {
    match reason
    case InvalidTupleRange => edge == Some(SpanOf(v, i).first) && !SpanInRange(TableOf(v), i)
    case OverlappingTupleRange => edge.Some? && FaultAt(TableOf(v), i, Overlap(edge.value))
    case InvalidTupleChildIndex => edge.Some? && FaultAt(TableOf(v), i, BadIndex(edge.value))
    case NonPostorderTupleChild => edge.Some? && FaultAt(TableOf(v), i, NotPostorder(edge.value))
    case AliasedVectorPayload => SlotOf(v, i).PayloadSlot? && SharedAt(v, i)
    case MissingTupleReservation => SlotOf(v, i).TableSlot? && SlotOf(v, i).index > |v.reservations|
    case AliasedTupleReservation => IsTable(SlotOf(v, i)) && (SharedAt(v, i) || SlotOf(v, i) == TableSlot(|v.reservations|))
    case InvalidTupleReservationCount => IsTable(SlotOf(v, i)) && SlotExists(v, SlotOf(v, i)) && !SlotOk(buffers, owners, v, i)
    case InvalidVectorPayloadHandle =>
      SlotOf(v, i).PayloadSlot? && (SlotExists(v, SlotOf(v, i)) ==> PayloadFault(buffers, owners, v.payloads[SlotOf(v, i).index], reason))
    case _ => FieldFault(v, reason, i) || (SlotOf(v, i).PayloadSlot? && SlotExists(v, SlotOf(v, i)) && PayloadFault(buffers, owners, v.payloads[SlotOf(v, i).index], reason))
  }

  /** What is wrong with the fields of one node. */
  ghost predicate FieldFault(v: TupleValue, reason: ValueInvariant, i: nat)
    requires i < NodeCount(v)
  {
    i < |v.nodes| &&
    var n := v.nodes[i];
    match reason
    case UnknownContainer => n.container == UnknownC
    case InactiveTupleField =>
      && n.container in {ScalarC, VectorC}
      && (n.firstChild != 0 || n.childCount != 0 || n.reservation != 0 || (n.container == ScalarC && n.payload != 0))
    case InactiveVectorPayload => n.container == TupleC && n.payload != 0
    case InactiveScalarField => if n.container == ScalarC then ScalarFault(n.scalar, reason) else n.container in {VectorC, TupleC} && n.scalar != EMPTY_SCALAR
    case _ => n.container == ScalarC && ScalarFault(n.scalar, reason)
  }

  /** The flags say exactly which slots the visited nodes own; `payloadBy` and `tableBy` are those nodes. */
  ghost predicate SlotFlags(v: TupleValue, visited: seq<bool>, payloadOwned: seq<bool>, tableOwned: seq<bool>,
                            payloadBy: seq<nat>, tableBy: seq<nat>) {
    && |visited| == NodeCount(v)
    && |payloadOwned| == |payloadBy| == |v.payloads|
    && |tableOwned| == |tableBy| == |v.reservations| + 1
    && (forall k: nat :: k < |payloadOwned| && payloadOwned[k] ==>
          payloadBy[k] < |visited| && visited[payloadBy[k]] && SlotOf(v, payloadBy[k]) == PayloadSlot(k))
    && (forall k: nat :: k < |tableOwned| && tableOwned[k] ==>
          tableBy[k] < |visited| && visited[tableBy[k]] && IsTable(SlotOf(v, tableBy[k])) && TableIndex(v, SlotOf(v, tableBy[k])) == k)
    && (forall i: nat :: i < |visited| && visited[i] ==>
          && SlotExists(v, SlotOf(v, i))
          && (SlotOf(v, i).PayloadSlot? ==> payloadOwned[SlotOf(v, i).index] && payloadBy[SlotOf(v, i).index] == i)
          && (IsTable(SlotOf(v, i)) ==> tableOwned[TableIndex(v, SlotOf(v, i))] && tableBy[TableIndex(v, SlotOf(v, i))] == i))
  }

  ghost predicate VisitedOk(buffers: seq<HostBuffer>, owners: set<nat>, v: TupleValue, visited: seq<bool>) {
    && |visited| == NodeCount(v)
    && forall i: nat :: i < |visited| && visited[i] ==> NodeFieldsOk(v, i) && SlotExists(v, SlotOf(v, i)) && SlotOk(buffers, owners, v, i)
  }

  ghost predicate VisitedStorages(v: TupleValue, visited: seq<bool>) {
    && |visited| == NodeCount(v)
    && (forall i: nat :: i < |visited| && visited[i] ==> SlotExists(v, SlotOf(v, i)))
    && forall i: nat, j: nat :: i < j < |visited| && visited[i] && visited[j] && StorageAt(v, i) == StorageAt(v, j) ==> StorageAt(v, i) == 0
  }

  /** A flagged slot other than `self` already has this buffer. */
  ghost predicate StorageTaken(v: TupleValue, storage: nat, self: Slot, payloadOwned: seq<bool>, tableOwned: seq<bool>)
    requires |payloadOwned| == |v.payloads| && |tableOwned| == |v.reservations| + 1
  {
    || (exists k: nat :: k < |payloadOwned| && payloadOwned[k] && self != PayloadSlot(k) && v.payloads[k].account.storage == storage)
    || (exists k: nat :: k < |v.reservations| && tableOwned[k] && self != TableSlot(k) && v.reservations[k].account.storage == storage)
    || (tableOwned[|v.reservations|] && self != RootSlot && v.rootReservation.account.storage == storage)
  }

  function WithFlag(flags: seq<bool>, take: bool, k: nat): seq<bool>
    requires take ==> k < |flags|
  {
    if take then flags[k := true] else flags
  }

  function WithOwner(nodes: seq<nat>, take: bool, k: nat, i: nat): seq<nat>
    requires take ==> k < |nodes|
  {
    if take then nodes[k := i] else nodes
  }

  /** The slot of `i` is free, so visiting `i` takes it. */
  predicate SlotFree(v: TupleValue, i: nat, payloadOwned: seq<bool>, tableOwned: seq<bool>)
    requires i < NodeCount(v) && SlotExists(v, SlotOf(v, i)) && |payloadOwned| == |v.payloads| && |tableOwned| == |v.reservations| + 1
  {
    match SlotOf(v, i)
    case NoSlot => true
    case PayloadSlot(k) => !payloadOwned[k]
    case TableSlot(k) => !tableOwned[k]
    case RootSlot => !tableOwned[|v.reservations|]
  }

  lemma TakeSlot(v: TupleValue, visited: seq<bool>, payloadOwned: seq<bool>, tableOwned: seq<bool>,
                 payloadBy: seq<nat>, tableBy: seq<nat>, i: nat)
    requires SlotFlags(v, visited, payloadOwned, tableOwned, payloadBy, tableBy)
    requires i < NodeCount(v) && !visited[i] && SlotExists(v, SlotOf(v, i)) && SlotFree(v, i, payloadOwned, tableOwned)
    ensures var s := SlotOf(v, i);
            var p, t := s.PayloadSlot?, IsTable(s);
            var k := if p then s.index else 0;
            SlotFlags(v, visited[i := true], WithFlag(payloadOwned, p, k), WithFlag(tableOwned, t, TableIndex(v, s)),
                      WithOwner(payloadBy, p, k, i), WithOwner(tableBy, t, TableIndex(v, s), i))
  {
  }

  /** A slot that is not free belongs to another node. */
  lemma TakenSlotShared(v: TupleValue, visited: seq<bool>, payloadOwned: seq<bool>, tableOwned: seq<bool>,
                        payloadBy: seq<nat>, tableBy: seq<nat>, i: nat)
    requires SlotFlags(v, visited, payloadOwned, tableOwned, payloadBy, tableBy)
    requires i < NodeCount(v) && !visited[i] && SlotExists(v, SlotOf(v, i)) && !SlotFree(v, i, payloadOwned, tableOwned)
    ensures !SlotsUnshared(v) && SharedAt(v, i)
  {
    var s := SlotOf(v, i);
    var j := if s.PayloadSlot? then payloadBy[s.index] else tableBy[TableIndex(v, s)];
    assert visited[j] && j != i && SlotOf(v, j) == s != NoSlot;
    assert SharesWith(v, i, j);
  }

  /** A buffer that is taken belongs to another node as well. */
  lemma TakenStorageShared(v: TupleValue, visited: seq<bool>, payloadOwned: seq<bool>, tableOwned: seq<bool>,
                           payloadBy: seq<nat>, tableBy: seq<nat>, i: nat)
    requires SlotFlags(v, visited, payloadOwned, tableOwned, payloadBy, tableBy)
    requires i < NodeCount(v) && !visited[i] && SlotExists(v, SlotOf(v, i)) && StorageAt(v, i) != 0
    requires StorageTaken(v, StorageAt(v, i), SlotOf(v, i), payloadOwned, tableOwned)
    ensures SharedAt(v, i) && (SlotsExist(v) ==> !StoragesDistinct(v))
  {
    var storage, self := StorageAt(v, i), SlotOf(v, i);
    var j: nat;
    if k: nat :| k < |payloadOwned| && payloadOwned[k] && self != PayloadSlot(k) && v.payloads[k].account.storage == storage {
      j := payloadBy[k];
      assert SlotOf(v, j) == PayloadSlot(k);
    } else if k: nat :| k < |v.reservations| && tableOwned[k] && self != TableSlot(k) && v.reservations[k].account.storage == storage {
      j := tableBy[k];
      assert TableIndex(v, SlotOf(v, j)) == k && IsTable(SlotOf(v, j));
    } else {
      j := tableBy[|v.reservations|];
      assert IsTable(SlotOf(v, j));
    }
    assert visited[j] && j != i && StorageAt(v, j) == storage;
    assert SharesWith(v, i, j);
    assert SlotsExist(v) ==> if i < j then i < j && StorageAt(v, i) == StorageAt(v, j) else j < i && StorageAt(v, j) == StorageAt(v, i);
  }

  lemma TakeStorage(v: TupleValue, visited: seq<bool>, payloadOwned: seq<bool>, tableOwned: seq<bool>,
                    payloadBy: seq<nat>, tableBy: seq<nat>, i: nat)
    requires SlotFlags(v, visited, payloadOwned, tableOwned, payloadBy, tableBy) && VisitedStorages(v, visited)
    requires i < NodeCount(v) && !visited[i] && SlotExists(v, SlotOf(v, i)) && SlotFree(v, i, payloadOwned, tableOwned)
    requires StorageAt(v, i) == 0 || !StorageTaken(v, StorageAt(v, i), SlotOf(v, i), payloadOwned, tableOwned)
    ensures VisitedStorages(v, visited[i := true])
  {
    forall j: nat | j < |visited| && visited[j] && StorageAt(v, i) != 0 ensures StorageAt(v, j) != StorageAt(v, i) {
      match SlotOf(v, j) {
        case PayloadSlot(k) => assert payloadOwned[k];
        case TableSlot(k) => assert tableOwned[k];
        case RootSlot => assert tableOwned[|v.reservations|];
        case NoSlot =>
      }
    }
  }

  // ---------------------------------------------------------------- the validation walk

  /** The tables of the walk: the edge flags shared with type validation, the slot flags, and who set them. */
  datatype Flags = Flags(visited: seq<bool>, owned: seq<bool>, parents: seq<nat>, payloadOwned: seq<bool>, tableOwned: seq<bool>,
                         owner: seq<nat>, via: seq<nat>, payloadBy: seq<nat>, tableBy: seq<nat>)

  ghost predicate EdgeInv(v: TupleValue, f: Flags, stack: seq<nat>) {
    var s := TableOf(v);
    && |f.visited| == |f.parents| == |s.spans|
    && OwnerTable(s, f.visited, f.owned, f.owner)
    && ParentTable(s, f.owned, f.parents, f.via)
    && StackInv(s, f.visited, f.parents, stack)
    && VisitedClaimed(s, f.visited, f.parents)
    && (f.visited[|v.nodes|] || stack == [|v.nodes|])
    && OnlyReachable(s, f.visited, stack)
  }

  ghost predicate NodeInv(buffers: seq<HostBuffer>, owners: set<nat>, v: TupleValue, f: Flags) {
    && SlotFlags(v, f.visited, f.payloadOwned, f.tableOwned, f.payloadBy, f.tableBy)
    && VisitedOk(buffers, owners, v, f.visited)
    && VisitedStorages(v, f.visited)
  }

  lemma EdgeStart(v: TupleValue, f: Flags)
    requires |f.visited| == |f.parents| == |f.via| == NodeCount(v) && |f.owned| == |f.owner| == |v.childIndexes|
    requires (forall i :: 0 <= i < |f.visited| ==> !f.visited[i] && f.parents[i] == 0) && (forall e :: 0 <= e < |f.owned| ==> !f.owned[e])
    ensures EdgeInv(v, f, [|v.nodes|])
  {
  }

  lemma NodeStart(buffers: seq<HostBuffer>, owners: set<nat>, v: TupleValue, f: Flags)
    requires |f.visited| == NodeCount(v) && forall i :: 0 <= i < |f.visited| ==> !f.visited[i]
    requires |f.payloadOwned| == |f.payloadBy| == |v.payloads| && forall k :: 0 <= k < |f.payloadOwned| ==> !f.payloadOwned[k]
    requires |f.tableOwned| == |f.tableBy| == |v.reservations| + 1 && forall k :: 0 <= k < |f.tableOwned| ==> !f.tableOwned[k]
    ensures NodeInv(buffers, owners, v, f)
  {
  }

  /** The popped node is new; unless it is the root, the root's slots are already taken. */
  lemma EdgeTop(v: TupleValue, f: Flags, rest: seq<nat>, i: nat)
    requires EdgeInv(v, f, rest + [i])
    ensures i < |f.visited| == NodeCount(v) && !f.visited[i]
    ensures i == |v.nodes| || f.visited[|v.nodes|]
    ensures OwnerTable(TableOf(v), f.visited, f.owned, f.owner) && ParentTable(TableOf(v), f.owned, f.parents, f.via)
  {
    assert i in rest + [i];
    assert (rest + [i])[|rest|] == i;
  }

  lemma EdgeStep(v: TupleValue, f: Flags, rest: seq<nat>, i: nat, f': Flags)
    requires EdgeInv(v, f, rest + [i]) && i < |f.visited| && SpanInRange(TableOf(v), i)
    requires f'.visited == f.visited[i := true]
    requires OwnerTable(TableOf(v), f'.visited, f'.owned, f'.owner) && ParentTable(TableOf(v), f'.owned, f'.parents, f'.via)
    requires Marked(f.parents, f'.parents, Kids(TableOf(v), i)) && (forall j :: j in Kids(TableOf(v), i) ==> j < i)
    ensures EdgeInv(v, f', rest + Reverse(Kids(TableOf(v), i)))
    ensures |rest| + |Kids(TableOf(v), i)| <= |v.childIndexes| + 1
  {
    var s := TableOf(v);
    EdgeTop(v, f, rest, i);
    hide OwnerTable;
    StackStep(s, f.visited, f.parents, rest, i, f'.parents);
    OnlyReachableStep(s, f.visited, rest, i);
    StackFits(s, f'.visited, f'.owned, f'.parents, f'.via, rest + Reverse(Kids(s, i)));
  }

  lemma NodeStep(buffers: seq<HostBuffer>, owners: set<nat>, v: TupleValue, f: Flags, i: nat, f': Flags)
    requires NodeInv(buffers, owners, v, f) && i < |f.visited| && !f.visited[i]
    requires NodeFieldsOk(v, i) && SlotExists(v, SlotOf(v, i)) && SlotOk(buffers, owners, v, i)
    requires SlotFree(v, i, f.payloadOwned, f.tableOwned)
    requires StorageAt(v, i) == 0 || !StorageTaken(v, StorageAt(v, i), SlotOf(v, i), f.payloadOwned, f.tableOwned)
    requires var s := SlotOf(v, i);
             var p, t := s.PayloadSlot?, IsTable(s);
             var k := if p then s.index else 0;
             && f'.visited == f.visited[i := true]
             && f'.payloadOwned == WithFlag(f.payloadOwned, p, k) && f'.tableOwned == WithFlag(f.tableOwned, t, TableIndex(v, s))
             && f'.payloadBy == WithOwner(f.payloadBy, p, k, i) && f'.tableBy == WithOwner(f.tableBy, t, TableIndex(v, s), i)
    ensures NodeInv(buffers, owners, v, f')
  {
    assert VisitedOk(buffers, owners, v, f'.visited);
    hide NodeFieldsOk, SlotOk, StorageTaken;
    TakeSlot(v, f.visited, f.payloadOwned, f.tableOwned, f.payloadBy, f.tableBy, i);
    TakeStorage(v, f.visited, f.payloadOwned, f.tableOwned, f.payloadBy, f.tableBy, i);
  }

  /** When the stack is empty the flags decide validity. */
  lemma FlagsDecide(buffers: seq<HostBuffer>, owners: set<nat>, v: TupleValue, f: Flags)
    requires EdgeInv(v, f, []) && NodeInv(buffers, owners, v, f) && v.rootIndex == |v.nodes|
    ensures ValidTuple(buffers, owners, v) <==>
              && (forall i :: 0 <= i < |f.visited| ==> f.visited[i]) && (forall e :: 0 <= e < |f.owned| ==> f.owned[e])
              && (forall k :: 0 <= k < |f.payloadOwned| ==> f.payloadOwned[k]) && (forall k :: 0 <= k < |f.tableOwned| ==> f.tableOwned[k])
  {
    ScanDecides(TableOf(v), f.visited, f.owned, f.parents, f.owner, f.via);
    hide EdgeInv, WellFormed;
    if (forall i :: 0 <= i < |f.visited| ==> f.visited[i]) {
      AllSlotsOk(buffers, owners, v, f);
      if ValidTuple(buffers, owners, v) {
        SlotsUsedMeansFlags(buffers, owners, v, f);
      }
    }
  }

  lemma SlotsUsedMeansFlags(buffers: seq<HostBuffer>, owners: set<nat>, v: TupleValue, f: Flags)
    requires NodeInv(buffers, owners, v, f) && (forall i :: 0 <= i < |f.visited| ==> f.visited[i]) && SlotsUsed(v)
    ensures (forall k :: 0 <= k < |f.payloadOwned| ==> f.payloadOwned[k]) && (forall k :: 0 <= k < |f.tableOwned| ==> f.tableOwned[k])
  {
    forall k | 0 <= k < |f.payloadOwned| ensures f.payloadOwned[k] {
      assert SlotUsed(v, PayloadSlot(k));
      var i: nat :| i < NodeCount(v) && SlotOf(v, i) == PayloadSlot(k);
      assert f.visited[i];
    }
    forall k | 0 <= k < |f.tableOwned| ensures f.tableOwned[k] {
      if k < |v.reservations| {
        assert SlotUsed(v, TableSlot(k));
        var i: nat :| i < NodeCount(v) && SlotOf(v, i) == TableSlot(k);
        assert f.visited[i];
      } else {
        assert f.visited[|v.nodes|] && SlotOf(v, |v.nodes|) == RootSlot;
      }
    }
  }

  lemma AllSlotsOk(buffers: seq<HostBuffer>, owners: set<nat>, v: TupleValue, f: Flags)
    requires NodeInv(buffers, owners, v, f) && forall i :: 0 <= i < |f.visited| ==> f.visited[i]
    ensures SlotsExist(v) && SlotsUnshared(v) && StoragesDistinct(v)
    ensures forall i: nat :: i < NodeCount(v) ==> NodeFieldsOk(v, i) && SlotOk(buffers, owners, v, i)
    ensures (forall k :: 0 <= k < |f.payloadOwned| ==> f.payloadOwned[k]) && (forall k :: 0 <= k < |f.tableOwned| ==> f.tableOwned[k]) ==> SlotsUsed(v)
  {
    forall i: nat | i < NodeCount(v) ensures NodeFieldsOk(v, i) && SlotExists(v, SlotOf(v, i)) && SlotOk(buffers, owners, v, i) {
      assert f.visited[i];
    }
    forall i: nat, j: nat | i < NodeCount(v) && j < NodeCount(v) && SlotOf(v, i) == SlotOf(v, j) != NoSlot ensures i == j {
      assert f.visited[i] && f.visited[j];
    }
    forall i: nat, j: nat | i < j < NodeCount(v) && StorageAt(v, i) == StorageAt(v, j) ensures StorageAt(v, i) == 0 {
      assert f.visited[i] && f.visited[j];
    }
    if (forall k :: 0 <= k < |f.payloadOwned| ==> f.payloadOwned[k]) && (forall k :: 0 <= k < |f.tableOwned| ==> f.tableOwned[k]) {
      forall k: nat | k < |v.payloads| ensures SlotUsed(v, PayloadSlot(k)) {
        assert f.payloadOwned[k] && SlotOf(v, f.payloadBy[k]) == PayloadSlot(k);
      }
      RootTableIsRoot(v, f);
      forall k: nat | k < |v.reservations| ensures SlotUsed(v, TableSlot(k)) {
        assert f.tableOwned[k] && TableIndex(v, SlotOf(v, f.tableBy[k])) == k;
      }
    }
  }

  lemma RootTableIsRoot(v: TupleValue, f: Flags)
    ensures forall s: Slot :: IsTable(s) && TableIndex(v, s) < |v.reservations| ==> s == TableSlot(TableIndex(v, s))
  {
  }

  // ---------------------------------------------------------------- the validator

  /** Reasons that name no edge. */
  predicate PlainFault(reason: ValueInvariant) {
    reason in {UnknownContainer, UnknownScalarType, InactiveScalarField, InactiveVectorPayload, InvalidBooleanElement, NoncanonicalNan, InactiveTupleField}
  }

  /** src/value.cpp:88-113. */
  method CheckScalar(s: ScalarValue) returns (fault: Option<ValueInvariant>)
    ensures fault == None <==> ValidScalar(s)
    ensures fault.Some? ==> ScalarFault(s, fault.value) && PlainFault(fault.value)
  {
    match s.element
    case Boolean => fault := if s.integer != 0 || s.double != 0 then Some(InactiveScalarField) else None;
    case Integer => fault := if s.boolean || s.double != 0 then Some(InactiveScalarField) else None;
    case DoublePrecision =>
      fault := if s.boolean || s.integer != 0 then Some(InactiveScalarField)
               else if !CanonicalDouble(s.double) then Some(NoncanonicalNan) else None;
    case UnknownScalar => fault := Some(UnknownScalarType);
  }

  /** src/value.cpp:365-470: the type, the buffer, the elements, then the accounting. */
  method CheckPayload(buffers: seq<HostBuffer>, owners: set<nat>, p: Payload) returns (fault: Option<ValueInvariant>)
    ensures fault == None <==> PayloadOk(buffers, owners, p)
    ensures fault.Some? ==> PayloadFault(buffers, owners, p, fault.value) && (PlainFault(fault.value) || fault.value == InvalidVectorPayloadHandle)
  {
    hide PayloadAccountOk, CanonicalDouble;
    if !ValidScalarType(p.element) {
      return Some(UnknownScalarType);
    }
    if (p.elements == []) != (p.account.storage == 0) {
      return Some(InactiveVectorPayload);
    }
    var count, width := |p.elements|, Width(p.element);
    if count > SIZE_MAX / width
       || (p.account.storage != 0 && !(ValidAddress(buffers, p.account.storage) && buffers[p.account.storage - 1].byteCount == count * width)) {
      return Some(InvalidVectorPayloadHandle);
    }
    if p.element != Integer {
      for k := 0 to count
        invariant forall j :: 0 <= j < k ==> ValidElement(p.element, p.elements[j])
      {
        if !ValidElement(p.element, p.elements[k]) {
          return Some(if p.element == Boolean then InvalidBooleanElement else NoncanonicalNan);
        }
      }
    }
    return if PayloadAccountOk(buffers, owners, p.account, count * width) then None else Some(InvalidVectorPayloadHandle);
  }

  /** src/value.cpp:744-775, 824-841: the fields of one node. */
  method CheckFields(v: TupleValue, i: nat) returns (r: ValueVerdict)
    requires i < NodeCount(v)
    ensures r == ValidValue <==> NodeFieldsOk(v, i)
    ensures r.InvalidValue? ==> r.node == i && FieldFault(v, r.reason, i) && PlainFault(r.reason)
  {
    if i == |v.nodes| {
      return ValidValue;
    }
    var n := v.nodes[i];
    if n.container == ScalarC {
      if n.firstChild != 0 || n.childCount != 0 || n.reservation != 0 || n.payload != 0 {
        return InvalidValue(InactiveTupleField, i, None);
      }
      var fault := CheckScalar(n.scalar);
      return if fault.Some? then InvalidValue(fault.value, i, None) else ValidValue;
    }
    if n.container == VectorC {
      if n.scalar != EMPTY_SCALAR {
        return InvalidValue(InactiveScalarField, i, None);
      }
      if n.firstChild != 0 || n.childCount != 0 || n.reservation != 0 {
        return InvalidValue(InactiveTupleField, i, None);
      }
      return ValidValue;
    }
    if n.container != TupleC {
      return InvalidValue(UnknownContainer, i, None);
    }
    if n.scalar != EMPTY_SCALAR {
      return InvalidValue(InactiveScalarField, i, None);
    }
    if n.payload != 0 {
      return InvalidValue(InactiveVectorPayload, i, None);
    }
    return ValidValue;
  }

  /** src/value.cpp:784-813, 888-919: does another slot seen so far have this buffer? */
  method FindStorage(v: TupleValue, storage: nat, self: Slot, payloadOwned: array<bool>, tableOwned: array<bool>) returns (taken: bool)
    requires payloadOwned.Length == |v.payloads| && tableOwned.Length == |v.reservations| + 1
    ensures taken <==> StorageTaken(v, storage, self, payloadOwned[..], tableOwned[..])
  {
    for k := 0 to payloadOwned.Length
      invariant forall j :: 0 <= j < k ==> !(payloadOwned[j] && self != PayloadSlot(j) && v.payloads[j].account.storage == storage)
    {
      if payloadOwned[k] && self != PayloadSlot(k) && v.payloads[k].account.storage == storage {
        assert payloadOwned[..][k];
        return true;
      }
    }
    for k := 0 to |v.reservations|
      invariant forall j :: 0 <= j < k ==> !(tableOwned[j] && self != TableSlot(j) && v.reservations[j].account.storage == storage)
    {
      if tableOwned[k] && self != TableSlot(k) && v.reservations[k].account.storage == storage {
        assert tableOwned[..][k];
        return true;
      }
    }
    taken := tableOwned[|v.reservations|] && self != RootSlot && v.rootReservation.account.storage == storage;
  }

  /** Reasons that the slot of a node may give. */
  predicate SlotFault(reason: ValueInvariant) {
    PlainFault(reason) || reason in {InvalidVectorPayloadHandle, AliasedVectorPayload, MissingTupleReservation, AliasedTupleReservation, InvalidTupleReservationCount}
  }

  /** src/value.cpp:776-823, 874-953: take the buffer slot of one node. */
  method TakeNodeSlot(ghost owners: set<nat>, liveOwners: set<nat>, buffers: seq<HostBuffer>, v: TupleValue, i: nat,
                      payloadOwned: array<bool>, tableOwned: array<bool>, ghost f: Flags)
    returns (r: ValueVerdict)
    requires liveOwners == owners && payloadOwned != tableOwned
    requires i < NodeCount(v) && NodeInv(buffers, owners, v, f) && !f.visited[i]
    requires f.payloadOwned == payloadOwned[..] && f.tableOwned == tableOwned[..]
    requires i == |v.nodes| || f.visited[|v.nodes|]
    modifies payloadOwned, tableOwned
    ensures r != ValidValue ==> !(SlotsExist(v) && SlotsUnshared(v) && StoragesDistinct(v) && SlotOk(buffers, owners, v, i))
    ensures r.InvalidValue? ==> r.node == i && NodeFault(buffers, owners, v, r.reason, i, r.edge) && SlotFault(r.reason)
    ensures r == ValidValue ==>
              && SlotExists(v, SlotOf(v, i)) && SlotOk(buffers, owners, v, i) && SlotFree(v, i, f.payloadOwned, f.tableOwned)
              && (StorageAt(v, i) == 0 || !StorageTaken(v, StorageAt(v, i), SlotOf(v, i), f.payloadOwned, f.tableOwned))
              && payloadOwned[..] == WithFlag(f.payloadOwned, SlotOf(v, i).PayloadSlot?, if SlotOf(v, i).PayloadSlot? then SlotOf(v, i).index else 0)
              && tableOwned[..] == WithFlag(f.tableOwned, IsTable(SlotOf(v, i)), TableIndex(v, SlotOf(v, i)))
  {
    hide VisitedOk, VisitedStorages, PayloadFault, FieldFault, PayloadOk, ReservationOk, SharedAt, StorageTaken, SlotsUnshared, StoragesDistinct;
    var slot := SlotOf(v, i);
    if i != |v.nodes| { RootTaken(buffers, owners, v, f, i); }
    if slot == NoSlot {
      return ValidValue;
    }
    if slot.PayloadSlot? {
      if slot.index >= |v.payloads| {
        return InvalidValue(InvalidVectorPayloadHandle, i, None);
      }
      if payloadOwned[slot.index] {
        TakenSlotShared(v, f.visited, f.payloadOwned, f.tableOwned, f.payloadBy, f.tableBy, i);
        return InvalidValue(AliasedVectorPayload, i, None);
      }
    } else {
      if slot.TableSlot? && slot.index > |v.reservations| {
        return InvalidValue(MissingTupleReservation, i, None);
      }
      if tableOwned[TableIndex(v, slot)] {
        if SlotExists(v, slot) { TakenSlotShared(v, f.visited, f.payloadOwned, f.tableOwned, f.payloadBy, f.tableBy, i); }
        return InvalidValue(AliasedTupleReservation, i, None);
      }
    }
    var storage := StorageAt(v, i);
    if storage != 0 {
      var taken := FindStorage(v, storage, slot, payloadOwned, tableOwned);
      if taken {
        TakenStorageShared(v, f.visited, f.payloadOwned, f.tableOwned, f.payloadBy, f.tableBy, i);
        return InvalidValue(if slot.PayloadSlot? then AliasedVectorPayload else AliasedTupleReservation, i, None);
      }
    }
    if slot.PayloadSlot? {
      var fault := CheckPayload(buffers, liveOwners, v.payloads[slot.index]);
      if fault.Some? {
        return InvalidValue(fault.value, i, None);
      }
    } else if !SlotOk(buffers, liveOwners, v, i) {
      return InvalidValue(InvalidTupleReservationCount, i, None);
    }
    if slot.PayloadSlot? {
      payloadOwned[slot.index] := true;
      assert payloadOwned[..] == f.payloadOwned[slot.index := true];
    } else {
      tableOwned[TableIndex(v, slot)] := true;
      assert tableOwned[..] == f.tableOwned[TableIndex(v, slot) := true];
    }
    return ValidValue;
  }

  lemma RootTaken(buffers: seq<HostBuffer>, owners: set<nat>, v: TupleValue, f: Flags, i: nat)
    requires NodeInv(buffers, owners, v, f) && f.visited[|v.nodes|]
    ensures f.tableOwned[|v.reservations|]
  {
    assert SlotOf(v, |v.nodes|) == RootSlot;
  }

  function FaultVerdict(i: nat, f: Fault): (r: ValueVerdict)
    requires f != NoFault
    ensures r.InvalidValue?
  {
    match f
    case Overlap(e) => InvalidValue(OverlappingTupleRange, i, Some(e))
    case BadIndex(e) => InvalidValue(InvalidTupleChildIndex, i, Some(e))
    case NotPostorder(e) => InvalidValue(NonPostorderTupleChild, i, Some(e))
    case Alias(c, e) => InvalidValue(AliasedTupleChild, c, Some(e))
  }

  /** The local tables of the validator. */
  class Tables {
    const visited: array<bool>
    const owned: array<bool>
    const parents: array<nat>
    const payloadOwned: array<bool>
    const tableOwned: array<bool>
    const stack: array<nat>

    ghost predicate For(v: TupleValue) {
      && visited.Length == parents.Length == NodeCount(v)
      && owned.Length == |v.childIndexes| && stack.Length == |v.childIndexes| + 1
      && payloadOwned.Length == |v.payloads| && tableOwned.Length == |v.reservations| + 1
      && visited != owned && visited != payloadOwned && visited != tableOwned
      && owned != payloadOwned && owned != tableOwned && payloadOwned != tableOwned && parents != stack
    }

    constructor (v: TupleValue)
      ensures For(v) && fresh(visited) && fresh(owned) && fresh(parents) && fresh(payloadOwned) && fresh(tableOwned) && fresh(stack)
      ensures forall i :: 0 <= i < visited.Length ==> !visited[i] && parents[i] == 0
      ensures forall e :: 0 <= e < owned.Length ==> !owned[e]
      ensures forall k :: 0 <= k < payloadOwned.Length ==> !payloadOwned[k]
      ensures forall k :: 0 <= k < tableOwned.Length ==> !tableOwned[k]
    {
      visited := new bool[NodeCount(v)](_ => false);
      owned := new bool[|v.childIndexes|](_ => false);
      parents := new nat[NodeCount(v)](_ => 0);
      payloadOwned := new bool[|v.payloads|](_ => false);
      tableOwned := new bool[|v.reservations| + 1](_ => false);
      stack := new nat[|v.childIndexes| + 1];
    }

    ghost predicate Show(f: Flags)
      reads visited, owned, parents, payloadOwned, tableOwned
    {
      && f.visited == visited[..] && f.owned == owned[..] && f.parents == parents[..]
      && f.payloadOwned == payloadOwned[..] && f.tableOwned == tableOwned[..]
    }
  }

  /** The edges of `i` are claimed: each has an owner, each child a parent. */
  ghost predicate Claimed(v: TupleValue, f: Flags, i: nat, f': Flags)
    requires i < NodeCount(v)
  {
    && SpanInRange(TableOf(v), i) && i < |f.visited|
    && f'.visited == f.visited[i := true]
    && OwnerTable(TableOf(v), f'.visited, f'.owned, f'.owner) && ParentTable(TableOf(v), f'.owned, f'.parents, f'.via)
    && Marked(f.parents, f'.parents, Kids(TableOf(v), i)) && (forall j :: j in Kids(TableOf(v), i) ==> j < i)
  }

  /** src/value.cpp:735-951: check one node and claim its children and its slot. */
  method ClaimNode(buffers: seq<HostBuffer>, owners: set<nat>, v: TupleValue, t: Tables, i: nat, ghost f: Flags)
    returns (r: ValueVerdict, ghost f': Flags)
    requires t.For(v) && t.Show(f) && i < |f.visited| == NodeCount(v) && !f.visited[i] && (i == |v.nodes| || f.visited[|v.nodes|])
    requires OwnerTable(TableOf(v), f.visited, f.owned, f.owner) && ParentTable(TableOf(v), f.owned, f.parents, f.via)
    requires NodeInv(buffers, owners, v, f)
    modifies t.visited, t.owned, t.parents, t.payloadOwned, t.tableOwned
    ensures r != ValidValue ==> !ValidTuple(buffers, owners, v)
    ensures r.InvalidValue? ==> ValueFault(buffers, owners, v, r.reason, r.node, r.edge)
    ensures r == ValidValue ==> t.Show(f') && Claimed(v, f, i, f') && NodeInv(buffers, owners, v, f')
  {
    hide EdgeInv, NodeInv, OwnerTable, ParentTable, Marked, NodeFieldsOk, SlotOk, SlotFree, SlotsExist, SlotsUnshared, StoragesDistinct,
         StorageTaken, WellFormed, SlotsUsed, TableOf, Reverse, WithFlag, WithOwner, SlotOf, ContainerOf, StorageAt, FaultAt, SlotExists,
         Claimed, NodeFault, ValueFault, FieldFault, FaultVerdict;
    f' := f;
    t.visited[i] := true;
    assert t.visited[..] == f.visited[i := true];
    r := CheckFields(v, i);
    if r != ValidValue {
      FieldsRefute(buffers, owners, v, i);
      FieldFaultIs(buffers, owners, v, r.reason, i, r.edge);
      return;
    }
    var span := SpanOf(v, i);
    if span.first > |v.childIndexes| || span.count > |v.childIndexes| - span.first {
      r := InvalidValue(InvalidTupleRange, i, Some(span.first));
      RangeRefutes(v, i);
      RangeFault(buffers, owners, v, i);
      return;
    }
    ghost var owner, via;
    var fault;
    fault, owner, via := ClaimChildren(TableOf(v), i, f.visited, t.owned, t.parents, f.owner, f.via);
    if fault != NoFault {
      FaultRefutes(TableOf(v), i, fault);
      r := FaultVerdict(i, fault);
      ScanFault(buffers, owners, v, i, fault);
      return;
    }
    r := TakeNodeSlot(owners, owners, buffers, v, i, t.payloadOwned, t.tableOwned, f);
    if r != ValidValue {
      NodeFaultIs(buffers, owners, v, r.reason, i, r.edge);
      return;
    }
    ghost var slot := SlotOf(v, i);
    NodeSizes(buffers, owners, v, f);
    SlotInRange(v, i);
    f' := Flags(t.visited[..], t.owned[..], t.parents[..], t.payloadOwned[..], t.tableOwned[..], owner, via,
                WithOwner(f.payloadBy, slot.PayloadSlot?, if slot.PayloadSlot? then slot.index else 0, i),
                WithOwner(f.tableBy, IsTable(slot), TableIndex(v, slot), i));
    NodeStep(buffers, owners, v, f, i, f');
    IsClaimed(v, f, i, f');
  }

  lemma IsClaimed(v: TupleValue, f: Flags, i: nat, f': Flags)
    requires i < NodeCount(v) && SpanInRange(TableOf(v), i) && i < |f.visited| && f'.visited == f.visited[i := true]
    requires OwnerTable(TableOf(v), f'.visited, f'.owned, f'.owner) && ParentTable(TableOf(v), f'.owned, f'.parents, f'.via)
    requires Marked(f.parents, f'.parents, Kids(TableOf(v), i)) && (forall j :: j in Kids(TableOf(v), i) ==> j < i)
    ensures Claimed(v, f, i, f')
  {
  }

  /** src/value.cpp:727-967: one iteration of the walk. */
  method VisitNode(buffers: seq<HostBuffer>, owners: set<nat>, v: TupleValue, t: Tables, size: nat, ghost f: Flags)
    returns (r: ValueVerdict, size': nat, ghost f': Flags)
    requires t.For(v) && t.Show(f) && 0 < size <= t.stack.Length
    requires EdgeInv(v, f, t.stack[..size]) && NodeInv(buffers, owners, v, f)
    modifies t.visited, t.owned, t.parents, t.payloadOwned, t.tableOwned, t.stack
    ensures r != ValidValue ==> !ValidTuple(buffers, owners, v)
    ensures r.InvalidValue? ==> ValueFault(buffers, owners, v, r.reason, r.node, r.edge)
    ensures r == ValidValue ==>
              && t.Show(f') && size' <= t.stack.Length
              && EdgeInv(v, f', t.stack[..size']) && NodeInv(buffers, owners, v, f')
              && Unvisited(f'.visited) < Unvisited(f.visited)
  {
    hide EdgeInv, NodeInv, OwnerTable, ParentTable, Marked, WellFormed, TableOf, Reverse, ValidTuple;
    size', f' := size - 1, f;
    var i := t.stack[size'];
    ghost var rest := t.stack[..size'];
    assert t.stack[..size] == rest + [i];
    EdgeTop(v, f, rest, i);
    if t.visited[i] {
      assert false; // a stacked node is never a visited one
    }
    r, f' := ClaimNode(buffers, owners, v, t, i, f);
    if r != ValidValue {
      return;
    }
    EdgeStep(v, f, rest, i, f');
    var span := SpanOf(v, i);
    var ok;
    ok, size' := PushChildren(t.stack, size', v.childIndexes, span.first, span.count);
    assert ok; // edges + 1 entries suffice
    assert i in Unvisited(f.visited) && i !in Unvisited(f'.visited);
  }

  lemma FieldsRefute(buffers: seq<HostBuffer>, owners: set<nat>, v: TupleValue, i: nat)
    requires i < NodeCount(v) && !NodeFieldsOk(v, i)
    ensures !ValidTuple(buffers, owners, v)
  {
  }

  lemma RangeRefutes(v: TupleValue, i: nat)
    requires i < NodeCount(v) && SpanOf(v, i).first + SpanOf(v, i).count > |v.childIndexes|
    ensures !WellFormed(TableOf(v))
  {
    assert TableOf(v).spans[i] == SpanOf(v, i);
  }

  lemma RangeFault(buffers: seq<HostBuffer>, owners: set<nat>, v: TupleValue, i: nat)
    requires i < NodeCount(v) && SpanOf(v, i).first + SpanOf(v, i).count > |v.childIndexes|
    ensures ValueFault(buffers, owners, v, InvalidTupleRange, i, Some(SpanOf(v, i).first))
  {
    assert TableOf(v).spans[i] == SpanOf(v, i);
  }

  lemma NodeFaultIs(buffers: seq<HostBuffer>, owners: set<nat>, v: TupleValue, reason: ValueInvariant, i: nat, edge: Option<nat>)
    requires i < NodeCount(v) && NodeFault(buffers, owners, v, reason, i, edge) && SlotFault(reason)
    ensures ValueFault(buffers, owners, v, reason, i, edge)
  {
    hide NodeFault;
  }

  lemma FieldFaultIs(buffers: seq<HostBuffer>, owners: set<nat>, v: TupleValue, reason: ValueInvariant, i: nat, edge: Option<nat>)
    requires i < NodeCount(v) && FieldFault(v, reason, i) && PlainFault(reason)
    ensures ValueFault(buffers, owners, v, reason, i, edge)
  {
    hide FieldFault, PayloadFault;
    assert NodeFault(buffers, owners, v, reason, i, edge);
  }

  lemma ScanFault(buffers: seq<HostBuffer>, owners: set<nat>, v: TupleValue, i: nat, f: Fault)
    requires i < NodeCount(v) && f != NoFault && FaultAt(TableOf(v), i, f)
    ensures var r := FaultVerdict(i, f); ValueFault(buffers, owners, v, r.reason, r.node, r.edge)
  {
    match f
    case Overlap(_) => hide FaultAt, TableOf;
    case BadIndex(_) => hide FaultAt, TableOf;
    case NotPostorder(_) => hide FaultAt, TableOf;
    case Alias(_, _) => hide FaultAt, TableOf;
  }

  lemma NodeSizes(buffers: seq<HostBuffer>, owners: set<nat>, v: TupleValue, f: Flags)
    requires NodeInv(buffers, owners, v, f)
    ensures |f.payloadBy| == |v.payloads| && |f.tableBy| == |v.reservations| + 1
  {
  }

  lemma SlotInRange(v: TupleValue, i: nat)
    requires i < NodeCount(v) && SlotExists(v, SlotOf(v, i))
    ensures SlotOf(v, i).PayloadSlot? ==> SlotOf(v, i).index < |v.payloads|
    ensures IsTable(SlotOf(v, i)) ==> TableIndex(v, SlotOf(v, i)) <= |v.reservations|
  {
  }

  predicate AllTrue(flags: seq<bool>) {
    forall k :: 0 <= k < |flags| ==> flags[k]
  }

  /** The first flag that is not set. */
  method FirstUnset(flags: array<bool>) returns (index: nat)
    ensures index <= flags.Length && forall k :: 0 <= k < index ==> flags[k]
    ensures index < flags.Length ==> !flags[index]
    ensures index == flags.Length <==> AllTrue(flags[..])
  {
    for k := 0 to flags.Length
      invariant forall j :: 0 <= j < k ==> flags[j]
    {
      if !flags[k] {
        assert !flags[..][k];
        return k;
      }
    }
    index := flags.Length;
  }

  /** src/value.cpp:969-992: anything left unflagged is an orphan. */
  method FindOrphans(v: TupleValue, t: Tables, ghost f: Flags) returns (r: ValueVerdict)
    requires t.Show(f)
    ensures r == ValidValue <==> AllTrue(f.visited) && AllTrue(f.owned) && AllTrue(f.payloadOwned) && AllTrue(f.tableOwned)
    ensures r.InvalidValue? ==> Orphaned(v, f, r.reason, r.node, r.edge)
  {
    var index := FirstUnset(t.visited);
    if index < t.visited.Length { return InvalidValue(OrphanValueNode, index, None); }
    index := FirstUnset(t.owned);
    if index < t.owned.Length { return InvalidValue(OrphanTupleEdge, v.rootIndex, Some(index)); }
    index := FirstUnset(t.payloadOwned);
    if index < t.payloadOwned.Length { return InvalidValue(OrphanVectorPayloadHandle, v.rootIndex, None); }
    index := FirstUnset(t.tableOwned);
    if index < t.tableOwned.Length { return InvalidValue(OrphanTupleReservation, v.rootIndex, None); }
    return ValidValue;
  }

  /** The first of the four flag tables that is not all set, and the place where it is not. */
  ghost predicate Orphaned(v: TupleValue, f: Flags, reason: ValueInvariant, i: nat, edge: Option<nat>) {
    match reason
    case OrphanValueNode => i < |f.visited| && !f.visited[i]
    case OrphanTupleEdge => i == v.rootIndex && AllTrue(f.visited) && edge.Some? && edge.value < |f.owned| && !f.owned[edge.value]
    case OrphanVectorPayloadHandle => i == v.rootIndex && AllTrue(f.visited) && !AllTrue(f.payloadOwned)
    case OrphanTupleReservation => i == v.rootIndex && AllTrue(f.visited) && !AllTrue(f.tableOwned)
    case _ => false
  }

  lemma OrphanScan(buffers: seq<HostBuffer>, owners: set<nat>, v: TupleValue, f: Flags, reason: ValueInvariant, i: nat, edge: Option<nat>)
    requires EdgeInv(v, f, []) && Orphaned(v, f, reason, i, edge) && (reason == OrphanValueNode || reason == OrphanTupleEdge)
    ensures ValueFault(buffers, owners, v, reason, i, edge)
  {
    UnflaggedIsOrphan(TableOf(v), f.visited, f.owned, f.parents, f.owner, f.via);
    hide OwnerTable, ParentTable, StackInv, VisitedClaimed, OnlyReachable, Reachable;
  }

  lemma OrphanSlot(v: TupleValue, f: Flags, k: nat)
    requires SlotFlags(v, f.visited, f.payloadOwned, f.tableOwned, f.payloadBy, f.tableBy) && AllTrue(f.visited)
    ensures k < |f.payloadOwned| && !f.payloadOwned[k] ==> !SlotUsed(v, PayloadSlot(k))
    ensures k < |f.tableOwned| && !f.tableOwned[k] ==> k < |v.reservations| && !SlotUsed(v, TableSlot(k))
  {
    assert f.visited[|v.nodes|] && SlotOf(v, |v.nodes|) == RootSlot;
    forall j: nat | j < NodeCount(v)
      ensures k < |f.payloadOwned| && !f.payloadOwned[k] ==> SlotOf(v, j) != PayloadSlot(k)
      ensures k < |f.tableOwned| && !f.tableOwned[k] ==> SlotOf(v, j) != TableSlot(k)
    {
      assert f.visited[j];
    }
  }

  /** What was not met is an orphan. */
  lemma OrphanFault(buffers: seq<HostBuffer>, owners: set<nat>, v: TupleValue, f: Flags, reason: ValueInvariant, i: nat, edge: Option<nat>)
    requires EdgeInv(v, f, []) && NodeInv(buffers, owners, v, f) && Orphaned(v, f, reason, i, edge)
    ensures ValueFault(buffers, owners, v, reason, i, edge)
  {
    hide EdgeInv, SlotFlags, VisitedOk, VisitedStorages, Reachable, OrphanEdge;
    if reason == OrphanValueNode || reason == OrphanTupleEdge {
      OrphanScan(buffers, owners, v, f, reason, i, edge);
    } else if reason == OrphanVectorPayloadHandle {
      var k :| 0 <= k < |f.payloadOwned| && !f.payloadOwned[k];
      OrphanSlot(v, f, k);
      FlagSizes(v, f);
    } else {
      var k :| 0 <= k < |f.tableOwned| && !f.tableOwned[k];
      OrphanSlot(v, f, k);
    }
  }

  lemma FlagSizes(v: TupleValue, f: Flags)
    requires SlotFlags(v, f.visited, f.payloadOwned, f.tableOwned, f.payloadBy, f.tableBy)
    ensures |f.payloadOwned| == |v.payloads|
  {
  }

  /**
   The tuple part of `validate_value`: it accepts exactly the values whose tables encode one tree, whose buffers
   each belong to one node and whose accounting is in order.  The already-visited test at pop never fires and the
   stack of `edges + 1` entries never overflows.
   */
  method ValidateTuple(buffers: seq<HostBuffer>, owners: set<nat>, v: TupleValue) returns (r: ValueVerdict)
    ensures r == ValidValue <==> ValidTuple(buffers, owners, v)
    ensures r.InvalidValue? ==> ValueFault(buffers, owners, v, r.reason, r.node, r.edge)
  {
    if v.rootIndex >= NodeCount(v) {
      return InvalidValue(InvalidValueRoot, v.rootIndex, None);
    }
    if v.rootIndex != NodeCount(v) - 1 {
      return InvalidValue(NonfinalValueRoot, v.rootIndex, None);
    }
    hide ValueFault, ValidTuple;
    var t := new Tables(v);
    ghost var f := Flags(t.visited[..], t.owned[..], t.parents[..], t.payloadOwned[..], t.tableOwned[..],
                         seq(|v.childIndexes|, _ => 0), seq(NodeCount(v), _ => 0), seq(|v.payloads|, _ => 0), seq(|v.reservations| + 1, _ => 0));
    EdgeStart(v, f);
    NodeStart(buffers, owners, v, f);
    t.stack[0] := v.rootIndex;
    assert t.stack[..1] == [v.rootIndex];
    r, f := WalkValue(buffers, owners, v, t, f);
    if r == ValidValue {
      FlagsDecide(buffers, owners, v, f);
      r := FindOrphans(v, t, f);
      if r.InvalidValue? { OrphanFault(buffers, owners, v, f, r.reason, r.node, r.edge); }
    }
  }

  method WalkValue(buffers: seq<HostBuffer>, owners: set<nat>, v: TupleValue, t: Tables, ghost start: Flags)
    returns (r: ValueVerdict, ghost f: Flags)
    requires t.For(v) && t.Show(start)
    requires EdgeInv(v, start, t.stack[..1]) && NodeInv(buffers, owners, v, start)
    modifies t.visited, t.owned, t.parents, t.payloadOwned, t.tableOwned, t.stack
    ensures r != ValidValue ==> !ValidTuple(buffers, owners, v)
    ensures r.InvalidValue? ==> ValueFault(buffers, owners, v, r.reason, r.node, r.edge)
    ensures r == ValidValue ==> t.Show(f) && EdgeInv(v, f, []) && NodeInv(buffers, owners, v, f)
  {
    hide EdgeInv, NodeInv;
    f, r := start, ValidValue;
    var size: nat := 1;
    while size != 0
      invariant r == ValidValue && t.Show(f) && size <= t.stack.Length
      invariant EdgeInv(v, f, t.stack[..size]) && NodeInv(buffers, owners, v, f)
      decreases Unvisited(f.visited)
    {
      r, size, f := VisitNode(buffers, owners, v, t, size, f);
      if r != ValidValue {
        return;
      }
    }
    assert t.stack[..0] == [];
  }
}
