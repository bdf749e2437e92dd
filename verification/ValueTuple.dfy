/** src/resources.cpp:1813-2100: `make_tuple_value`. */
module ValueTuple {
  import opened Kinds
  import opened Arena
  import opened HostStorage
  import opened AccountRelease
  import opened ValueArenas
  import opened ValueValidate
  import opened ValueElements
  import opened ValueAppend
  import opened ValueBuild
  import opened Resources

  // ---------------------------------------------------------------- a new buffer does not disturb the elements

  lemma PayloadStays(buffers: seq<HostBuffer>, b: HostBuffer, owners: set<nat>, p: Payload)
    requires PayloadOk(buffers, owners, p)
    ensures PayloadOk(buffers + [b], owners, p) && p.account.storage <= |buffers|
  {
  }

  lemma ReservationStays(buffers: seq<HostBuffer>, b: HostBuffer, owners: set<nat>, r: Reservation, count: nat)
    requires ReservationOk(buffers, owners, r, count)
    ensures ReservationOk(buffers + [b], owners, r, count) && r.account.storage <= |buffers|
  {
  }

  lemma TupleStays(buffers: seq<HostBuffer>, b: HostBuffer, owners: set<nat>, t: TupleValue)
    requires ValidTuple(buffers, owners, t)
    ensures ValidTuple(buffers + [b], owners, t)
    ensures forall k :: 0 <= k < |t.payloads| ==> t.payloads[k].account.storage <= |buffers|
    ensures forall k :: 0 <= k < |t.reservations| ==> t.reservations[k].account.storage <= |buffers|
    ensures t.rootReservation.account.storage <= |buffers|
  {
    forall i: nat | i < NodeCount(t)
      ensures SlotOk(buffers + [b], owners, t, i) && StorageAt(t, i) <= |buffers|
    {
      assert SlotOk(buffers, owners, t, i);
      match SlotOf(t, i) {
        case NoSlot =>
        case PayloadSlot(k) => PayloadStays(buffers, b, owners, t.payloads[k]);
        case TableSlot(k) => ReservationStays(buffers, b, owners, t.reservations[k], SpanOf(t, i).count);
        case RootSlot => ReservationStays(buffers, b, owners, t.rootReservation, t.childCount);
      }
    }
    forall k | 0 <= k < |t.payloads| ensures t.payloads[k].account.storage <= |buffers| {
      assert SlotUsed(t, PayloadSlot(k));
      var i: nat :| i < NodeCount(t) && SlotOf(t, i) == PayloadSlot(k);
      assert StorageAt(t, i) <= |buffers|;
    }
    forall k | 0 <= k < |t.reservations| ensures t.reservations[k].account.storage <= |buffers| {
      assert SlotUsed(t, TableSlot(k));
      var i: nat :| i < NodeCount(t) && SlotOf(t, i) == TableSlot(k);
      assert StorageAt(t, i) <= |buffers|;
    }
    assert StorageAt(t, |t.nodes|) <= |buffers|;
  }

  lemma ElementStays(buffers: seq<HostBuffer>, b: HostBuffer, owners: set<nat>, e: Value)
    requires ValidElementValue(buffers, owners, e)
    ensures ValidElementValue(buffers + [b], owners, e) && forall x :: x in StoragesIn(e) ==> x <= |buffers|
  {
    match e
    case ScalarV(_) =>
    case VectorV(p) => PayloadStays(buffers, b, owners, p);
    case TupleV(t) =>
      TupleStays(buffers, b, owners, t);
      hide ValidTuple;
  }

  // ---------------------------------------------------------------- checking the elements

  method ValidateElement(buffers: seq<HostBuffer>, owners: set<nat>, e: Value) returns (ok: bool)
    ensures ok <==> ValidElementValue(buffers, owners, e)
  {
    match e
    case ScalarV(s) => ok := ValidScalar(s);
    case VectorV(p) => ok := PayloadOk(buffers, owners, p);
    case TupleV(t) =>
      var verdict := ValidateTuple(buffers, owners, t);
      ok := verdict == ValidValue;
  }

  /** src/resources.cpp:497-534. */
  method ContainsStorage(e: Value, storage: nat) returns (found: bool)
    ensures found <==> storage in StoragesIn(e)
  {
    if storage == 0 {
      return false;
    }
    var payloads, reservations := PayloadsOf(e), ReservationsOf(e);
    for k := 0 to |payloads|
      invariant forall j :: 0 <= j < k ==> payloads[j].account.storage != storage
    {
      if payloads[k].account.storage == storage {
        return true;
      }
    }
    for k := 0 to |reservations|
      invariant forall j :: 0 <= j < k ==> reservations[j].account.storage != storage
    {
      if reservations[k].account.storage == storage {
        return true;
      }
    }
    found := false;
  }

  /** src/resources.cpp:536-575: whether two values share a buffer. */
  method Overlaps(left: Value, right: Value) returns (shared: bool)
    ensures shared <==> !(StoragesIn(left) !! StoragesIn(right))
  {
    hide StoragesIn;
    var payloads, reservations := PayloadsOf(left), ReservationsOf(left);
    for k := 0 to |payloads|
      invariant forall j :: 0 <= j < k ==> payloads[j].account.storage !in StoragesIn(right)
    {
      var found := ContainsStorage(right, payloads[k].account.storage);
      if found {
        StorageIn(left, right, payloads[k].account.storage);
        return true;
      }
    }
    for k := 0 to |reservations|
      invariant forall j :: 0 <= j < k ==> reservations[j].account.storage !in StoragesIn(right)
    {
      var found := ContainsStorage(right, reservations[k].account.storage);
      if found {
        StorageIn(left, right, reservations[k].account.storage);
        return true;
      }
    }
    NoneShared(left, right);
    shared := false;
  }

  lemma StorageIn(left: Value, right: Value, x: nat)
    requires x in StoragesIn(right)
    requires (exists k :: 0 <= k < |PayloadsOf(left)| && PayloadsOf(left)[k].account.storage == x)
          || (exists k :: 0 <= k < |ReservationsOf(left)| && ReservationsOf(left)[k].account.storage == x)
    ensures x in StoragesIn(left)
  {
  }

  lemma NoneShared(left: Value, right: Value)
    requires forall j :: 0 <= j < |PayloadsOf(left)| ==> PayloadsOf(left)[j].account.storage !in StoragesIn(right)
    requires forall j :: 0 <= j < |ReservationsOf(left)| ==> ReservationsOf(left)[j].account.storage !in StoragesIn(right)
    ensures StoragesIn(left) !! StoragesIn(right)
  {
  }

  // ---------------------------------------------------------------- capacities

  datatype Capacity = Capacity(nodes: nat, edges: nat, payloads: nat, reservations: nat)

  function TotalsOf(elements: seq<Value>): Capacity {
    var a := Build(elements);
    Capacity(|a.nodes|, |a.childIndexes|, |a.payloads|, |a.reservations|)
  }

  lemma TotalsStep(elements: seq<Value>, k: nat)
    requires k < |elements|
    ensures var t, t', e := TotalsOf(elements[..k]), TotalsOf(elements[..k + 1]), elements[k];
            && t'.nodes == t.nodes + CountOf(e) && t'.edges == t.edges + |ShapeOfElement(e).edges|
            && t'.payloads == t.payloads + |PayloadsOf(e)| && t'.reservations == t.reservations + |ReservationsOf(e)|
  {
    assert elements[..k + 1] == elements[..k] + [elements[k]];
    BuildSnoc(elements[..k], elements[k]);
  }

  predicate FitsIn(t: Capacity, u: Capacity) {
    t.nodes <= u.nodes && t.edges <= u.edges && t.payloads <= u.payloads && t.reservations <= u.reservations
  }

  lemma {:induction false} TotalsGrow(elements: seq<Value>, k: nat)
    requires k <= |elements|
    ensures FitsIn(TotalsOf(elements[..k]), TotalsOf(elements))
    decreases |elements| - k
  {
    if k < |elements| {
      TotalsStep(elements, k);
      TotalsGrow(elements, k + 1);
    } else {
      assert elements[..k] == elements;
    }
  }

  /** The elements, their payloads and their reservations are all objects in memory. */
  ghost predicate InMemory(elements: seq<Value>) {
    |elements| <= SIZE_MAX && TotalsOf(elements).payloads <= SIZE_MAX && TotalsOf(elements).reservations <= SIZE_MAX
  }

  /** The table sizes of the new tuple, the root edges included. */
  ghost predicate SizesFit(elements: seq<Value>) {
    TotalsOf(elements).nodes <= SIZE_MAX && TotalsOf(elements).edges + |elements| <= SIZE_MAX
  }

  datatype Refusal = InvalidElement(index: nat) | SharedStorage(index: nat, prior: nat) | TooLarge

  /** Why the elements cannot be put together. */
  ghost predicate Refuses(buffers: seq<HostBuffer>, owners: set<nat>, elements: seq<Value>, r: Refusal) {
    match r
    case InvalidElement(k) => k < |elements| && !ValidElementValue(buffers, owners, elements[k])
    case SharedStorage(k, j) => j < k < |elements| && !(StoragesIn(elements[k]) !! StoragesIn(elements[j]))
    case TooLarge => !SizesFit(elements)
  }

  lemma RefusesMeans(buffers: seq<HostBuffer>, owners: set<nat>, elements: seq<Value>, r: Refusal)
    requires Refuses(buffers, owners, elements, r)
    ensures !(AllValid(buffers, owners, elements) && PairwiseApart(elements) && SizesFit(elements))
  {
    match r
    case SharedStorage(k, j) =>
      var a, b := StoragesIn(elements[k]), StoragesIn(elements[j]);
      assert a !! b <==> b !! a;
    case _ =>
  }

  method FindShared(elements: seq<Value>, k: nat) returns (prior: Option<nat>)
    requires k < |elements|
    ensures prior == None ==> forall j :: 0 <= j < k ==> StoragesIn(elements[j]) !! StoragesIn(elements[k])
    ensures prior.Some? ==> prior.value < k && !(StoragesIn(elements[k]) !! StoragesIn(elements[prior.value]))
  {
    hide StoragesIn;
    for j := 0 to k
      invariant forall i :: 0 <= i < j ==> StoragesIn(elements[i]) !! StoragesIn(elements[k])
    {
      var shared := Overlaps(elements[k], elements[j]);
      if shared {
        return Some(j);
      }
    }
    prior := None;
  }

  /** src/resources.cpp:1838-1898: validate the elements, refuse shared buffers and compute the exact capacities. */
  method CheckElements(buffers: seq<HostBuffer>, owners: set<nat>, elements: seq<Value>) returns (failure: Option<Refusal>, cap: Capacity)
    requires InMemory(elements)
    ensures failure == None <==> AllValid(buffers, owners, elements) && PairwiseApart(elements) && SizesFit(elements)
    ensures failure == None ==> cap == TotalsOf(elements).(edges := TotalsOf(elements).edges + |elements|)
    ensures failure.Some? ==> Refuses(buffers, owners, elements, failure.value)
  {
    hide ValidElementValue, StoragesIn, TotalsOf, CountOf, ShapeOfElement, PayloadsOf, ReservationsOf, Build;
    failure, cap := None, Capacity(|elements|, |elements|, 0, 0);
    TotalsStart(elements);
    for k := 0 to |elements|
      invariant failure == None
      invariant forall i :: 0 <= i < k ==> ValidElementValue(buffers, owners, elements[i])
      invariant forall i, j :: 0 <= i < j < k ==> StoragesIn(elements[i]) !! StoragesIn(elements[j])
      invariant Counted(elements, k, cap)
    {
      var ok := ValidateElement(buffers, owners, elements[k]);
      if !ok {
        failure := Some(InvalidElement(k));
        RefusesMeans(buffers, owners, elements, failure.value);
        return;
      }
      var prior := FindShared(elements, k);
      if prior.Some? {
        failure := Some(SharedStorage(k, prior.value));
        RefusesMeans(buffers, owners, elements, failure.value);
        return;
      }
      var fits;
      fits, cap := CountElement(elements, k, cap);
      if !fits {
        failure := Some(TooLarge);
        return;
      }
    }
    assert elements[..|elements|] == elements;
  }

  /** The running counts of src/resources.cpp:1838-1841; nodes and edges start at one for every element. */
  ghost predicate Counted(elements: seq<Value>, k: nat, cap: Capacity)
    requires k <= |elements|
  {
    var t := TotalsOf(elements[..k]);
    && cap.nodes == t.nodes + (|elements| - k) <= SIZE_MAX
    && cap.edges == t.edges + |elements| <= SIZE_MAX
    && cap.payloads == t.payloads && cap.reservations == t.reservations
  }

  lemma TotalsStart(elements: seq<Value>)
    ensures TotalsOf(elements[..0]) == Capacity(0, 0, 0, 0)
  {
    assert elements[..0] == [];
  }

  /** Every element adds at least its own root. */
  lemma {:induction false} TotalsRoots(elements: seq<Value>, k: nat)
    requires k <= |elements|
    ensures TotalsOf(elements).nodes >= TotalsOf(elements[..k]).nodes + (|elements| - k)
    decreases |elements| - k
  {
    if k < |elements| {
      TotalsStep(elements, k);
      TotalsRoots(elements, k + 1);
    } else {
      assert elements[..k] == elements;
    }
  }

  method CountElement(elements: seq<Value>, k: nat, cap: Capacity) returns (fits: bool, cap': Capacity)
    requires InMemory(elements) && k < |elements| && Counted(elements, k, cap)
    ensures fits ==> Counted(elements, k + 1, cap')
    ensures !fits ==> !SizesFit(elements)
  {
    hide TotalsOf, Build;
    TotalsStep(elements, k);
    TotalsGrow(elements, k + 1);
    TotalsRoots(elements, k + 1);
    match elements[k]
    case VectorV(_) => return true, cap.(payloads := cap.payloads + 1);
    case ScalarV(_) => return true, cap;
    case TupleV(t) =>
      if |t.nodes| > SIZE_MAX - cap.nodes || |t.childIndexes| > SIZE_MAX - cap.edges
         || |t.payloads| > SIZE_MAX - cap.payloads || |t.reservations| + 1 > SIZE_MAX - cap.reservations {
        return false, cap;
      }
      return true, Capacity(cap.nodes + |t.nodes|, cap.edges + |t.childIndexes|, cap.payloads + |t.payloads|, cap.reservations + |t.reservations| + 1);
  }

  // ---------------------------------------------------------------- copying

  /** A push is refused once the capacity is reached. */
  method PushAll<T>(xs: seq<T>, ys: seq<T>, capacity: nat) returns (ok: bool, r: seq<T>)
    requires |xs| <= capacity
    ensures ok <==> |xs| + |ys| <= capacity
    ensures ok ==> r == xs + ys
  {
    r := xs;
    for k := 0 to |ys|
      invariant r == xs + ys[..k] && |r| <= capacity
    {
      if |r| >= capacity {
        return false, r;
      }
      r := r + [ys[k]];
    }
    ok := true;
  }

  /** src/resources.cpp:2009-2029: node indexes and table indexes are moved behind the ones already there. */
  method CopyNodes(nodes: seq<ValueNode>, source: seq<ValueNode>, at: Offsets, capacity: nat) returns (ok: bool, r: seq<ValueNode>)
    requires |nodes| <= capacity
    ensures ok <==> |nodes| + |source| <= capacity
    ensures ok ==> nodes <= r && |r| == |nodes| + |source| && forall j :: 0 <= j < |source| ==> r[|nodes| + j] == MovedNode(source[j], at)
  {
    r := nodes;
    for k := 0 to |source|
      invariant nodes <= r && |r| == |nodes| + k <= capacity
      invariant forall j :: 0 <= j < k ==> r[|nodes| + j] == MovedNode(source[j], at)
    {
      var n := source[k];
      if n.container == TupleC {
        n := n.(firstChild := n.firstChild + at.edges, reservation := n.reservation + at.reservations);
      } else if n.container == VectorC {
        n := n.(payload := n.payload + at.payloads);
      }
      if |r| >= capacity {
        return false, r;
      }
      r := r + [n];
    }
    ok := true;
  }

  method CopyEdges(edges: seq<nat>, source: seq<nat>, offset: nat, capacity: nat) returns (ok: bool, r: seq<nat>)
    requires |edges| <= capacity
    ensures ok <==> |edges| + |source| <= capacity
    ensures ok ==> r == edges + MovedEdges(source, offset)
  {
    r := edges;
    for k := 0 to |source|
      invariant r == edges + MovedEdges(source, offset)[..k] && |r| <= capacity
    {
      if |r| >= capacity {
        return false, r;
      }
      r := r + [source[k] + offset];
    }
    ok := true;
  }

  predicate Holds(a: TupleValue, cap: Capacity) {
    |a.nodes| <= cap.nodes && |a.childIndexes| <= cap.edges && |a.payloads| <= cap.payloads && |a.reservations| <= cap.reservations
  }

  /** src/resources.cpp:1975-2003: a scalar or vector element is one leaf node. */
  method AppendLeaf(a: TupleValue, e: Value, cap: Capacity) returns (ok: bool, a': TupleValue)
    requires !e.TupleV? && Holds(a, cap)
    ensures ok <==> Holds(AppendValue(a, e), cap)
    ensures ok ==> a' == AppendValue(a, e)
  {
    a' := a;
    var payload := 0;
    var node := ValueNode(ScalarC, EMPTY_SCALAR, 0, 0, 0, 0);
    match e {
      case ScalarV(s) => node := node.(scalar := s);
      case VectorV(p) =>
        node := node.(container := VectorC, payload := |a.payloads|);
        if |a.payloads| >= cap.payloads {
          return false, a';
        }
        a' := a'.(payloads := a.payloads + [p]);
    }
    if |a.nodes| >= cap.nodes {
      return false, a';
    }
    a' := a'.(nodes := a.nodes + [node]);
    LeafAppended(a, e);
    return true, a';
  }

  lemma LeafAppended(a: TupleValue, e: Value)
    requires !e.TupleV?
    ensures AppendValue(a, e) == a.(nodes := a.nodes + [NodeOf(e, 0, OffsetsOf(a))], payloads := a.payloads + PayloadsOf(e))
  {
    assert NodesOf(e, OffsetsOf(a)) == [NodeOf(e, 0, OffsetsOf(a))];
  }

  /** src/resources.cpp:2005-2076: a tuple element is copied table by table, its root last. */
  method AppendTuple(a: TupleValue, t: TupleValue, cap: Capacity) returns (ok: bool, a': TupleValue)
    requires Holds(a, cap)
    ensures ok <==> Holds(AppendValue(a, TupleV(t)), cap)
    ensures ok ==> a' == AppendValue(a, TupleV(t))
  {
    ghost var e, at := TupleV(t), OffsetsOf(a);
    a' := a;
    var nodes, edges, payloads, reservations;
    ok, nodes := CopyNodes(a.nodes, t.nodes, OffsetsOf(a), cap.nodes);
    if !ok { return; }
    ok, edges := CopyEdges(a.childIndexes, t.childIndexes, |a.nodes|, cap.edges);
    if !ok { return; }
    ok, payloads := PushAll(a.payloads, t.payloads, cap.payloads);
    if !ok { return; }
    ok, reservations := PushAll(a.reservations, t.reservations, cap.reservations);
    if !ok { return; }
    if |reservations| >= cap.reservations || |nodes| >= cap.nodes {
      return false, a';
    }
    var root := ValueNode(TupleC, EMPTY_SCALAR, t.firstChild + |a.childIndexes|, t.childCount, |reservations|, 0);
    a' := a.(nodes := nodes + [root], childIndexes := edges, payloads := payloads, reservations := reservations + [t.rootReservation]);
    assert nodes + [root] == a.nodes + NodesOf(e, at);
    assert reservations + [t.rootReservation] == a.reservations + ReservationsOf(e);
    ok := true;
  }

  lemma GrowthFits(elements: seq<Value>, k: nat, cap: Capacity)
    requires k < |elements| && FitsIn(TotalsOf(elements), cap)
    ensures Build(elements[..k + 1]) == AppendValue(Build(elements[..k]), elements[k])
    ensures BuildRoots(elements[..k + 1]) == BuildRoots(elements[..k]) + [|Build(elements[..k + 1]).nodes| - 1]
    ensures Holds(Build(elements[..k]), cap) && Holds(Build(elements[..k + 1]), cap)
  {
    hide Build, BuildRoots, AppendValue;
    TotalsGrow(elements, k);
    TotalsGrow(elements, k + 1);
    assert elements[..k + 1] == elements[..k] + [elements[k]];
    BuildSnoc(elements[..k], elements[k]);
  }

  /** src/resources.cpp:1973-2091: with exact capacities no push is ever refused. */
  method Assemble(elements: seq<Value>, cap: Capacity, reserved: Reservation) returns (v: TupleValue)
    requires cap == TotalsOf(elements).(edges := TotalsOf(elements).edges + |elements|)
    ensures v == Finish(Build(elements), BuildRoots(elements), reserved)
  {
    hide Build, BuildRoots, AppendValue;
    var a, roots := EmptyTuple(), [];
    NothingYet(elements);
    for k := 0 to |elements|
      invariant a == Build(elements[..k]) && roots == BuildRoots(elements[..k])
    {
      GrowthFits(elements, k, cap);
      var ok;
      if elements[k].TupleV? {
        ok, a := AppendTuple(a, elements[k].tuple, cap);
      } else {
        ok, a := AppendLeaf(a, elements[k], cap);
      }
      if !ok {
        assert false; // the capacities are exact
      }
      roots := roots + [|a.nodes| - 1];
    }
    assert elements[..|elements|] == elements;
    var ok, edges := PushAll(a.childIndexes, roots, cap.edges);
    if !ok {
      assert false; // room was counted for one root edge per element
    }
    v := a.(childIndexes := edges, firstChild := |a.childIndexes|, childCount := |roots|, rootIndex := |a.nodes|, rootReservation := reserved);
  }

  lemma NothingYet(elements: seq<Value>)
    ensures Build(elements[..0]) == EmptyTuple() && BuildRoots(elements[..0]) == []
  {
    assert elements[..0] == [];
  }

  // ---------------------------------------------------------------- the operation

  datatype TupleOutcome = Made(tuple: TupleValue) | Rejected(why: Refusal) | NotAdmitted(failure: Failure) | NoMetadata

  lemma ElementsStay(buffers: seq<HostBuffer>, b: HostBuffer, owners: set<nat>, elements: seq<Value>)
    requires AllValid(buffers, owners, elements)
    ensures AllValid(buffers + [b], owners, elements)
    ensures forall k, x :: 0 <= k < |elements| && x in StoragesIn(elements[k]) ==> x <= |buffers|
  {
    hide ValidElementValue, StoragesIn;
    forall k | 0 <= k < |elements|
      ensures ValidElementValue(buffers + [b], owners, elements[k]) && forall x :: x in StoragesIn(elements[k]) ==> x <= |buffers|
    {
      ElementStays(buffers, b, owners, elements[k]);
    }
  }

  lemma NoNullStorage(e: Value)
    ensures 0 !in StoragesIn(e)
  {
  }

  /** The finished value under a root table that was reserved after the elements were checked. */
  lemma MadeTuple(before: seq<HostBuffer>, after: seq<HostBuffer>, owners: set<nat>, elements: seq<Value>, root: Reservation)
    requires AllValid(before, owners, elements) && PairwiseApart(elements)
    requires after == before || exists b :: after == before + [b]
    requires after == before ==> root.account.storage == 0
    requires after != before ==> root.account.storage == |after|
    requires ReservationOk(after, owners, root, |elements|)
    ensures var v := Finish(Build(elements), BuildRoots(elements), root);
            && AllValid(after, owners, elements)
            && ValidTuple(after, owners, v) && ValueOf(v) == Node(TupleBranch, ElementTrees(after, owners, elements))
  {
    hide *;
    if after != before {
      var b :| after == before + [b];
      ElementsStay(before, b, owners, elements);
    }
    forall k | 0 <= k < |elements| ensures root.account.storage !in StoragesIn(elements[k]) {
      NoNullStorage(elements[k]);
    }
    FinishedTuple(after, owners, elements, root);
  }

  /**
   A tuple of valid, separate elements: it holds their trees, and the ledger pays for the root table alone.
   `metadataFails` is the host allocator refusing the index tables; the root table is then given back.
   */
  method MakeTupleValue(r: EvaluationResources, owners: set<nat>, elements: seq<Value>, hostFails: bool, metadataFails: bool)
    returns (o: TupleOutcome)
    requires r.Valid() && r.state.token in owners && InMemory(elements) && r.Unbound() >= 0 && r.OtherReferences() >= 1
    modifies r`work, r`ordinal, r.host, r.state
    ensures r.Valid() && r.Unbound() == old(r.Unbound()) && r.OtherReferences() == old(r.OtherReferences())
    ensures o.Made? <==>
              && old(AllValid(r.host.buffers, owners, elements)) && PairwiseApart(elements) && SizesFit(elements)
              && old(r.TableAdmissible(|elements|, hostFails)) && (elements == [] || !metadataFails)
    ensures o.Made? ==>
              && AllValid(r.host.buffers, owners, elements) && ValidTuple(r.host.buffers, owners, o.tuple)
              && ValueOf(o.tuple) == Node(TupleBranch, ElementTrees(r.host.buffers, owners, elements))
              && o.tuple == Finish(Build(elements), BuildRoots(elements), o.tuple.rootReservation)
              && r.state.live == old(r.state.live) + |elements| * SLOT_BYTES
    ensures !o.Made? ==> r.state.live == old(r.state.live)
    ensures o.Rejected? ==> old(Refuses(r.host.buffers, owners, elements, o.why))
    ensures r.work == old(r.work)
  {
    hide AllValid, PairwiseApart, ElementTrees, Build, BuildRoots, ValidTuple, Finish;
    if !ProfileOk(r.profile, r.limits) {
      return NotAdmitted(InvalidProfile);
    }
    if !TuplesSupported(r.profile) {
      return NotAdmitted(TuplesUnsupported);
    }
    ghost var before := r.host.buffers;
    var failure, cap := CheckElements(r.host.buffers, owners, elements);
    if failure.Some? {
      return Rejected(failure.value);
    }
    var reserved := r.ReserveTable(|elements|, hostFails, owners);
    if reserved.TableDenied? {
      return NotAdmitted(reserved.why);
    }
    if elements != [] && metadataFails {
      var released, left := r.ReleaseTable(reserved.reservation);
      return NoMetadata;
    }
    var tuple := Assemble(elements, cap, reserved.reservation);
    MadeTuple(before, r.host.buffers, owners, elements, reserved.reservation);
    FinishRoot(Build(elements), BuildRoots(elements), reserved.reservation);
    return Made(tuple);
  }

  lemma FinishRoot(a: TupleValue, roots: seq<nat>, root: Reservation)
    ensures Finish(a, roots, root).rootReservation == root
  {
  }
}
