/** The tables of a tuple as a function of its elements, and what they denote. */
module ValueBuild {
  import opened Kinds
  import opened Arena
  import opened ArenaGraft
  import opened HostStorage
  import opened ValueArenas
  import opened ValueElements
  import opened ValueAppend

  function MovedEdges(edges: seq<nat>, offset: nat): (r: seq<nat>)
    ensures |r| == |edges| && forall k :: 0 <= k < |edges| ==> r[k] == edges[k] + offset
  {
    seq(|edges|, k requires 0 <= k < |edges| => edges[k] + offset)
  }

  function NodesOf(e: Value, at: Offsets): (r: seq<ValueNode>)
    ensures |r| == CountOf(e) && forall j :: 0 <= j < |r| ==> r[j] == NodeOf(e, j, at)
  {
    seq(CountOf(e), j requires 0 <= j < CountOf(e) => NodeOf(e, j, at))
  }

  /** The tables of `a` with the table of `e` behind them. */
  function AppendValue(a: TupleValue, e: Value): TupleValue {
    a.(nodes := a.nodes + NodesOf(e, OffsetsOf(a)),
       childIndexes := a.childIndexes + MovedEdges(ShapeOfElement(e).edges, |a.nodes|),
       payloads := a.payloads + PayloadsOf(e),
       reservations := a.reservations + ReservationsOf(e))
  }

  function Build(elements: seq<Value>): TupleValue {
    if elements == [] then EmptyTuple() else AppendValue(Build(elements[..|elements| - 1]), elements[|elements| - 1])
  }

  /** Where the root of every element ends up. */
  function BuildRoots(elements: seq<Value>): (r: seq<nat>)
    ensures |r| == |elements|
  {
    if elements == [] then [] else BuildRoots(elements[..|elements| - 1]) + [|Build(elements).nodes| - 1]
  }

  lemma BuildSnoc(elements: seq<Value>, e: Value)
    ensures Build(elements + [e]) == AppendValue(Build(elements), e)
    ensures BuildRoots(elements + [e]) == BuildRoots(elements) + [|Build(elements + [e]).nodes| - 1]
  {
    assert (elements + [e])[..|elements|] == elements;
  }

  lemma {:induction false} BuildRootEmpty(elements: seq<Value>)
    ensures Build(elements).rootReservation == NO_RESERVATION && Build(elements).childCount == 0 && Build(elements).firstChild == 0
    ensures Build(elements).rootIndex == 0
  {
    if elements != [] { BuildRootEmpty(elements[..|elements| - 1]); }
  }

  lemma AppendValueFields(a: TupleValue, e: Value)
    requires a.rootReservation == NO_RESERVATION && a.childCount == 0
    ensures AppendValue(a, e).nodes == a.nodes + NodesOf(e, OffsetsOf(a))
    ensures AppendValue(a, e).childIndexes == a.childIndexes + MovedEdges(ShapeOfElement(e).edges, |a.nodes|)
    ensures AppendValue(a, e).payloads == a.payloads + PayloadsOf(e)
    ensures AppendValue(a, e).reservations == a.reservations + ReservationsOf(e)
    ensures AppendValue(a, e).rootReservation == NO_RESERVATION && AppendValue(a, e).childCount == 0
  {
    hide NodeOf, CountOf, PayloadsOf, ReservationsOf, ShapeOfElement, OffsetsOf, NodesOf, MovedEdges;
  }

  lemma AppendValueAppends(a: TupleValue, e: Value)
    requires a.rootReservation == NO_RESERVATION && a.childCount == 0
    ensures AppendedElement(a, e, AppendValue(a, e))
  {
    hide NodeOf, CountOf, PayloadsOf, ReservationsOf, ShapeOfElement, OffsetsOf, AppendValue, NodesOf, MovedEdges;
    AppendValueFields(a, e);
    var b, at := AppendValue(a, e), OffsetsOf(a);
    forall j: nat | j < CountOf(e) ensures b.nodes[|a.nodes| + j] == NodeOf(e, j, at) {
      assert NodesOf(e, at)[j] == NodeOf(e, j, at);
    }
    forall k: nat | k < |ShapeOfElement(e).edges|
      ensures b.childIndexes[|a.childIndexes| + k] == ShapeOfElement(e).edges[k] + |a.nodes|
    {
      assert MovedEdges(ShapeOfElement(e).edges, |a.nodes|)[k] == ShapeOfElement(e).edges[k] + |a.nodes|;
    }
  }

  // ---------------------------------------------------------------- elements that may be put together

  ghost predicate AllValid(buffers: seq<HostBuffer>, owners: set<nat>, elements: seq<Value>) {
    forall k :: 0 <= k < |elements| ==> ValidElementValue(buffers, owners, elements[k])
  }

  /** Addresses of the element's buffers. */
  function StoragesIn(e: Value): set<nat> {
    (set k | 0 <= k < |PayloadsOf(e)| && PayloadsOf(e)[k].account.storage != 0 :: PayloadsOf(e)[k].account.storage)
    + (set k | 0 <= k < |ReservationsOf(e)| && ReservationsOf(e)[k].account.storage != 0 :: ReservationsOf(e)[k].account.storage)
  }

  ghost predicate PairwiseApart(elements: seq<Value>) {
    forall j, k :: 0 <= j < k < |elements| ==> StoragesIn(elements[j]) !! StoragesIn(elements[k])
  }

  ghost function ElementTrees(buffers: seq<HostBuffer>, owners: set<nat>, elements: seq<Value>): (r: seq<ValueTree>)
    requires AllValid(buffers, owners, elements)
    ensures |r| == |elements| && forall k :: 0 <= k < |elements| ==> r[k] == ElementTree(buffers, owners, elements[k])
  {
    seq(|elements|, k requires 0 <= k < |elements| => ElementTree(buffers, owners, elements[k]))
  }

  function TableStorages(a: TupleValue): set<nat> {
    (set k | 0 <= k < |a.payloads| && a.payloads[k].account.storage != 0 :: a.payloads[k].account.storage)
    + (set k | 0 <= k < |a.reservations| && a.reservations[k].account.storage != 0 :: a.reservations[k].account.storage)
  }

  lemma StorageOfNode(a: TupleValue, i: nat)
    requires SlotsExist(a) && i < |a.nodes| && StorageAt(a, i) != 0
    ensures StorageAt(a, i) in TableStorages(a)
  {
    assert SlotExists(a, SlotOf(a, i));
    match SlotOf(a, i) {
      case PayloadSlot(k) => assert a.payloads[k].account.storage == StorageAt(a, i);
      case TableSlot(k) => assert a.reservations[k].account.storage == StorageAt(a, i);
      case _ =>
    }
  }

  lemma StorageOfPosition(e: Value, j: nat)
    requires SlotsInRange(e) && j < CountOf(e) && AccountIn(e, SlotIn(e, j)).storage != 0
    ensures AccountIn(e, SlotIn(e, j)).storage in StoragesIn(e)
  {
    assert SlotInRange(e, SlotIn(e, j));
    match SlotIn(e, j) {
      case PayloadSlot(k) => assert PayloadsOf(e)[k].account.storage == AccountIn(e, SlotIn(e, j)).storage;
      case TableSlot(k) => assert ReservationsOf(e)[k].account.storage == AccountIn(e, SlotIn(e, j)).storage;
      case _ =>
    }
  }

  lemma ApartElement(a: TupleValue, e: Value)
    requires SlotsExist(a) && SlotsInRange(e) && TableStorages(a) !! StoragesIn(e)
    ensures StoragesApart(a, e)
  {
    forall i: nat, j: nat | i < |a.nodes| && j < CountOf(e) && StorageAt(a, i) == AccountIn(e, SlotIn(e, j)).storage
      ensures StorageAt(a, i) == 0
    {
      if StorageAt(a, i) != 0 {
        StorageOfNode(a, i);
        StorageOfPosition(e, j);
      }
    }
  }

  lemma StoragesFromParts(a: TupleValue, e: Value, x: nat)
    requires x in TableStorages(AppendValue(a, e))
    ensures x in TableStorages(a) || x in StoragesIn(e)
  {
    var b := AppendValue(a, e);
    hide NodesOf, MovedEdges, ShapeOfElement, PayloadsOf, ReservationsOf;
    if k :| 0 <= k < |b.payloads| && b.payloads[k].account.storage == x != 0 {
      assert k < |a.payloads| ==> a.payloads[k].account.storage == x;
      assert k >= |a.payloads| ==> PayloadsOf(e)[k - |a.payloads|].account.storage == x;
    } else {
      var k :| 0 <= k < |b.reservations| && b.reservations[k].account.storage == x != 0;
      assert k < |a.reservations| ==> a.reservations[k].account.storage == x;
      assert k >= |a.reservations| ==> ReservationsOf(e)[k - |a.reservations|].account.storage == x;
    }
  }

  lemma {:induction false} BuildStorages(elements: seq<Value>, x: nat)
    requires x in TableStorages(Build(elements))
    ensures exists k :: 0 <= k < |elements| && x in StoragesIn(elements[k])
  {
    if elements != [] {
      var n := |elements| - 1;
      var a, e := Build(elements[..n]), elements[n];
      StoragesFromParts(a, e, x);
      hide Build, AppendValue, TableStorages, StoragesIn;
      if x in TableStorages(a) {
        BuildStorages(elements[..n], x);
        var k :| 0 <= k < n && x in StoragesIn(elements[..n][k]);
        assert elements[k] == elements[..n][k];
      } else {
        assert elements[n] == e;
      }
    }
  }

  lemma NothingBuilt(buffers: seq<HostBuffer>, owners: set<nat>)
    ensures Build([]) == EmptyTuple() && BuildRoots([]) == [] && AllValid(buffers, owners, []) && ElementTrees(buffers, owners, []) == []
    ensures SlotsInv(buffers, owners, EmptyTuple()) && TreesInv(EmptyTuple(), [], [])
  {
    assert RootTrees(NodesShape(EmptyTuple()), NodeTags(EmptyTuple()), []) == [];
  }

  /** Nothing already built shares a buffer with the next element. */
  lemma BuildApart(elements: seq<Value>, e: Value)
    requires PairwiseApart(elements + [e])
    ensures PairwiseApart(elements) && TableStorages(Build(elements)) !! StoragesIn(e)
  {
    var all := elements + [e];
    forall j, k | 0 <= j < k < |elements| ensures StoragesIn(elements[j]) !! StoragesIn(elements[k]) {
      assert all[j] == elements[j] && all[k] == elements[k];
    }
    hide TableStorages, StoragesIn, Build;
    forall x | x in TableStorages(Build(elements)) ensures x !in StoragesIn(e) {
      BuildStorages(elements, x);
      var k :| 0 <= k < |elements| && x in StoragesIn(elements[k]);
      assert all[k] == elements[k] && all[|elements|] == e;
    }
  }

  lemma BuildStep(buffers: seq<HostBuffer>, owners: set<nat>, a: TupleValue, e: Value, roots: seq<nat>, trees: seq<ValueTree>)
    requires SlotsInv(buffers, owners, a) && TreesInv(a, roots, trees)
    requires a.rootReservation == NO_RESERVATION && a.childCount == 0
    requires ValidElementValue(buffers, owners, e) && TableStorages(a) !! StoragesIn(e)
    ensures var b := AppendValue(a, e);
            && SlotsInv(buffers, owners, b) && 0 < |b.nodes|
            && TreesInv(b, roots + [|b.nodes| - 1], trees + [ElementTree(buffers, owners, e)])
  {
    hide *;
    InvHasSlots(buffers, owners, a);
    ValidIsElementOk(buffers, owners, e);
    OkHasRange(buffers, owners, e);
    AppendValueAppends(a, e);
    ApartElement(a, e);
    AppendSlots(buffers, owners, a, e, AppendValue(a, e));
    InvHasSlots(buffers, owners, AppendValue(a, e));
    AppendedNodes(a, e);
    AppendTrees(buffers, owners, a, e, AppendValue(a, e), roots, trees);
  }

  lemma AppendedNodes(a: TupleValue, e: Value)
    ensures |a.nodes| < |AppendValue(a, e).nodes|
  {
  }

  lemma OkHasRange(buffers: seq<HostBuffer>, owners: set<nat>, e: Value)
    requires ElementOk(buffers, owners, e)
    ensures SlotsInRange(e)
  {
  }

  lemma ElementTreesSnoc(buffers: seq<HostBuffer>, owners: set<nat>, elements: seq<Value>, e: Value)
    requires AllValid(buffers, owners, elements + [e])
    ensures AllValid(buffers, owners, elements) && ValidElementValue(buffers, owners, e)
    ensures ElementTrees(buffers, owners, elements + [e]) == ElementTrees(buffers, owners, elements) + [ElementTree(buffers, owners, e)]
  {
    hide ValidElementValue, ElementTree;
    var all := elements + [e];
    assert all[|elements|] == e;
    assert forall k :: 0 <= k < |elements| ==> all[k] == elements[k];
  }

  /** The tables built from valid, separate elements are in order and hold the element trees. */
  lemma {:induction false} BuildHolds(buffers: seq<HostBuffer>, owners: set<nat>, elements: seq<Value>)
    requires AllValid(buffers, owners, elements) && PairwiseApart(elements)
    ensures SlotsInv(buffers, owners, Build(elements))
    ensures TreesInv(Build(elements), BuildRoots(elements), ElementTrees(buffers, owners, elements))
  {
    hide *;
    if elements == [] {
      NothingBuilt(buffers, owners);
    } else {
      var front, e := elements[..|elements| - 1], elements[|elements| - 1];
      assert elements == front + [e];
      ElementTreesSnoc(buffers, owners, front, e);
      BuildApart(front, e);
      BuildHolds(buffers, owners, front);
      BuildRootEmpty(front);
      BuildStep(buffers, owners, Build(front), e, BuildRoots(front), ElementTrees(buffers, owners, front));
      BuildSnoc(front, e);
    }
  }

  lemma InvHasSlots(buffers: seq<HostBuffer>, owners: set<nat>, a: TupleValue)
    requires SlotsInv(buffers, owners, a)
    ensures SlotsExist(a)
  {
  }

  // ---------------------------------------------------------------- the finished tuple

  /** The tables with one root over the element roots. */
  function Finish(a: TupleValue, roots: seq<nat>, root: Reservation): TupleValue {
    a.(childIndexes := a.childIndexes + roots, firstChild := |a.childIndexes|, childCount := |roots|, rootIndex := |a.nodes|,
       rootReservation := root)
  }

  lemma FinishedNode(buffers: seq<HostBuffer>, owners: set<nat>, a: TupleValue, roots: seq<nat>, root: Reservation, i: nat)
    requires SlotsInv(buffers, owners, a) && i < |a.nodes|
    ensures var v := Finish(a, roots, root);
            && SlotOf(v, i) == SlotOf(a, i) && SlotOf(v, i) != RootSlot && SlotExists(a, SlotOf(a, i)) && SlotExists(v, SlotOf(v, i))
            && NodeFieldsOk(v, i) && SlotOk(buffers, owners, v, i)
            && StorageAt(v, i) == StorageAt(a, i) && (StorageAt(v, i) != 0 ==> StorageAt(v, i) in TableStorages(a))
  {
    assert SlotExists(a, SlotOf(a, i)) && NodeFieldsOk(a, i) && SlotOk(buffers, owners, a, i);
    if StorageAt(a, i) != 0 { StorageOfNode(a, i); }
  }

  lemma FinishedRoot(buffers: seq<HostBuffer>, owners: set<nat>, a: TupleValue, roots: seq<nat>, root: Reservation)
    requires ReservationOk(buffers, owners, root, |roots|)
    ensures var v := Finish(a, roots, root);
            && SlotOf(v, |v.nodes|) == RootSlot && SlotExists(v, RootSlot) && NodeFieldsOk(v, |v.nodes|) && SlotOk(buffers, owners, v, |v.nodes|)
            && StorageAt(v, |v.nodes|) == root.account.storage
  {
  }

  lemma FinishUsed(a: TupleValue, roots: seq<nat>, root: Reservation)
    requires SlotsUsed(a)
    ensures SlotsUsed(Finish(a, roots, root))
  {
    var v := Finish(a, roots, root);
    forall s: Slot | SlotUsed(a, s) ensures SlotUsed(v, s) {
      var i: nat :| i < NodeCount(a) && SlotOf(a, i) == s;
      assert SlotOf(v, i) == s;
    }
  }

  lemma FinishSlots(buffers: seq<HostBuffer>, owners: set<nat>, a: TupleValue, roots: seq<nat>, root: Reservation)
    requires SlotsInv(buffers, owners, a)
    requires ReservationOk(buffers, owners, root, |roots|)
    requires root.account.storage != 0 ==> root.account.storage !in TableStorages(a)
    ensures var v := Finish(a, roots, root);
            && SlotsExist(v) && SlotsUnshared(v) && SlotsUsed(v) && StoragesDistinct(v)
            && forall i: nat :: i < NodeCount(v) ==> NodeFieldsOk(v, i) && SlotOk(buffers, owners, v, i)
  {
    var v := Finish(a, roots, root);
    assert SlotsUnshared(a) && SlotsUsed(a) && SlotsExist(a) && StoragesDistinct(a) && |v.nodes| == |a.nodes|;
    FinishUsed(a, roots, root);
    hide SlotsInv, Finish, SlotOf, SlotOk, NodeFieldsOk, StorageAt, TableStorages, ReservationOk, SlotsUsed;
    FinishedRoot(buffers, owners, a, roots, root);
    forall i: nat | i < |a.nodes|
      ensures SlotOf(v, i) == SlotOf(a, i) && SlotOf(v, i) != RootSlot && SlotExists(v, SlotOf(v, i))
      ensures NodeFieldsOk(v, i) && SlotOk(buffers, owners, v, i)
      ensures StorageAt(v, i) == StorageAt(a, i) && (StorageAt(v, i) != 0 ==> StorageAt(v, i) in TableStorages(a))
    {
      FinishedNode(buffers, owners, a, roots, root, i);
    }
    forall i: nat, j: nat | i < NodeCount(v) && j < NodeCount(v) && SlotOf(v, i) == SlotOf(v, j) != NoSlot ensures i == j {
      assert i < |a.nodes| && j < |a.nodes| ==> SlotOf(a, i) == SlotOf(a, j);
    }
    forall i: nat, j: nat | i < j < NodeCount(v) && StorageAt(v, i) == StorageAt(v, j) ensures StorageAt(v, i) == 0 {
      assert j < |a.nodes| ==> StorageAt(a, i) == StorageAt(a, j);
    }
  }

  lemma FinishTree(buffers: seq<HostBuffer>, owners: set<nat>, a: TupleValue, roots: seq<nat>, trees: seq<ValueTree>, root: Reservation)
    requires TreesInv(a, roots, trees)
    requires SlotsExist(Finish(a, roots, root))
    ensures var v := Finish(a, roots, root);
            && WellFormed(TableOf(v))
            && Denote(TableOf(v), ValueTags(v), |v.nodes|) == Node(TupleBranch, trees)
  {
    var v := Finish(a, roots, root);
    var f, g := NodesShape(a), TableOf(v);
    assert g.spans == f.spans + [Span(|f.edges|, |roots|)];
    forall i: nat | i < |a.nodes| ensures ValueTags(v)[i] == NodeTags(a)[i] {
      assert SlotExists(a, SlotOf(a, i));
    }
    assert ValueTags(v) == NodeTags(a) + [TupleBranch];
    assert ForestWF(f, roots) && Closed(f, roots, g);
    CloseDenotes(f, NodeTags(a), roots, g, TupleBranch);
  }

  lemma ValidFromParts(buffers: seq<HostBuffer>, owners: set<nat>, v: TupleValue, t: ValueTree)
    requires SlotsExist(v) && SlotsUnshared(v) && SlotsUsed(v) && StoragesDistinct(v) && v.rootIndex == |v.nodes|
    requires forall i: nat :: i < NodeCount(v) ==> NodeFieldsOk(v, i) && SlotOk(buffers, owners, v, i)
    requires WellFormed(TableOf(v)) && Denote(TableOf(v), ValueTags(v), |v.nodes|) == t
    ensures ValidTuple(buffers, owners, v) && ValueOf(v) == t
  {
    hide SlotsExist, SlotsUnshared, SlotsUsed, StoragesDistinct, NodeFieldsOk, SlotOk, WellFormed, TableOf, ValueTags;
  }

  /** Valid, separate elements under a sound root table make a valid tuple of their trees. */
  lemma FinishedTuple(buffers: seq<HostBuffer>, owners: set<nat>, elements: seq<Value>, root: Reservation)
    requires AllValid(buffers, owners, elements) && PairwiseApart(elements)
    requires ReservationOk(buffers, owners, root, |elements|)
    requires forall k :: 0 <= k < |elements| ==> root.account.storage !in StoragesIn(elements[k])
    ensures var v := Finish(Build(elements), BuildRoots(elements), root);
            ValidTuple(buffers, owners, v) && ValueOf(v) == Node(TupleBranch, ElementTrees(buffers, owners, elements))
  {
    var a, roots := Build(elements), BuildRoots(elements);
    var v := Finish(a, roots, root);
    assert v.rootIndex == |v.nodes|;
    hide *;
    BuildHolds(buffers, owners, elements);
    if root.account.storage in TableStorages(a) { BuildStorages(elements, root.account.storage); }
    FinishSlots(buffers, owners, a, roots, root);
    FinishTree(buffers, owners, a, roots, ElementTrees(buffers, owners, elements), root);
    ValidFromParts(buffers, owners, v, Node(TupleBranch, ElementTrees(buffers, owners, elements)));
  }
}
