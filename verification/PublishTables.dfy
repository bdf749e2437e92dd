/**
 The tables that publishing a preadmitted assembly fills.  They are those of `make_tuple_value` but for one field:
 a scalar slot records the payload cursor where `make_tuple_value` writes zero (src/resources.cpp:2558-2572, 1990-2003).
 Validation wants zero there, so that a published tuple need not be valid.
 */
module PublishTables {
  import opened Kinds
  import opened Arena
  import opened HostStorage
  import opened ValueArenas
  import opened ValueElements
  import opened ValueAppend
  import opened ValueBuild
  import opened ValueTuple

  function AppendSlot(a: TupleValue, e: Value): TupleValue {
    if e.ScalarV? then a.(nodes := a.nodes + [ValueNode(ScalarC, e.scalar, 0, 0, 0, |a.payloads|)]) else AppendValue(a, e)
  }

  function SlotTables(slots: seq<Value>): TupleValue {
    if slots == [] then EmptyTuple() else AppendSlot(SlotTables(slots[..|slots| - 1]), slots[|slots| - 1])
  }

  /** The published value. */
  function Published(slots: seq<Value>, root: Reservation): TupleValue {
    Finish(SlotTables(slots), BuildRoots(slots), root)
  }

  lemma SlotSnoc(slots: seq<Value>, e: Value)
    ensures SlotTables(slots + [e]) == AppendSlot(SlotTables(slots), e)
  {
    assert (slots + [e])[..|slots|] == slots;
  }

  function PayloadsBefore(slots: seq<Value>, k: nat): nat
    requires k <= |slots|
  {
    |Build(slots[..k]).payloads|
  }

  ghost predicate TopScalar(slots: seq<Value>, i: nat, k: nat) {
    k < |slots| && slots[k].ScalarV? && BuildRoots(slots)[k] == i
  }

  /** The two sets of tables agree but for the payload field of top-level scalars. */
  ghost predicate SameButCursors(slots: seq<Value>) {
    var p, b := SlotTables(slots), Build(slots);
    && |p.nodes| == |b.nodes| && p == b.(nodes := p.nodes)
    && (forall k :: 0 <= k < |slots| ==> BuildRoots(slots)[k] < |b.nodes|)
    && (forall k: nat, i: nat :: i < |p.nodes| && TopScalar(slots, i, k) ==>
          b.nodes[i].payload == 0 && b.nodes[i].container == ScalarC && p.nodes[i] == b.nodes[i].(payload := PayloadsBefore(slots, k)))
    && (forall i: nat :: i < |p.nodes| && (forall k: nat :: !TopScalar(slots, i, k)) ==> p.nodes[i] == b.nodes[i])
  }

  lemma AppendSlotSame(p: TupleValue, b: TupleValue, e: Value)
    requires |p.nodes| == |b.nodes| && p == b.(nodes := p.nodes)
    ensures var p', b' := AppendSlot(p, e), AppendValue(b, e);
            && |p'.nodes| == |b'.nodes| && p' == b'.(nodes := p'.nodes)
            && p.nodes <= p'.nodes && b.nodes <= b'.nodes
            && (forall i :: |p.nodes| <= i < |p'.nodes| && !e.ScalarV? ==> p'.nodes[i] == b'.nodes[i])
            && |p.nodes| < |p'.nodes|
            && (e.ScalarV? ==>
                  && |p'.nodes| == |p.nodes| + 1
                  && b'.nodes[|p.nodes|] == ValueNode(ScalarC, e.scalar, 0, 0, 0, 0)
                  && p'.nodes[|p.nodes|] == ValueNode(ScalarC, e.scalar, 0, 0, 0, |b.payloads|))
  {
    assert OffsetsOf(p) == OffsetsOf(b);
    if e.ScalarV? {
      LeafAppended(b, e);
    } else {
      hide NodeOf, ShapeOfElement, PayloadsOf, ReservationsOf, CountOf, OffsetsOf;
    }
  }

  lemma RootsGrow(slots: seq<Value>, e: Value, i: nat, k: nat)
    requires k < |slots|
    ensures BuildRoots(slots + [e])[k] == BuildRoots(slots)[k]
    ensures TopScalar(slots + [e], i, k) <==> TopScalar(slots, i, k)
    ensures PayloadsBefore(slots + [e], k) == PayloadsBefore(slots, k)
  {
    BuildSnoc(slots, e);
    assert (slots + [e])[..k] == slots[..k];
  }

  lemma NoScalarBefore(slots: seq<Value>, e: Value, i: nat)
    requires forall k: nat :: !TopScalar(slots + [e], i, k)
    ensures forall k: nat :: !TopScalar(slots, i, k)
  {
    forall k: nat ensures !TopScalar(slots, i, k) {
      if k < |slots| { RootsGrow(slots, e, i, k); }
    }
  }

  lemma TopScalarMeans(slots: seq<Value>, e: Value, i: nat, k: nat)
    requires TopScalar(slots + [e], i, k)
    ensures k <= |slots| && (k == |slots| ==> e.ScalarV? && i == BuildRoots(slots + [e])[k])
    ensures k < |slots| ==> i == BuildRoots(slots)[k]
    ensures k == |slots| ==> PayloadsBefore(slots + [e], k) == |Build(slots).payloads|
  {
    hide Build, BuildRoots;
    BuildSnoc(slots, e);
    assert (slots + [e])[..|slots|] == slots;
  }

  lemma LastIsScalar(slots: seq<Value>, e: Value, i: nat)
    requires forall k: nat :: !TopScalar(slots + [e], i, k)
    ensures e.ScalarV? ==> i != BuildRoots(slots + [e])[|slots|]
  {
    assert !TopScalar(slots + [e], i, |slots|);
  }

  lemma SameStep(slots: seq<Value>, e: Value)
    requires SameButCursors(slots)
    ensures SameButCursors(slots + [e])
  {
    hide SlotTables, Build, BuildRoots, AppendSlot, AppendValue, PayloadsBefore, TopScalar;
    var all := slots + [e];
    var p, b, p', b' := SlotTables(slots), Build(slots), SlotTables(all), Build(all);
    SlotSnoc(slots, e);
    BuildSnoc(slots, e);
    AppendSlotSame(p, b, e);
    forall k | 0 <= k < |all| ensures BuildRoots(all)[k] < |b'.nodes| {
      if k < |slots| { RootsGrow(slots, e, 0, k); }
    }
    forall k: nat, i: nat | TopScalar(all, i, k) ensures k < |all| { TopScalarMeans(slots, e, i, k); }
    forall k: nat, i: nat | i < |p'.nodes| && k < |all| && TopScalar(all, i, k)
      ensures b'.nodes[i].payload == 0 && b'.nodes[i].container == ScalarC && p'.nodes[i] == b'.nodes[i].(payload := PayloadsBefore(all, k))
    {
      TopScalarMeans(slots, e, i, k);
      if k < |slots| { RootsGrow(slots, e, i, k); }
    }
    forall i: nat | i < |p'.nodes| && (forall k: nat :: !TopScalar(all, i, k)) ensures p'.nodes[i] == b'.nodes[i] {
      if i < |p.nodes| {
        NoScalarBefore(slots, e, i);
      } else {
        LastIsScalar(slots, e, i);
      }
    }
  }

  /** src/resources.cpp:2549-2619 against 1973-2091. */
  lemma {:induction false} SlotTablesAgree(slots: seq<Value>)
    ensures SameButCursors(slots)
  {
    if slots != [] {
      var front, e := slots[..|slots| - 1], slots[|slots| - 1];
      assert slots == front + [e];
      SlotTablesAgree(front);
      SameStep(front, e);
    }
  }

  /** Same table, same slots, same tags: the published value denotes the same tree as the made one. */
  lemma PublishedSameTree(slots: seq<Value>, root: Reservation)
    requires SlotsExist(Finish(Build(slots), BuildRoots(slots), root))
    ensures var p, w := Published(slots, root), Finish(Build(slots), BuildRoots(slots), root);
            && TableOf(p) == TableOf(w)
            && SlotsExist(p) && ValueTags(p) == ValueTags(w)
            && |p.nodes| == |w.nodes| && p == w.(nodes := p.nodes)
            && forall i: nat :: i < NodeCount(p) ==> SlotOf(p, i) == SlotOf(w, i)
  {
    SlotTablesAgree(slots);
    var p, w := Published(slots, root), Finish(Build(slots), BuildRoots(slots), root);
    hide SlotTables, Build, BuildRoots;
    forall i: nat | i < |p.nodes|
      ensures p.nodes[i] == w.nodes[i].(payload := p.nodes[i].payload)
      ensures p.nodes[i].payload == w.nodes[i].payload || w.nodes[i].container == ScalarC
    {
      if k: nat :| TopScalar(slots, i, k) {
        assert w.nodes[i].container == ScalarC;
      }
    }
    SamePublished(p, w);
  }

  lemma SamePublished(p: TupleValue, w: TupleValue)
    requires |p.nodes| == |w.nodes| && p == w.(nodes := p.nodes) && SlotsExist(w)
    requires forall i: nat :: i < |p.nodes| ==>
               && p.nodes[i] == w.nodes[i].(payload := p.nodes[i].payload)
               && (p.nodes[i].payload == w.nodes[i].payload || w.nodes[i].container == ScalarC)
    ensures TableOf(p) == TableOf(w) && SlotsExist(p) && ValueTags(p) == ValueTags(w)
    ensures forall i: nat :: i < NodeCount(p) ==> SlotOf(p, i) == SlotOf(w, i)
  {
    forall i: nat | i < NodeCount(p) ensures SlotOf(p, i) == SlotOf(w, i) && SlotExists(p, SlotOf(p, i)) && SpanOf(p, i) == SpanOf(w, i) {
      assert SlotExists(w, SlotOf(w, i));
    }
    assert TableOf(p).spans == TableOf(w).spans;
    forall i: nat | i < NodeCount(p) ensures ValueTagAt(p, i) == ValueTagAt(w, i) {
      assert SlotExists(w, SlotOf(w, i));
    }
    assert ValueTags(p) == ValueTags(w);
  }

  lemma PayloadsSnoc(slots: seq<Value>, e: Value)
    ensures Build(slots + [e]).payloads == Build(slots).payloads + PayloadsOf(e)
  {
    BuildSnoc(slots, e);
    hide Build, PayloadsOf, ReservationsOf, ShapeOfElement, NodesOf, MovedEdges, OffsetsOf;
  }

  lemma {:induction false} NoPayloadsBefore(slots: seq<Value>)
    ensures |Build(slots).payloads| == 0 <==> forall j :: 0 <= j < |slots| ==> PayloadsOf(slots[j]) == []
  {
    hide PayloadsOf, AppendValue;
    if slots != [] {
      hide Build;
      var front, e := slots[..|slots| - 1], slots[|slots| - 1];
      assert slots == front + [e];
      NoPayloadsBefore(front);
      PayloadsSnoc(front, e);
      assert forall j :: 0 <= j < |front| ==> front[j] == slots[j];
    }
  }

  /** No top-level scalar comes after a slot that owns a vector payload. */
  ghost predicate ScalarsFirst(slots: seq<Value>) {
    forall j, k :: 0 <= j < k < |slots| && slots[k].ScalarV? ==> PayloadsOf(slots[j]) == []
  }

  lemma ScalarsFirstMeans(slots: seq<Value>)
    ensures ScalarsFirst(slots) <==> forall k :: 0 <= k < |slots| && slots[k].ScalarV? ==> PayloadsBefore(slots, k) == 0
  {
    hide Build, PayloadsOf;
    forall k | 0 <= k < |slots|
      ensures PayloadsBefore(slots, k) == 0 <==> forall j :: 0 <= j < k ==> PayloadsOf(slots[j]) == []
    {
      NoPayloadsBefore(slots[..k]);
      assert forall j :: 0 <= j < k ==> slots[..k][j] == slots[j];
    }
  }

  lemma PublishedRootScalar(slots: seq<Value>, root: Reservation, k: nat)
    requires k < |slots| && slots[k].ScalarV?
    ensures var p := Published(slots, root);
            && BuildRoots(slots)[k] < |p.nodes| && p.nodes[BuildRoots(slots)[k]].container == ScalarC
            && p.nodes[BuildRoots(slots)[k]].payload == PayloadsBefore(slots, k)
  {
    SlotTablesAgree(slots);
    hide SlotTables, Build, BuildRoots;
    assert TopScalar(slots, BuildRoots(slots)[k], k);
  }

  lemma PublishedIsMade(slots: seq<Value>, root: Reservation)
    requires ScalarsFirst(slots)
    ensures Published(slots, root) == Finish(Build(slots), BuildRoots(slots), root)
  {
    SlotTablesAgree(slots);
    ScalarsFirstMeans(slots);
    var p, b := SlotTables(slots), Build(slots);
    hide SlotTables, Build, BuildRoots, ScalarsFirst;
    forall i: nat | i < |p.nodes| ensures p.nodes[i] == b.nodes[i] {
      if k: nat :| TopScalar(slots, i, k) {
        assert PayloadsBefore(slots, k) == 0;
      }
    }
    assert p.nodes == b.nodes;
  }

  /**
   What publishing valid, separate slots yields: always the tuple of their trees, and a valid value exactly when
   no top-level scalar slot follows a slot that owns a payload.
   */
  lemma PublishedMeaning(buffers: seq<HostBuffer>, owners: set<nat>, slots: seq<Value>, root: Reservation)
    requires AllValid(buffers, owners, slots) && PairwiseApart(slots)
    requires ReservationOk(buffers, owners, root, |slots|)
    requires forall k :: 0 <= k < |slots| ==> root.account.storage !in StoragesIn(slots[k])
    ensures var p := Published(slots, root);
            && SlotsExist(p) && WellFormed(TableOf(p))
            && Denote(TableOf(p), ValueTags(p), |p.nodes|) == Node(TupleBranch, ElementTrees(buffers, owners, slots))
            && (ValidTuple(buffers, owners, p) <==> ScalarsFirst(slots))
  {
    hide *;
    var p, w := Published(slots, root), Finish(Build(slots), BuildRoots(slots), root);
    FinishedTuple(buffers, owners, slots, root);
    ValidParts(buffers, owners, w);
    PublishedSameTree(slots, root);
    ScalarsFirstMeans(slots);
    if ScalarsFirst(slots) {
      PublishedIsMade(slots, root);
    } else {
      var k :| 0 <= k < |slots| && slots[k].ScalarV? && PayloadsBefore(slots, k) != 0;
      PublishedRootScalar(slots, root, k);
      BadScalar(buffers, owners, p, BuildRoots(slots)[k]);
    }
  }

  lemma ValidParts(buffers: seq<HostBuffer>, owners: set<nat>, v: TupleValue)
    requires ValidTuple(buffers, owners, v)
    ensures Structured(v) && SlotsExist(v) && WellFormed(TableOf(v)) && ValueOf(v) == Denote(TableOf(v), ValueTags(v), |v.nodes|)
    ensures Postorder(TableOf(v)) && |TableOf(v).spans| == |ValueTags(v)| == NodeCount(v) == |v.nodes| + 1
  {
  }

  lemma BadScalar(buffers: seq<HostBuffer>, owners: set<nat>, v: TupleValue, i: nat)
    requires i < |v.nodes| && v.nodes[i].container == ScalarC && v.nodes[i].payload != 0
    ensures !ValidTuple(buffers, owners, v)
  {
    assert !NodeFieldsOk(v, i);
  }

  /** The shortest failing case: an empty vector followed by a scalar. */
  lemma PublishedInvalidExample(buffers: seq<HostBuffer>, owners: set<nat>, root: Reservation)
    ensures var slots := [VectorV(Payload(Integer, [], EMPTY_ACCOUNT)), ScalarV(EMPTY_SCALAR)];
            AllValid(buffers, owners, slots) && PairwiseApart(slots) && !ValidTuple(buffers, owners, Published(slots, root))
  {
    var v, s := VectorV(Payload(Integer, [], EMPTY_ACCOUNT)), ScalarV(EMPTY_SCALAR);
    var slots := [v, s];
    assert PayloadOk(buffers, owners, v.payload);
    assert StoragesIn(v) == {} && StoragesIn(s) == {};
    assert slots[..1] == [v];
    NoPayloadsBefore([v]);
    assert PayloadsOf([v][0]) != [];
    PublishedRootScalar(slots, root, 1);
    BadScalar(buffers, owners, Published(slots, root), BuildRoots(slots)[1]);
  }
}
