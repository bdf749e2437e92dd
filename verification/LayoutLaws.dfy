/** What the layout test of a transfer is for: everything that publishing follows stays inside the tables, before and after. */
module LayoutLaws {
  import opened Kinds
  import opened Arena
  import opened HostStorage
  import opened ValueArenas
  import opened ValueElements
  import opened ValueAppend
  import opened ValueBuild
  import opened PublishTables
  import opened Preadmit

  /** Every slot of the value exists, and the edges of its tuple nodes are in the table and lead to smaller nodes. */
  ghost predicate Followable(t: TupleValue) {
    && t.rootIndex == |t.nodes| && SlotsExist(t)
    && forall i: nat :: i < NodeCount(t) ==>
         && ContainerOf(t, i) != UnknownC
         && (ContainerOf(t, i) == TupleC ==> SpanInRange(TableOf(t), i) && forall j :: j in Kids(TableOf(t), i) ==> j < i)
  }

  lemma NodeFollows(t: TupleValue, i: nat)
    requires i < |t.nodes|
    ensures NodeLayoutOk(t, i) <==>
              && SlotExists(t, SlotOf(t, i)) && ContainerOf(t, i) != UnknownC
              && (ContainerOf(t, i) == TupleC ==> SpanInRange(TableOf(t), i) && forall j :: j in Kids(TableOf(t), i) ==> j < i)
  {
    var s, span := TableOf(t), SpanOf(t, i);
    assert s.spans[i] == span;
    if t.nodes[i].container == TupleC && SpanInRange(s, i) {
      forall k | span.first <= k < span.first + span.count ensures t.childIndexes[k] in Kids(s, i) {
        assert Kids(s, i)[k - span.first] == t.childIndexes[k];
      }
      forall j | j in Kids(s, i) ensures exists k :: span.first <= k < span.first + span.count && t.childIndexes[k] == j {
        var a :| 0 <= a < |Kids(s, i)| && Kids(s, i)[a] == j;
        assert t.childIndexes[span.first + a] == j;
      }
    }
  }

  lemma RootFollows(t: TupleValue)
    ensures RangeOk(t.firstChild, t.childCount, |t.childIndexes|) <==> SpanInRange(TableOf(t), |t.nodes|)
    ensures SpanInRange(TableOf(t), |t.nodes|) ==>
              ((forall k :: t.firstChild <= k < t.firstChild + t.childCount ==> t.childIndexes[k] < |t.nodes|)
               <==> forall j :: j in Kids(TableOf(t), |t.nodes|) ==> j < |t.nodes|)
  {
    var s, i := TableOf(t), |t.nodes|;
    assert s.spans[i] == SpanOf(t, i);
    if SpanInRange(s, i) {
      forall k | t.firstChild <= k < t.firstChild + t.childCount ensures t.childIndexes[k] in Kids(s, i) {
        assert Kids(s, i)[k - t.firstChild] == t.childIndexes[k];
      }
      forall j | j in Kids(s, i) ensures exists k :: t.firstChild <= k < t.firstChild + t.childCount && t.childIndexes[k] == j {
        var a :| 0 <= a < |Kids(s, i)| && Kids(s, i)[a] == j;
        assert t.childIndexes[t.firstChild + a] == j;
      }
    }
  }

  /** The test accepts a tuple exactly when everything it refers to can be followed. */
  lemma LayoutSafeMeans(t: TupleValue)
    ensures LayoutSafe(TupleV(t)) <==> Followable(t)
  {
    RootFollows(t);
    forall i: nat | i < |t.nodes| { NodeFollows(t, i); }
    hide NodeLayoutOk, RangeOk, Kids, TableOf, SpanInRange;
    assert SlotExists(t, SlotOf(t, |t.nodes|)) && ContainerOf(t, |t.nodes|) == TupleC;
    if Followable(t) {
      assert SpanInRange(TableOf(t), |t.nodes|);
      forall i: nat | i < |t.nodes| ensures NodeLayoutOk(t, i) {
        assert SlotExists(t, SlotOf(t, i)) && ContainerOf(t, i) != UnknownC;
      }
    }
    if LayoutSafe(TupleV(t)) {
      forall i: nat | i < NodeCount(t)
        ensures SlotExists(t, SlotOf(t, i)) && ContainerOf(t, i) != UnknownC
        ensures ContainerOf(t, i) == TupleC ==> SpanInRange(TableOf(t), i) && forall j :: j in Kids(TableOf(t), i) ==> j < i
      {
        if i < |t.nodes| { assert NodeLayoutOk(t, i); }
      }
    }
  }

  // ---------------------------------------------------------------- publishing keeps it

  ghost predicate TablesFollow(a: TupleValue) {
    forall i: nat :: i < |a.nodes| ==> NodeLayoutOk(a, i)
  }

  /** A node keeps its layout when tables grow behind it. */
  lemma GrownNode(a: TupleValue, b: TupleValue, i: nat)
    requires i < |a.nodes| && NodeLayoutOk(a, i) && a.nodes <= b.nodes && a.childIndexes <= b.childIndexes
    requires |a.payloads| <= |b.payloads| && |a.reservations| <= |b.reservations|
    ensures NodeLayoutOk(b, i)
  {
  }

  /** `b` has the edges of `t` behind those of `a`, moved past its nodes, and its slots behind the slots of `a`. */
  ghost predicate EdgesMoved(a: TupleValue, t: TupleValue, b: TupleValue) {
    && |b.childIndexes| == |a.childIndexes| + |t.childIndexes|
    && (forall k :: |a.childIndexes| <= k < |b.childIndexes| ==> b.childIndexes[k] == t.childIndexes[k - |a.childIndexes|] + |a.nodes|)
    && |b.payloads| == |a.payloads| + |t.payloads| && |b.reservations| == |a.reservations| + |t.reservations| + 1
  }

  lemma MovedInner(a: TupleValue, t: TupleValue, b: TupleValue, j: nat)
    requires j < |t.nodes| && NodeLayoutOk(t, j) && EdgesMoved(a, t, b)
    requires |a.nodes| + j < |b.nodes| && b.nodes[|a.nodes| + j] == MovedNode(t.nodes[j], OffsetsOf(a))
    ensures NodeLayoutOk(b, |a.nodes| + j)
  {
  }

  lemma MovedRoot(a: TupleValue, t: TupleValue, b: TupleValue)
    requires LayoutSafe(TupleV(t)) && EdgesMoved(a, t, b)
    requires |a.nodes| + |t.nodes| < |b.nodes| && b.nodes[|a.nodes| + |t.nodes|] == NodeOf(TupleV(t), |t.nodes|, OffsetsOf(a))
    ensures NodeLayoutOk(b, |a.nodes| + |t.nodes|)
  {
    hide NodeLayoutOk;
    var n := b.nodes[|a.nodes| + |t.nodes|];
    assert n.firstChild == t.firstChild + |a.childIndexes| && n.childCount == t.childCount;
    forall k | n.firstChild <= k < n.firstChild + n.childCount
      ensures k < |b.childIndexes| && b.childIndexes[k] < |a.nodes| + |t.nodes|
    {
      assert t.childIndexes[k - |a.childIndexes|] < |t.nodes|;
    }
    RootNode(b, |a.nodes| + |t.nodes|);
  }

  lemma RootNode(b: TupleValue, i: nat)
    requires i < |b.nodes| && b.nodes[i].container == TupleC && b.nodes[i].reservation < |b.reservations|
    requires b.nodes[i].firstChild + b.nodes[i].childCount <= |b.childIndexes|
    requires forall k :: b.nodes[i].firstChild <= k < b.nodes[i].firstChild + b.nodes[i].childCount ==> b.childIndexes[k] < i
    ensures NodeLayoutOk(b, i)
  {
  }

  /** A node of an element keeps its layout at its new place. */
  lemma MovedNodeFollows(a: TupleValue, e: Value, b: TupleValue, j: nat)
    requires LayoutSafe(e) && j < CountOf(e) && b == AppendValue(a, e)
    ensures |a.nodes| + j < |b.nodes| && NodeLayoutOk(b, |a.nodes| + j)
  {
    assert b.nodes[|a.nodes| + j] == NodeOf(e, j, OffsetsOf(a));
    if e.TupleV? {
      var t := e.tuple;
      assert EdgesMoved(a, t, b);
      if j < |t.nodes| {
        assert NodeLayoutOk(t, j);
        hide NodeLayoutOk, EdgesMoved;
        MovedInner(a, t, b, j);
      } else {
        hide NodeLayoutOk, EdgesMoved, LayoutSafe;
        MovedRoot(a, t, b);
      }
    }
  }

  lemma {:induction false} SlotTablesFollow(slots: seq<Value>)
    requires forall k :: 0 <= k < |slots| ==> LayoutSafe(slots[k])
    ensures TablesFollow(SlotTables(slots))
    ensures forall k :: 0 <= k < |slots| ==> BuildRoots(slots)[k] < |SlotTables(slots).nodes|
  {
    if slots != [] {
      var before, e := slots[..|slots| - 1], slots[|slots| - 1];
      SlotTablesFollow(before);
      SlotTablesAgree(before);
      SlotTablesAgree(slots);
      var a, b := SlotTables(before), SlotTables(slots);
      assert b == AppendSlot(a, e);
      hide SlotTables, LayoutSafe, SameButCursors;
      OneSlot(a, e);
      SameCount(slots);
      forall k | 0 <= k < |slots| ensures BuildRoots(slots)[k] < |b.nodes| {
        if k < |before| { assert BuildRoots(slots)[k] == BuildRoots(before)[k]; }
      }
    }
  }

  lemma SameCount(slots: seq<Value>)
    requires SameButCursors(slots)
    ensures forall k :: 0 <= k < |slots| ==> BuildRoots(slots)[k] < |SlotTables(slots).nodes|
  {
  }

  lemma OneSlot(a: TupleValue, e: Value)
    requires TablesFollow(a) && LayoutSafe(e)
    ensures TablesFollow(AppendSlot(a, e)) && |a.nodes| <= |AppendSlot(a, e).nodes|
  {
    var b := AppendSlot(a, e);
    assert |b.nodes| == |a.nodes| + CountOf(e);
    forall i: nat | i < |b.nodes| ensures NodeLayoutOk(b, i) {
      if i < |a.nodes| {
        hide NodeLayoutOk;
        GrownNode(a, b, i);
      } else if !e.ScalarV? {
        hide NodeLayoutOk;
        MovedNodeFollows(a, e, b, i - |a.nodes|);
      }
    }
  }

  /** Publishing slots that each passed the test leaves nothing that cannot be followed. */
  lemma PublishedFollowable(slots: seq<Value>, root: Reservation)
    requires forall k :: 0 <= k < |slots| ==> LayoutSafe(slots[k])
    ensures Followable(Published(slots, root))
  {
    var a, p, roots := SlotTables(slots), Published(slots, root), BuildRoots(slots);
    SlotTablesFollow(slots);
    hide SlotTables, BuildRoots, Followable;
    forall i: nat | i < |p.nodes| ensures NodeLayoutOk(p, i) {
      hide NodeLayoutOk;
      GrownNode(a, p, i);
    }
    LayoutSafeMeans(p);
  }
}
