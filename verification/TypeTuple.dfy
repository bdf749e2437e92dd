/** src/type.cpp:174-267: the tuple type of complete element types. */
module TypeTuple {
  import opened Kinds
  import opened Arena
  import opened ArenaGraft
  import opened TypeArenas

  datatype ConstructionResult = Built(arena: TypeArena) | InvalidElement(index: nat, verdict: Verdict) | TooLarge | PushFailed

  function ShapeFrom(nodes: seq<TypeNode>, edges: seq<nat>): Shape {
    ShapeOf(TypeArena(nodes, edges, 0, None))
  }

  ghost function NodeTotal(elements: seq<TypeArena>): nat {
    if elements == [] then 0 else NodeTotal(elements[..|elements| - 1]) + |TypeNodes(elements[|elements| - 1])|
  }

  ghost function EdgeTotal(elements: seq<TypeArena>): nat {
    if elements == [] then 0 else EdgeTotal(elements[..|elements| - 1]) + |elements[|elements| - 1].childIndexes|
  }

  lemma {:induction false} TotalsGrow(elements: seq<TypeArena>, k: nat)
    requires k <= |elements|
    ensures NodeTotal(elements[..k]) <= NodeTotal(elements) && EdgeTotal(elements[..k]) <= EdgeTotal(elements)
  {
    if k < |elements| {
      TotalsGrow(elements[..|elements| - 1], k);
      assert elements[..|elements| - 1][..k] == elements[..k];
    } else {
      assert elements[..k] == elements;
    }
  }

  lemma TotalsStep(elements: seq<TypeArena>, k: nat)
    requires k < |elements|
    ensures NodeTotal(elements[..k + 1]) == NodeTotal(elements[..k]) + |TypeNodes(elements[k])|
    ensures EdgeTotal(elements[..k + 1]) == EdgeTotal(elements[..k]) + |elements[k].childIndexes|
  {
    assert elements[..k + 1][..k] == elements[..k];
  }

  ghost predicate AllWellFormed(elements: seq<TypeArena>) {
    forall k :: 0 <= k < |elements| ==> WellFormedType(elements[k])
  }

  ghost function ElementTypes(elements: seq<TypeArena>): (r: seq<TypeTree>)
    requires AllWellFormed(elements)
    ensures |r| == |elements| && forall k :: 0 <= k < |elements| ==> r[k] == TypeOf(elements[k])
  {
    seq(|elements|, k requires 0 <= k < |elements| => TypeOf(elements[k]))
  }

  /** The tables hold the first elements, and `roots` are where their types ended up. */
  ghost predicate Holds(elements: seq<TypeArena>, nodes: seq<TypeNode>, edges: seq<nat>, roots: seq<nat>) {
    && AllWellFormed(elements)
    && AllFieldsOk(nodes)
    && ForestWF(ShapeFrom(nodes, edges), roots)
    && |roots| == |elements|
    && |nodes| == NodeTotal(elements) && |edges| == EdgeTotal(elements)
    && RootsIn(ShapeFrom(nodes, edges), roots)
    && RootTrees(ShapeFrom(nodes, edges), Tags(nodes), roots) == ElementTypes(elements)
  }

  ghost predicate Copied(nodes: seq<TypeNode>, edges: seq<nat>, e: TypeArena, nodes': seq<TypeNode>, edges': seq<nat>) {
    && nodes <= nodes' && |nodes'| == |nodes| + |TypeNodes(e)|
    && edges <= edges' && |edges'| == |edges| + |e.childIndexes|
    && (forall k :: 0 <= k < |TypeNodes(e)| ==> nodes'[|nodes| + k] == Moved(TypeNodes(e)[k], |edges|))
    && (forall k :: 0 <= k < |e.childIndexes| ==> edges'[|edges| + k] == e.childIndexes[k] + |nodes|)
  }

  function Moved(n: TypeNode, edgeOffset: nat): TypeNode {
    if n.kind == TupleKind then n.(firstChild := n.firstChild + edgeOffset) else n
  }

  lemma CopiedFields(nodes: seq<TypeNode>, edges: seq<nat>, e: TypeArena, nodes': seq<TypeNode>, edges': seq<nat>)
    requires Copied(nodes, edges, e, nodes', edges') && AllFieldsOk(nodes) && WellFormedType(e)
    ensures AllFieldsOk(nodes') && forall i :: 0 <= i < |TypeNodes(e)| ==> FieldsOk(TypeNodes(e)[i])
  {
    hide WellFormed, ShapeOf;
    forall i | 0 <= i < |nodes'| ensures FieldsOk(nodes'[i]) {
      if i >= |nodes| { assert nodes'[|nodes| + (i - |nodes|)] == Moved(TypeNodes(e)[i - |nodes|], |edges|); }
    }
  }

  lemma CopiedAppends(nodes: seq<TypeNode>, edges: seq<nat>, e: TypeArena, nodes': seq<TypeNode>, edges': seq<nat>)
    requires Copied(nodes, edges, e, nodes', edges') && AllFieldsOk(nodes) && WellFormedType(e)
    ensures Appended(ShapeFrom(nodes, edges), ShapeOf(e), ShapeFrom(nodes', edges')) && AllFieldsOk(nodes')
    ensures forall k :: 0 <= k < |TypeNodes(e)| ==> Tags(nodes')[|nodes| + k] == Tags(TypeNodes(e))[k]
    ensures Tags(nodes) <= Tags(nodes')
  {
    CopiedFields(nodes, edges, e, nodes', edges');
    var f, s, g := ShapeFrom(nodes, edges), ShapeOf(e), ShapeFrom(nodes', edges');
    hide WellFormed, AllFieldsOk;
    forall i | 0 <= i < |TypeNodes(e)| ensures MovedSpan(s.spans[i], g.spans[|f.spans| + i], |f.edges|, |g.edges|) {
      assert FieldsOk(TypeNodes(e)[i]);
    }
  }

  lemma RootOfType(e: TypeArena)
    requires WellFormedType(e)
    ensures WellFormed(ShapeOf(e)) && e.rootIndex == Root(ShapeOf(e)) && |ShapeOf(e).spans| == |Tags(TypeNodes(e))| == |TypeNodes(e)|
    ensures TypeOf(e) == Denote(ShapeOf(e), Tags(TypeNodes(e)), Root(ShapeOf(e)))
  {
  }

  lemma ElementTypesStep(elements: seq<TypeArena>, e: TypeArena)
    requires AllWellFormed(elements) && WellFormedType(e)
    ensures AllWellFormed(elements + [e])
    ensures ElementTypes(elements + [e]) == ElementTypes(elements) + [TypeOf(e)]
    ensures NodeTotal(elements + [e]) == NodeTotal(elements) + |TypeNodes(e)|
    ensures EdgeTotal(elements + [e]) == EdgeTotal(elements) + |e.childIndexes|
  {
    hide WellFormedType;
    assert (elements + [e])[..|elements|] == elements;
  }

  lemma HoldsStep(elements: seq<TypeArena>, nodes: seq<TypeNode>, edges: seq<nat>, roots: seq<nat>, e: TypeArena,
                  nodes': seq<TypeNode>, edges': seq<nat>)
    requires Holds(elements, nodes, edges, roots) && WellFormedType(e)
    requires Copied(nodes, edges, e, nodes', edges')
    ensures Holds(elements + [e], nodes', edges', roots + [e.rootIndex + |nodes|])
  {
    hide WellFormedType, AllWellFormed, AllFieldsOk, ForestWF, RootsIn, RootTrees, ElementTypes, Copied, Tags, ShapeFrom, ShapeOf, Appended,
         NodeTotal, EdgeTotal, TypeNodes, TypeOf;
    CopiedAppends(nodes, edges, e, nodes', edges');
    CopiedSizes(nodes, edges, e, nodes', edges');
    ElementTypesStep(elements, e);
    TreesStep(nodes, edges, roots, e, nodes', edges');
  }

  lemma CopiedSizes(nodes: seq<TypeNode>, edges: seq<nat>, e: TypeArena, nodes': seq<TypeNode>, edges': seq<nat>)
    requires Copied(nodes, edges, e, nodes', edges')
    ensures |nodes'| == |nodes| + |TypeNodes(e)| && |edges'| == |edges| + |e.childIndexes|
  {
  }

  lemma ShapeSizes(nodes: seq<TypeNode>, edges: seq<nat>)
    ensures |ShapeFrom(nodes, edges).spans| == |nodes| == |Tags(nodes)|
  {
  }

  lemma TreesStep(nodes: seq<TypeNode>, edges: seq<nat>, roots: seq<nat>, e: TypeArena, nodes': seq<TypeNode>, edges': seq<nat>)
    requires ForestWF(ShapeFrom(nodes, edges), roots) && RootsIn(ShapeFrom(nodes, edges), roots) && WellFormedType(e)
    requires Appended(ShapeFrom(nodes, edges), ShapeOf(e), ShapeFrom(nodes', edges'))
    requires forall k :: 0 <= k < |TypeNodes(e)| ==> Tags(nodes')[|nodes| + k] == Tags(TypeNodes(e))[k]
    requires Tags(nodes) <= Tags(nodes')
    ensures var f, g, roots' := ShapeFrom(nodes, edges), ShapeFrom(nodes', edges'), roots + [e.rootIndex + |nodes|];
            && ForestWF(g, roots') && RootsIn(g, roots')
            && RootTrees(g, Tags(nodes'), roots') == RootTrees(f, Tags(nodes), roots) + [TypeOf(e)]
  {
    hide *;
    RootOfType(e);
    var f, g := ShapeFrom(nodes, edges), ShapeFrom(nodes', edges');
    ShapeSizes(nodes, edges);
    ShapeSizes(nodes', edges');
    AppendRootTrees(f, Tags(nodes), roots, ShapeOf(e), Tags(TypeNodes(e)), g, Tags(nodes'));
  }

  lemma HoldsClosed(elements: seq<TypeArena>, nodes: seq<TypeNode>, edges: seq<nat>, roots: seq<nat>, r: TypeArena)
    requires Holds(elements, nodes, edges, roots)
    requires r == TypeArena(nodes + [TypeNode(TupleKind, Boolean, |edges|, |roots|)], edges + roots, |nodes|, None)
    ensures WellFormedType(r) && TypeOf(r) == Node(TupleTag, ElementTypes(elements))
  {
    var f, g := ShapeFrom(nodes, edges), ShapeOf(r);
    assert g.spans == f.spans + [Span(|f.edges|, |roots|)];
    assert Tags(r.nodes) == Tags(nodes) + [TupleTag];
    ClosedFields(nodes, edges, roots, r);
    hide AllFieldsOk, ForestWF, Tags, RootTrees, RootsIn, ElementTypes, FieldsOk, AllWellFormed, ShapeFrom, ShapeOf, NodeTotal, EdgeTotal;
    CloseDenotes(f, Tags(nodes), roots, g, TupleTag);
  }

  lemma ClosedFields(nodes: seq<TypeNode>, edges: seq<nat>, roots: seq<nat>, r: TypeArena)
    requires AllFieldsOk(nodes)
    requires r == TypeArena(nodes + [TypeNode(TupleKind, Boolean, |edges|, |roots|)], edges + roots, |nodes|, None)
    ensures AllFieldsOk(TypeNodes(r)) && TypeNodes(r) == r.nodes && |ShapeOf(r).spans| == |nodes| + 1
  {
  }

  // ---------------------------------------------------------------- construction

  lemma HoldsNothing()
    ensures Holds([], [], [], [])
  {
    assert RootTrees(ShapeFrom([], []), Tags([]), []) == [];
  }

  /** src/type.cpp:217-242: copy one element behind the tables; a push is refused once the capacity is reached. */
  method CopyElement(nodes: seq<TypeNode>, edges: seq<nat>, e: TypeArena, nodeCapacity: nat, edgeCapacity: nat)
    returns (ok: bool, nodes': seq<TypeNode>, edges': seq<nat>)
    requires |nodes| <= nodeCapacity && |edges| <= edgeCapacity
    ensures ok <==> |nodes| + |TypeNodes(e)| <= nodeCapacity && |edges| + |e.childIndexes| <= edgeCapacity
    ensures ok ==> Copied(nodes, edges, e, nodes', edges')
  {
    nodes', edges' := nodes, edges;
    var source := TypeNodes(e);
    for k := 0 to |source|
      invariant nodes <= nodes' && |nodes'| == |nodes| + k <= nodeCapacity
      invariant forall i :: 0 <= i < k ==> nodes'[|nodes| + i] == Moved(source[i], |edges|)
    {
      if |nodes'| >= nodeCapacity {
        return false, nodes', edges';
      }
      nodes' := nodes' + [if source[k].kind == TupleKind then source[k].(firstChild := source[k].firstChild + |edges|) else source[k]];
    }
    for k := 0 to |e.childIndexes|
      invariant edges <= edges' && |edges'| == |edges| + k <= edgeCapacity
      invariant forall i :: 0 <= i < k ==> edges'[|edges| + i] == e.childIndexes[i] + |nodes|
    {
      if |edges'| >= edgeCapacity {
        return false, nodes', edges';
      }
      edges' := edges' + [e.childIndexes[k] + |nodes|];
    }
    ok := true;
  }

  /** The first `k` elements are valid and counted. */
  ghost predicate CountedTo(elements: seq<TypeArena>, k: nat, nodeCount: nat, edgeCount: nat)
    requires k <= |elements|
  {
    && (forall i :: 0 <= i < k ==> Accepted(elements[i]))
    && nodeCount == 1 + NodeTotal(elements[..k]) <= SIZE_MAX
    && edgeCount == |elements| + EdgeTotal(elements[..k]) && (k > 0 ==> edgeCount <= SIZE_MAX)
  }

  /** A refusal names an element that is at fault, or the sizes that do not fit. */
  ghost predicate CountFails(elements: seq<TypeArena>, failure: ConstructionResult) {
    || (failure == TooLarge && (1 + NodeTotal(elements) > SIZE_MAX || |elements| + EdgeTotal(elements) > SIZE_MAX))
    || (failure.InvalidElement? && failure.index < |elements| && !Accepted(elements[failure.index]) &&
         (failure.verdict.Invalid? ==> !WellFormedType(elements[failure.index])) &&
         (failure.verdict.SizeOverflow? ==> |elements[failure.index].childIndexes| == SIZE_MAX))
  }

  lemma CountStep(elements: seq<TypeArena>, k: nat, nodeCount: nat, edgeCount: nat)
    requires k < |elements| && CountedTo(elements, k, nodeCount, edgeCount) && Accepted(elements[k])
    ensures var n, e := nodeCount + |TypeNodes(elements[k])|, edgeCount + |elements[k].childIndexes|;
            if n <= SIZE_MAX && e <= SIZE_MAX then CountedTo(elements, k + 1, n, e) else CountFails(elements, TooLarge)
  {
    hide Accepted, NodeTotal, EdgeTotal, TypeNodes;
    TotalsStep(elements, k);
    TotalsGrow(elements, k + 1);
  }

  method CountElement(elements: seq<TypeArena>, k: nat, nodeCount: nat, edgeCount: nat)
    returns (failure: Option<ConstructionResult>, nodeCount': nat, edgeCount': nat)
    requires k < |elements| && CountedTo(elements, k, nodeCount, edgeCount)
    ensures failure == None ==> CountedTo(elements, k + 1, nodeCount', edgeCount')
    ensures failure.Some? ==> CountFails(elements, failure.value)
  {
    hide CountedTo, WellFormedType, Violation;
    nodeCount', edgeCount' := nodeCount, edgeCount;
    var e := elements[k];
    var v := ValidateType(e);
    if v != Valid {
      if v.Invalid? { ViolationRefutes(e, v.reason, v.node, v.edge); }
      return Some(InvalidElement(k, v)), nodeCount', edgeCount';
    }
    CountStep(elements, k, nodeCount, edgeCount);
    hide CountFails;
    if |TypeNodes(e)| > SIZE_MAX - nodeCount || edgeCount > SIZE_MAX || |e.childIndexes| > SIZE_MAX - edgeCount {
      return Some(TooLarge), nodeCount', edgeCount';
    }
    nodeCount', edgeCount' := nodeCount + |TypeNodes(e)|, edgeCount + |e.childIndexes|;
    failure := None;
  }

  /** src/type.cpp:183-200: validate every element and compute the exact capacities. */
  method CountElements(elements: seq<TypeArena>) returns (failure: Option<ConstructionResult>, nodeCount: nat, edgeCount: nat)
    ensures failure == None ==>
              && (forall k :: 0 <= k < |elements| ==> Accepted(elements[k]))
              && nodeCount == 1 + NodeTotal(elements) <= SIZE_MAX
              && edgeCount == |elements| + EdgeTotal(elements) <= SIZE_MAX
    ensures failure.Some? ==> CountFails(elements, failure.value)
  {
    hide Accepted, CountFails;
    nodeCount, edgeCount := 1, |elements|;
    for k := 0 to |elements|
      invariant CountedTo(elements, k, nodeCount, edgeCount)
    {
      failure, nodeCount, edgeCount := CountElement(elements, k, nodeCount, edgeCount);
      if failure.Some? {
        return;
      }
    }
    assert elements[..|elements|] == elements;
    failure := None;
  }

  /** The validator accepts every element, and the sizes of the result fit. */
  ghost predicate Tuplable(elements: seq<TypeArena>) {
    && (forall k :: 0 <= k < |elements| ==> Accepted(elements[k]))
    && 1 + NodeTotal(elements) <= SIZE_MAX && |elements| + EdgeTotal(elements) <= SIZE_MAX
  }

  lemma AcceptedWellFormed(elements: seq<TypeArena>)
    requires forall k :: 0 <= k < |elements| ==> Accepted(elements[k])
    ensures AllWellFormed(elements)
  {
  }

  /**
   src/type.cpp:179-267.  A tuple type is built exactly when the validator accepts every element and the sizes fit.
   It encodes the tuple of the element types, and the capacities computed beforehand are met exactly, so that no
   push can fail.
   */
  method MakeTupleType(elements: seq<TypeArena>) returns (r: ConstructionResult)
    ensures r.Built? <==> Tuplable(elements)
    ensures r.Built? ==>
              && AllWellFormed(elements)
              && WellFormedType(r.arena)
              && TypeOf(r.arena) == Node(TupleTag, ElementTypes(elements))
              && |r.arena.nodes| == NodeTotal(elements) + 1
              && |r.arena.childIndexes| == EdgeTotal(elements) + |elements|
    ensures r.InvalidElement? ==>
              && r.index < |elements|
              && !Accepted(elements[r.index])
              && (r.verdict.Invalid? ==> !WellFormedType(elements[r.index]))
              && (r.verdict.SizeOverflow? ==> |elements[r.index].childIndexes| == SIZE_MAX)
    ensures r.TooLarge? ==> 1 + NodeTotal(elements) > SIZE_MAX || |elements| + EdgeTotal(elements) > SIZE_MAX
    ensures r != PushFailed
  {
    hide Accepted, WellFormedType;
    var failure, nodeCount, edgeCount := CountElements(elements);
    if failure.Some? {
      return failure.value;
    }
    AcceptedWellFormed(elements);
    var arena := Assemble(elements, nodeCount, edgeCount);
    return Built(arena);
  }

  /** src/type.cpp:202-266: copy every element, then the root edges and the root. */
  method Assemble(elements: seq<TypeArena>, nodeCount: nat, edgeCount: nat) returns (arena: TypeArena)
    requires AllWellFormed(elements)
    requires nodeCount == 1 + NodeTotal(elements) && edgeCount == |elements| + EdgeTotal(elements)
    ensures WellFormedType(arena) && TypeOf(arena) == Node(TupleTag, ElementTypes(elements))
    ensures |arena.nodes| == nodeCount && |arena.childIndexes| == edgeCount
  {
    hide WellFormedType, Holds, AllWellFormed, NodeTotal, EdgeTotal, TypeOf;
    var nodes: seq<TypeNode>, edges: seq<nat>, roots: seq<nat> := [], [], [];
    HoldsNothing();
    for k := 0 to |elements|
      invariant Holds(elements[..k], nodes, edges, roots)
    {
      nodes, edges, roots := AddElement(elements, k, nodes, edges, roots, nodeCount, edgeCount);
    }
    assert elements[..|elements|] == elements;
    arena := TypeArena(nodes + [TypeNode(TupleKind, Boolean, |edges|, |roots|)], edges + roots, |nodes|, None);
    HoldsClosed(elements, nodes, edges, roots, arena);
    HoldsSizes(elements, nodes, edges, roots);
  }

  method AddElement(elements: seq<TypeArena>, k: nat, nodes: seq<TypeNode>, edges: seq<nat>, roots: seq<nat>, nodeCount: nat, edgeCount: nat)
    returns (nodes': seq<TypeNode>, edges': seq<nat>, roots': seq<nat>)
    requires AllWellFormed(elements) && k < |elements|
    requires nodeCount == 1 + NodeTotal(elements) && edgeCount == |elements| + EdgeTotal(elements)
    requires Holds(elements[..k], nodes, edges, roots)
    ensures Holds(elements[..k + 1], nodes', edges', roots')
  {
    hide WellFormedType, Holds, Copied, AllWellFormed, NodeTotal, EdgeTotal;
    TotalsStep(elements, k);
    TotalsGrow(elements, k + 1);
    HoldsSizes(elements[..k], nodes, edges, roots);
    ElementOk(elements, k);
    var ok;
    ok, nodes', edges' := CopyElement(nodes, edges, elements[k], nodeCount, edgeCount);
    if !ok {
      assert false; // the capacities are exact
    }
    HoldsStep(elements[..k], nodes, edges, roots, elements[k], nodes', edges');
    assert elements[..k + 1] == elements[..k] + [elements[k]];
    roots' := roots + [elements[k].rootIndex + |nodes|];
  }

  lemma HoldsSizes(elements: seq<TypeArena>, nodes: seq<TypeNode>, edges: seq<nat>, roots: seq<nat>)
    requires Holds(elements, nodes, edges, roots)
    ensures |nodes| == NodeTotal(elements) && |edges| == EdgeTotal(elements) && |roots| == |elements|
  {
  }

  lemma ElementOk(elements: seq<TypeArena>, k: nat)
    requires AllWellFormed(elements) && k < |elements|
    ensures WellFormedType(elements[k])
  {
  }
}
