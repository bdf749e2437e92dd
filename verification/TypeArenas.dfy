/** src/type.cpp: type arenas, their validation and their meaning as trees. */
module TypeArenas {
  import opened Kinds
  import opened Arena
  import opened ArenaScan

  datatype TypeKind = ScalarKind | VectorKind | TupleKind | UnknownKind

  datatype TypeNode = TypeNode(kind: TypeKind, scalar: ScalarType, firstChild: nat, childCount: nat)

  /** `rootIndex` must name the last node; a leaf type may be stored inline instead of in `nodes`. */
  datatype TypeArena = TypeArena(nodes: seq<TypeNode>, childIndexes: seq<nat>, rootIndex: nat, inlineLeaf: Option<TypeNode>)

  datatype TypeInvariant =
    | InvalidTypeRoot | NonfinalTypeRoot | UnknownTypeKind | UnknownScalarType | InactiveTypeField
    | InvalidTupleRange | OverlappingTupleRange | InvalidTupleChildIndex | NonPostorderTupleChild
    | AliasedTupleChild | OrphanTypeNode | OrphanTupleEdge

  datatype Verdict = Valid | SizeOverflow | Invalid(reason: TypeInvariant, node: nat, edge: nat)

  function TypeNodes(t: TypeArena): seq<TypeNode> {
    if t.inlineLeaf.Some? then [t.inlineLeaf.value] else t.nodes
  }

  function ShapeOf(t: TypeArena): (s: Shape)
    ensures |s.spans| == |TypeNodes(t)| && s.edges == t.childIndexes
    ensures forall i :: 0 <= i < |s.spans| ==> s.spans[i] == Span(TypeNodes(t)[i].firstChild, TypeNodes(t)[i].childCount)
  {
    var nodes := TypeNodes(t);
    Shape(seq(|nodes|, i requires 0 <= i < |nodes| => Span(nodes[i].firstChild, nodes[i].childCount)), t.childIndexes)
  }

  /** Known tags, and every field that the node's kind does not use is clear. */
  predicate FieldsOk(n: TypeNode) {
    match n.kind
    case ScalarKind => ValidScalarType(n.scalar) && n.firstChild == 0 && n.childCount == 0
    case VectorKind => ValidScalarType(n.scalar) && n.firstChild == 0 && n.childCount == 0
    case TupleKind => n.scalar == Boolean
    case UnknownKind => false
  }

  ghost predicate AllFieldsOk(nodes: seq<TypeNode>) {
    forall i :: 0 <= i < |nodes| ==> FieldsOk(nodes[i])
  }

  /** The arena encodes exactly one type. */
  ghost predicate WellFormedType(t: TypeArena) {
    && (t.inlineLeaf.Some? ==> t.nodes == [])
    && WellFormed(ShapeOf(t))
    && t.rootIndex == |TypeNodes(t)| - 1
    && AllFieldsOk(TypeNodes(t))
  }

  /** What each reported invariant says about the arena, at the reported node and edge. */
  ghost predicate Violation(t: TypeArena, reason: TypeInvariant, node: nat, edge: nat) {
    var nodes, s := TypeNodes(t), ShapeOf(t);
    match reason
    case InvalidTypeRoot => node == t.rootIndex && ((t.inlineLeaf.Some? && t.nodes != []) || node >= |nodes|)
    case NonfinalTypeRoot => node == t.rootIndex < |nodes| - 1
    case UnknownTypeKind => node < |nodes| && nodes[node].kind == UnknownKind
    case UnknownScalarType => node < |nodes| && nodes[node].kind in {ScalarKind, VectorKind} && !ValidScalarType(nodes[node].scalar)
    case InactiveTypeField =>
      node < |nodes| && nodes[node].kind != UnknownKind &&
      if nodes[node].kind == TupleKind then nodes[node].scalar != Boolean
      else nodes[node].firstChild != 0 || nodes[node].childCount != 0
    case InvalidTupleRange => node < |nodes| && edge == nodes[node].firstChild && !SpanInRange(s, node)
    case OverlappingTupleRange => node < |nodes| && FaultAt(s, node, Overlap(edge))
    case InvalidTupleChildIndex => node < |nodes| && FaultAt(s, node, BadIndex(edge))
    case NonPostorderTupleChild => node < |nodes| && FaultAt(s, node, NotPostorder(edge))
    case AliasedTupleChild => exists i: nat :: i < |nodes| && FaultAt(s, i, Alias(node, edge))
    case OrphanTypeNode => node < |nodes| && !Reachable(s, node)
    case OrphanTupleEdge => edge < |s.edges| && forall i: nat :: i < |nodes| && InSpan(s.spans[i], edge) ==> !Reachable(s, i)
  }

  lemma ViolationRefutes(t: TypeArena, reason: TypeInvariant, node: nat, edge: nat)
    requires Violation(t, reason, node, edge)
    ensures !WellFormedType(t)
  {
    var s := ShapeOf(t);
    if WellFormedType(t) {
      match reason {
        case OrphanTypeNode => AllReachable(s, node);
        case OrphanTupleEdge =>
          assert Owned(s, edge);
          var i :| 0 <= i < |s.spans| && InSpan(s.spans[i], edge);
          AllReachable(s, i);
        case AliasedTupleChild =>
          var i: nat :| i < |s.spans| && FaultAt(s, i, Alias(node, edge));
          FaultRefutes(s, i, Alias(node, edge));
        case _ =>
      }
    }
  }

  // ---------------------------------------------------------------- meaning

  datatype TypeTag = ScalarTag(element: ScalarType) | VectorTag(element: ScalarType) | TupleTag

  function TagOf(n: TypeNode): TypeTag {
    match n.kind
    case ScalarKind => ScalarTag(n.scalar)
    case VectorKind => VectorTag(n.scalar)
    case _ => TupleTag
  }

  function Tags(nodes: seq<TypeNode>): (r: seq<TypeTag>)
    ensures |r| == |nodes| && forall i :: 0 <= i < |nodes| ==> r[i] == TagOf(nodes[i])
  {
    seq(|nodes|, i requires 0 <= i < |nodes| => TagOf(nodes[i]))
  }

  type TypeTree = Tree<TypeTag>

  ghost function TypeAt(t: TypeArena, i: nat): TypeTree
    requires WellFormedType(t) && i < |TypeNodes(t)|
  {
    Denote(ShapeOf(t), Tags(TypeNodes(t)), i)
  }

  /** The type that a well-formed arena stands for. */
  ghost function TypeOf(t: TypeArena): TypeTree
    requires WellFormedType(t)
  {
    TypeAt(t, t.rootIndex)
  }

  /** Only tuples have element types. */
  ghost predicate IsType(t: TypeTree) {
    && (t.tag == TupleTag || t.kids == [])
    && (t.tag != TupleTag ==> ValidScalarType(t.tag.element))
    && forall k :: 0 <= k < |t.kids| ==> IsType(t.kids[k])
  }

  lemma {:induction false} TypeAtIsType(t: TypeArena, i: nat)
    requires WellFormedType(t) && i < |TypeNodes(t)|
    ensures IsType(TypeAt(t, i))
    decreases i
  {
    var s, n := ShapeOf(t), TypeNodes(t)[i];
    assert FieldsOk(n);
    forall k | 0 <= k < n.childCount ensures IsType(TypeAt(t, i).kids[k]) {
      assert InSpan(s.spans[i], n.firstChild + k);
      TypeAtIsType(t, s.edges[n.firstChild + k]);
    }
  }

  // ---------------------------------------------------------------- validation

  /** src/type.cpp:344-364: the checks on one node before its edges are claimed. */
  method CheckNode(t: TypeArena, i: nat) returns (r: Verdict)
    requires i < |TypeNodes(t)|
    ensures r == Valid <==> FieldsOk(TypeNodes(t)[i]) && SpanInRange(ShapeOf(t), i)
    ensures r.Invalid? ==> Violation(t, r.reason, r.node, r.edge)
    ensures r != SizeOverflow
  {
    var node := TypeNodes(t)[i];
    if node.kind == ScalarKind || node.kind == VectorKind {
      if !ValidScalarType(node.scalar) {
        return Invalid(UnknownScalarType, i, 0);
      }
      if node.firstChild != 0 || node.childCount != 0 {
        return Invalid(InactiveTypeField, i, 0);
      }
    } else if node.kind == TupleKind {
      if node.scalar != Boolean {
        return Invalid(InactiveTypeField, i, 0);
      }
      if node.firstChild > |t.childIndexes| || node.childCount > |t.childIndexes| - node.firstChild {
        return Invalid(InvalidTupleRange, i, node.firstChild);
      }
    } else {
      return Invalid(UnknownTypeKind, i, 0);
    }
    return Valid;
  }

  function FaultVerdict(i: nat, f: Fault): Verdict
    requires f != NoFault
  {
    match f
    case Overlap(e) => Invalid(OverlappingTupleRange, i, e)
    case BadIndex(e) => Invalid(InvalidTupleChildIndex, i, e)
    case NotPostorder(e) => Invalid(NonPostorderTupleChild, i, e)
    case Alias(c, e) => Invalid(AliasedTupleChild, c, e)
  }

  /** The invariant of the validation walk over an arena that may be malformed. */
  ghost predicate WalkInv(t: TypeArena, visited: seq<bool>, owned: seq<bool>, parents: seq<nat>,
                          owner: seq<nat>, via: seq<nat>, stack: seq<nat>) {
    var s := ShapeOf(t);
    && |visited| == |parents| == |s.spans| > 0
    && OwnerTable(s, visited, owned, owner)
    && ParentTable(s, owned, parents, via)
    && StackInv(s, visited, parents, stack)
    && VisitedClaimed(s, visited, parents)
    && OnlyReachable(s, visited, stack)
    && forall i :: 0 <= i < |visited| && visited[i] ==> FieldsOk(TypeNodes(t)[i])
  }

  lemma WalkStart(t: TypeArena, visited: seq<bool>, owned: seq<bool>, parents: seq<nat>, owner: seq<nat>, via: seq<nat>)
    requires var s := ShapeOf(t); |visited| == |parents| == |via| == |s.spans| > 0 && |owned| == |owner| == |s.edges|
    requires t.rootIndex == |TypeNodes(t)| - 1
    requires (forall i :: 0 <= i < |visited| ==> !visited[i] && parents[i] == 0) && (forall e :: 0 <= e < |owned| ==> !owned[e])
    ensures WalkInv(t, visited, owned, parents, owner, via, [t.rootIndex])
  {
  }

  /** The popped node is in the table and was not visited before. */
  lemma WalkTop(t: TypeArena, visited: seq<bool>, owned: seq<bool>, parents: seq<nat>, owner: seq<nat>, via: seq<nat>,
                rest: seq<nat>, i: nat)
    requires WalkInv(t, visited, owned, parents, owner, via, rest + [i])
    ensures i < |visited| && !visited[i]
    ensures OwnerTable(ShapeOf(t), visited, owned, owner) && ParentTable(ShapeOf(t), owned, parents, via)
  {
    assert i in rest + [i];
  }

  /** One iteration: pop `i`, whose edges have just been claimed, and push its children. */
  lemma WalkStep(t: TypeArena, visited: seq<bool>, owned: seq<bool>, parents: seq<nat>, owner: seq<nat>, via: seq<nat>,
                 rest: seq<nat>, i: nat, owned': seq<bool>, parents': seq<nat>, owner': seq<nat>, via': seq<nat>)
    requires WalkInv(t, visited, owned, parents, owner, via, rest + [i])
    requires i < |visited| && FieldsOk(TypeNodes(t)[i]) && SpanInRange(ShapeOf(t), i)
    requires OwnerTable(ShapeOf(t), visited[i := true], owned', owner')
    requires ParentTable(ShapeOf(t), owned', parents', via')
    requires Marked(parents, parents', Kids(ShapeOf(t), i)) && (forall j :: j in Kids(ShapeOf(t), i) ==> j < i)
    ensures WalkInv(t, visited[i := true], owned', parents', owner', via', rest + Reverse(Kids(ShapeOf(t), i)))
    ensures |rest| + |Kids(ShapeOf(t), i)| <= |t.childIndexes| + 1
  {
    var s := ShapeOf(t);
    StackStep(s, visited, parents, rest, i, parents');
    OnlyReachableStep(s, visited, rest, i);
    StackFits(s, visited[i := true], owned', parents', via', rest + Reverse(Kids(s, i)));
  }

  /** The two final loops: an unvisited node or an unowned edge is an orphan. */
  lemma WalkEnd(t: TypeArena, visited: seq<bool>, owned: seq<bool>, parents: seq<nat>, owner: seq<nat>, via: seq<nat>)
    requires WalkInv(t, visited, owned, parents, owner, via, []) && t.rootIndex == |TypeNodes(t)| - 1
    requires t.inlineLeaf.Some? ==> t.nodes == []
    ensures WellFormedType(t) <==> (forall i :: 0 <= i < |visited| ==> visited[i]) && (forall e :: 0 <= e < |owned| ==> owned[e])
    ensures forall i :: 0 <= i < |visited| && !visited[i] ==> Violation(t, OrphanTypeNode, i, 0)
    ensures forall e :: 0 <= e < |owned| && !owned[e] ==> Violation(t, OrphanTupleEdge, 0, e)
  {
    var s := ShapeOf(t);
    ScanDecides(s, visited, owned, parents, owner, via);
    UnflaggedIsOrphan(s, visited, owned, parents, owner, via);
  }

  /** What the validator accepts: an arena that encodes one type and whose `edges + 1` does not overflow. */
  ghost predicate Accepted(t: TypeArena) {
    WellFormedType(t) && |t.childIndexes| != SIZE_MAX
  }

  /**
   src/type.cpp:274-419.  The validator accepts exactly the arenas that encode one type, every reported
   violation is a real one at the reported place, and the stack of `edges + 1` entries never overflows:
   `SizeOverflow` can only come from the size check in front of the walk.
   */
  method ValidateType(t: TypeArena) returns (r: Verdict)
    ensures r == Valid <==> Accepted(t)
    ensures r.Invalid? ==> Violation(t, r.reason, r.node, r.edge)
    ensures r == SizeOverflow ==> |t.childIndexes| == SIZE_MAX
  {
    if t.inlineLeaf.Some? && t.nodes != [] {
      return Invalid(InvalidTypeRoot, t.rootIndex, 0);
    }
    var nodes := TypeNodes(t);
    if nodes == [] || t.rootIndex >= |nodes| {
      return Invalid(InvalidTypeRoot, t.rootIndex, 0);
    }
    if t.rootIndex != |nodes| - 1 {
      return Invalid(NonfinalTypeRoot, t.rootIndex, 0);
    }
    if |t.childIndexes| == SIZE_MAX {
      return SizeOverflow;
    }
    r := WalkArena(t);
    if r.Invalid? {
      ViolationRefutes(t, r.reason, r.node, r.edge);
    }
  }

  method WalkArena(t: TypeArena) returns (r: Verdict)
    requires t.inlineLeaf.Some? ==> t.nodes == []
    requires t.rootIndex == |TypeNodes(t)| - 1
    ensures r == Valid ==> WellFormedType(t)
    ensures r.Invalid? ==> Violation(t, r.reason, r.node, r.edge)
    ensures r != SizeOverflow
  {
    hide OwnerTable, ParentTable, VisitedClaimed, OnlyReachable, FieldsOk, StackInv, WellFormed, WellFormedType;
    var nodes, s := TypeNodes(t), ShapeOf(t);
    var visited := new bool[|nodes|](_ => false);
    var owned := new bool[|t.childIndexes|](_ => false);
    var parents := new nat[|nodes|](_ => 0);
    var stack := new nat[|t.childIndexes| + 1];
    ghost var owner: seq<nat> := seq(|t.childIndexes|, _ => 0);
    ghost var via: seq<nat> := seq(|nodes|, _ => 0);
    stack[0] := t.rootIndex;
    var size: nat := 1;
    assert stack[..1] == [t.rootIndex];
    WalkStart(t, visited[..], owned[..], parents[..], owner, via);
    while size != 0
      invariant size <= stack.Length
      invariant WalkInv(t, visited[..], owned[..], parents[..], owner, via, stack[..size])
      decreases Unvisited(visited[..])
    {
      r, size, owner, via := WalkOne(t, visited, owned, parents, stack, size, owner, via);
      if r != Valid {
        return;
      }
    }
    assert stack[..0] == [];
    WalkEnd(t, visited[..], owned[..], parents[..], owner, via);
    r := FindOrphan(visited, owned);
    ghost var v, o := visited[..], owned[..];
    assert forall i :: 0 <= i < |v| ==> v[i] == visited[i];
    assert forall e :: 0 <= e < |o| ==> o[e] == owned[e];
  }

  /** src/type.cpp:335-408: one iteration of the walk. */
  method WalkOne(t: TypeArena, visited: array<bool>, owned: array<bool>, parents: array<nat>, stack: array<nat>, size: nat,
                 ghost owner: seq<nat>, ghost via: seq<nat>)
    returns (r: Verdict, size': nat, ghost owner': seq<nat>, ghost via': seq<nat>)
    requires visited != owned && parents != stack
    requires 0 < size <= stack.Length == |t.childIndexes| + 1
    requires owned.Length == |t.childIndexes| && visited.Length == parents.Length == |TypeNodes(t)|
    requires WalkInv(t, visited[..], owned[..], parents[..], owner, via, stack[..size])
    modifies visited, owned, parents, stack
    ensures r.Invalid? ==> Violation(t, r.reason, r.node, r.edge)
    ensures r != SizeOverflow
    ensures r == Valid ==>
              && size' <= stack.Length
              && WalkInv(t, visited[..], owned[..], parents[..], owner', via', stack[..size'])
              && Unvisited(visited[..]) < Unvisited(old(visited[..]))
  {
    hide WalkInv, OwnerTable, ParentTable, ShapeOf, FieldsOk, Marked, Reverse, WellFormed;
    size', owner', via' := size - 1, owner, via;
    var i := stack[size'];
    ghost var visitedNow, ownedNow, parentsNow, rest := visited[..], owned[..], parents[..], stack[..size'];
    assert stack[..size] == rest + [i];
    WalkTop(t, visitedNow, ownedNow, parentsNow, owner, via, rest, i);
    if visited[i] {
      assert false; // a stacked node is never a visited one
    }
    visited[i] := true;
    assert visited[..] == visitedNow[i := true];
    r := CheckNode(t, i);
    if r != Valid {
      return;
    }
    var fault;
    fault, owner', via' := ClaimChildren(ShapeOf(t), i, visitedNow, owned, parents, owner, via);
    if fault != NoFault {
      r := FaultVerdict(i, fault);
      return;
    }
    WalkStep(t, visitedNow, ownedNow, parentsNow, owner, via, rest, i, owned[..], parents[..], owner', via');
    var ok;
    ok, size' := PushChildren(stack, size', t.childIndexes, TypeNodes(t)[i].firstChild, TypeNodes(t)[i].childCount);
    assert ok;
    assert i in Unvisited(visitedNow) && i !in Unvisited(visited[..]);
  }

  /** src/type.cpp:409-418: the first node not visited, else the first edge not owned. */
  method FindOrphan(visited: array<bool>, owned: array<bool>) returns (r: Verdict)
    ensures r == Valid <==> (forall i :: 0 <= i < visited.Length ==> visited[i]) && (forall e :: 0 <= e < owned.Length ==> owned[e])
    ensures r != Valid ==>
              || (exists i: nat :: i < visited.Length && !visited[i] && r == Invalid(OrphanTypeNode, i, 0))
              || (exists e: nat :: e < owned.Length && !owned[e] && r == Invalid(OrphanTupleEdge, 0, e))
  {
    for index := 0 to visited.Length
      invariant forall i :: 0 <= i < index ==> visited[i]
    {
      if !visited[index] {
        return Invalid(OrphanTypeNode, index, 0);
      }
    }
    for index := 0 to owned.Length
      invariant forall e :: 0 <= e < index ==> owned[e]
    {
      if !owned[index] {
        return Invalid(OrphanTupleEdge, 0, index);
      }
    }
    return Valid;
  }
}
