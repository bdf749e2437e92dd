/** src/value.cpp:1102-1254: the type of a value, or of any node inside a tuple value. */
module ValueTypes {
  import opened Kinds
  import opened Arena
  import opened ArenaGraft
  import opened TypeArenas
  import opened TypeTuple
  import opened HostStorage
  import opened ValueArenas
  import opened ValueElements
  import opened ValueBuild

  // ---------------------------------------------------------------- forgetting the elements

  function EraseTag(t: ValueTag): TypeTag {
    match t
    case ScalarLeaf(s) => ScalarTag(s.element)
    case VectorLeaf(element, _) => VectorTag(element)
    case TupleBranch => TupleTag
  }

  function Erase(t: ValueTree): TypeTree {
    Node(EraseTag(t.tag), seq(|t.kids|, k requires 0 <= k < |t.kids| => Erase(t.kids[k])))
  }

  // ---------------------------------------------------------------- the nodes below the requested one

  /** `marked` is the subtree of `start`. */
  ghost predicate Subtree(s: Shape, start: nat, marked: set<nat>)
    requires WellFormed(s) && start < |s.spans|
  {
    && start in marked
    && (forall j :: j in marked ==> ReachedFrom(s, start, marked, j))
    && (forall i, j :: i in marked && i < |s.spans| && SpanInRange(s, i) && j in Kids(s, i) ==> j in marked)
  }

  ghost function Marked(flags: seq<bool>): set<nat> {
    set i: nat | i < |flags| && flags[i]
  }

  ghost predicate MarkInv(s: Shape, start: nat, flags: seq<bool>, stack: seq<nat>) {
    && |flags| == |s.spans|
    && Frontier(s, start, Marked(flags), stack)
    && (start in Marked(flags) || start in stack)
    && (forall i, j :: i in Marked(flags) && SpanInRange(s, i) && j in Kids(s, i) ==> j in Marked(flags) || j in stack)
  }

  lemma MarkStart(s: Shape, start: nat, flags: seq<bool>)
    requires WellFormed(s) && start < |s.spans| == |flags| && forall i :: 0 <= i < |flags| ==> !flags[i]
    ensures MarkInv(s, start, flags, [start])
  {
    assert Marked(flags) == {};
    assert [start][0] in [start];
  }

  lemma MarkStep(s: Shape, start: nat, flags: seq<bool>, rest: seq<nat>, i: nat)
    requires MarkInv(s, start, flags, rest + [i])
    ensures i < |flags| && !flags[i] && SpanInRange(s, i) && i <= start
    ensures MarkInv(s, start, flags[i := true], rest + Kids(s, i))
    ensures |Marked(flags[i := true])| == |Marked(flags)| + 1
    ensures |rest| + |Kids(s, i)| + |Marked(flags)| <= start < |flags|
  {
    assert (rest + [i])[|rest|] == i && i in rest + [i];
    assert i !in Marked(flags);
    KidsHaveParent(s, i);
    FrontierStep(s, start, Marked(flags), rest, i, Kids(s, i));
    var flags' := flags[i := true];
    assert Marked(flags') == Marked(flags) + {i};
    FrontierBound(s, start, Marked(flags'), rest + Kids(s, i));
    forall a, j | a in Marked(flags') && SpanInRange(s, a) && j in Kids(s, a) ensures j in Marked(flags') || j in rest + Kids(s, i) {
      if a != i && j !in Marked(flags) { assert j in rest + [i]; }
    }
    assert start in rest + [i] ==> start in rest || start == i;
  }

  lemma MarkEnd(s: Shape, start: nat, flags: seq<bool>)
    requires MarkInv(s, start, flags, [])
    ensures WellFormed(s) && start < |s.spans| && Subtree(s, start, Marked(flags))
  {
    hide Kids, WellFormed, ReachedFrom, Marked, SpanInRange;
    var none: seq<nat> := [];
    assert forall j :: j !in none;
  }

  /** src/value.cpp:1192-1200: a push is refused when the stack is full. */
  method PushKids(v: TupleValue, stack: array<nat>, size: nat, i: nat) returns (pushed: bool, size': nat)
    requires Structured(v) && i < NodeCount(v) && SpanInRange(TableOf(v), i) && size + |Kids(TableOf(v), i)| <= stack.Length
    modifies stack
    ensures pushed && size' == size + |Kids(TableOf(v), i)|
    ensures stack[..size'] == old(stack[..size]) + Kids(TableOf(v), i)
  {
    var span := SpanOf(v, i);
    ghost var rest, kids := stack[..size], Kids(TableOf(v), i);
    KidsOf(v, i);
    hide Structured, Kids, TableOf;
    size' := size;
    for k := 0 to span.count
      invariant size' == size + k <= stack.Length && stack[..size'] == rest + kids[..k]
    {
      if size' >= stack.Length {
        pushed := false;
        return;
      }
      ghost var before := stack[..size'];
      stack[size'] := v.childIndexes[span.first + k];
      assert stack[..size' + 1] == before + [kids[k]];
      size' := size' + 1;
    }
    assert kids[..span.count] == kids;
    pushed := true;
  }

  /** src/value.cpp:1167-1201.  Neither the second visit of a node nor a full stack can happen. */
  method MarkReachable(v: TupleValue, start: nat) returns (pushed: bool, reachable: array<bool>)
    requires Structured(v) && start < NodeCount(v)
    ensures pushed && fresh(reachable) && reachable.Length == NodeCount(v)
    ensures Subtree(TableOf(v), start, Marked(reachable[..]))
  {
    ghost var s := TableOf(v);
    reachable := new bool[NodeCount(v)](_ => false);
    var stack := new nat[NodeCount(v)](_ => 0);
    hide MarkInv, Kids, Structured, Subtree, TableOf, WellFormed, Marked, SpanOf;
    TableFits(v);
    MarkStart(s, start, reachable[..]);
    stack[0] := start;
    var size: nat := 1;
    assert stack[..1] == [start];
    while size != 0
      invariant 0 <= size <= stack.Length
      invariant MarkInv(s, start, reachable[..], stack[..size])
      decreases start + 1 - |Marked(reachable[..])|
    {
      size := size - 1;
      var i := stack[size];
      ghost var rest, flags := stack[..size], reachable[..];
      assert stack[..size + 1] == rest + [i];
      MarkStep(s, start, flags, rest, i);
      if reachable[i] {
        assert false; // a stack entry has not been visited
      }
      reachable[i] := true;
      assert reachable[..] == flags[i := true];
      if ContainerOf(v, i) == TupleC {
        pushed, size := PushKids(v, stack, size, i);
        if !pushed {
          return;
        }
      } else {
        LeafKids(v, i);
        assert rest + [] == rest;
      }
    }
    assert stack[..0] == [];
    MarkEnd(s, start, reachable[..]);
    pushed := true;
  }

  lemma TableFits(v: TupleValue)
    requires Structured(v)
    ensures WellFormed(TableOf(v)) && |TableOf(v).spans| == NodeCount(v)
  {
  }

  lemma LeafKids(v: TupleValue, i: nat)
    requires Structured(v) && i < NodeCount(v) && ContainerOf(v, i) != TupleC
    ensures SpanInRange(TableOf(v), i) && Kids(TableOf(v), i) == []
  {
    assert NodeFieldsOk(v, i) && TableOf(v).spans[i] == SpanOf(v, i);
    assert SpanInRange(TableOf(v), i);
  }

  lemma KidsOf(v: TupleValue, i: nat)
    requires Structured(v) && i < NodeCount(v)
    ensures var span := SpanOf(v, i);
            && SpanInRange(TableOf(v), i) && |Kids(TableOf(v), i)| == span.count && span.first + span.count <= |v.childIndexes|
            && forall k :: 0 <= k < span.count ==> Kids(TableOf(v), i)[k] == v.childIndexes[span.first + k]
  {
    assert TableOf(v).spans[i] == SpanOf(v, i);
    assert SpanInRange(TableOf(v), i);
  }

  // ---------------------------------------------------------------- renumbering

  /** A table in which every node is a child of at most one other. */
  ghost predicate Forest(f: Shape) {
    && Postorder(f) && SpansDisjoint(f) && SpansCover(f) && Distinct(f.edges)
    && forall e :: 0 <= e < |f.edges| ==> f.edges[e] < |f.spans|
  }

  /** `g` is `f` with one more node, over nodes that had no parent. */
  ghost predicate AddedNode(f: Shape, span: Span, kids: seq<nat>, g: Shape) {
    && g == Shape(f.spans + [span], f.edges + kids)
    && span.count == |kids| && (|kids| > 0 ==> span.first == |f.edges|) && span.first + span.count <= |g.edges|
    && Distinct(kids) && forall j :: j in kids ==> j < |f.spans| && j !in f.edges
  }

  lemma AddNode(f: Shape, span: Span, kids: seq<nat>, g: Shape)
    requires Forest(f) && AddedNode(f, span, kids, g)
    ensures Forest(g)
  {
    var n, m := |f.spans|, |f.edges|;
    assert forall i :: 0 <= i < |kids| ==> kids[i] in kids;
    assert forall e :: 0 <= e < m ==> f.edges[e] in f.edges;
    forall e | 0 <= e < |g.edges| ensures Owned(g, e) {
      if e < m {
        assert Owned(f, e);
        var i :| 0 <= i < n && InSpan(f.spans[i], e);
        assert InSpan(g.spans[i], e);
      } else {
        assert InSpan(g.spans[n], e);
      }
    }
    forall i, e | 0 <= i < |g.spans| && InSpan(g.spans[i], e) ensures g.edges[e] < i && (i < n ==> e < m) && (i == n ==> e >= m) {
      if i < n { assert InSpan(f.spans[i], e) && f.spans[i].first + f.spans[i].count <= m; }
    }
    forall a, b | 0 <= a < b < |g.edges| ensures g.edges[a] != g.edges[b] {
      if a < m <= b { assert kids[b - m] in kids && f.edges[a] in f.edges; }
      else if m <= a { assert kids[a - m] != kids[b - m]; }
    }
  }

  /** `from` lists the marked nodes below `k`, and `map` is its inverse. */
  ghost predicate Packed(marked: set<nat>, k: nat, from: seq<nat>, number: seq<nat>) {
    && (forall p: nat :: p < |from| ==> from[p] in marked && from[p] < k && from[p] < |number| && number[from[p]] == p)
    && (forall i: nat :: i in marked && i < k && i < |number| ==> number[i] < |from| && from[number[i]] == i)
  }

  ghost predicate ParentBelow(s: Shape, start: nat, j: nat, k: nat)
    requires WellFormed(s)
  {
    j != start && j < Root(s) && Parent(s, j) < k
  }

  /** A renumbered node has its edge as soon as its parent was renumbered. */
  ghost predicate PackedEdges(s: Shape, start: nat, k: nat, from: seq<nat>, f: Shape)
    requires WellFormed(s)
  {
    && |f.spans| == |from| && Forest(f)
    && forall p: nat :: p < |from| ==> (p in f.edges <==> ParentBelow(s, start, from[p], k))
  }

  predicate Numbered(number: seq<nat>, kids: seq<nat>) {
    forall i :: 0 <= i < |kids| ==> kids[i] < |number|
  }

  function MapAll(number: seq<nat>, kids: seq<nat>): (r: seq<nat>)
    requires Numbered(number, kids)
    ensures |r| == |kids| && forall i :: 0 <= i < |kids| ==> r[i] == number[kids[i]]
  {
    seq(|kids|, i requires 0 <= i < |kids| => number[kids[i]])
  }

  lemma SkipNode(s: Shape, start: nat, marked: set<nat>, k: nat, from: seq<nat>, number: seq<nat>, f: Shape)
    requires WellFormed(s) && start < |s.spans| && Subtree(s, start, marked) && k !in marked
    requires Packed(marked, k, from, number) && PackedEdges(s, start, k, from, f)
    ensures Packed(marked, k + 1, from, number) && PackedEdges(s, start, k + 1, from, f)
  {
    forall p: nat | p < |from| ensures ParentBelow(s, start, from[p], k) <==> ParentBelow(s, start, from[p], k + 1) {
      ParentMarked(s, start, marked, k, from[p]);
    }
    hide Forest, WellFormed, ParentBelow, Subtree;
  }

  lemma ParentMarked(s: Shape, start: nat, marked: set<nat>, k: nat, j: nat)
    requires WellFormed(s) && start < |s.spans| && Subtree(s, start, marked) && k !in marked && j in marked
    ensures ParentBelow(s, start, j, k) <==> ParentBelow(s, start, j, k + 1)
  {
    hide Forest, WellFormed;
    assert ReachedFrom(s, start, marked, j);
  }

  lemma KidsNumbered(s: Shape, start: nat, marked: set<nat>, k: nat, from: seq<nat>, number: seq<nat>, f: Shape)
    requires WellFormed(s) && start < |s.spans| == |number| && Subtree(s, start, marked) && k in marked
    requires Packed(marked, k, from, number) && PackedEdges(s, start, k, from, f)
    ensures k <= start && SpanInRange(s, k) && Numbered(number, Kids(s, k))
    ensures var kids := MapAll(number, Kids(s, k));
            && Distinct(kids)
            && (forall p :: p in kids ==> p < |from| && p !in f.edges)
            && (forall p: nat :: p < |from| ==> (p in kids <==> from[p] < Root(s) && Parent(s, from[p]) == k))
  {
    assert ReachedFrom(s, start, marked, k);
    KidsHaveParent(s, k);
    var ks := Kids(s, k);
    var kids := MapAll(number, ks);
    hide Forest, WellFormed, Kids;
    forall a | 0 <= a < |ks| ensures ks[a] in marked && ks[a] < k && kids[a] < |from| && from[kids[a]] == ks[a] && kids[a] !in f.edges {
      assert ks[a] in ks;
    }
    forall a, b | 0 <= a < b < |kids| ensures kids[a] != kids[b] {
      assert ks[a] != ks[b];
    }
    forall p: nat | p < |from| ensures p in kids <==> from[p] < Root(s) && Parent(s, from[p]) == k {
      if from[p] < Root(s) && Parent(s, from[p]) == k {
        KidOfParent(s, from[p]);
        var a :| 0 <= a < |ks| && ks[a] == from[p];
        assert kids[a] == p;
      }
      if p in kids {
        var a :| 0 <= a < |kids| && kids[a] == p;
        assert ks[a] in ks;
      }
    }
  }

  lemma KeepNumbers(marked: set<nat>, k: nat, from: seq<nat>, number: seq<nat>)
    requires k in marked && k < |number| && Packed(marked, k, from, number)
    ensures Packed(marked, k + 1, from + [k], number[k := |from|])
  {
  }

  lemma KeepNode(s: Shape, start: nat, marked: set<nat>, k: nat, from: seq<nat>, number: seq<nat>, f: Shape, span: Span, g: Shape)
    requires WellFormed(s) && start < |s.spans| == |number| && Subtree(s, start, marked) && k in marked
    requires Packed(marked, k, from, number) && PackedEdges(s, start, k, from, f)
    requires SpanInRange(s, k) && Numbered(number, Kids(s, k))
    requires span.count == |Kids(s, k)| && (span.count > 0 ==> span.first == |f.edges|) && span.first <= |f.edges|
    requires g == Shape(f.spans + [span], f.edges + MapAll(number, Kids(s, k)))
    ensures AddedNode(f, span, MapAll(number, Kids(s, k)), g) && PackedEdges(s, start, k + 1, from + [k], g)
  {
    KidsNumbered(s, start, marked, k, from, number, f);
    var kids, from' := MapAll(number, Kids(s, k)), from + [k];
    AddNode(f, span, kids, g);
    hide Forest, WellFormed, Kids, Subtree, Packed, MapAll, Numbered;
    forall p: nat | p < |from'| ensures p in g.edges <==> ParentBelow(s, start, from'[p], k + 1) {
      assert p in g.edges <==> p in f.edges || p in kids;
      if p == |from| {
        if p in f.edges { EdgeIsNode(f, p); }
      } else if from[p] < Root(s) && Parent(s, from[p]) == k {
        ParentOfStart(s, start, marked, k, from[p]);
      }
    }
  }

  lemma EdgeIsNode(f: Shape, p: nat)
    requires Forest(f) && p in f.edges
    ensures p < |f.spans|
  {
  }

  /** The requested node is below none of the marked ones. */
  lemma ParentOfStart(s: Shape, start: nat, marked: set<nat>, k: nat, j: nat)
    requires WellFormed(s) && start < |s.spans| && k <= start && j < Root(s) && Parent(s, j) == k
    ensures j != start
  {
  }

  // ---------------------------------------------------------------- capacity

  lemma PackedCount(marked: set<nat>, k: nat, from: seq<nat>, number: seq<nat>)
    requires Packed(marked, k, from, number)
    ensures |from| <= k
  {
    forall a, b | 0 <= a < b < |from| ensures from[a] != from[b] {
      assert number[from[a]] == a && number[from[b]] == b;
    }
    DistinctCard(from);
    forall x | x in Elems(from) ensures x in Below(k) {
      var p :| 0 <= p < |from| && from[p] == x;
    }
    SubsetCard(Elems(from), Below(k));
  }

  /** The new node is nobody's child yet. */
  lemma AddedEdges(f: Shape, span: Span, kids: seq<nat>, g: Shape)
    requires Forest(f) && AddedNode(f, span, kids, g)
    ensures |g.edges| <= |f.spans|
  {
    AddNode(f, span, kids, g);
    DistinctCard(g.edges);
    assert forall i :: 0 <= i < |kids| ==> kids[i] in kids;
    assert Elems(g.edges) <= Below(|f.spans|);
    SubsetCard(Elems(g.edges), Below(|f.spans|));
  }

  // ---------------------------------------------------------------- meaning

  /** src/value.cpp:1212-1239. */
  function TypeNodeFor(v: TupleValue, i: nat, first: nat): TypeNode
    requires i < NodeCount(v) && SlotExists(v, SlotOf(v, i))
  {
    match ContainerOf(v, i)
    case ScalarC => TypeNode(ScalarKind, v.nodes[i].scalar.element, 0, 0)
    case VectorC => TypeNode(VectorKind, v.payloads[v.nodes[i].payload].element, 0, 0)
    case _ => TypeNode(TupleKind, Boolean, first, SpanOf(v, i).count)
  }

  lemma TypeNodeTag(buffers: seq<HostBuffer>, owners: set<nat>, v: TupleValue, i: nat, first: nat)
    requires ValidTuple(buffers, owners, v) && i < NodeCount(v)
    ensures SlotExists(v, SlotOf(v, i))
    ensures var n := TypeNodeFor(v, i, first);
            && FieldsOk(n) && TagOf(n) == EraseTag(ValueTagAt(v, i)) && n.childCount == SpanOf(v, i).count
            && n.firstChild == (if ContainerOf(v, i) == TupleC then first else 0)
  {
    assert SlotExists(v, SlotOf(v, i)) && NodeFieldsOk(v, i) && SlotOk(buffers, owners, v, i);
  }

  ghost predicate PackedMeaning(v: TupleValue, from: seq<nat>, nodes: seq<TypeNode>, edges: seq<nat>)
    requires Structured(v)
  {
    && AllFieldsOk(nodes) && |from| == |nodes|
    && Postorder(ShapeFrom(nodes, edges))
    && forall p: nat :: p < |from| ==> from[p] < NodeCount(v) && Denote(ShapeFrom(nodes, edges), Tags(nodes), p) == Erase(ValueAt(v, from[p]))
  }

  lemma ErasedNode(v: TupleValue, i: nat)
    requires Structured(v) && i < NodeCount(v)
    ensures SlotExists(v, SlotOf(v, i)) && SpanInRange(TableOf(v), i)
    ensures var r, ks := Erase(ValueAt(v, i)), Kids(TableOf(v), i);
            && r.tag == EraseTag(ValueTagAt(v, i)) && |r.kids| == |ks|
            && forall a :: 0 <= a < |ks| ==> ks[a] < i && r.kids[a] == Erase(ValueAt(v, ks[a]))
  {
    var s := TableOf(v);
    assert SlotExists(v, SlotOf(v, i)) && SpanInRange(s, i);
    KidsHaveParent(s, i);
    var t, ks := ValueAt(v, i), Kids(s, i);
    forall a | 0 <= a < |ks| ensures ks[a] < i && t.kids[a] == ValueAt(v, ks[a]) {
      assert ks[a] in ks;
    }
  }

  lemma AddedDenotes<L>(f: Shape, labels: seq<L>, span: Span, kids: seq<nat>, g: Shape, tag: L)
    requires Forest(f) && AddedNode(f, span, kids, g) && |labels| == |f.spans|
    ensures Postorder(f) && Postorder(g) && |g.spans| == |f.spans| + 1
    ensures forall p: nat :: p < |f.spans| ==> Denote(g, labels + [tag], p) == Denote(f, labels, p)
    ensures var r := Denote(g, labels + [tag], |f.spans|);
            r.tag == tag && |r.kids| == |kids| && forall a :: 0 <= a < |kids| ==> kids[a] < |f.spans| && r.kids[a] == Denote(f, labels, kids[a])
  {
    AddNode(f, span, kids, g);
    var n, labels' := |f.spans|, labels + [tag];
    forall p: nat | p < n ensures Denote(g, labels', p) == Denote(f, labels, p) {
      ExtendDenotes(f, labels, g, labels', p);
    }
    var r := Denote(g, labels', n);
    forall a | 0 <= a < |kids| ensures kids[a] < n && r.kids[a] == Denote(f, labels, kids[a]) {
      assert kids[a] in kids;
      assert g.spans[n] == span && g.edges[span.first + a] == kids[a];
    }
  }

  lemma TagsSnoc(nodes: seq<TypeNode>, edges: seq<nat>, node: TypeNode)
    ensures Tags(nodes + [node]) == Tags(nodes) + [TagOf(node)] && |ShapeFrom(nodes, edges).spans| == |nodes| == |Tags(nodes)|
  {
  }

  lemma MeaningStep(v: TupleValue, from: seq<nat>, nodes: seq<TypeNode>, edges: seq<nat>, k: nat, node: TypeNode, kids: seq<nat>)
    requires Structured(v) && PackedMeaning(v, from, nodes, edges) && k < NodeCount(v)
    requires FieldsOk(node) && SlotExists(v, SlotOf(v, k)) && TagOf(node) == EraseTag(ValueTagAt(v, k))
    requires AddedNode(ShapeFrom(nodes, edges), Span(node.firstChild, node.childCount), kids, ShapeFrom(nodes + [node], edges + kids))
    requires Forest(ShapeFrom(nodes, edges))
    requires SpanInRange(TableOf(v), k) && |kids| == |Kids(TableOf(v), k)|
    requires forall a :: 0 <= a < |kids| ==> kids[a] < |from| && from[kids[a]] == Kids(TableOf(v), k)[a]
    ensures PackedMeaning(v, from + [k], nodes + [node], edges + kids)
  {
    hide Structured, Erase, ValueAt, Forest, ValueTagAt, SlotOf, AddedNode, Postorder, ShapeFrom, Denote, TagOf, FieldsOk, Kids, TableOf, Tags;
    var f, g := ShapeFrom(nodes, edges), ShapeFrom(nodes + [node], edges + kids);
    TagsSnoc(nodes, edges, node);
    AddedDenotes(f, Tags(nodes), Span(node.firstChild, node.childCount), kids, g, TagOf(node));
    ErasedNode(v, k);
    var r, e := Denote(g, Tags(nodes + [node]), |nodes|), Erase(ValueAt(v, k));
    forall a | 0 <= a < |kids| ensures r.kids[a] == e.kids[a] {
      assert from[kids[a]] == Kids(TableOf(v), k)[a];
    }
    assert r.kids == e.kids && r.tag == e.tag;
    SameNode(r, e);
  }

  lemma SameNode<L>(a: Tree<L>, b: Tree<L>)
    requires a.tag == b.tag && a.kids == b.kids
    ensures a == b
  {
  }

  // ---------------------------------------------------------------- the second pass

  /** Everything the second pass keeps, after the nodes below `k`. */
  ghost predicate TypeInv(v: TupleValue, start: nat, marked: set<nat>, k: nat, from: seq<nat>, number: seq<nat>,
                          nodes: seq<TypeNode>, edges: seq<nat>)
  {
    && Structured(v) && start < NodeCount(v) && |number| == NodeCount(v)
    && Subtree(TableOf(v), start, marked)
    && Packed(marked, k, from, number)
    && PackedEdges(TableOf(v), start, k, from, ShapeFrom(nodes, edges))
    && PackedMeaning(v, from, nodes, edges)
    && (0 < k && k - 1 in marked ==> 0 < |from| && from[|from| - 1] == k - 1)
  }

  lemma TypeInvStart(v: TupleValue, start: nat, marked: set<nat>, number: seq<nat>)
    requires Structured(v) && start < NodeCount(v) == |number| && Subtree(TableOf(v), start, marked)
    ensures TypeInv(v, start, marked, 0, [], number, [], [])
  {
  }

  lemma TypeInvSkip(v: TupleValue, start: nat, marked: set<nat>, k: nat, from: seq<nat>, number: seq<nat>, nodes: seq<TypeNode>, edges: seq<nat>)
    requires TypeInv(v, start, marked, k, from, number, nodes, edges) && k !in marked
    ensures TypeInv(v, start, marked, k + 1, from, number, nodes, edges)
  {
    TableFits(v);
    hide Packed, PackedEdges, PackedMeaning, Structured, Subtree, TableOf;
    SkipNode(TableOf(v), start, marked, k, from, number, ShapeFrom(nodes, edges));
  }

  lemma TypeInvKids(v: TupleValue, start: nat, marked: set<nat>, k: nat, from: seq<nat>, number: seq<nat>, nodes: seq<TypeNode>, edges: seq<nat>)
    requires TypeInv(v, start, marked, k, from, number, nodes, edges) && k in marked
    ensures Structured(v) && k <= start < NodeCount(v) == |number| && SpanInRange(TableOf(v), k) && Numbered(number, Kids(TableOf(v), k))
    ensures |nodes| <= k
    ensures |edges| + |Kids(TableOf(v), k)| <= |v.childIndexes|
  {
    TableFits(v);
    var s, f := TableOf(v), ShapeFrom(nodes, edges);
    assert |nodes| == |from| && |s.spans| == NodeCount(v);
    assert Forest(f) && |f.spans| == |nodes|;
    KidsNumbered(s, start, marked, k, from, number, f);
    var kids := MapAll(number, Kids(s, k));
    var span := Span(|f.edges|, |kids|);
    var g := Shape(f.spans + [span], f.edges + kids);
    assert AddedNode(f, span, kids, g);
    hide Packed, PackedEdges, PackedMeaning, Structured, Subtree, Forest, AddedNode;
    AddedEdges(f, span, kids, g);
    PackedCount(marked, k, from, number);
    EdgeCount(s);
  }

  lemma TypeInvKeep(buffers: seq<HostBuffer>, owners: set<nat>, v: TupleValue, start: nat, marked: set<nat>, k: nat, from: seq<nat>,
                    number: seq<nat>, nodes: seq<TypeNode>, edges: seq<nat>)
    requires ValidTuple(buffers, owners, v)
    requires TypeInv(v, start, marked, k, from, number, nodes, edges) && k in marked
    requires Structured(v) && k <= start < NodeCount(v) == |number| && SpanInRange(TableOf(v), k) && Numbered(number, Kids(TableOf(v), k))
    requires SlotExists(v, SlotOf(v, k))
    ensures TypeInv(v, start, marked, k + 1, from + [k], number[k := |nodes|],
                    nodes + [TypeNodeFor(v, k, |edges|)], edges + MapAll(number, Kids(TableOf(v), k)))
  {
    hide *;
    var s, f, node := TableOf(v), ShapeFrom(nodes, edges), TypeNodeFor(v, k, |edges|);
    var kids := MapAll(number, Kids(s, k));
    var g := ShapeFrom(nodes + [node], edges + kids);
    var span := Span(node.firstChild, node.childCount);
    TableFits(v);
    TypeInvParts(v, start, marked, k, from, number, nodes, edges);
    TypeNodeTag(buffers, owners, v, k, |edges|);
    KeptShape(buffers, owners, v, k, nodes, edges, kids);
    KidsNumbered(s, start, marked, k, from, number, f);
    KeepNumbers(marked, k, from, number);
    KeepNode(s, start, marked, k, from, number, f, span, g);
    KidsBack(s, start, marked, k, from, number, f);
    ForestOf(s, start, k, from, f);
    MeaningStep(v, from, nodes, edges, k, node, kids);
    TypeInvMake(v, start, marked, k + 1, from + [k], number[k := |nodes|], nodes + [node], edges + kids);
  }

  lemma TypeInvMake(v: TupleValue, start: nat, marked: set<nat>, k: nat, from: seq<nat>, number: seq<nat>, nodes: seq<TypeNode>, edges: seq<nat>)
    requires Structured(v) && start < NodeCount(v) == |number| && WellFormed(TableOf(v)) && |TableOf(v).spans| == NodeCount(v)
    requires Subtree(TableOf(v), start, marked)
    requires Packed(marked, k, from, number) && PackedEdges(TableOf(v), start, k, from, ShapeFrom(nodes, edges))
    requires PackedMeaning(v, from, nodes, edges)
    requires 0 < |from| && from[|from| - 1] == k - 1
    ensures TypeInv(v, start, marked, k, from, number, nodes, edges)
  {
    hide Packed, PackedEdges, Subtree, WellFormed, PackedMeaning, Structured;
  }

  lemma TypeInvParts(v: TupleValue, start: nat, marked: set<nat>, k: nat, from: seq<nat>, number: seq<nat>, nodes: seq<TypeNode>, edges: seq<nat>)
    requires TypeInv(v, start, marked, k, from, number, nodes, edges)
    ensures Structured(v) && start < NodeCount(v) == |number| && WellFormed(TableOf(v)) && Subtree(TableOf(v), start, marked)
    ensures Packed(marked, k, from, number) && PackedEdges(TableOf(v), start, k, from, ShapeFrom(nodes, edges))
    ensures PackedMeaning(v, from, nodes, edges) && |from| == |nodes| && |ShapeFrom(nodes, edges).spans| == |nodes|
  {
    hide Packed, PackedEdges, Subtree, WellFormed;
  }

  lemma KeptShape(buffers: seq<HostBuffer>, owners: set<nat>, v: TupleValue, k: nat, nodes: seq<TypeNode>, edges: seq<nat>, kids: seq<nat>)
    requires ValidTuple(buffers, owners, v) && k < NodeCount(v) && SlotExists(v, SlotOf(v, k)) && SpanInRange(TableOf(v), k)
    requires |kids| == |Kids(TableOf(v), k)|
    ensures var node, f := TypeNodeFor(v, k, |edges|), ShapeFrom(nodes, edges);
            && ShapeFrom(nodes + [node], edges + kids) == Shape(f.spans + [Span(node.firstChild, node.childCount)], f.edges + kids)
            && f.edges == edges && node.childCount == |kids| && node.firstChild <= |edges| && (|kids| > 0 ==> node.firstChild == |edges|)
  {
    TypeNodeTag(buffers, owners, v, k, |edges|);
    KidsOf(v, k);
    if ContainerOf(v, k) != TupleC { LeafKids(v, k); }
    hide ValidTuple, Kids, TypeNodeFor;
    var node, f := TypeNodeFor(v, k, |edges|), ShapeFrom(nodes, edges);
    assert ShapeFrom(nodes + [node], edges + kids).spans == f.spans + [Span(node.firstChild, node.childCount)];
  }

  lemma ForestOf(s: Shape, start: nat, k: nat, from: seq<nat>, f: Shape)
    requires WellFormed(s) && PackedEdges(s, start, k, from, f)
    ensures Forest(f)
  {
  }

  /** The renumbered children come from the children. */
  lemma KidsBack(s: Shape, start: nat, marked: set<nat>, k: nat, from: seq<nat>, number: seq<nat>, f: Shape)
    requires WellFormed(s) && start < |s.spans| == |number| && Subtree(s, start, marked) && k in marked
    requires Packed(marked, k, from, number) && SpanInRange(s, k) && Numbered(number, Kids(s, k)) && k < |s.spans|
    ensures var kids := MapAll(number, Kids(s, k));
            forall a :: 0 <= a < |kids| ==> kids[a] < |from| && from[kids[a]] == Kids(s, k)[a]
  {
    KidsHaveParent(s, k);
    forall a | 0 <= a < |Kids(s, k)| ensures Kids(s, k)[a] in marked && Kids(s, k)[a] < k {
      assert Kids(s, k)[a] in Kids(s, k);
    }
  }

  /** Everything below the requested node is renumbered: the arena is one tree, rooted at that node. */
  lemma TypeInvEnd(v: TupleValue, start: nat, marked: set<nat>, from: seq<nat>, number: seq<nat>, nodes: seq<TypeNode>, edges: seq<nat>)
    requires TypeInv(v, start, marked, start + 1, from, number, nodes, edges)
    ensures start < |number|
    ensures var t := TypeArena(nodes, edges, number[start], None);
            WellFormedType(t) && TypeOf(t) == Erase(ValueAt(v, start))
  {
    var s, f := TableOf(v), ShapeFrom(nodes, edges);
    var t := TypeArena(nodes, edges, number[start], None);
    assert start in marked && start < |number| && number[start] < |from| && from[number[start]] == start;
    assert number[start] == |from| - 1;
    hide Postorder, SpansDisjoint, SpansCover, Structured;
    forall p: nat | p < |f.spans| - 1 ensures p in f.edges {
      assert from[p] in marked && number[from[p]] == p;
      assert ReachedFrom(s, start, marked, from[p]);
      assert ReachedFrom(s, start, marked, Parent(s, from[p]));
      assert ParentBelow(s, start, from[p], start + 1);
    }
    assert WellFormed(f);
    assert ShapeOf(t) == f;
  }

  /** src/value.cpp:1225-1234. */
  method PushMapped(v: TupleValue, i: nat, number: array<nat>, edges: seq<nat>, capacity: nat) returns (pushed: bool, edges': seq<nat>)
    requires Structured(v) && i < NodeCount(v) && SpanInRange(TableOf(v), i) && Numbered(number[..], Kids(TableOf(v), i))
    requires |edges| + |Kids(TableOf(v), i)| <= capacity
    ensures pushed && edges' == edges + MapAll(number[..], Kids(TableOf(v), i))
  {
    var span := SpanOf(v, i);
    KidsOf(v, i);
    ghost var ks := Kids(TableOf(v), i);
    ghost var mapped := MapAll(number[..], ks);
    hide Structured, Kids, TableOf;
    edges' := edges;
    for k := 0 to span.count
      invariant |edges'| == |edges| + k && edges' == edges + mapped[..k]
    {
      if |edges'| >= capacity {
        pushed := false;
        return;
      }
      assert mapped[k] == number[..][ks[k]];
      edges' := edges' + [number[v.childIndexes[span.first + k]]];
    }
    pushed := true;
  }

  /** src/value.cpp:1206-1245: one marked node moves into the type table, its edges first. */
  method KeepOne(v: TupleValue, start: nat, i: nat, number: array<nat>, nodes: seq<TypeNode>, edges: seq<nat>,
                 ghost marked: set<nat>, ghost from: seq<nat>, ghost buffers: seq<HostBuffer>, ghost owners: set<nat>)
    returns (pushed: bool, nodes': seq<TypeNode>, edges': seq<nat>)
    requires ValidTuple(buffers, owners, v) && TypeInv(v, start, marked, i, from, number[..], nodes, edges)
    requires i in marked && i < number.Length && i < NodeCount(v) && SlotExists(v, SlotOf(v, i))
    modifies number
    ensures pushed && TypeInv(v, start, marked, i + 1, from + [i], number[..], nodes', edges')
  {
    ghost var before := number[..];
    hide ValidTuple, Structured, WellFormed, TypeInv, Kids, TableOf, Numbered, Marked, Subtree, TypeNodeFor, SlotOf, SlotExists;
    TypeInvKids(v, start, marked, i, from, before, nodes, edges);
    TypeInvKeep(buffers, owners, v, start, marked, i, from, before, nodes, edges);
    edges' := edges;
    if ContainerOf(v, i) == TupleC {
      pushed, edges' := PushMapped(v, i, number, edges, |v.childIndexes|);
      if !pushed {
        nodes' := nodes;
        return;
      }
    } else {
      LeafKids(v, i);
      assert MapAll(before, Kids(TableOf(v), i)) == [];
      assert edges + [] == edges;
    }
    var place: nat := |nodes|;
    number[i] := place;
    assert number[..] == before[i := place];
    pushed := |nodes| < NodeCount(v);
    nodes' := nodes + [TypeNodeFor(v, i, |edges|)];
  }

  /** src/value.cpp:1203-1246: renumber the marked nodes in order. */
  method Renumber(v: TupleValue, start: nat, reachable: array<bool>, ghost buffers: seq<HostBuffer>, ghost owners: set<nat>)
    returns (pushed: bool, t: TypeArena)
    requires ValidTuple(buffers, owners, v) && start < NodeCount(v) == reachable.Length
    requires Structured(v) && WellFormed(TableOf(v)) && Subtree(TableOf(v), start, Marked(reachable[..]))
    ensures pushed && WellFormedType(t) && TypeOf(t) == Erase(ValueAt(v, start))
  {
    hide *;
    var number := new nat[NodeCount(v)](_ => 0);
    ghost var marked := Marked(reachable[..]);
    var nodes: seq<TypeNode>, edges: seq<nat> := [], [];
    ghost var from: seq<nat> := [];
    TypeInvStart(v, start, marked, number[..]);
    AllSlotsExist(v);
    MarkedMeans(reachable[..]);
    for i := 0 to start + 1
      invariant TypeInv(v, start, marked, i, from, number[..], nodes, edges)
    {
      if !reachable[i] {
        TypeInvSkip(v, start, marked, i, from, number[..], nodes, edges);
        continue;
      }
      pushed, nodes, edges := KeepOne(v, start, i, number, nodes, edges, marked, from, buffers, owners);
      if !pushed {
        return;
      }
      from := from + [i];
    }
    TypeInvEnd(v, start, marked, from, number[..], nodes, edges);
    t := TypeArena(nodes, edges, number[start], None);
    pushed := true;
  }

  lemma AllSlotsExist(v: TupleValue)
    requires Structured(v)
    ensures forall i: nat :: i < NodeCount(v) ==> SlotExists(v, SlotOf(v, i))
  {
  }

  lemma MarkedMeans(flags: seq<bool>)
    ensures forall i: nat :: i < |flags| ==> (i in Marked(flags) <==> flags[i])
  {
  }

  /**
   The type of any node of a valid tuple value is the erased tree of that node.  No table is ever too small,
   so that the host allocator is the only thing that can fail.
   */
  method TypeForNode(v: TupleValue, start: nat, ghost buffers: seq<HostBuffer>, ghost owners: set<nat>) returns (pushed: bool, t: TypeArena)
    requires ValidTuple(buffers, owners, v) && start < NodeCount(v)
    ensures pushed && WellFormedType(t) && TypeOf(t) == Erase(ValueAt(v, start))
  {
    TableFits(v);
    var reachable;
    pushed, reachable := MarkReachable(v, start);
    if !pushed {
      return;
    }
    pushed, t := Renumber(v, start, reachable, buffers, owners);
  }

  /** src/value.cpp:1111-1130 and above: the type of a whole value. */
  method ValueType(e: Value, ghost buffers: seq<HostBuffer>, ghost owners: set<nat>) returns (pushed: bool, t: TypeArena)
    requires ValidElementValue(buffers, owners, e)
    ensures pushed && WellFormedType(t) && TypeOf(t) == Erase(ElementTree(buffers, owners, e))
  {
    match e
    case ScalarV(s) =>
      t := LeafType(TypeNode(ScalarKind, s.element, 0, 0));
      LeafErased(buffers, owners, e, t);
      pushed := true;
    case VectorV(p) =>
      t := LeafType(TypeNode(VectorKind, p.element, 0, 0));
      LeafErased(buffers, owners, e, t);
      pushed := true;
    case TupleV(v) =>
      pushed, t := TypeForNode(v, v.rootIndex, buffers, owners);
  }

  function LeafType(n: TypeNode): TypeArena {
    TypeArena([], [], 0, Some(n))
  }

  lemma LeafErased(buffers: seq<HostBuffer>, owners: set<nat>, e: Value, t: TypeArena)
    requires ValidElementValue(buffers, owners, e) && !e.TupleV?
    requires e.ScalarV? ==> t == LeafType(TypeNode(ScalarKind, e.scalar.element, 0, 0))
    requires e.VectorV? ==> t == LeafType(TypeNode(VectorKind, e.payload.element, 0, 0))
    ensures WellFormedType(t) && TypeOf(t) == Erase(ElementTree(buffers, owners, e))
  {
    assert ShapeOf(t) == Shape([Span(0, 0)], []);
    LeafShape();
    assert Tags(TypeNodes(t)) == [TagOf(t.inlineLeaf.value)];
    assert TypeOf(t).kids == [];
  }

  /**
   Typing a made tuple and making the tuple type of the element types agree: both denote the tuple of the
   elements' erased trees.
   */
  lemma TupleTypesAgree(buffers: seq<HostBuffer>, owners: set<nat>, elements: seq<Value>, types: seq<TypeArena>, made: TupleValue)
    requires AllValid(buffers, owners, elements) && |types| == |elements| && AllWellFormed(types)
    requires forall k :: 0 <= k < |types| ==> TypeOf(types[k]) == Erase(ElementTree(buffers, owners, elements[k]))
    requires Structured(made) && ValueOf(made) == Node(TupleBranch, ElementTrees(buffers, owners, elements))
    ensures Erase(ValueOf(made)) == Node(TupleTag, ElementTypes(types))
  {
    hide ElementTree, TypeOf, Structured, ValueOf, WellFormedType;
    assert Erase(ValueOf(made)).kids == ElementTypes(types);
  }
}
