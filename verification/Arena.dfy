/**
 Flat tree arenas, as shared by types and tuple values.

 A tree is stored as one range of edges per node and one child index per edge.  The root is
 the last node.  `WellFormed` is the declarative meaning of "this table encodes one tree",
 `Denote` is the tree itself, and `Frontier` is what every explicit-stack traversal keeps.
 */
module Arena {

  /** The edges of one node: `first`, `first + 1`, ..., `first + count - 1`. */
  datatype Span = Span(first: nat, count: nat)

  datatype Shape = Shape(spans: seq<Span>, edges: seq<nat>)

  datatype Tree<L> = Node(tag: L, kids: seq<Tree<L>>)

  predicate InSpan(s: Span, e: int) {
    s.first <= e < s.first + s.count
  }

  ghost predicate SpanInRange(s: Shape, i: nat)
    requires i < |s.spans|
  {
    s.spans[i].first + s.spans[i].count <= |s.edges|
  }

  ghost predicate SpansInRange(s: Shape) {
    forall i :: 0 <= i < |s.spans| ==> s.spans[i].first + s.spans[i].count <= |s.edges|
  }

  /** Every child has a smaller index than its parent. */
  ghost predicate Postorder(s: Shape) {
    && SpansInRange(s)
    && forall i, e :: 0 <= i < |s.spans| && InSpan(s.spans[i], e) ==> s.edges[e] < i
  }

  ghost predicate SpansDisjoint(s: Shape) {
    forall i, j, e :: 0 <= i < |s.spans| && 0 <= j < |s.spans| && InSpan(s.spans[i], e) && InSpan(s.spans[j], e) ==> i == j
  }

  ghost predicate Owned(s: Shape, e: int) {
    exists i :: 0 <= i < |s.spans| && InSpan(s.spans[i], e)
  }

  ghost predicate SpansCover(s: Shape) {
    forall e :: 0 <= e < |s.edges| ==> Owned(s, e)
  }

  ghost predicate Distinct<T>(xs: seq<T>) {
    forall a, b :: 0 <= a < b < |xs| ==> xs[a] != xs[b]
  }

  ghost predicate NoOrphans(s: Shape) {
    forall j :: 0 <= j < |s.spans| - 1 ==> j in s.edges
  }

  /** The table encodes exactly one tree, rooted at its last node. */
  ghost predicate WellFormed(s: Shape) {
    && |s.spans| > 0
    && Postorder(s)
    && SpansDisjoint(s)
    && SpansCover(s)
    && Distinct(s.edges)
    && NoOrphans(s)
  }

  ghost function Root(s: Shape): nat
    requires |s.spans| > 0
  {
    |s.spans| - 1
  }

  ghost function Kids(s: Shape, i: nat): (k: seq<nat>)
    requires i < |s.spans| && SpanInRange(s, i)
    ensures |k| == s.spans[i].count
  {
    s.edges[s.spans[i].first .. s.spans[i].first + s.spans[i].count]
  }

  // ---------------------------------------------------------------- denotation

  ghost function Denote<L>(s: Shape, labels: seq<L>, i: nat): Tree<L>
    requires Postorder(s) && i < |s.spans| == |labels|
    decreases i
  {
    Node(labels[i],
         seq(s.spans[i].count,
             k requires 0 <= k < s.spans[i].count =>
               assert InSpan(s.spans[i], s.spans[i].first + k);
               Denote(s, labels, s.edges[s.spans[i].first + k])))
  }

  // ---------------------------------------------------------------- parents

  /** The unique node whose edges include an edge to `j`. */
  ghost function Parent(s: Shape, j: nat): (p: nat)
    requires WellFormed(s) && j < Root(s)
    ensures p < |s.spans| && j < p
    ensures exists e :: InSpan(s.spans[p], e) && s.edges[e] == j
  {
    assert j in s.edges;
    var e :| 0 <= e < |s.edges| && s.edges[e] == j;
    assert Owned(s, e);
    var p :| 0 <= p < |s.spans| && InSpan(s.spans[p], e);
    p
  }

  lemma ParentUnique(s: Shape, i: nat, e: nat)
    requires WellFormed(s) && i < |s.spans| && InSpan(s.spans[i], e)
    ensures s.edges[e] < Root(s) && Parent(s, s.edges[e]) == i
  {
    var j := s.edges[e];
    var p := Parent(s, j);
    var f :| InSpan(s.spans[p], f) && s.edges[f] == j;
    assert SpanInRange(s, p) && SpanInRange(s, i);
    assert e == f;
  }

  lemma KidsHaveParent(s: Shape, i: nat)
    requires WellFormed(s) && i < |s.spans|
    ensures SpanInRange(s, i) && Distinct(Kids(s, i))
    ensures forall j :: j in Kids(s, i) ==> j < i && j < Root(s) && Parent(s, j) == i
  {
    assert SpanInRange(s, i);
    forall k | 0 <= k < s.spans[i].count
      ensures Kids(s, i)[k] < i && Kids(s, i)[k] < Root(s) && Parent(s, Kids(s, i)[k]) == i
    {
      assert InSpan(s.spans[i], s.spans[i].first + k);
      ParentUnique(s, i, s.spans[i].first + k);
    }
    forall a, b | 0 <= a < b < |Kids(s, i)|
      ensures Kids(s, i)[a] != Kids(s, i)[b]
    {
      assert s.edges[s.spans[i].first + a] != s.edges[s.spans[i].first + b];
    }
  }

  lemma KidOfParent(s: Shape, j: nat)
    requires WellFormed(s) && j < Root(s)
    ensures SpanInRange(s, Parent(s, j)) && j in Kids(s, Parent(s, j))
  {
    var p := Parent(s, j);
    assert SpanInRange(s, p);
    var e :| InSpan(s.spans[p], e) && s.edges[e] == j;
    assert Kids(s, p)[e - s.spans[p].first] == j;
  }

  // ---------------------------------------------------------------- counting

  ghost function Below(n: nat): (r: set<nat>)
    ensures forall k: nat :: k in r <==> k < n
    ensures |r| == n
  {
    if n == 0 then {} else Below(n - 1) + {n - 1}
  }

  ghost function Elems<T>(xs: seq<T>): set<T> {
    set x | x in xs
  }

  lemma {:induction false} DistinctCard<T>(xs: seq<T>)
    requires Distinct(xs)
    ensures |Elems(xs)| == |xs|
  {
    if xs == [] {
      assert Elems(xs) == {};
    } else {
      var n := |xs| - 1;
      DistinctCard(xs[..n]);
      assert xs == xs[..n] + [xs[n]];
      assert Elems(xs) == Elems(xs[..n]) + {xs[n]};
      assert xs[n] !in xs[..n];
    }
  }

  lemma SubsetCard<T>(a: set<T>, b: set<T>)
    requires a <= b
    ensures |a| <= |b|
  {
    assert |b| == |a| + |b - a| by { assert b == a + (b - a); }
  }

  /** A tree with n nodes has n - 1 edges. */
  lemma EdgeCount(s: Shape)
    requires WellFormed(s)
    ensures |s.edges| == |s.spans| - 1
  {
    DistinctCard(s.edges);
    forall e | 0 <= e < |s.edges|
      ensures s.edges[e] < |s.spans| - 1
    {
      assert Owned(s, e);
      var i :| 0 <= i < |s.spans| && InSpan(s.spans[i], e);
    }
    assert Elems(s.edges) == Below(|s.spans| - 1);
  }

  // ---------------------------------------------------------------- traversal

  /** `j` was reached from `start`: it is `start` itself or its parent is among `visited`. */
  ghost predicate ReachedFrom(s: Shape, start: nat, visited: set<nat>, j: nat)
    requires WellFormed(s)
  {
    j <= start && (j == start || (j < Root(s) && Parent(s, j) in visited))
  }

  /** What an explicit stack holds while the subtree of `start` is walked. */
  ghost predicate Frontier(s: Shape, start: nat, visited: set<nat>, stack: seq<nat>) {
    && WellFormed(s)
    && start < |s.spans|
    && Distinct(stack)
    && (forall j :: j in stack ==> j !in visited)
    && (forall j :: j in stack ==> ReachedFrom(s, start, visited, j))
    && (forall j :: j in visited ==> ReachedFrom(s, start, visited, j))
  }

  lemma FrontierBound(s: Shape, start: nat, visited: set<nat>, stack: seq<nat>)
    requires Frontier(s, start, visited, stack)
    ensures |stack| + |visited| <= start + 1
  {
    DistinctCard(stack);
    var both := Elems(stack) + visited;
    assert |both| == |stack| + |visited| by { assert Elems(stack) !! visited; }
    assert both <= Below(start + 1);
    SubsetCard(both, Below(start + 1));
  }

  /** Popping `i` and pushing its children, in either order, keeps the frontier. */
  lemma FrontierStep(s: Shape, start: nat, visited: set<nat>, rest: seq<nat>, i: nat, kids: seq<nat>)
    requires Frontier(s, start, visited, rest + [i])
    requires i < |s.spans| && SpanInRange(s, i)
    requires Distinct(kids) && (forall j :: j in kids ==> j in Kids(s, i))
    ensures Frontier(s, start, visited + {i}, rest + kids)
  {
    KidsHaveParent(s, i);
    var stack := rest + [i];
    assert stack[|rest|] == i && i in stack;
    forall j | j in kids
      ensures j !in visited && j != i && j !in rest && ReachedFrom(s, start, visited + {i}, j)
    {
      assert j in Kids(s, i);
      assert j in rest ==> j in stack;
    }
    forall j | j in rest
      ensures j !in visited + {i} && ReachedFrom(s, start, visited + {i}, j)
    {
      assert j in stack;
      var a :| 0 <= a < |rest| && rest[a] == j;
      assert stack[a] != stack[|rest|];
    }
    var stack' := rest + kids;
    forall a, b | 0 <= a < b < |stack'| ensures stack'[a] != stack'[b] {
      if b < |rest| {
        assert stack[a] != stack[b];
      } else if a < |rest| {
        assert stack'[a] in rest && stack'[b] in kids;
      } else {
        assert kids[a - |rest|] != kids[b - |rest|];
      }
    }
  }

  /** One step of a walk over a frontier: pop `i` and push its children in order. */
  lemma SideStep(s: Shape, start: nat, seen: set<nat>, rest: seq<nat>, i: nat)
    requires Frontier(s, start, seen, rest + [i])
    ensures i < |s.spans| && SpanInRange(s, i) && i !in seen
    ensures Frontier(s, start, seen + {i}, rest + Kids(s, i))
  {
    hide WellFormed, ReachedFrom;
    assert (rest + [i])[|rest|] == i;
    assert i in rest + [i];
    Bounded(s, start, seen, rest + [i], i);
    KidsHaveParent(s, i);
    FrontierStep(s, start, seen, rest, i, Kids(s, i));
  }

  lemma Bounded(s: Shape, start: nat, seen: set<nat>, stack: seq<nat>, i: nat)
    requires Frontier(s, start, seen, stack) && i in stack
    ensures i < |s.spans| && SpanInRange(s, i)
  {
    assert ReachedFrom(s, start, seen, i);
  }
}
