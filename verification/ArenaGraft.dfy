/**
 Building a tuple arena by appending complete element arenas one after another.

 While elements are appended the table is a forest: every node is the child of exactly one edge or
 is one of the element roots.  Closing the forest under one new root makes it a tree again.
 */
module ArenaGraft {
  import opened Arena

  ghost predicate ForestWF(f: Shape, roots: seq<nat>) {
    && Postorder(f)
    && SpansDisjoint(f)
    && SpansCover(f)
    && Distinct(f.edges)
    && Distinct(roots)
    && (forall r :: r in roots ==> r < |f.spans| && r !in f.edges)
    && (forall j :: 0 <= j < |f.spans| ==> j in f.edges || j in roots)
    && (forall e :: 0 <= e < |f.edges| ==> f.edges[e] < |f.spans|)
  }

  /** A leaf keeps its empty span wherever that starts; any other span moves with its edges. */
  ghost predicate MovedSpan(from: Span, to: Span, offset: nat, edgeCount: nat) {
    && to.count == from.count
    && to.first + to.count <= edgeCount
    && (from.count > 0 ==> to.first == from.first + offset)
  }

  /** `g` is the forest `f` followed by the arena `e`, node and edge indexes of `e` moved past those of `f`. */
  ghost predicate Appended(f: Shape, e: Shape, g: Shape) {
    && |g.spans| == |f.spans| + |e.spans|
    && |g.edges| == |f.edges| + |e.edges|
    && (forall i :: 0 <= i < |f.spans| ==> g.spans[i] == f.spans[i])
    && (forall i :: 0 <= i < |e.spans| ==> MovedSpan(e.spans[i], g.spans[|f.spans| + i], |f.edges|, |g.edges|))
    && (forall k :: 0 <= k < |f.edges| ==> g.edges[k] == f.edges[k])
    && (forall k :: 0 <= k < |e.edges| ==> g.edges[|f.edges| + k] == e.edges[k] + |f.spans|)
  }

  /** `g` is the forest `f` under one new root. */
  ghost predicate Closed(f: Shape, roots: seq<nat>, g: Shape) {
    && g.spans == f.spans + [Span(|f.edges|, |roots|)]
    && g.edges == f.edges + roots
  }

  /** Where an edge of a node of the appended table comes from. */
  lemma AppendedSpan(f: Shape, e: Shape, g: Shape, i: nat, k: int)
    requires SpansInRange(f) && SpansInRange(e) && Appended(f, e, g)
    requires i < |g.spans| && InSpan(g.spans[i], k)
    ensures i < |f.spans| ==> k < |f.edges| && InSpan(f.spans[i], k)
    ensures i >= |f.spans| ==> |f.edges| <= k < |g.edges| && InSpan(e.spans[i - |f.spans|], k - |f.edges|)
  {
    if i >= |f.spans| {
      assert MovedSpan(e.spans[i - |f.spans|], g.spans[|f.spans| + (i - |f.spans|)], |f.edges|, |g.edges|);
    }
  }

  lemma AppendedSpans(f: Shape, e: Shape, g: Shape)
    requires Postorder(f) && SpansDisjoint(f) && SpansCover(f) && WellFormed(e) && Appended(f, e, g)
    ensures Postorder(g) && SpansDisjoint(g) && SpansCover(g)
  {
    var n, m := |f.spans|, |f.edges|;
    forall i | 0 <= i < |g.spans| ensures g.spans[i].first + g.spans[i].count <= |g.edges| {
      if i >= n { assert MovedSpan(e.spans[i - n], g.spans[n + (i - n)], m, |g.edges|); }
    }
    forall i, k | 0 <= i < |g.spans| && InSpan(g.spans[i], k) ensures g.edges[k] < i {
      AppendedSpan(f, e, g, i, k);
      if i >= n { assert g.edges[m + (k - m)] == e.edges[k - m] + n; }
    }
    forall i, j, k | 0 <= i < |g.spans| && 0 <= j < |g.spans| && InSpan(g.spans[i], k) && InSpan(g.spans[j], k)
      ensures i == j
    {
      AppendedSpan(f, e, g, i, k);
      AppendedSpan(f, e, g, j, k);
    }
    forall k | 0 <= k < |g.edges| ensures Owned(g, k) {
      if k < m {
        assert Owned(f, k);
        var i :| 0 <= i < n && InSpan(f.spans[i], k);
        assert InSpan(g.spans[i], k);
      } else {
        assert Owned(e, k - m);
        var i :| 0 <= i < |e.spans| && InSpan(e.spans[i], k - m);
        assert MovedSpan(e.spans[i], g.spans[n + i], m, |g.edges|);
        assert InSpan(g.spans[n + i], k);
      }
    }
  }

  /** Which edge of the appended table leads where. */
  lemma AppendedEdges(f: Shape, e: Shape, g: Shape)
    requires WellFormed(e) && Appended(f, e, g)
    requires forall k :: 0 <= k < |f.edges| ==> f.edges[k] < |f.spans|
    ensures |g.spans| == |f.spans| + |e.spans| && |g.edges| == |f.edges| + |e.edges| && |e.spans| > 0 && Root(e) + 1 == |e.spans|
    ensures forall k: nat :: k < |f.edges| ==> g.edges[k] == f.edges[k] < |f.spans|
    ensures forall k: nat :: |f.edges| <= k < |g.edges| ==>
              g.edges[k] == e.edges[k - |f.edges|] + |f.spans| && e.edges[k - |f.edges|] < Root(e)
    ensures Distinct(e.edges) && forall j: nat :: j < Root(e) ==> j in e.edges
  {
    EdgesBelowRoot(e);
    forall k: nat | |f.edges| <= k < |g.edges| ensures g.edges[k] == e.edges[k - |f.edges|] + |f.spans| {
      assert g.edges[|f.edges| + (k - |f.edges|)] == e.edges[k - |f.edges|] + |f.spans|;
    }
  }

  /** The children of the appended table: those of `f`, then every node of `e` but its root. */
  lemma AppendedChildren(f: Shape, e: Shape, g: Shape)
    requires WellFormed(e) && Appended(f, e, g)
    requires forall k :: 0 <= k < |f.edges| ==> f.edges[k] < |f.spans|
    ensures forall j: nat :: j < |f.spans| ==> (j in g.edges <==> j in f.edges)
    ensures forall j: nat :: |f.spans| <= j < |g.spans| ==> (j in g.edges <==> j != |f.spans| + Root(e))
    ensures forall k :: 0 <= k < |g.edges| ==> g.edges[k] < |g.spans|
  {
    hide *;
    AppendedEdges(f, e, g);
    JoinedMembers(f.edges, e.edges, g.edges, |f.spans|, Root(e));
  }

  /** The members of `x` followed by `y` moved up by `n`, when `y` lists everything below `m`. */
  lemma JoinedMembers(x: seq<nat>, y: seq<nat>, z: seq<nat>, n: nat, m: nat)
    requires |z| == |x| + |y| && (forall j: nat :: j < m ==> j in y)
    requires forall k: nat :: k < |x| ==> z[k] == x[k] < n
    requires forall k: nat :: |x| <= k < |z| ==> z[k] == y[k - |x|] + n && y[k - |x|] < m
    ensures forall j: nat :: j < n ==> (j in z <==> j in x)
    ensures forall j: nat :: n <= j ==> (j in z <==> j < n + m)
    ensures forall k :: 0 <= k < |z| ==> z[k] < n + m
  {
    forall j: nat | j in x ensures j in z {
      var k :| 0 <= k < |x| && x[k] == j;
      assert z[k] == j;
    }
    forall j: nat | n <= j < n + m ensures j in z {
      assert j - n in y;
      var k :| 0 <= k < |y| && y[k] == j - n;
      assert z[|x| + k] == j;
    }
  }

  lemma AppendedDistinct(f: Shape, e: Shape, g: Shape)
    requires WellFormed(e) && Appended(f, e, g) && Distinct(f.edges)
    requires forall k :: 0 <= k < |f.edges| ==> f.edges[k] < |f.spans|
    ensures Distinct(g.edges)
  {
    AppendedEdges(f, e, g);
    hide *;
    JoinedDistinct(f.edges, e.edges, g.edges, |f.spans|);
  }

  lemma JoinedDistinct(x: seq<nat>, y: seq<nat>, z: seq<nat>, n: nat)
    requires Distinct(x) && Distinct(y) && |z| == |x| + |y|
    requires forall k: nat :: k < |x| ==> z[k] == x[k] < n
    requires forall k: nat :: |x| <= k < |z| ==> z[k] == y[k - |x|] + n
    ensures Distinct(z)
  {
  }

  /** Appending a complete arena keeps the forest, with one more root. */
  lemma AppendForest(f: Shape, roots: seq<nat>, e: Shape, g: Shape)
    requires ForestWF(f, roots) && WellFormed(e) && Appended(f, e, g)
    ensures ForestWF(g, roots + [|f.spans| + Root(e)])
  {
    AppendedSpans(f, e, g);
    AppendedChildren(f, e, g);
    AppendedDistinct(f, e, g);
    assert |g.spans| == |f.spans| + |e.spans| && |e.spans| > 0;
    hide Postorder, SpansDisjoint, SpansCover, Appended, WellFormed;
    var roots' := roots + [|f.spans| + Root(e)];
    assert forall a :: 0 <= a < |roots| ==> roots[a] in roots;
    assert roots'[|roots|] == |f.spans| + Root(e);
    forall j | 0 <= j < |g.spans| ensures j in g.edges || j in roots' {
      assert j < |f.spans| ==> j in f.edges || j in roots;
      assert j in roots ==> j in roots';
    }
  }

  lemma EdgesBelowRoot(e: Shape)
    requires WellFormed(e)
    ensures forall k :: 0 <= k < |e.edges| ==> e.edges[k] < Root(e)
  {
    forall k | 0 <= k < |e.edges| ensures e.edges[k] < Root(e) {
      assert Owned(e, k);
    }
  }

  /** One new root over all the element roots makes the forest a tree. */
  lemma CloseForest(f: Shape, roots: seq<nat>, g: Shape)
    requires ForestWF(f, roots) && Closed(f, roots, g)
    ensures WellFormed(g)
  {
    var n, m := |f.spans|, |f.edges|;
    forall i, k | 0 <= i < |g.spans| && InSpan(g.spans[i], k)
      ensures if i < n then k < m && InSpan(f.spans[i], k) && g.edges[k] < i else m <= k < |g.edges| && g.edges[k] < n
    {
      if i == n { assert g.edges[k] == roots[k - m]; assert roots[k - m] in roots; }
    }
    forall k | 0 <= k < |g.edges| ensures Owned(g, k) {
      if k < m {
        assert Owned(f, k);
        var i :| 0 <= i < n && InSpan(f.spans[i], k);
        assert InSpan(g.spans[i], k);
      } else {
        assert InSpan(g.spans[n], k);
      }
    }
    forall a, b | 0 <= a < b < |g.edges| ensures g.edges[a] != g.edges[b] {
      if a < m <= b {
        assert roots[b - m] in roots && f.edges[a] in f.edges;
      } else if m <= a {
        assert roots[a - m] != roots[b - m];
      }
    }
    forall j | 0 <= j < n ensures j in g.edges {
      if j in f.edges {
        var k :| 0 <= k < m && f.edges[k] == j;
        assert g.edges[k] == j;
      } else {
        var k :| 0 <= k < |roots| && roots[k] == j;
        assert g.edges[m + k] == j;
      }
    }
  }

  // ---------------------------------------------------------------- meaning

  /** A table that only grows at its end keeps the meaning of its old nodes. */
  ghost predicate Extends(f: Shape, g: Shape) {
    f.spans <= g.spans && f.edges <= g.edges
  }

  lemma {:induction false} ExtendDenotes<L>(f: Shape, labels: seq<L>, g: Shape, labels': seq<L>, i: nat)
    requires Postorder(f) && Postorder(g) && Extends(f, g) && labels <= labels'
    requires i < |f.spans| == |labels| && |g.spans| == |labels'|
    ensures Denote(g, labels', i) == Denote(f, labels, i)
    decreases i
  {
    assert g.spans[i] == f.spans[i] && labels'[i] == labels[i];
    var l, r := Denote(f, labels, i), Denote(g, labels', i);
    forall k | 0 <= k < |l.kids| ensures r.kids[k] == l.kids[k] {
      assert InSpan(f.spans[i], f.spans[i].first + k);
      assert g.edges[f.spans[i].first + k] == f.edges[f.spans[i].first + k];
      ExtendDenotes(f, labels, g, labels', f.edges[f.spans[i].first + k]);
    }
    assert r.kids == l.kids;
  }

  lemma AppendedExtends(f: Shape, e: Shape, g: Shape)
    requires Appended(f, e, g)
    ensures Extends(f, g)
  {
  }

  /** An appended arena keeps its meaning at its new place. */
  lemma {:induction false} AppendDenotes<L>(f: Shape, e: Shape, labels: seq<L>, g: Shape, labels': seq<L>, i: nat)
    requires Postorder(e) && Postorder(g) && Appended(f, e, g)
    requires i < |e.spans| == |labels| && |g.spans| == |labels'|
    requires forall k :: 0 <= k < |labels| ==> labels'[|f.spans| + k] == labels[k]
    ensures Denote(g, labels', |f.spans| + i) == Denote(e, labels, i)
    decreases i
  {
    var n := |f.spans|;
    hide *;
    AppendedKids(f, e, g, i);
    DenoteKids(e, labels, i);
    DenoteKids(g, labels', n + i);
    var l, r := Denote(e, labels, i), Denote(g, labels', n + i);
    forall k | 0 <= k < |l.kids| ensures r.kids[k] == l.kids[k] {
      AppendDenotes(f, e, labels, g, labels', Kids(e, i)[k]);
    }
    assert r.kids == l.kids;
  }

  /** The children of a node of `e` once it is appended. */
  lemma AppendedKids(f: Shape, e: Shape, g: Shape, i: nat)
    requires Postorder(e) && Postorder(g) && Appended(f, e, g) && i < |e.spans|
    ensures |g.spans| == |f.spans| + |e.spans| && SpanInRange(e, i) && |Kids(g, |f.spans| + i)| == |Kids(e, i)|
    ensures forall k :: 0 <= k < |Kids(e, i)| ==> Kids(g, |f.spans| + i)[k] == |f.spans| + Kids(e, i)[k] && Kids(e, i)[k] < i
  {
    var n, m := |f.spans|, |f.edges|;
    assert MovedSpan(e.spans[i], g.spans[n + i], m, |g.edges|);
    forall k | 0 <= k < |Kids(e, i)| ensures Kids(g, n + i)[k] == n + Kids(e, i)[k] && Kids(e, i)[k] < i {
      assert InSpan(e.spans[i], e.spans[i].first + k);
      assert g.edges[m + (e.spans[i].first + k)] == e.edges[e.spans[i].first + k] + n;
    }
  }

  lemma DenoteKids<L>(s: Shape, labels: seq<L>, i: nat)
    requires Postorder(s) && i < |s.spans| == |labels|
    ensures Denote(s, labels, i).tag == labels[i] && |Denote(s, labels, i).kids| == |Kids(s, i)|
    ensures forall k :: 0 <= k < |Kids(s, i)| ==> Kids(s, i)[k] < i && Denote(s, labels, i).kids[k] == Denote(s, labels, Kids(s, i)[k])
  {
    forall k | 0 <= k < |Kids(s, i)| ensures Kids(s, i)[k] < i {
      assert InSpan(s.spans[i], s.spans[i].first + k);
    }
  }

  ghost predicate RootsIn(f: Shape, roots: seq<nat>) {
    forall k :: 0 <= k < |roots| ==> roots[k] < |f.spans|
  }

  ghost function RootTrees<L>(f: Shape, labels: seq<L>, roots: seq<nat>): seq<Tree<L>>
    requires Postorder(f) && |f.spans| == |labels| && RootsIn(f, roots)
  {
    seq(|roots|, k requires 0 <= k < |roots| => Denote(f, labels, roots[k]))
  }

  lemma RootTreesAre<L>(f: Shape, labels: seq<L>, roots: seq<nat>)
    requires Postorder(f) && |f.spans| == |labels| && RootsIn(f, roots)
    ensures |RootTrees(f, labels, roots)| == |roots|
    ensures forall k :: 0 <= k < |roots| ==> RootTrees(f, labels, roots)[k] == Denote(f, labels, roots[k])
  {
  }

  lemma ForestParts(f: Shape, roots: seq<nat>)
    requires ForestWF(f, roots)
    ensures Postorder(f) && RootsIn(f, roots) && forall k :: 0 <= k < |roots| ==> roots[k] < |f.spans|
  {
    assert forall k :: 0 <= k < |roots| ==> roots[k] in roots;
  }

  lemma ArenaParts(e: Shape)
    requires WellFormed(e)
    ensures Postorder(e) && Root(e) < |e.spans|
  {
  }

  /** Appending an arena adds its tree to the trees of the forest. */
  lemma AppendRootTrees<L>(f: Shape, labels: seq<L>, roots: seq<nat>, e: Shape, labelsE: seq<L>, g: Shape, labels': seq<L>)
    requires ForestWF(f, roots) && WellFormed(e) && Appended(f, e, g)
    requires |f.spans| == |labels| && |e.spans| == |labelsE| && |g.spans| == |labels'| && labels <= labels'
    requires forall k :: 0 <= k < |labelsE| ==> labels'[|f.spans| + k] == labelsE[k]
    ensures ForestWF(g, roots + [|f.spans| + Root(e)])
    ensures RootsIn(f, roots) && RootsIn(g, roots + [|f.spans| + Root(e)])
    ensures RootTrees(g, labels', roots + [|f.spans| + Root(e)]) == RootTrees(f, labels, roots) + [Denote(e, labelsE, Root(e))]
  {
    ForestParts(f, roots);
    ArenaParts(e);
    hide *;
    AppendForest(f, roots, e, g);
    var roots' := roots + [|f.spans| + Root(e)];
    ForestParts(g, roots');
    RootTreesAre(f, labels, roots);
    RootTreesAre(g, labels', roots');
    AppendDenotes(f, e, labelsE, g, labels', Root(e));
    AppendedExtends(f, e, g);
    forall k | 0 <= k < |roots| ensures Denote(g, labels', roots'[k]) == RootTrees(f, labels, roots)[k] {
      ExtendDenotes(f, labels, g, labels', roots[k]);
    }
    assert RootTrees(g, labels', roots') == RootTrees(f, labels, roots) + [Denote(e, labelsE, Root(e))];
  }

  /** The closed forest denotes the tuple of the element trees. */
  lemma CloseDenotes<L>(f: Shape, labels: seq<L>, roots: seq<nat>, g: Shape, label': L)
    requires ForestWF(f, roots) && Closed(f, roots, g) && |f.spans| == |labels|
    ensures WellFormed(g) && RootsIn(f, roots)
    ensures Denote(g, labels + [label'], |f.spans|) == Node(label', RootTrees(f, labels, roots))
  {
    CloseForest(f, roots, g);
    var n, m := |f.spans|, |f.edges|;
    var labels' := labels + [label'];
    assert forall k :: 0 <= k < |roots| ==> roots[k] in roots;
    assert Extends(f, g) && labels <= labels' && labels'[n] == label';
    RootTreesAre(f, labels, roots);
    var r, kids := Denote(g, labels', n), RootTrees(f, labels, roots);
    forall k | 0 <= k < |roots| ensures r.kids[k] == kids[k] {
      assert g.edges[m + k] == roots[k];
      ExtendDenotes(f, labels, g, labels', roots[k]);
    }
    assert r.kids == kids;
  }
}
