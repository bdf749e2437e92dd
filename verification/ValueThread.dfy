/**
 src/resources.cpp:3087-3117, 3310-3340 and src/value.cpp:1487-1515: threading parent links through the
 unused fields of the nodes, and the exact content of the nodes while a walk is under way.
 */
module ValueThread {
  import opened Kinds
  import opened Arena
  import opened ArenaWalk
  import opened ValueArenas

  class ValueOwner {
    var tuple: TupleValue
    var claimed: bool

    constructor (tuple: TupleValue)
      ensures this.tuple == tuple && claimed
    {
      this.tuple, claimed := tuple, true;
    }
  }

  /** A tuple node keeps its parent in the payload field and its cursor in the child count; a leaf keeps its parent in the first-child field. */
  function ThreadedNode(n: ValueNode, cursor: nat, parent: nat): ValueNode {
    if n.container == TupleC then n.(childCount := cursor, payload := parent) else n.(firstChild := parent)
  }

  function LinkOf(n: ValueNode): nat {
    if n.container == TupleC then n.payload else n.firstChild
  }

  /** `now` is `was` with parent links in place and the cursors where the walk has left them. */
  ghost predicate Threads(was: TupleValue, now: TupleValue, cursors: seq<nat>)
    requires WellFormed(TableOf(was))
  {
    && |cursors| == NodeCount(was)
    && |now.nodes| == |was.nodes|
    && (forall j: nat :: j < |was.nodes| ==> now.nodes[j] == ThreadedNode(was.nodes[j], cursors[j], Parent(TableOf(was), j)))
    && now.childCount == cursors[|was.nodes|]
    && now.childIndexes == was.childIndexes && now.rootIndex == was.rootIndex && now.firstChild == was.firstChild
    && |now.payloads| == |was.payloads| && |now.reservations| == |was.reservations|
  }

  /** `set_parent`: record the parent of one child. */
  function WithParent(nodes: seq<ValueNode>, child: nat, parent: nat): (r: seq<ValueNode>)
    requires child < |nodes|
    ensures |r| == |nodes|
  {
    var n := nodes[child];
    nodes[child := if n.container == TupleC then n.(payload := parent) else n.(firstChild := parent)]
  }

  /** The children of the first `upto` nodes, and the first `offset` children of the next one, are threaded. */
  ghost predicate ThreadedUpTo(was: TupleValue, nodes: seq<ValueNode>, upto: nat, offset: nat)
    requires WellFormed(TableOf(was)) && upto < NodeCount(was) && offset <= SpanOf(was, upto).count
  {
    var s := TableOf(was);
    && |nodes| == |was.nodes|
    && forall j: nat :: j < |nodes| ==>
         nodes[j] == if Parent(s, j) < upto || (exists k: nat :: k < offset && Kid(s, upto, k) == j)
                     then ThreadedNode(was.nodes[j], was.nodes[j].childCount, Parent(s, j)) else was.nodes[j]
  }

  lemma ThreadStart(was: TupleValue)
    requires WellFormed(TableOf(was))
    ensures ThreadedUpTo(was, was.nodes, 0, 0)
  {
  }

  lemma ThreadOne(was: TupleValue, nodes: seq<ValueNode>, upto: nat, offset: nat)
    requires WellFormed(TableOf(was)) && upto < NodeCount(was) && offset < SpanOf(was, upto).count
    requires ThreadedUpTo(was, nodes, upto, offset)
    ensures var child := Kid(TableOf(was), upto, offset);
            child < |nodes| && ThreadedUpTo(was, WithParent(nodes, child, upto), upto, offset + 1)
  {
    var s := TableOf(was);
    var child := Kid(s, upto, offset);
    KidParent(s, upto, offset);
    forall k: nat | k < offset
      ensures Kid(s, upto, k) != child
    {
      assert s.edges[s.spans[upto].first + k] != s.edges[s.spans[upto].first + offset];
    }
    var nodes' := WithParent(nodes, child, upto);
    assert ThreadedNode(was.nodes[child], was.nodes[child].childCount, upto) == nodes'[child];
    forall j: nat | j < |nodes|
      ensures nodes'[j] == if Parent(s, j) < upto || (exists k: nat :: k < offset + 1 && Kid(s, upto, k) == j)
                           then ThreadedNode(was.nodes[j], was.nodes[j].childCount, Parent(s, j)) else was.nodes[j]
    {
      if j != child {
        assert (exists k: nat :: k < offset + 1 && Kid(s, upto, k) == j) <==> (exists k: nat :: k < offset && Kid(s, upto, k) == j);
      } else {
        assert Kid(s, upto, offset) == j;
      }
    }
  }

  lemma ThreadNext(was: TupleValue, nodes: seq<ValueNode>, upto: nat)
    requires WellFormed(TableOf(was)) && upto + 1 < NodeCount(was)
    requires ThreadedUpTo(was, nodes, upto, SpanOf(was, upto).count)
    ensures ThreadedUpTo(was, nodes, upto + 1, 0)
  {
    ThreadedMeansParent(was, upto);
  }

  lemma ThreadedMeansParent(was: TupleValue, upto: nat)
    requires WellFormed(TableOf(was)) && upto < NodeCount(was)
    ensures forall j: nat :: j < |was.nodes| ==>
              ((exists k: nat :: k < SpanOf(was, upto).count && Kid(TableOf(was), upto, k) == j) <==> Parent(TableOf(was), j) == upto)
  {
    var s := TableOf(was);
    forall j: nat | j < |was.nodes|
      ensures (exists k: nat :: k < SpanOf(was, upto).count && Kid(s, upto, k) == j) <==> Parent(s, j) == upto
    {
      if Parent(s, j) == upto {
        var k := ParentKid(s, j);
        assert Kid(s, upto, k) == j;
      }
      if k: nat :| k < SpanOf(was, upto).count && Kid(s, upto, k) == j {
        KidParent(s, upto, k);
      }
    }
  }

  lemma ThreadDone(was: TupleValue, now: TupleValue)
    requires Structured(was)
    requires ThreadedUpTo(was, now.nodes, |was.nodes|, was.childCount)
    requires now == was.(nodes := now.nodes)
    ensures Threads(was, now, FullCursors(TableOf(was)))
  {
    var s := TableOf(was);
    ThreadedMeansParent(was, |was.nodes|);
    forall j: nat | j < |was.nodes|
      ensures now.nodes[j] == ThreadedNode(was.nodes[j], FullCursors(s)[j], Parent(s, j))
    {
      assert Parent(s, j) < |s.spans|;
      assert s.spans[j] == SpanOf(was, j);
    }
  }

  /** Record the parent of every node that has one. */
  method SetParents(owner: ValueOwner)
    requires Structured(owner.tuple)
    modifies owner`tuple
    ensures Threads(old(owner.tuple), owner.tuple, FullCursors(TableOf(old(owner.tuple))))
    ensures owner.tuple == old(owner.tuple).(nodes := owner.tuple.nodes)
  {
    ghost var was := owner.tuple;
    ThreadStart(was);
    for i := 0 to |owner.tuple.nodes|
      invariant owner.tuple == was.(nodes := owner.tuple.nodes)
      invariant i <= |was.nodes| && ThreadedUpTo(was, owner.tuple.nodes, i, 0)
    {
      var node := owner.tuple.nodes[i];
      NodeKept(was, owner.tuple.nodes, i);
      if node.container != TupleC {
        assert SpanOf(was, i).count == 0 by { assert NodeFieldsOk(was, i); }
      } else {
        SetParentsOf(owner, was, i, node.firstChild, node.childCount);
      }
      ThreadNext(was, owner.tuple.nodes, i);
    }
    SetParentsOf(owner, was, owner.tuple.rootIndex, owner.tuple.firstChild, owner.tuple.childCount);
    ThreadDone(was, owner.tuple);
  }

  /** Threading changes neither the kind of a node nor, for a tuple, its edges. */
  lemma NodeKept(was: TupleValue, nodes: seq<ValueNode>, i: nat)
    requires WellFormed(TableOf(was)) && i < |was.nodes| && ThreadedUpTo(was, nodes, i, 0)
    ensures nodes[i].container == was.nodes[i].container
    ensures was.nodes[i].container == TupleC ==> Span(nodes[i].firstChild, nodes[i].childCount) == SpanOf(was, i)
  {
  }

  method SetParentsOf(owner: ValueOwner, ghost was: TupleValue, i: nat, first: nat, count: nat)
    requires WellFormed(TableOf(was)) && i < NodeCount(was) && SpanOf(was, i) == Span(first, count)
    requires owner.tuple == was.(nodes := owner.tuple.nodes) && ThreadedUpTo(was, owner.tuple.nodes, i, 0)
    modifies owner`tuple
    ensures owner.tuple == was.(nodes := owner.tuple.nodes)
    ensures ThreadedUpTo(was, owner.tuple.nodes, i, count)
  {
    assert TableOf(was).spans[i] == Span(first, count) && SpanInRange(TableOf(was), i);
    assert |was.childIndexes| == |TableOf(was).edges|;
    hide ThreadedUpTo, WellFormed, TableOf, SpanOf;
    for offset := 0 to count
      invariant owner.tuple == was.(nodes := owner.tuple.nodes)
      invariant ThreadedUpTo(was, owner.tuple.nodes, i, offset)
    {
      KidAt(was, i, offset);
      ThreadOne(was, owner.tuple.nodes, i, offset);
      var child := owner.tuple.childIndexes[first + offset];
      var n := owner.tuple.nodes[child];
      owner.tuple := owner.tuple.(nodes := owner.tuple.nodes[child :=
        if n.container == TupleC then n.(payload := i) else n.(firstChild := i)]);
    }
  }

  lemma KidAt(was: TupleValue, i: nat, k: nat)
    requires WellFormed(TableOf(was)) && i < NodeCount(was) && k < SpanOf(was, i).count
    ensures SpanOf(was, i).first + k < |was.childIndexes|
    ensures Kid(TableOf(was), i, k) == was.childIndexes[SpanOf(was, i).first + k]
  {
    assert TableOf(was).spans[i] == SpanOf(was, i);
  }
}
