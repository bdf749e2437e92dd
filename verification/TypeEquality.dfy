/** src/type.cpp:428-496: structural equality decides equality of the denoted trees. */
module TypeEquality {
  import opened Kinds
  import opened Arena
  import opened TypeArenas

  datatype EqualityResult = Decided(equal: bool) | InvalidOperand(verdict: Verdict) | StackOverflow

  ghost function Lefts(pairs: seq<(nat, nat)>): (r: seq<nat>)
    ensures |r| == |pairs| && forall k :: 0 <= k < |pairs| ==> r[k] == pairs[k].0
  {
    seq(|pairs|, k requires 0 <= k < |pairs| => pairs[k].0)
  }

  ghost function Rights(pairs: seq<(nat, nat)>): (r: seq<nat>)
    ensures |r| == |pairs| && forall k :: 0 <= k < |pairs| ==> r[k] == pairs[k].1
  {
    seq(|pairs|, k requires 0 <= k < |pairs| => pairs[k].1)
  }

  ghost function Pairs(a: seq<nat>, b: seq<nat>): (r: seq<(nat, nat)>)
    requires |a| == |b|
    ensures |r| == |a| && forall k :: 0 <= k < |a| ==> r[k] == (a[k], b[k])
  {
    seq(|a|, k requires 0 <= k < |a| => (a[k], b[k]))
  }

  /** Every stacked pair denotes equal trees. */
  ghost predicate AllEqual(left: TypeArena, right: TypeArena, pairs: seq<(nat, nat)>)
    requires WellFormedType(left) && WellFormedType(right)
  {
    forall k :: 0 <= k < |pairs| ==>
      pairs[k].0 < |TypeNodes(left)| && pairs[k].1 < |TypeNodes(right)| &&
      TypeAt(left, pairs[k].0) == TypeAt(right, pairs[k].1)
  }

  ghost predicate PairInv(left: TypeArena, right: TypeArena, seenL: set<nat>, seenR: set<nat>, pairs: seq<(nat, nat)>) {
    && WellFormedType(left) && WellFormedType(right)
    && |seenL| == |seenR|
    && Frontier(ShapeOf(left), left.rootIndex, seenL, Lefts(pairs))
    && Frontier(ShapeOf(right), right.rootIndex, seenR, Rights(pairs))
    && (TypeOf(left) == TypeOf(right) <==> AllEqual(left, right, pairs))
  }

  /** Distinct pairs name distinct nodes on both sides, so `min(left nodes, right nodes)` entries suffice. */
  lemma PairsFit(left: TypeArena, right: TypeArena, seenL: set<nat>, seenR: set<nat>, pairs: seq<(nat, nat)>)
    requires PairInv(left, right, seenL, seenR, pairs)
    ensures |pairs| + |seenL| <= |TypeNodes(left)| && |pairs| + |seenR| <= |TypeNodes(right)|
  {
    FrontierBound(ShapeOf(left), left.rootIndex, seenL, Lefts(pairs));
    FrontierBound(ShapeOf(right), right.rootIndex, seenR, Rights(pairs));
  }

  ghost predicate SameNode(left: TypeArena, right: TypeArena, a: nat, b: nat)
    requires a < |TypeNodes(left)| && b < |TypeNodes(right)|
  {
    TagOf(TypeNodes(left)[a]) == TagOf(TypeNodes(right)[b]) && TypeNodes(left)[a].childCount == TypeNodes(right)[b].childCount
  }

  ghost function ChildPairs(left: TypeArena, right: TypeArena, a: nat, b: nat): seq<(nat, nat)>
    requires WellFormedType(left) && WellFormedType(right)
    requires a < |TypeNodes(left)| && b < |TypeNodes(right)| && SameNode(left, right, a, b)
  {
    Pairs(Kids(ShapeOf(left), a), Kids(ShapeOf(right), b))
  }

  lemma NodeShows(t: TypeArena, a: nat)
    requires WellFormedType(t) && a < |TypeNodes(t)|
    ensures TypeAt(t, a).tag == TagOf(TypeNodes(t)[a]) && a < |ShapeOf(t).spans| && SpanInRange(ShapeOf(t), a)
    ensures |TypeAt(t, a).kids| == |Kids(ShapeOf(t), a)| == TypeNodes(t)[a].childCount
    ensures forall k :: 0 <= k < |Kids(ShapeOf(t), a)| ==>
              Kids(ShapeOf(t), a)[k] < |TypeNodes(t)| && TypeAt(t, a).kids[k] == TypeAt(t, Kids(ShapeOf(t), a)[k])
  {
    forall k | 0 <= k < |Kids(ShapeOf(t), a)|
      ensures Kids(ShapeOf(t), a)[k] < |TypeNodes(t)| && TypeAt(t, a).kids[k] == TypeAt(t, Kids(ShapeOf(t), a)[k])
    {
      assert InSpan(ShapeOf(t).spans[a], ShapeOf(t).spans[a].first + k);
    }
  }

  /** Two nodes denote equal trees exactly when they look the same and their children pair up. */
  lemma EqualByNode(left: TypeArena, right: TypeArena, a: nat, b: nat)
    requires WellFormedType(left) && WellFormedType(right)
    requires a < |TypeNodes(left)| && b < |TypeNodes(right)|
    ensures TypeAt(left, a) == TypeAt(right, b) <==>
            SameNode(left, right, a, b) && AllEqual(left, right, ChildPairs(left, right, a, b))
  {
    hide WellFormedType, TypeAt, ShapeOf, Kids, TypeNodes, TagOf, SpanInRange;
    NodeShows(left, a);
    NodeShows(right, b);
    var l, r := TypeAt(left, a), TypeAt(right, b);
    if SameNode(left, right, a, b) && AllEqual(left, right, ChildPairs(left, right, a, b)) {
      forall k | 0 <= k < |l.kids| ensures l.kids[k] == r.kids[k] {
        assert ChildPairs(left, right, a, b)[k] == (Kids(ShapeOf(left), a)[k], Kids(ShapeOf(right), b)[k]);
      }
    }
  }

  lemma AllEqualAppend(left: TypeArena, right: TypeArena, xs: seq<(nat, nat)>, ys: seq<(nat, nat)>)
    requires WellFormedType(left) && WellFormedType(right)
    ensures AllEqual(left, right, xs + ys) <==> AllEqual(left, right, xs) && AllEqual(left, right, ys)
  {
    assert forall k :: 0 <= k < |xs| ==> (xs + ys)[k] == xs[k];
    assert forall k :: 0 <= k < |ys| ==> (xs + ys)[|xs| + k] == ys[k];
  }

  lemma ChildPairsSides(left: TypeArena, right: TypeArena, a: nat, b: nat)
    requires WellFormedType(left) && WellFormedType(right)
    requires a < |TypeNodes(left)| && b < |TypeNodes(right)| && SameNode(left, right, a, b)
    ensures Lefts(ChildPairs(left, right, a, b)) == Kids(ShapeOf(left), a)
    ensures Rights(ChildPairs(left, right, a, b)) == Kids(ShapeOf(right), b)
  {
  }

  lemma PairStep(left: TypeArena, right: TypeArena, seenL: set<nat>, seenR: set<nat>, rest: seq<(nat, nat)>, a: nat, b: nat)
    requires PairInv(left, right, seenL, seenR, rest + [(a, b)])
    ensures a < |TypeNodes(left)| && b < |TypeNodes(right)|
    ensures !SameNode(left, right, a, b) ==> TypeOf(left) != TypeOf(right)
    ensures SameNode(left, right, a, b) ==>
              PairInv(left, right, seenL + {a}, seenR + {b}, rest + ChildPairs(left, right, a, b))
  {
    hide WellFormedType, Frontier, TypeAt, TypeOf, SameNode, ShapeOf, AllEqual, ChildPairs, Kids, Lefts, Rights;
    SidesJoin(rest, [(a, b)]);
    SideStep(ShapeOf(left), left.rootIndex, seenL, Lefts(rest), a);
    SideStep(ShapeOf(right), right.rootIndex, seenR, Rights(rest), b);
    InNodes(left, right, a, b);
    EqualByNode(left, right, a, b);
    AllEqualAppend(left, right, rest, [(a, b)]);
    OneEqual(left, right, a, b);
    if SameNode(left, right, a, b) {
      var kids := ChildPairs(left, right, a, b);
      AllEqualAppend(left, right, rest, kids);
      ChildPairsSides(left, right, a, b);
      SidesJoin(rest, kids);
    }
  }

  lemma SidesJoin(x: seq<(nat, nat)>, y: seq<(nat, nat)>)
    ensures Lefts(x + y) == Lefts(x) + Lefts(y) && Rights(x + y) == Rights(x) + Rights(y)
    ensures |y| == 1 ==> Lefts(y) == [y[0].0] && Rights(y) == [y[0].1]
  {
  }

  lemma InNodes(left: TypeArena, right: TypeArena, a: nat, b: nat)
    requires a < |ShapeOf(left).spans| && b < |ShapeOf(right).spans|
    ensures a < |TypeNodes(left)| && b < |TypeNodes(right)|
  {
  }

  lemma OneEqual(left: TypeArena, right: TypeArena, a: nat, b: nat)
    requires WellFormedType(left) && WellFormedType(right) && a < |TypeNodes(left)| && b < |TypeNodes(right)|
    ensures AllEqual(left, right, [(a, b)]) <==> TypeAt(left, a) == TypeAt(right, b)
  {
    hide WellFormedType, TypeAt, TypeNodes;
    assert [(a, b)][0] == (a, b);
  }

  lemma PairStart(left: TypeArena, right: TypeArena)
    requires WellFormedType(left) && WellFormedType(right)
    ensures PairInv(left, right, {}, {}, [(left.rootIndex, right.rootIndex)])
  {
    var pairs := [(left.rootIndex, right.rootIndex)];
    assert Lefts(pairs) == [left.rootIndex] && Rights(pairs) == [right.rootIndex];
    assert pairs[0] == (left.rootIndex, right.rootIndex);
  }

  lemma PairEnd(left: TypeArena, right: TypeArena, seenL: set<nat>, seenR: set<nat>)
    requires PairInv(left, right, seenL, seenR, [])
    ensures TypeOf(left) == TypeOf(right)
  {
  }

  /** The child pairs, as the edge tables hold them. */
  lemma ChildPairsAt(left: TypeArena, right: TypeArena, a: nat, b: nat)
    requires WellFormedType(left) && WellFormedType(right)
    requires a < |TypeNodes(left)| && b < |TypeNodes(right)| && SameNode(left, right, a, b)
    ensures var n, m, kids := TypeNodes(left)[a], TypeNodes(right)[b], ChildPairs(left, right, a, b);
            && |kids| == n.childCount == m.childCount
            && n.firstChild + n.childCount <= |left.childIndexes| && m.firstChild + m.childCount <= |right.childIndexes|
            && forall k :: 0 <= k < |kids| ==> kids[k] == (left.childIndexes[n.firstChild + k], right.childIndexes[m.firstChild + k])
  {
    assert SpanInRange(ShapeOf(left), a) && SpanInRange(ShapeOf(right), b);
  }

  /** src/type.cpp:477-491: push the children of both nodes, first child first. */
  method PushPairs(stack: array<(nat, nat)>, size: nat, left: TypeArena, right: TypeArena, a: nat, b: nat)
    returns (ok: bool, size': nat)
    requires WellFormedType(left) && WellFormedType(right)
    requires a < |TypeNodes(left)| && b < |TypeNodes(right)| && SameNode(left, right, a, b)
    requires size <= stack.Length
    modifies stack
    ensures ok <==> size + TypeNodes(left)[a].childCount <= stack.Length
    ensures ok ==> size' == size + TypeNodes(left)[a].childCount && stack[..size'] == old(stack[..size]) + ChildPairs(left, right, a, b)
  {
    hide WellFormedType, SameNode, ChildPairs, TypeNodes;
    var n, m := TypeNodes(left)[a], TypeNodes(right)[b];
    ghost var kids := ChildPairs(left, right, a, b);
    ChildPairsAt(left, right, a, b);
    size' := size;
    for offset := 0 to n.childCount
      invariant size' == size + offset <= stack.Length
      invariant stack[..size'] == old(stack[..size]) + kids[..offset]
    {
      if size' >= stack.Length {
        return false, size';
      }
      stack[size'] := (left.childIndexes[n.firstChild + offset], right.childIndexes[m.firstChild + offset]);
      size' := size' + 1;
      assert kids[..offset + 1] == kids[..offset] + [kids[offset]];
      assert stack[..size'] == stack[..size' - 1] + [stack[size' - 1]];
    }
    assert kids[..n.childCount] == kids;
    ok := true;
  }

  method StructuralTypeEqual(left: TypeArena, right: TypeArena) returns (r: EqualityResult)
    ensures r.Decided? <==> Accepted(left) && Accepted(right)
    ensures r.Decided? ==> (r.equal <==> TypeOf(left) == TypeOf(right))
    ensures r.InvalidOperand? ==>
              || (r.verdict.Invalid? && !(WellFormedType(left) && WellFormedType(right)))
              || (r.verdict == SizeOverflow && (|left.childIndexes| == SIZE_MAX || |right.childIndexes| == SIZE_MAX))
    ensures r != StackOverflow
  {
    var v := ValidateType(left);
    if v != Valid {
      if v.Invalid? { ViolationRefutes(left, v.reason, v.node, v.edge); }
      return InvalidOperand(v);
    }
    v := ValidateType(right);
    if v != Valid {
      if v.Invalid? { ViolationRefutes(right, v.reason, v.node, v.edge); }
      return InvalidOperand(v);
    }
    r := ComparePairs(left, right);
  }

  method ComparePairs(left: TypeArena, right: TypeArena) returns (r: EqualityResult)
    requires WellFormedType(left) && WellFormedType(right)
    ensures r.Decided? && (r.equal <==> TypeOf(left) == TypeOf(right))
  {
    var ln, rn := TypeNodes(left), TypeNodes(right);
    var stack := new (nat, nat)[if |ln| < |rn| then |ln| else |rn|];
    stack[0] := (left.rootIndex, right.rootIndex);
    var size: nat := 1;
    assert stack[..1] == [(left.rootIndex, right.rootIndex)];
    PairStart(left, right);
    ghost var seenL: set<nat>, seenR: set<nat> := {}, {};
    hide WellFormedType, PairInv, TypeOf;
    while size != 0
      invariant size <= stack.Length
      invariant PairInv(left, right, seenL, seenR, stack[..size])
      invariant |seenL| <= |ln|
      decreases |ln| - |seenL|
    {
      var same;
      same, size, seenL, seenR := ComparePair(left, right, stack, size, seenL, seenR);
      if !same {
        return Decided(false);
      }
    }
    assert stack[..0] == [];
    PairEnd(left, right, seenL, seenR);
    return Decided(true);
  }

  /** src/type.cpp:461-492: one iteration. */
  method ComparePair(left: TypeArena, right: TypeArena, stack: array<(nat, nat)>, size: nat, ghost seenL: set<nat>, ghost seenR: set<nat>)
    returns (same: bool, size': nat, ghost seenL': set<nat>, ghost seenR': set<nat>)
    requires WellFormedType(left) && WellFormedType(right)
    requires 0 < size <= stack.Length == (if |TypeNodes(left)| < |TypeNodes(right)| then |TypeNodes(left)| else |TypeNodes(right)|)
    requires PairInv(left, right, seenL, seenR, stack[..size])
    modifies stack
    ensures !same ==> TypeOf(left) != TypeOf(right)
    ensures same ==>
              && size' <= stack.Length && PairInv(left, right, seenL', seenR', stack[..size'])
              && |seenL| < |seenL'| <= |TypeNodes(left)|
  {
    hide WellFormedType, PairInv, TypeOf, ChildPairs;
    var ln, rn := TypeNodes(left), TypeNodes(right);
    size', seenL', seenR' := size - 1, seenL, seenR;
    var (a, b) := stack[size'];
    ghost var rest := stack[..size'];
    assert stack[..size] == rest + [(a, b)];
    PairStep(left, right, seenL, seenR, rest, a, b);
    PairNew(left, right, seenL, seenR, rest, a, b);
    if ln[a].kind != rn[b].kind {
      return false, size', seenL', seenR';
    }
    if (ln[a].kind == ScalarKind || ln[a].kind == VectorKind) && ln[a].scalar != rn[b].scalar {
      return false, size', seenL', seenR';
    }
    if ln[a].kind != TupleKind {
      LeafPair(left, right, a, b);
      assert rest + [] == rest;
      return true, size', seenL + {a}, seenR + {b};
    }
    if ln[a].childCount != rn[b].childCount {
      return false, size', seenL', seenR';
    }
    seenL', seenR' := seenL + {a}, seenR + {b};
    PairsFit(left, right, seenL', seenR', rest + ChildPairs(left, right, a, b));
    var ok;
    ChildPairsAt(left, right, a, b);
    ok, size' := PushPairs(stack, size', left, right, a, b);
    if !ok {
      assert false; // min(left nodes, right nodes) entries suffice
    }
    same := true;
  }

  lemma PairNew(left: TypeArena, right: TypeArena, seenL: set<nat>, seenR: set<nat>, rest: seq<(nat, nat)>, a: nat, b: nat)
    requires PairInv(left, right, seenL, seenR, rest + [(a, b)])
    ensures a !in seenL && b !in seenR && |seenL| < |TypeNodes(left)|
    ensures a < |TypeNodes(left)| && b < |TypeNodes(right)|
    ensures FieldsOk(TypeNodes(left)[a]) && FieldsOk(TypeNodes(right)[b])
  {
    hide Frontier;
    PairsFit(left, right, seenL, seenR, rest + [(a, b)]);
    assert Lefts(rest + [(a, b)]) == Lefts(rest) + [a] && Rights(rest + [(a, b)]) == Rights(rest) + [b];
    SideStep(ShapeOf(left), left.rootIndex, seenL, Lefts(rest), a);
    SideStep(ShapeOf(right), right.rootIndex, seenR, Rights(rest), b);
  }

  lemma LeafPair(left: TypeArena, right: TypeArena, a: nat, b: nat)
    requires WellFormedType(left) && WellFormedType(right)
    requires a < |TypeNodes(left)| && b < |TypeNodes(right)|
    requires TypeNodes(left)[a].kind == TypeNodes(right)[b].kind != TupleKind
    requires TypeNodes(left)[a].scalar == TypeNodes(right)[b].scalar
    ensures SameNode(left, right, a, b) && ChildPairs(left, right, a, b) == []
  {
    assert FieldsOk(TypeNodes(left)[a]) && FieldsOk(TypeNodes(right)[b]);
  }
}
