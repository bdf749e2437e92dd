/**
 The order in which a parent-link walk leaves the nodes of an arena.

 The walk keeps one cursor per node, the number of children it has not entered yet, and enters the
 last of them.  `RevPost` is the recursive order, `Up` the part of it still ahead of the walk, and
 `AtNode` the invariant that ties both to the cursors.
 */
module ArenaWalk {
  import opened Arena

  /** Subtree of `i`: the last child's subtree first, the node itself after all its descendants. */
  ghost function RevPost(s: Shape, i: nat): seq<nat>
    requires Postorder(s) && i < |s.spans|
    decreases i, s.spans[i].count + 1
  {
    RevKids(s, i, s.spans[i].count) + [i]
  }

  /** The subtrees of the first `c` children, last one first. */
  ghost function RevKids(s: Shape, i: nat, c: nat): seq<nat>
    requires Postorder(s) && i < |s.spans| && c <= s.spans[i].count
    decreases i, c
  {
    if c == 0 then []
    else
      assert InSpan(s.spans[i], s.spans[i].first + c - 1);
      RevPost(s, s.edges[s.spans[i].first + c - 1]) + RevKids(s, i, c - 1)
  }

  /** `a` is `j` or one of its ancestors. */
  ghost predicate Above(s: Shape, a: nat, j: nat)
    requires WellFormed(s) && j <= Root(s)
    decreases Root(s) - j
  {
    a == j || (j < Root(s) && Above(s, a, Parent(s, j)))
  }

  lemma {:induction false} AboveIsLarger(s: Shape, a: nat, j: nat)
    requires WellFormed(s) && j <= Root(s) && Above(s, a, j)
    ensures j <= a <= Root(s)
    decreases Root(s) - j
  {
    if a != j { AboveIsLarger(s, a, Parent(s, j)); }
  }

  lemma {:induction false} RootAbove(s: Shape, j: nat)
    requires WellFormed(s) && j <= Root(s)
    ensures Above(s, Root(s), j)
    decreases Root(s) - j
  {
    if j < Root(s) { RootAbove(s, Parent(s, j)); }
  }

  /** The ancestors of a node form a chain. */
  lemma {:induction false} AboveChain(s: Shape, a: nat, b: nat, j: nat)
    requires WellFormed(s) && j <= Root(s) && Above(s, a, j) && Above(s, b, j) && a <= b
    ensures a <= Root(s) && Above(s, b, a)
    decreases Root(s) - j
  {
    if a == j {
    } else if b == j {
      AboveIsLarger(s, a, j);
    } else {
      AboveChain(s, a, b, Parent(s, j));
    }
  }

  lemma {:induction false} AboveTransitive(s: Shape, a: nat, b: nat, j: nat)
    requires WellFormed(s) && j <= Root(s) && b <= Root(s) && Above(s, b, j) && Above(s, a, b)
    ensures Above(s, a, j)
    decreases Root(s) - j
  {
    if b != j { AboveTransitive(s, a, b, Parent(s, j)); }
  }

  ghost function Kid(s: Shape, i: nat, k: nat): (j: nat)
    requires Postorder(s) && i < |s.spans| && k < s.spans[i].count
    ensures j < i
  {
    assert InSpan(s.spans[i], s.spans[i].first + k);
    s.edges[s.spans[i].first + k]
  }

  lemma KidParent(s: Shape, i: nat, k: nat)
    requires WellFormed(s) && i < |s.spans| && k < s.spans[i].count
    ensures Kid(s, i, k) < Root(s) && Parent(s, Kid(s, i, k)) == i
  {
    ParentUnique(s, i, s.spans[i].first + k);
  }

  lemma ParentKid(s: Shape, j: nat) returns (k: nat)
    requires WellFormed(s) && j < Root(s)
    ensures k < s.spans[Parent(s, j)].count && Kid(s, Parent(s, j), k) == j
  {
    var p := Parent(s, j);
    var e :| InSpan(s.spans[p], e) && s.edges[e] == j;
    k := e - s.spans[p].first;
  }

  /** The subtree order lists exactly the nodes below `i`. */
  lemma {:induction false} RevPostMembers(s: Shape, i: nat, j: nat)
    requires WellFormed(s) && i <= Root(s)
    ensures j in RevPost(s, i) <==> j <= Root(s) && Above(s, i, j)
    decreases i, s.spans[i].count + 1
  {
    RevKidsMembers(s, i, s.spans[i].count, j);
    if j <= Root(s) && Above(s, i, j) && j != i {
      var c := BelowAChild(s, i, j);
    }
  }

  lemma {:induction false} RevKidsMembers(s: Shape, i: nat, c: nat, j: nat)
    requires WellFormed(s) && i <= Root(s) && c <= s.spans[i].count
    ensures j in RevKids(s, i, c) <==> exists k: nat :: k < c && j in RevPost(s, Kid(s, i, k))
    ensures j in RevKids(s, i, c) ==> j <= Root(s) && Above(s, i, j)
    ensures forall k: nat :: k < c && j <= Root(s) && Above(s, Kid(s, i, k), j) ==> j in RevKids(s, i, c)
    decreases i, c
  {
    hide *;
    UnfoldRevKids(s, i, c);
    if c > 0 {
      RevKidsMembers(s, i, c - 1, j);
      var kid := Kid(s, i, c - 1);
      KidParent(s, i, c - 1);
      AboveChild(s, i, kid);
      RevPostMembers(s, kid, j);
      if j in RevPost(s, kid) {
        AboveTransitive(s, i, kid, j);
      }
    }
  }

  lemma UnfoldRevKids(s: Shape, i: nat, c: nat)
    requires WellFormed(s) && i <= Root(s) && c <= s.spans[i].count
    ensures Postorder(s) && i < |s.spans| && SpanInRange(s, i) && RevKids(s, i, 0) == []
    ensures c > 0 ==> Kid(s, i, c - 1) < |s.spans| && RevKids(s, i, c) == RevPost(s, Kid(s, i, c - 1)) + RevKids(s, i, c - 1)
  {
    hide RevPost;
    if c > 0 { KidParent(s, i, c - 1); }
  }

  lemma AboveChild(s: Shape, i: nat, kid: nat)
    requires WellFormed(s) && i <= Root(s) && kid < Root(s) && Parent(s, kid) == i
    ensures Above(s, i, kid)
  {
    assert Above(s, i, i);
  }

  lemma {:induction false} BelowAChild(s: Shape, i: nat, j: nat) returns (k: nat)
    requires WellFormed(s) && i <= Root(s) && j <= Root(s) && Above(s, i, j) && j != i
    ensures k < s.spans[i].count && Above(s, Kid(s, i, k), j)
    decreases Root(s) - j
  {
    if Parent(s, j) == i {
      k := ParentKid(s, j);
    } else {
      k := BelowAChild(s, i, Parent(s, j));
    }
  }

  lemma DisjointKids(s: Shape, i: nat, a: nat, b: nat, j: nat)
    requires WellFormed(s) && i <= Root(s) && a < b < s.spans[i].count
    requires j in RevPost(s, Kid(s, i, a))
    ensures j !in RevPost(s, Kid(s, i, b))
  {
    var x, y := Kid(s, i, a), Kid(s, i, b);
    KidParent(s, i, a);
    KidParent(s, i, b);
    RevPostMembers(s, x, j);
    RevPostMembers(s, y, j);
    assert x != y;
    if j in RevPost(s, y) {
      if x < y {
        AboveChain(s, x, y, j);
        AboveIsLarger(s, y, i);
      } else {
        AboveChain(s, y, x, j);
        AboveIsLarger(s, x, i);
      }
    }
  }

  /** No node is listed twice. */
  lemma {:induction false} RevPostDistinct(s: Shape, i: nat)
    requires WellFormed(s) && i <= Root(s)
    ensures Distinct(RevPost(s, i))
    decreases i, s.spans[i].count + 1
  {
    var c := s.spans[i].count;
    RevKidsDistinct(s, i, c);
    forall j | j in RevKids(s, i, c) ensures j != i {
      RevKidsMembers(s, i, c, j);
      var k: nat :| k < c && j in RevPost(s, Kid(s, i, k));
      KidParent(s, i, k);
      RevPostMembers(s, Kid(s, i, k), j);
      AboveIsLarger(s, Kid(s, i, k), j);
    }
    DistinctAppend(RevKids(s, i, c), [i]);
  }

  lemma DistinctEmpty()
    ensures Distinct<nat>([])
  {
  }

  lemma {:induction false} RevKidsDistinct(s: Shape, i: nat, c: nat)
    requires WellFormed(s) && i <= Root(s) && c <= s.spans[i].count
    ensures Distinct(RevKids(s, i, c))
    decreases i, c
  {
    hide *;
    UnfoldRevKids(s, i, c);
    DistinctEmpty();
    if c > 0 {
      var kid, rest := Kid(s, i, c - 1), RevKids(s, i, c - 1);
      RevKidsDistinct(s, i, c - 1);
      KidParent(s, i, c - 1);
      RevPostDistinct(s, kid);
      forall j | j in rest ensures j !in RevPost(s, kid) {
        RevKidsMembers(s, i, c - 1, j);
        var k: nat :| k < c - 1 && j in RevPost(s, Kid(s, i, k));
        DisjointKids(s, i, k, c - 1, j);
      }
      DistinctAppend(RevPost(s, kid), rest);
    }
  }

  lemma DistinctAppend<T>(xs: seq<T>, ys: seq<T>)
    requires Distinct(xs) && Distinct(ys) && forall y :: y in ys ==> y !in xs
    ensures Distinct(xs + ys)
  {
    var zs := xs + ys;
    forall a, b | 0 <= a < b < |zs| ensures zs[a] != zs[b] {
      if a < |xs| <= b {
        assert zs[a] in xs && zs[b] in ys;
      } else if a >= |xs| {
        assert ys[a - |xs|] != ys[b - |xs|];
      }
    }
  }

  /** The whole walk lists every node of the arena exactly once. */
  lemma WholeWalk(s: Shape)
    requires WellFormed(s)
    ensures Distinct(RevPost(s, Root(s)))
    ensures forall j: nat :: j in RevPost(s, Root(s)) <==> j < |s.spans|
    ensures |RevPost(s, Root(s))| == |s.spans|
  {
    var order := RevPost(s, Root(s));
    RevPostDistinct(s, Root(s));
    forall j: nat ensures j in order <==> j < |s.spans| {
      RevPostMembers(s, Root(s), j);
      if j < |s.spans| { RootAbove(s, j); }
    }
    DistinctCard(order);
    assert Elems(order) == Below(|s.spans|);
  }

  /** A node is left only after everything below it. */
  lemma {:induction false} DescendantsFirst(s: Shape, r: nat, i: nat, j: nat) returns (a: nat, b: nat)
    requires WellFormed(s) && r <= Root(s) && i <= Root(s) && j <= Root(s)
    requires Above(s, r, i) && Above(s, i, j) && i != j
    ensures a < b < |RevPost(s, r)| && RevPost(s, r)[a] == j && RevPost(s, r)[b] == i
    decreases r, s.spans[r].count + 1
  {
    var c := s.spans[r].count;
    var kids := RevKids(s, r, c);
    if i == r {
      var k := BelowAChild(s, r, j);
      RevKidsMembers(s, r, c, j);
      a, b := (var x: nat :| x < |kids| && kids[x] == j; x), |kids|;
    } else {
      var k := BelowAChild(s, r, i);
      a, b := DescendantsFirstInKids(s, r, c, k, i, j);
    }
  }

  lemma {:induction false} DescendantsFirstInKids(s: Shape, r: nat, c: nat, k: nat, i: nat, j: nat) returns (a: nat, b: nat)
    requires WellFormed(s) && r <= Root(s) && i <= Root(s) && j <= Root(s)
    requires k < c <= s.spans[r].count && Above(s, Kid(s, r, k), i) && Above(s, i, j) && i != j
    ensures a < b < |RevKids(s, r, c)| && RevKids(s, r, c)[a] == j && RevKids(s, r, c)[b] == i
    decreases r, c
  {
    hide *;
    UnfoldRevKids(s, r, c);
    var first := RevPost(s, Kid(s, r, c - 1));
    if k == c - 1 {
      a, b := DescendantsFirst(s, Kid(s, r, k), i, j);
    } else {
      var x, y := DescendantsFirstInKids(s, r, c - 1, k, i, j);
      a, b := |first| + x, |first| + y;
    }
  }

  lemma Regroup(a: seq<nat>, b: seq<nat>, c: seq<nat>)
    ensures (a + b) + c == a + (b + c)
  {
  }

  /** The subtree of a child is one block of the list. */
  lemma {:induction false} KidBlock(s: Shape, i: nat, c: nat, k: nat) returns (before: seq<nat>, after: seq<nat>)
    requires WellFormed(s) && i <= Root(s) && k < c <= s.spans[i].count
    ensures RevKids(s, i, c) == before + (RevPost(s, Kid(s, i, k)) + after)
    decreases c
  {
    hide *;
    UnfoldRevKids(s, i, c);
    var first := RevPost(s, Kid(s, i, c - 1));
    if k == c - 1 {
      before, after := [], RevKids(s, i, c - 1);
    } else {
      before, after := KidBlock(s, i, c - 1, k);
      Regroup(first, before, RevPost(s, Kid(s, i, k)) + after);
      before := first + before;
    }
  }

  /** Of two children of a node, the block of the later one comes first. */
  lemma {:induction false} KidBlocks(s: Shape, i: nat, c: nat, j: nat, k: nat) returns (before: seq<nat>, between: seq<nat>, after: seq<nat>)
    requires WellFormed(s) && i <= Root(s) && j < k < c <= s.spans[i].count
    ensures RevKids(s, i, c) == before + (RevPost(s, Kid(s, i, k)) + (between + (RevPost(s, Kid(s, i, j)) + after)))
    decreases c
  {
    hide *;
    UnfoldRevKids(s, i, c);
    var first := RevPost(s, Kid(s, i, c - 1));
    if k == c - 1 {
      before := [];
      between, after := KidBlock(s, i, c - 1, j);
    } else {
      before, between, after := KidBlocks(s, i, c - 1, j, k);
      Regroup(first, before, RevPost(s, Kid(s, i, k)) + (between + (RevPost(s, Kid(s, i, j)) + after)));
      before := first + before;
    }
  }

  /** The subtree of any node is one block of the whole walk. */
  lemma {:induction false} Block(s: Shape, i: nat) returns (before: seq<nat>, after: seq<nat>)
    requires WellFormed(s) && i <= Root(s)
    ensures RevPost(s, Root(s)) == before + (RevPost(s, i) + after)
    decreases Root(s) - i
  {
    if i == Root(s) {
      before, after := [], [];
      assert RevPost(s, i) + [] == RevPost(s, i);
    } else {
      var p := Parent(s, i);
      var k := ParentKid(s, i);
      var c := s.spans[p].count;
      before, after := Block(s, p);
      var kb, ka := KidBlock(s, p, c, k);
      assert RevPost(s, p) == RevKids(s, p, c) + [p];
      var x := RevPost(s, i);
      hide *;
      Regroup(kb, x + ka, [p]);
      Regroup(x, ka, [p]);
      Regroup(kb, x + (ka + [p]), after);
      Regroup(x, ka + [p], after);
      Regroup(before, kb, x + ((ka + [p]) + after));
      before, after := before + kb, (ka + [p]) + after;
    }
  }

  /** In the whole walk the subtree of a later child is one block, and it comes before the block of an earlier child. */
  lemma LaterChildFirst(s: Shape, i: nat, j: nat, k: nat) returns (before: seq<nat>, between: seq<nat>, after: seq<nat>)
    requires WellFormed(s) && i <= Root(s) && j < k < s.spans[i].count
    ensures RevPost(s, Root(s)) == before + (RevPost(s, Kid(s, i, k)) + (between + (RevPost(s, Kid(s, i, j)) + after)))
    ensures forall x :: x in RevPost(s, Kid(s, i, k)) <==> 0 <= x <= Root(s) && Above(s, Kid(s, i, k), x)
    ensures forall x :: x in RevPost(s, Kid(s, i, j)) <==> 0 <= x <= Root(s) && Above(s, Kid(s, i, j), x)
  {
    var c := s.spans[i].count;
    var outer, rest := Block(s, i);
    before, between, after := KidBlocks(s, i, c, j, k);
    assert RevPost(s, i) == RevKids(s, i, c) + [i];
    var x, y := RevPost(s, Kid(s, i, k)), RevPost(s, Kid(s, i, j));
    KidParent(s, i, j);
    KidParent(s, i, k);
    hide *;
    forall z: nat { RevPostMembers(s, Kid(s, i, k), z); }
    forall z: nat { RevPostMembers(s, Kid(s, i, j), z); }
    var tail := [i] + rest;
    Regroup(before + (x + (between + (y + after))), [i], rest);
    Regroup(before, x + (between + (y + after)), tail);
    Regroup(x, between + (y + after), tail);
    Regroup(between, y + after, tail);
    Regroup(y, after, tail);
    Regroup(outer, before, x + (between + (y + (after + tail))));
    before, after := outer + before, after + tail;
  }

  // ---------------------------------------------------------------- the walk state

  ghost predicate CursorsOk(s: Shape, cursors: seq<nat>) {
    && |cursors| == |s.spans|
    && forall i :: 0 <= i < |cursors| ==> cursors[i] <= s.spans[i].count
  }

  /** What is still to be left, from a node upwards: its unentered children, itself, then its parent's rest. */
  ghost function Up(s: Shape, cursors: seq<nat>, i: nat): seq<nat>
    requires WellFormed(s) && CursorsOk(s, cursors) && i <= Root(s)
    decreases Root(s) - i
  {
    RevKids(s, i, cursors[i]) + [i] + (if i == Root(s) then [] else Up(s, cursors, Parent(s, i)))
  }

  ghost predicate AtNode(s: Shape, cursors: seq<nat>, cur: nat, done: seq<nat>) {
    && WellFormed(s) && CursorsOk(s, cursors) && cur <= Root(s)
    && done + Up(s, cursors, cur) == RevPost(s, Root(s))
    && forall j: nat :: j <= Root(s) && j !in done && !Above(s, j, cur) ==> cursors[j] == s.spans[j].count
  }

  lemma {:induction false} UpFrame(s: Shape, cursors: seq<nat>, cursors': seq<nat>, i: nat)
    requires WellFormed(s) && CursorsOk(s, cursors) && CursorsOk(s, cursors') && i <= Root(s)
    requires forall j :: i <= j <= Root(s) ==> cursors'[j] == cursors[j]
    ensures Up(s, cursors', i) == Up(s, cursors, i)
    decreases Root(s) - i
  {
    if i < Root(s) { UpFrame(s, cursors, cursors', Parent(s, i)); }
  }

  ghost function FullCursors(s: Shape): (c: seq<nat>)
    ensures |c| == |s.spans| && forall i :: 0 <= i < |c| ==> c[i] == s.spans[i].count
  {
    seq(|s.spans|, i requires 0 <= i < |s.spans| => s.spans[i].count)
  }

  lemma WalkStart(s: Shape)
    requires WellFormed(s)
    ensures AtNode(s, FullCursors(s), Root(s), [])
  {
    assert [] + Up(s, FullCursors(s), Root(s)) == RevPost(s, Root(s));
  }

  /** The node the walk stands at has not been left yet, nor has any child it can still enter. */
  lemma NotDone(s: Shape, cursors: seq<nat>, cur: nat, done: seq<nat>, j: nat)
    requires AtNode(s, cursors, cur, done) && j in Up(s, cursors, cur)
    ensures j !in done
  {
    RevPostDistinct(s, Root(s));
    var whole := done + Up(s, cursors, cur);
    var b :| 0 <= b < |Up(s, cursors, cur)| && Up(s, cursors, cur)[b] == j;
    forall a | 0 <= a < |done|
      ensures done[a] != j
    {
      assert whole[a] != whole[|done| + b];
    }
  }

  lemma LoweredCursor(s: Shape, cursors: seq<nat>, cur: nat)
    requires WellFormed(s) && CursorsOk(s, cursors) && cur <= Root(s) && cursors[cur] > 0
    ensures Postorder(s) && cur < |s.spans| == |cursors| == Root(s) + 1 && cursors[cur] <= s.spans[cur].count && SpanInRange(s, cur)
    ensures CursorsOk(s, cursors[cur := cursors[cur] - 1]) && Kid(s, cur, cursors[cur] - 1) < cur
    ensures cursors[Kid(s, cur, cursors[cur] - 1)] == cursors[cur := cursors[cur] - 1][Kid(s, cur, cursors[cur] - 1)]
  {
  }

  /** Entering the last unentered child changes nothing about what is still to be left. */
  lemma DescendUp(s: Shape, cursors: seq<nat>, cur: nat)
    requires WellFormed(s) && CursorsOk(s, cursors) && cur <= Root(s) && cursors[cur] > 0
    requires cursors[Kid(s, cur, cursors[cur] - 1)] == s.spans[Kid(s, cur, cursors[cur] - 1)].count
    ensures var kid := Kid(s, cur, cursors[cur] - 1);
            var cursors' := cursors[cur := cursors[cur] - 1];
            kid < Root(s) && CursorsOk(s, cursors') && Up(s, cursors', kid) == Up(s, cursors, cur)
  {
    hide *;
    LoweredCursor(s, cursors, cur);
    var c := cursors[cur] - 1;
    var kid, cursors' := Kid(s, cur, c), cursors[cur := c];
    KidParent(s, cur, c);
    assert cursors'[kid] == cursors[kid];
    UpOfFreshKid(s, cursors', kid);
    UnfoldRevKids(s, cur, c + 1);
    UpUnfold(s, cursors, cur);
    UpUnfold(s, cursors', cur);
    SameTail(s, cursors, cursors', cur);
    Glue(Up(s, cursors, cur), Up(s, cursors', cur), Up(s, cursors', kid), RevPost(s, kid),
         RevKids(s, cur, c), RevKids(s, cur, c + 1), cur, UpFromParent(s, cursors, cur));
  }

  lemma SameTail(s: Shape, cursors: seq<nat>, cursors': seq<nat>, cur: nat)
    requires WellFormed(s) && CursorsOk(s, cursors) && CursorsOk(s, cursors') && cur <= Root(s)
    requires forall j :: cur < j <= Root(s) ==> cursors'[j] == cursors[j]
    ensures UpFromParent(s, cursors', cur) == UpFromParent(s, cursors, cur)
  {
    if cur < Root(s) { UpFrame(s, cursors, cursors', Parent(s, cur)); }
  }

  lemma UpOfFreshKid(s: Shape, cursors: seq<nat>, kid: nat)
    requires WellFormed(s) && CursorsOk(s, cursors) && kid < Root(s) && cursors[kid] == s.spans[kid].count
    ensures Up(s, cursors, kid) == RevPost(s, kid) + Up(s, cursors, Parent(s, kid))
  {
  }

  lemma Glue(up: seq<nat>, up': seq<nat>, upKid: seq<nat>, post: seq<nat>, kids: seq<nat>, kids': seq<nat>, cur: nat, tail: seq<nat>)
    requires upKid == post + up' && up' == kids + [cur] + tail
    requires up == kids' + [cur] + tail && kids' == post + kids
    ensures upKid == up
  {
  }

  lemma UpUnfold(s: Shape, cursors: seq<nat>, i: nat)
    requires WellFormed(s) && CursorsOk(s, cursors) && i <= Root(s)
    ensures Up(s, cursors, i) == RevKids(s, i, cursors[i]) + [i] + UpFromParent(s, cursors, i)
    ensures i < Root(s) ==> UpFromParent(s, cursors, i) == Up(s, cursors, Parent(s, i))
    ensures i == Root(s) ==> UpFromParent(s, cursors, i) == []
    ensures Postorder(s) && i < |s.spans| == |cursors| && cursors[i] <= s.spans[i].count
    ensures i < Root(s) ==> i < Parent(s, i) <= Root(s)
  {
    hide RevKids;
  }

  /** The part of `Up` that belongs to the proper ancestors. */
  ghost function UpFromParent(s: Shape, cursors: seq<nat>, i: nat): seq<nat>
    requires WellFormed(s) && CursorsOk(s, cursors) && i <= Root(s)
  {
    if i == Root(s) then [] else Up(s, cursors, Parent(s, i))
  }

  lemma UnenteredKid(s: Shape, cursors: seq<nat>, cur: nat, done: seq<nat>)
    requires AtNode(s, cursors, cur, done) && cursors[cur] > 0
    ensures var kid := Kid(s, cur, cursors[cur] - 1);
            kid < Root(s) && Parent(s, kid) == cur && cursors[kid] == s.spans[kid].count
  {
    var c := cursors[cur] - 1;
    var kid := Kid(s, cur, c);
    KidParent(s, cur, c);
    UnfoldRevKids(s, cur, c + 1);
    assert kid in RevPost(s, kid);
    hide RevKids, RevPost;
    NotDone(s, cursors, cur, done, kid);
    if Above(s, kid, cur) { AboveIsLarger(s, kid, cur); }
  }

  lemma Descend(s: Shape, cursors: seq<nat>, cur: nat, done: seq<nat>)
    requires AtNode(s, cursors, cur, done) && cursors[cur] > 0
    ensures var kid := Kid(s, cur, cursors[cur] - 1);
            && kid < Root(s) && Parent(s, kid) == cur && cursors[kid] == s.spans[kid].count
            && AtNode(s, cursors[cur := cursors[cur] - 1], kid, done)
            && |Up(s, cursors[cur := cursors[cur] - 1], kid)| == |Up(s, cursors, cur)|
  {
    var kid, cursors' := Kid(s, cur, cursors[cur] - 1), cursors[cur := cursors[cur] - 1];
    UnenteredKid(s, cursors, cur, done);
    DescendUp(s, cursors, cur);
    hide WellFormed, Up, RevPost;
    forall j: nat | j <= Root(s) && j !in done && !Above(s, j, kid) ensures cursors'[j] == s.spans[j].count {
      assert j != cur && !Above(s, j, cur) by { assert Above(s, cur, cur); }
    }
  }

  lemma Leave(s: Shape, cursors: seq<nat>, cur: nat, done: seq<nat>)
    requires AtNode(s, cursors, cur, done) && cursors[cur] == 0
    ensures cur !in done
    ensures cur == Root(s) ==> done + [cur] == RevPost(s, Root(s))
    ensures cur < Root(s) ==>
              && AtNode(s, cursors, Parent(s, cur), done + [cur])
              && |Up(s, cursors, Parent(s, cur))| == |Up(s, cursors, cur)| - 1
  {
    hide Up, RevPost, WellFormed, Above, Parent;
    LeaveUp(s, cursors, cur, done);
    NotDone(s, cursors, cur, done, cur);
    if cur < Root(s) {
      forall j: nat | j <= Root(s) && j !in done + [cur] && !Above(s, j, Parent(s, cur)) ensures cursors[j] == s.spans[j].count {
        assert j != cur && j !in done;
        AboveParent(s, j, cur);
      }
    }
  }

  /** What is still to be left once the walk has climbed. */
  lemma LeaveUp(s: Shape, cursors: seq<nat>, cur: nat, done: seq<nat>)
    requires WellFormed(s) && CursorsOk(s, cursors) && cur <= Root(s) && cursors[cur] == 0
    requires done + Up(s, cursors, cur) == RevPost(s, Root(s))
    ensures cur in Up(s, cursors, cur)
    ensures cur == Root(s) ==> done + [cur] == RevPost(s, Root(s))
    ensures cur < Root(s) ==>
              && Parent(s, cur) <= Root(s)
              && (done + [cur]) + Up(s, cursors, Parent(s, cur)) == RevPost(s, Root(s))
              && |Up(s, cursors, Parent(s, cur))| == |Up(s, cursors, cur)| - 1
  {
    hide *;
    UpUnfold(s, cursors, cur);
    UnfoldRevKids(s, cur, 0);
    var up := UpFromParent(s, cursors, cur);
    assert [] + [cur] + up == [cur] + up;
    assert Up(s, cursors, cur)[0] == cur;
    assert (done + [cur]) + up == done + ([cur] + up);
  }

  lemma AboveParent(s: Shape, j: nat, cur: nat)
    requires WellFormed(s) && cur < Root(s) && j <= Root(s) && j != cur && Parent(s, cur) <= Root(s) && !Above(s, j, Parent(s, cur))
    ensures !Above(s, j, cur)
  {
  }
}
