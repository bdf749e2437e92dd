/**
 The edge-claiming scan shared by the type validator and the tuple-value validator.

 Both walk an arbitrary, untrusted table from its root with an explicit stack and three flag
 tables: nodes visited, edges owned, parents counted.  `Tables` says what the flag tables mean,
 `StackInv` what the stack holds, and `ScanDecides` that at the end of the walk the flags decide
 well-formedness.
 */
module ArenaScan {
  import opened Arena

  datatype Fault =
    | NoFault
    | Overlap(edge: nat)
    | BadIndex(edge: nat)
    | NotPostorder(edge: nat)
    | Alias(child: nat, edge: nat)

  /** What each fault, reported while node `i` is scanned, says about the table. */
  ghost predicate FaultAt(s: Shape, i: nat, f: Fault)
    requires i < |s.spans|
  {
    match f
    case NoFault => false
    case Overlap(e) => InSpan(s.spans[i], e) && exists v :: 0 <= v < |s.spans| && v != i && InSpan(s.spans[v], e)
    case BadIndex(e) => InSpan(s.spans[i], e) && e < |s.edges| && s.edges[e] >= |s.spans|
    case NotPostorder(e) => InSpan(s.spans[i], e) && e < |s.edges| && i <= s.edges[e] < |s.spans|
    case Alias(c, e) => InSpan(s.spans[i], e) && e < |s.edges| && s.edges[e] == c &&
                        exists d :: 0 <= d < |s.edges| && d != e && s.edges[d] == c
  }

  lemma FaultRefutes(s: Shape, i: nat, f: Fault)
    requires i < |s.spans| && FaultAt(s, i, f)
    ensures !WellFormed(s)
  {
  }

  // ---------------------------------------------------------------- reachability

  ghost predicate HasEdge(s: Shape, i: nat, j: nat)
    requires i < |s.spans|
  {
    exists e :: InSpan(s.spans[i], e) && e < |s.edges| && s.edges[e] == j
  }

  ghost predicate Reachable(s: Shape, j: nat)
    decreases |s.spans| - j
  {
    j < |s.spans| &&
    (j == |s.spans| - 1 || exists i :: j < i < |s.spans| && HasEdge(s, i, j) && Reachable(s, i))
  }

  lemma {:induction false} AllReachable(s: Shape, j: nat)
    requires WellFormed(s) && j < |s.spans|
    ensures Reachable(s, j)
    decreases |s.spans| - j
  {
    if j < Root(s) {
      var p := Parent(s, j);
      AllReachable(s, p);
      assert HasEdge(s, p, j);
    }
  }

  // ---------------------------------------------------------------- the flag tables

  /** `owner[e]` is the visited node whose span holds the owned edge `e`. */
  ghost predicate OwnerTable(s: Shape, visited: seq<bool>, owned: seq<bool>, owner: seq<nat>) {
    && |visited| == |s.spans|
    && |owned| == |owner| == |s.edges|
    && (forall v :: 0 <= v < |visited| && visited[v] ==> s.spans[v].first + s.spans[v].count <= |s.edges|)
    && (forall e :: 0 <= e < |owned| && owned[e] ==>
          owner[e] < |visited| && visited[owner[e]] && InSpan(s.spans[owner[e]], e) && s.edges[e] < owner[e])
    && (forall v, e :: 0 <= v < |visited| && visited[v] && InSpan(s.spans[v], e) ==> owned[e] && owner[e] == v)
  }

  /** `parents[j]` counts the owned edges to `j`, which is never more than the one edge `via[j]`. */
  ghost predicate ParentTable(s: Shape, owned: seq<bool>, parents: seq<nat>, via: seq<nat>) {
    && |parents| == |via| == |s.spans|
    && |owned| == |s.edges|
    && (forall j :: 0 <= j < |parents| ==> parents[j] <= 1)
    && (forall j {:trigger via[j]} :: 0 <= j < |parents| && parents[j] == 1 ==> via[j] < |owned| && owned[via[j]] && s.edges[via[j]] == j)
    && (forall e :: 0 <= e < |owned| && owned[e] ==> s.edges[e] < |parents| && parents[s.edges[e]] == 1 && via[s.edges[e]] == e)
  }

  ghost predicate StackInv(s: Shape, visited: seq<bool>, parents: seq<nat>, stack: seq<nat>)
    requires |visited| == |parents| == |s.spans| > 0
  {
    && Distinct(stack)
    && (forall j :: j in stack ==> j < |visited| && !visited[j])
    && (forall j :: j in stack ==> j == Root(s) || parents[j] == 1)
    && (visited[Root(s)] || Root(s) in stack)
    && (forall j :: 0 <= j < |visited| && parents[j] == 1 ==> visited[j] || j in stack)
  }

  ghost predicate VisitedClaimed(s: Shape, visited: seq<bool>, parents: seq<nat>)
    requires |visited| == |parents| == |s.spans| > 0
  {
    forall j :: 0 <= j < |visited| && visited[j] ==> j == Root(s) || parents[j] == 1
  }

  /** Nothing is visited or stacked that the root does not reach. */
  ghost predicate OnlyReachable(s: Shape, visited: seq<bool>, stack: seq<nat>) {
    && (forall j :: 0 <= j < |visited| && visited[j] ==> Reachable(s, j))
    && (forall j :: j in stack ==> Reachable(s, j))
  }

  lemma OnlyReachableStep(s: Shape, visited: seq<bool>, rest: seq<nat>, i: nat)
    requires |visited| == |s.spans| && i < |s.spans| && SpanInRange(s, i)
    requires OnlyReachable(s, visited, rest + [i])
    requires forall j :: j in Kids(s, i) ==> j < i
    ensures OnlyReachable(s, visited[i := true], rest + Reverse(Kids(s, i)))
  {
    ReverseSame(Kids(s, i));
    assert i in rest + [i];
    forall j | j in rest ensures Reachable(s, j) {
      assert j in rest + [i];
    }
    forall j | j in Kids(s, i) ensures Reachable(s, j) {
      var k :| 0 <= k < |Kids(s, i)| && Kids(s, i)[k] == j;
      assert InSpan(s.spans[i], s.spans[i].first + k) && s.edges[s.spans[i].first + k] == j;
      assert HasEdge(s, i, j);
    }
  }

  /** The stack of `edges + 1` entries cannot overflow. */
  lemma StackFits(s: Shape, visited: seq<bool>, owned: seq<bool>, parents: seq<nat>, via: seq<nat>, stack: seq<nat>)
    requires |visited| == |parents| == |s.spans| > 0
    requires ParentTable(s, owned, parents, via) && StackInv(s, visited, parents, stack)
    ensures |stack| <= |s.edges| + 1
  {
    assert forall k :: 0 <= k < |stack| ==> stack[k] in stack;
    var keys: seq<nat> := seq(|stack|, k requires 0 <= k < |stack| => if stack[k] == Root(s) then |s.edges| else via[stack[k]]);
    forall a, b | 0 <= a < b < |keys| ensures keys[a] != keys[b] {
      if stack[a] != Root(s) && stack[b] != Root(s) {
        assert s.edges[via[stack[a]]] == stack[a] && s.edges[via[stack[b]]] == stack[b];
      }
    }
    DistinctCard(keys);
    assert Elems(keys) <= Below(|s.edges| + 1);
    SubsetCard(Elems(keys), Below(|s.edges| + 1));
  }

  /** The table in which node `i` has only its first `k` edges. */
  ghost function Trunc(s: Shape, i: nat, k: nat): Shape
    requires i < |s.spans|
  {
    s.(spans := s.spans[i := Span(s.spans[i].first, k)])
  }

  lemma TruncFull(s: Shape, i: nat)
    requires i < |s.spans|
    ensures Trunc(s, i, s.spans[i].count) == s
  {
    assert s.spans[i := s.spans[i]] == s.spans;
  }

  lemma OwnOne(s: Shape, i: nat, k: nat, visited: seq<bool>, owned: seq<bool>, owner: seq<nat>)
    requires i < |s.spans| && SpanInRange(s, i) && k < s.spans[i].count
    requires OwnerTable(Trunc(s, i, k), visited, owned, owner) && visited[i]
    requires var e := s.spans[i].first + k; !owned[e] && s.edges[e] < i
    ensures var e := s.spans[i].first + k; OwnerTable(Trunc(s, i, k + 1), visited, owned[e := true], owner[e := i])
  {
    var e := s.spans[i].first + k;
    var t, t' := Trunc(s, i, k), Trunc(s, i, k + 1);
    forall v, d | 0 <= v < |visited| && visited[v] && InSpan(t'.spans[v], d)
      ensures owned[e := true][d] && owner[e := i][d] == v
    {
      assert InSpan(t.spans[v], d) || (v == i && d == e);
    }
    forall d | 0 <= d < |owned| && owned[d]
      ensures InSpan(t'.spans[owner[d]], d)
    {
      assert InSpan(t.spans[owner[d]], d);
    }
  }

  lemma CountOne(s: Shape, owned: seq<bool>, parents: seq<nat>, via: seq<nat>, e: nat)
    requires ParentTable(s, owned, parents, via)
    requires e < |s.edges| && !owned[e] && s.edges[e] < |parents| && parents[s.edges[e]] == 0
    ensures ParentTable(s, owned[e := true], parents[s.edges[e] := 1], via[s.edges[e] := e])
  {
  }

  /** The parent counts after the edges to `seen` have been claimed. */
  ghost predicate Marked(parents0: seq<nat>, parents: seq<nat>, seen: seq<nat>) {
    && |parents| == |parents0|
    && Distinct(seen)
    && (forall j :: j in seen ==> j < |parents0| && parents0[j] == 0)
    && (forall j :: 0 <= j < |parents| ==> parents[j] == if j in seen then 1 else parents0[j])
  }

  lemma MarkOne(parents0: seq<nat>, parents: seq<nat>, seen: seq<nat>, child: nat)
    requires Marked(parents0, parents, seen) && child < |parents| && parents[child] == 0
    ensures Marked(parents0, parents[child := 1], seen + [child])
  {
  }

  /** Test and claim the edge at `offset` among those of node `i`. */
  method ClaimEdge(s: Shape, i: nat, offset: nat, ghost visited: seq<bool>, owned: array<bool>, parents: array<nat>,
                   ghost owner: seq<nat>, ghost via: seq<nat>)
    returns (fault: Fault)
    requires i < |s.spans| && SpanInRange(s, i) && offset < s.spans[i].count
    requires owned.Length == |s.edges| && parents.Length == |s.spans| == |visited| && visited[i]
    requires OwnerTable(Trunc(s, i, offset), visited, owned[..], owner)
    requires ParentTable(s, owned[..], parents[..], via)
    modifies owned, parents
    ensures fault != NoFault ==> FaultAt(s, i, fault)
    ensures fault == NoFault ==>
              var e := s.spans[i].first + offset;
              && s.edges[e] < i && !old(owned[e]) && old(parents[s.edges[e]]) == 0
              && owned[..] == old(owned[..])[e := true]
              && parents[..] == old(parents[..])[s.edges[e] := 1]
  {
    var edge := s.spans[i].first + offset;
    if owned[edge] {
      assert InSpan(Trunc(s, i, offset).spans[owner[edge]], edge);
      assert InSpan(s.spans[owner[edge]], edge) && owner[edge] != i;
      return Overlap(edge);
    }
    owned[edge] := true;
    var child := s.edges[edge];
    if child >= |s.spans| {
      return BadIndex(edge);
    }
    if child >= i {
      return NotPostorder(edge);
    }
    parents[child] := parents[child] + 1;
    if parents[child] != 1 {
      assert old(owned[..])[via[child]] && s.edges[via[child]] == child;
      return Alias(child, edge);
    }
    return NoFault;
  }

  /** After `offset` edges of node `i` have been claimed. */
  ghost predicate ClaimInv(s: Shape, i: nat, offset: nat, visited: seq<bool>, owned: seq<bool>, parents: seq<nat>,
                           owner: seq<nat>, via: seq<nat>, parents0: seq<nat>)
    requires i < |s.spans| && SpanInRange(s, i) && offset <= s.spans[i].count
  {
    && OwnerTable(Trunc(s, i, offset), visited, owned, owner)
    && ParentTable(s, owned, parents, via)
    && Marked(parents0, parents, Kids(s, i)[..offset])
    && forall j :: j in Kids(s, i)[..offset] ==> j < i
  }

  lemma ClaimStep(s: Shape, i: nat, offset: nat, visited: seq<bool>, owned: seq<bool>, parents: seq<nat>,
                  owner: seq<nat>, via: seq<nat>, parents0: seq<nat>)
    requires i < |s.spans| && SpanInRange(s, i) && offset < s.spans[i].count
    requires ClaimInv(s, i, offset, visited, owned, parents, owner, via, parents0) && visited[i]
    requires var e := s.spans[i].first + offset; !owned[e] && s.edges[e] < i && parents[s.edges[e]] == 0
    ensures var e := s.spans[i].first + offset;
            ClaimInv(s, i, offset + 1, visited, owned[e := true], parents[s.edges[e] := 1],
                     owner[e := i], via[s.edges[e] := e], parents0)
  {
    var e := s.spans[i].first + offset;
    var seen := Kids(s, i)[..offset];
    OwnOne(s, i, offset, visited, owned, owner);
    CountOne(s, owned, parents, via, e);
    MarkOne(parents0, parents, seen, s.edges[e]);
    assert Kids(s, i)[..offset + 1] == seen + [s.edges[e]];
  }

  /** src/type.cpp:366-391 and src/value.cpp:846-872: claim the edges of node `i` one by one. */
  method ClaimChildren(s: Shape, i: nat, ghost visited: seq<bool>, owned: array<bool>, parents: array<nat>,
                       ghost owner0: seq<nat>, ghost via0: seq<nat>)
    returns (fault: Fault, ghost owner: seq<nat>, ghost via: seq<nat>)
    requires i < |s.spans| && SpanInRange(s, i)
    requires owned.Length == |s.edges| && parents.Length == |s.spans| == |visited| && !visited[i]
    requires OwnerTable(s, visited, owned[..], owner0)
    requires ParentTable(s, owned[..], parents[..], via0)
    modifies owned, parents
    ensures fault != NoFault ==> FaultAt(s, i, fault)
    ensures fault == NoFault ==>
              && OwnerTable(s, visited[i := true], owned[..], owner)
              && ParentTable(s, owned[..], parents[..], via)
              && Marked(old(parents[..]), parents[..], Kids(s, i))
              && (forall j :: j in Kids(s, i) ==> j < i)
  {
    fault, owner, via := NoFault, owner0, via0;
    ghost var visited1, parents0 := visited[i := true], parents[..];
    VisitOne(s, i, visited, owned[..], owner);
    for offset := 0 to s.spans[i].count
      invariant fault == NoFault
      invariant ClaimInv(s, i, offset, visited1, owned[..], parents[..], owner, via, parents0)
    {
      ghost var ownedNow, parentsNow := owned[..], parents[..];
      ghost var edge := s.spans[i].first + offset;
      fault := ClaimEdge(s, i, offset, visited1, owned, parents, owner, via);
      if fault != NoFault {
        return;
      }
      assert owned[..] == ownedNow[edge := true];
      assert parents[..] == parentsNow[s.edges[edge] := 1];
      ClaimStep(s, i, offset, visited1, ownedNow, parentsNow, owner, via, parents0);
      owner, via := owner[edge := i], via[s.edges[edge] := edge];
    }
    TruncFull(s, i);
    assert Kids(s, i)[..s.spans[i].count] == Kids(s, i);
  }

  /** Marking a node visited before any of its edges is claimed. */
  lemma VisitOne(s: Shape, i: nat, visited: seq<bool>, owned: seq<bool>, owner: seq<nat>)
    requires i < |s.spans| && SpanInRange(s, i)
    requires OwnerTable(s, visited, owned, owner) && !visited[i]
    ensures OwnerTable(Trunc(s, i, 0), visited[i := true], owned, owner)
  {
    var t := Trunc(s, i, 0);
    forall v, e | 0 <= v < |visited| && visited[i := true][v] && InSpan(t.spans[v], e)
      ensures owned[e] && owner[e] == v
    {
      assert InSpan(s.spans[v], e) && visited[v];
    }
  }

  ghost function Reverse(xs: seq<nat>): (r: seq<nat>)
    ensures |r| == |xs|
    ensures forall k :: 0 <= k < |xs| ==> r[k] == xs[|xs| - 1 - k]
  {
    seq(|xs|, k requires 0 <= k < |xs| => xs[|xs| - 1 - k])
  }

  lemma ReverseSame(xs: seq<nat>)
    ensures forall x :: x in Reverse(xs) <==> x in xs
    ensures Distinct(xs) ==> Distinct(Reverse(xs))
  {
    forall x | x in xs ensures x in Reverse(xs) {
      var k :| 0 <= k < |xs| && xs[k] == x;
      assert Reverse(xs)[|xs| - 1 - k] == x;
    }
  }

  /** src/type.cpp:392-400 and src/value.cpp:954-966: push the children of one node, last child first. */
  method PushChildren(stack: array<nat>, size: nat, edges: seq<nat>, first: nat, count: nat) returns (ok: bool, size': nat)
    requires size <= stack.Length && first + count <= |edges|
    modifies stack
    ensures ok <==> size + count <= stack.Length
    ensures ok ==> size' == size + count && stack[..size'] == old(stack[..size]) + Reverse(edges[first..first + count])
  {
    size' := size;
    ghost var kids := edges[first..first + count];
    var offset := count;
    while offset > 0
      invariant 0 <= offset <= count
      invariant size' == size + (count - offset) <= stack.Length
      invariant stack[..size'] == old(stack[..size]) + Reverse(kids)[..count - offset]
    {
      if size' >= stack.Length {
        return false, size';
      }
      stack[size'] := edges[first + offset - 1];
      size' := size' + 1;
      offset := offset - 1;
      assert Reverse(kids)[..count - offset] == Reverse(kids)[..count - offset - 1] + [edges[first + offset]];
      assert stack[..size'] == stack[..size' - 1] + [stack[size' - 1]];
    }
    assert Reverse(kids)[..count] == Reverse(kids);
    ok := true;
  }

  ghost function Unvisited(visited: seq<bool>): set<int> {
    set i | 0 <= i < |visited| && !visited[i]
  }

  /** Popping `i`, claiming its edges and pushing its children keeps the stack invariant. */
  lemma StackStep(s: Shape, visited: seq<bool>, parents: seq<nat>, rest: seq<nat>, i: nat, parents': seq<nat>)
    requires |visited| == |parents| == |parents'| == |s.spans| && i < |s.spans| && SpanInRange(s, i)
    requires StackInv(s, visited, parents, rest + [i]) && VisitedClaimed(s, visited, parents)
    requires Marked(parents, parents', Kids(s, i)) && (forall j :: j in Kids(s, i) ==> j < i)
    ensures StackInv(s, visited[i := true], parents', rest + Reverse(Kids(s, i)))
    ensures VisitedClaimed(s, visited[i := true], parents')
  {
    var kids := Reverse(Kids(s, i));
    ReverseSame(Kids(s, i));
    var stack, stack' := rest + [i], rest + kids;
    var visited' := visited[i := true];
    assert stack[|rest|] == i && i in stack;
    assert forall j :: j in rest ==> j in stack;
    forall j | j in kids
      ensures parents'[j] == 1 && !visited'[j] && j !in rest
    {
      assert j in Kids(s, i);
    }
    forall j | j in rest ensures !visited'[j] {
      var a :| 0 <= a < |rest| && rest[a] == j;
      assert stack[a] != stack[|rest|];
    }
    forall a, b | 0 <= a < b < |stack'| ensures stack'[a] != stack'[b] {
      if b < |rest| {
        assert stack[a] != stack[b];
      } else if a < |rest| {
        assert stack'[a] in rest && stack'[b] in kids;
      } else {
        assert kids[a - |rest|] != kids[b - |rest|];
      }
    }
    forall j | 0 <= j < |visited'| && parents'[j] == 1 ensures visited'[j] || j in stack' {
      if parents[j] == 1 {
        assert visited[j] || j in stack;
      } else {
        assert j in kids;
      }
    }
  }

  // ---------------------------------------------------------------- the verdict

  lemma {:induction false} ReachedAreVisited(s: Shape, visited: seq<bool>, owned: seq<bool>, parents: seq<nat>,
                                             owner: seq<nat>, via: seq<nat>, j: nat)
    requires |visited| == |parents| == |s.spans| > 0
    requires OwnerTable(s, visited, owned, owner) && ParentTable(s, owned, parents, via)
    requires StackInv(s, visited, parents, [])
    requires Reachable(s, j)
    ensures visited[j]
    decreases |s.spans| - j
  {
    if j < Root(s) {
      var i :| j < i < |s.spans| && HasEdge(s, i, j) && Reachable(s, i);
      ReachedAreVisited(s, visited, owned, parents, owner, via, i);
      var e :| InSpan(s.spans[i], e) && e < |s.edges| && s.edges[e] == j;
      assert owned[e];
    }
  }

  /** Whatever the finished walk has not flagged is out of the root's reach. */
  lemma UnflaggedIsOrphan(s: Shape, visited: seq<bool>, owned: seq<bool>, parents: seq<nat>, owner: seq<nat>, via: seq<nat>)
    requires |visited| == |parents| == |s.spans| > 0
    requires OwnerTable(s, visited, owned, owner) && ParentTable(s, owned, parents, via)
    requires StackInv(s, visited, parents, [])
    ensures forall i :: 0 <= i < |visited| && !visited[i] ==> !Reachable(s, i)
    ensures forall e, i :: 0 <= e < |owned| && !owned[e] && 0 <= i < |visited| && InSpan(s.spans[i], e) ==> !Reachable(s, i)
  {
    forall i | 0 <= i < |visited| && Reachable(s, i) ensures visited[i] {
      ReachedAreVisited(s, visited, owned, parents, owner, via, i);
    }
  }

  lemma TreeImpliesFlags(s: Shape, visited: seq<bool>, owned: seq<bool>, parents: seq<nat>, owner: seq<nat>, via: seq<nat>)
    requires |visited| == |parents| == |s.spans| > 0
    requires OwnerTable(s, visited, owned, owner) && ParentTable(s, owned, parents, via)
    requires StackInv(s, visited, parents, [])
    requires WellFormed(s)
    ensures forall j :: 0 <= j < |visited| ==> visited[j]
    ensures forall e :: 0 <= e < |owned| ==> owned[e]
  {
    forall j | 0 <= j < |visited| ensures visited[j] {
      AllReachable(s, j);
      ReachedAreVisited(s, visited, owned, parents, owner, via, j);
    }
    forall e | 0 <= e < |owned| ensures owned[e] {
      assert Owned(s, e);
      var i :| 0 <= i < |s.spans| && InSpan(s.spans[i], e);
    }
  }

  lemma FlagsImplyTree(s: Shape, visited: seq<bool>, owned: seq<bool>, parents: seq<nat>, owner: seq<nat>, via: seq<nat>)
    requires |visited| == |parents| == |s.spans| > 0
    requires OwnerTable(s, visited, owned, owner) && ParentTable(s, owned, parents, via)
    requires VisitedClaimed(s, visited, parents)
    requires forall j :: 0 <= j < |visited| ==> visited[j]
    requires forall e :: 0 <= e < |owned| ==> owned[e]
    ensures WellFormed(s)
  {
    forall e | 0 <= e < |s.edges| ensures Owned(s, e) {
      assert owned[e] && InSpan(s.spans[owner[e]], e);
    }
    forall i, j, e | 0 <= i < |s.spans| && 0 <= j < |s.spans| && InSpan(s.spans[i], e) && InSpan(s.spans[j], e)
      ensures i == j
    {
      assert owner[e] == i && owner[e] == j;
    }
    assert Distinct(s.edges) && NoOrphans(s) by { ClaimsAreUnique(s, visited, owned, parents, via); }
  }

  lemma ClaimsAreUnique(s: Shape, visited: seq<bool>, owned: seq<bool>, parents: seq<nat>, via: seq<nat>)
    requires |visited| == |parents| == |s.spans| > 0
    requires ParentTable(s, owned, parents, via) && VisitedClaimed(s, visited, parents)
    requires forall j :: 0 <= j < |visited| ==> visited[j]
    requires forall e :: 0 <= e < |owned| ==> owned[e]
    ensures Distinct(s.edges) && NoOrphans(s)
  {
    forall a, b | 0 <= a < b < |s.edges| ensures s.edges[a] != s.edges[b] {
      assert via[s.edges[a]] == a && via[s.edges[b]] == b;
    }
    forall j | 0 <= j < |s.spans| - 1 ensures j in s.edges {
      assert s.edges[via[j]] == j;
    }
  }

  /** When the stack is empty the flags decide whether the table encodes one tree. */
  lemma ScanDecides(s: Shape, visited: seq<bool>, owned: seq<bool>, parents: seq<nat>, owner: seq<nat>, via: seq<nat>)
    requires |visited| == |parents| == |s.spans| > 0
    requires OwnerTable(s, visited, owned, owner) && ParentTable(s, owned, parents, via)
    requires StackInv(s, visited, parents, []) && VisitedClaimed(s, visited, parents)
    ensures WellFormed(s) <==> (forall j :: 0 <= j < |visited| ==> visited[j]) && (forall e :: 0 <= e < |owned| ==> owned[e])
  {
    if WellFormed(s) {
      TreeImpliesFlags(s, visited, owned, parents, owner, via);
    } else if (forall j :: 0 <= j < |visited| ==> visited[j]) && (forall e :: 0 <= e < |owned| ==> owned[e]) {
      FlagsImplyTree(s, visited, owned, parents, owner, via);
    }
  }
}
