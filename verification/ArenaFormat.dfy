/**
 Writing the tree of an arena with an explicit stack of actions: the common part of src/type.cpp:561-638 and
 src/value.cpp:1729-1833.  `texts` says for every node how it is to be written; a tuple is written as its elements
 between an opening and a closing text, with separators.
 */
module ArenaFormat {
  import opened Arena
  import opened ArenaScan
  import opened ArenaWalk
  import opened Sums

  datatype FormatAction = FormatNode(index: nat) | FormatText(text: string)

  /** What stands around and between the elements of a tuple. */
  datatype Style = Style(before: string, separator: string, after: string)

  // ---------------------------------------------------------------- how nodes are written

  ghost predicate InTexts(texts: seq<string>, kids: seq<nat>) {
    forall k :: 0 <= k < |kids| ==> kids[k] < |texts|
  }

  /** The elements from `k` on, and the closing text. */
  ghost function Join(texts: seq<string>, kids: seq<nat>, style: Style, k: nat): string
    requires k <= |kids| && InTexts(texts, kids)
    decreases |kids| - k
  {
    if k == |kids| then style.after
    else (if k == 0 then "" else style.separator) + (texts[kids[k]] + Join(texts, kids, style, k + 1))
  }

  lemma JoinStep(texts: seq<string>, kids: seq<nat>, style: Style, k: nat)
    requires k <= |kids| && InTexts(texts, kids)
    ensures k == |kids| ==> Join(texts, kids, style, k) == style.after
    ensures k < |kids| ==>
              var rest := texts[kids[k]] + Join(texts, kids, style, k + 1);
              Join(texts, kids, style, k) == if k == 0 then rest else style.separator + rest
  {
  }

  ghost predicate NodeText(s: Shape, texts: seq<string>, style: Style, tuples: seq<bool>, i: nat)
    requires |texts| == |tuples| == |s.spans| && i < |s.spans|
  {
    && SpanInRange(s, i) && InTexts(texts, Kids(s, i))
    && if tuples[i] then texts[i] == style.before + Join(texts, Kids(s, i), style, 0) else Kids(s, i) == []
  }

  /** Tuples are written from their elements; the other nodes have none. */
  ghost predicate TextsOk(s: Shape, texts: seq<string>, style: Style, tuples: seq<bool>) {
    && WellFormed(s) && |texts| == |tuples| == |s.spans|
    && forall i: nat :: i < |s.spans| ==> NodeText(s, texts, style, tuples, i)
  }

  // ---------------------------------------------------------------- what a stack of actions still has to write

  ghost predicate InArena(n: nat, stack: seq<FormatAction>) {
    forall k :: 0 <= k < |stack| && stack[k].FormatNode? ==> stack[k].index < n
  }

  ghost function ActionText(texts: seq<string>, a: FormatAction): string
    requires a.FormatNode? ==> a.index < |texts|
  {
    match a
    case FormatNode(i) => texts[i]
    case FormatText(x) => x
  }

  /** The last action is written first. */
  ghost function RenderAll(texts: seq<string>, stack: seq<FormatAction>): string
    requires InArena(|texts|, stack)
  {
    if stack == [] then "" else ActionText(texts, stack[|stack| - 1]) + RenderAll(texts, stack[..|stack| - 1])
  }

  ghost function NodesIn(stack: seq<FormatAction>): seq<nat> {
    if stack == [] then []
    else NodesIn(stack[..|stack| - 1]) + (if stack[|stack| - 1].FormatNode? then [stack[|stack| - 1].index] else [])
  }

  lemma {:induction false} NodesInBound(stack: seq<FormatAction>)
    ensures |NodesIn(stack)| <= |stack|
  {
    if stack != [] { NodesInBound(stack[..|stack| - 1]); }
  }

  lemma PushCounts(stack: seq<FormatAction>, a: FormatAction)
    ensures NodesIn(stack + [a]) == NodesIn(stack) + (if a.FormatNode? then [a.index] else [])
  {
    assert (stack + [a])[..|stack|] == stack;
  }

  lemma Push(texts: seq<string>, stack: seq<FormatAction>, a: FormatAction)
    requires InArena(|texts|, stack) && (a.FormatNode? ==> a.index < |texts|)
    ensures InArena(|texts|, stack + [a])
    ensures RenderAll(texts, stack + [a]) == (if a.FormatNode? then texts[a.index] else a.text) + RenderAll(texts, stack)
  {
    assert (stack + [a])[..|stack|] == stack;
  }

  /** The formatter's invariant; `seen` are the nodes already written or opened. */
  ghost predicate FormatInv(s: Shape, texts: seq<string>, seen: set<nat>, stack: seq<FormatAction>, text: string) {
    && WellFormed(s) && |texts| == |s.spans|
    && InArena(|texts|, stack)
    && Frontier(s, Root(s), seen, NodesIn(stack))
    && text + RenderAll(texts, stack) == texts[Root(s)]
    && Budget(|seen|, |NodesIn(stack)|, |stack|)
  }

  /** `seen + nodes - 1` edges have been used; the texts on the stack are paid for by nodes seen and edges used. */
  ghost predicate Budget(seen: nat, nodes: nat, stack: nat) {
    nodes <= stack && 1 <= seen + nodes && stack - nodes <= seen + (seen + nodes - 1)
  }

  lemma FormatFits(s: Shape, texts: seq<string>, seen: set<nat>, stack: seq<FormatAction>, text: string)
    requires FormatInv(s, texts, seen, stack, text)
    ensures Root(s) < |texts| && |text| <= |texts[Root(s)]|
    ensures |stack| <= |s.spans| + |s.edges| && |NodesIn(stack)| + |seen| <= |s.spans|
  {
    FrontierBound(s, Root(s), seen, NodesIn(stack));
    EdgeCount(s);
  }

  lemma FormatStart(s: Shape, texts: seq<string>)
    requires WellFormed(s) && |texts| == |s.spans|
    ensures FormatInv(s, texts, {}, [FormatNode(Root(s))], "")
  {
    Push(texts, [], FormatNode(Root(s)));
    PushCounts([], FormatNode(Root(s)));
    assert [] + [FormatNode(Root(s))] == [FormatNode(Root(s))];
    assert "" + RenderAll(texts, [FormatNode(Root(s))]) == texts[Root(s)];
  }

  lemma FormatEnd(s: Shape, texts: seq<string>, seen: set<nat>, text: string)
    requires FormatInv(s, texts, seen, [], text)
    ensures Root(s) < |texts| && text == texts[Root(s)]
  {
    assert text + "" == text;
  }

  lemma Regroup(text: string, x: string, rest: string)
    ensures (text + x) + rest == text + (x + rest)
  {
  }

  lemma InArenaPrefix(n: nat, rest: seq<FormatAction>, a: FormatAction)
    requires InArena(n, rest + [a])
    ensures InArena(n, rest) && (a.FormatNode? ==> a.index < n)
  {
    assert forall k :: 0 <= k < |rest| ==> (rest + [a])[k] == rest[k];
    assert (rest + [a])[|rest|] == a;
  }

  lemma PopText(s: Shape, texts: seq<string>, seen: set<nat>, rest: seq<FormatAction>, x: string, text: string)
    requires FormatInv(s, texts, seen, rest + [FormatText(x)], text)
    ensures FormatInv(s, texts, seen, rest, text + x)
  {
    hide WellFormed, Frontier, InArena, RenderAll, NodesIn;
    InArenaPrefix(|texts|, rest, FormatText(x));
    Push(texts, rest, FormatText(x));
    PushCounts(rest, FormatText(x));
    assert NodesIn(rest) + [] == NodesIn(rest);
    Regroup(text, x, RenderAll(texts, rest));
    NodesInBound(rest);
  }

  // ---------------------------------------------------------------- opening a tuple

  /** The actions pushed for children `k`, `k + 1`, ... of a tuple, with the closing text below them. */
  ghost function TupleActions(style: Style, kids: seq<nat>, k: nat): seq<FormatAction>
    requires k <= |kids|
    decreases |kids| - k
  {
    if k == |kids| then [FormatText(style.after)]
    else TupleActions(style, kids, k + 1) + [FormatNode(kids[k])] + (if k != 0 then [FormatText(style.separator)] else [])
  }

  lemma TupleActionsStep(rest: seq<FormatAction>, style: Style, kids: seq<nat>, k: nat)
    requires k <= |kids|
    ensures k == |kids| ==> rest + TupleActions(style, kids, k) == rest + [FormatText(style.after)]
    ensures k < |kids| ==>
              var node := (rest + TupleActions(style, kids, k + 1)) + [FormatNode(kids[k])];
              rest + TupleActions(style, kids, k) == if k == 0 then node else node + [FormatText(style.separator)]
  {
  }

  /** The pushed actions write the elements with their separators, then the closing text. */
  lemma {:induction false} OpenTupleText(texts: seq<string>, rest: seq<FormatAction>, style: Style, kids: seq<nat>, k: nat)
    requires InArena(|texts|, rest) && InTexts(texts, kids) && k <= |kids|
    ensures InArena(|texts|, rest + TupleActions(style, kids, k))
    ensures RenderAll(texts, rest + TupleActions(style, kids, k)) == Join(texts, kids, style, k) + RenderAll(texts, rest)
    decreases |kids| - k
  {
    TupleActionsStep(rest, style, kids, k);
    JoinStep(texts, kids, style, k);
    hide TupleActions, InArena, RenderAll, Join;
    if k == |kids| {
      Push(texts, rest, FormatText(style.after));
    } else {
      OpenTupleText(texts, rest, style, kids, k + 1);
      var below, x, j, r := rest + TupleActions(style, kids, k + 1), texts[kids[k]], Join(texts, kids, style, k + 1), RenderAll(texts, rest);
      Push(texts, below, FormatNode(kids[k]));
      Regroup(x, j, r);
      if k != 0 {
        Push(texts, below + [FormatNode(kids[k])], FormatText(style.separator));
        Regroup(style.separator, x + j, r);
      }
    }
  }

  lemma {:induction false} OpenTupleCounts(rest: seq<FormatAction>, style: Style, kids: seq<nat>, k: nat)
    requires k <= |kids|
    ensures NodesIn(rest + TupleActions(style, kids, k)) == NodesIn(rest) + Reverse(kids[k..])
    ensures |TupleActions(style, kids, k)| <= 1 + 2 * (|kids| - k) - (if k == 0 && kids != [] then 1 else 0)
    decreases |kids| - k
  {
    hide NodesIn;
    TupleActionsStep(rest, style, kids, k);
    if k == |kids| {
      PushCounts(rest, FormatText(style.after));
      assert kids[k..] == [];
    } else {
      OpenTupleCounts(rest, style, kids, k + 1);
      var below := rest + TupleActions(style, kids, k + 1);
      PushCounts(below, FormatNode(kids[k]));
      assert Reverse(kids[k..]) == Reverse(kids[k + 1..]) + [kids[k]];
      PushCounts(below + [FormatNode(kids[k])], FormatText(style.separator));
    }
  }

  // ---------------------------------------------------------------- steps

  lemma TopNode(s: Shape, texts: seq<string>, seen: set<nat>, rest: seq<FormatAction>, i: nat, text: string)
    requires FormatInv(s, texts, seen, rest + [FormatNode(i)], text)
    ensures i < |s.spans| == |texts| && i !in seen && SpanInRange(s, i) && |seen| < |s.spans|
    ensures InArena(|texts|, rest) && NodesIn(rest + [FormatNode(i)]) == NodesIn(rest) + [i]
    ensures Frontier(s, Root(s), seen, NodesIn(rest) + [i])
  {
    FormatFits(s, texts, seen, rest + [FormatNode(i)], text);
    hide Frontier, InArena, RenderAll;
    InArenaPrefix(|texts|, rest, FormatNode(i));
    PushCounts(rest, FormatNode(i));
    SideStep(s, Root(s), seen, NodesIn(rest), i);
  }

  lemma PopLeaf(s: Shape, texts: seq<string>, seen: set<nat>, rest: seq<FormatAction>, i: nat, text: string)
    requires FormatInv(s, texts, seen, rest + [FormatNode(i)], text)
    requires i < |s.spans| && SpanInRange(s, i) && Kids(s, i) == []
    ensures FormatInv(s, texts, seen + {i}, rest, text + texts[i])
  {
    TopNode(s, texts, seen, rest, i, text);
    hide Frontier, InArena, RenderAll, NodesIn, WellFormed;
    SideStep(s, Root(s), seen, NodesIn(rest), i);
    assert NodesIn(rest) + [] == NodesIn(rest);
    Push(texts, rest, FormatNode(i));
    Regroup(text, texts[i], RenderAll(texts, rest));
    NodesInBound(rest);
  }

  lemma PopTuple(s: Shape, texts: seq<string>, style: Style, tuples: seq<bool>, seen: set<nat>, rest: seq<FormatAction>, i: nat, text: string)
    requires TextsOk(s, texts, style, tuples) && FormatInv(s, texts, seen, rest + [FormatNode(i)], text)
    requires i < |s.spans| && tuples[i] && SpanInRange(s, i)
    ensures FormatInv(s, texts, seen + {i}, rest + TupleActions(style, Kids(s, i), 0), text + style.before)
  {
    assert NodeText(s, texts, style, tuples, i);
    TopNode(s, texts, seen, rest, i, text);
    hide Frontier, InArena, RenderAll, NodesIn, WellFormed, TextsOk, TupleActions, Join, Kids, InTexts, Budget;
    var kids := Kids(s, i);
    Push(texts, rest, FormatNode(i));
    OpenTupleText(texts, rest, style, kids, 0);
    Regroup(style.before, Join(texts, kids, style, 0), RenderAll(texts, rest));
    Regroup(text, style.before, Join(texts, kids, style, 0) + RenderAll(texts, rest));
    TupleFrontier(s, seen, rest, style, i);
    TupleBudget(seen, rest, style, i, kids);
  }

  lemma TupleFrontier(s: Shape, seen: set<nat>, rest: seq<FormatAction>, style: Style, i: nat)
    requires WellFormed(s) && i < |s.spans| && SpanInRange(s, i) && Frontier(s, Root(s), seen, NodesIn(rest) + [i])
    ensures Frontier(s, Root(s), seen + {i}, NodesIn(rest + TupleActions(style, Kids(s, i), 0)))
  {
    hide Frontier;
    var kids := Kids(s, i);
    KidsHaveParent(s, i);
    hide WellFormed;
    OpenTupleCounts(rest, style, kids, 0);
    assert kids[0..] == kids;
    ReverseSame(kids);
    FrontierStep(s, Root(s), seen, NodesIn(rest), i, Reverse(kids));
  }

  lemma TupleBudget(seen: set<nat>, rest: seq<FormatAction>, style: Style, i: nat, kids: seq<nat>)
    requires i !in seen && Budget(|seen|, |NodesIn(rest + [FormatNode(i)])|, |rest| + 1)
    ensures var pushed := rest + TupleActions(style, kids, 0); Budget(|seen + {i}|, |NodesIn(pushed)|, |pushed|)
  {
    PushCounts(rest, FormatNode(i));
    OpenTupleCounts(rest, style, kids, 0);
    NodesInBound(rest + TupleActions(style, kids, 0));
  }

  // ---------------------------------------------------------------- how long the text is

  /** The first `c` elements, with two characters for each separator. */
  ghost function HeadLength(texts: seq<string>, kids: seq<nat>, c: nat): nat
    requires c <= |kids| && InTexts(texts, kids)
  {
    if c == 0 then 0 else HeadLength(texts, kids, c - 1) + |texts[kids[c - 1]]| + 2
  }

  lemma {:induction false} JoinLength(texts: seq<string>, kids: seq<nat>, style: Style, k: nat)
    requires k <= |kids| && InTexts(texts, kids) && |style.separator| <= 2
    ensures |Join(texts, kids, style, k)| + HeadLength(texts, kids, k) <= |style.after| + HeadLength(texts, kids, |kids|)
    decreases |kids| - k
  {
    if k < |kids| { JoinLength(texts, kids, style, k + 1); }
  }

  /** `w` pays for every node: a leaf with two characters to spare, a tuple for what stands around its elements. */
  ghost predicate Pays(s: Shape, texts: seq<string>, style: Style, tuples: seq<bool>, w: seq<nat>) {
    && |w| == |tuples| == |texts| == |s.spans| && |style.separator| <= 2
    && forall j: nat :: j < |w| ==> (if tuples[j] then |style.before| + |style.after| else |texts[j]|) + 2 <= w[j]
  }

  lemma {:induction false} LengthBound(s: Shape, texts: seq<string>, style: Style, tuples: seq<bool>, w: seq<nat>, i: nat)
    requires TextsOk(s, texts, style, tuples) && Pays(s, texts, style, tuples, w) && i < |s.spans|
    ensures forall a :: 0 <= a < |RevPost(s, i)| ==> RevPost(s, i)[a] < |w|
    ensures |texts[i]| + 2 <= PickSum(w, RevPost(s, i))
    decreases i, s.spans[i].count + 1
  {
    assert NodeText(s, texts, style, tuples, i);
    var n := s.spans[i].count;
    KidsLengthBound(s, texts, style, tuples, w, i, n);
    RevPostUnfold(s, i);
    hide TextsOk, RevPost, RevKids;
    PickAppend(w, RevKids(s, i, n), [i]);
    OnePick(w, i);
    if tuples[i] { JoinLength(texts, Kids(s, i), style, 0); }
  }

  lemma OnePick(w: seq<nat>, i: nat)
    requires i < |w|
    ensures PickSum(w, [i]) == w[i] && PickSum(w, []) == 0
  {
    assert [i][..0] == [];
  }

  lemma RevPostUnfold(s: Shape, i: nat)
    requires WellFormed(s) && i < |s.spans|
    ensures RevPost(s, i) == RevKids(s, i, s.spans[i].count) + [i]
  {
    hide RevKids;
  }

  lemma {:induction false} KidsLengthBound(s: Shape, texts: seq<string>, style: Style, tuples: seq<bool>, w: seq<nat>, i: nat, c: nat)
    requires TextsOk(s, texts, style, tuples) && Pays(s, texts, style, tuples, w) && i < |s.spans| && c <= s.spans[i].count
    requires SpanInRange(s, i) && InTexts(texts, Kids(s, i))
    ensures forall a :: 0 <= a < |RevKids(s, i, c)| ==> RevKids(s, i, c)[a] < |w|
    ensures HeadLength(texts, Kids(s, i), c) <= PickSum(w, RevKids(s, i, c))
    decreases i, c
  {
    UnfoldRevKids(s, i, c);
    if c > 0 {
      var kid := Kid(s, i, c - 1);
      assert Kids(s, i)[c - 1] == kid;
      KidsLengthBound(s, texts, style, tuples, w, i, c - 1);
      LengthBound(s, texts, style, tuples, w, kid);
      hide TextsOk, RevPost, RevKids;
      PickAppend(w, RevPost(s, kid), RevKids(s, i, c - 1));
    }
  }

  /** The whole text is no longer than what all the nodes pay for. */
  lemma WholeLength(s: Shape, texts: seq<string>, style: Style, tuples: seq<bool>, w: seq<nat>)
    requires TextsOk(s, texts, style, tuples) && Pays(s, texts, style, tuples, w)
    ensures Root(s) < |texts| && |texts[Root(s)]| + 2 <= Sum(w)
  {
    hide NodeText;
    LengthBound(s, texts, style, tuples, w, Root(s));
    WholeWalk(s);
    PickAll(w, RevPost(s, Root(s)));
  }

  // ---------------------------------------------------------------- the loops

  /** src/type.cpp:89-99 and src/value.cpp:180-189: append one character at a time, refusing when the capacity is reached. */
  method AppendText(buffer: array<char>, used: nat, text: string) returns (ok: bool, used': nat)
    requires used <= buffer.Length
    modifies buffer
    ensures ok <==> used + |text| <= buffer.Length
    ensures ok ==> used' == used + |text| && buffer[..used'] == old(buffer[..used]) + text
  {
    used' := used;
    for k := 0 to |text|
      invariant used' == used + k <= buffer.Length
      invariant buffer[..used'] == old(buffer[..used]) + text[..k]
    {
      if used' >= buffer.Length {
        return false, used';
      }
      buffer[used'] := text[k];
      used' := used' + 1;
      assert buffer[..used'] == buffer[..used' - 1] + [buffer[used' - 1]];
      assert text[..k + 1] == text[..k] + [text[k]];
    }
    assert text[..|text|] == text;
    ok := true;
  }

  method PushAction(stack: array<FormatAction>, size: nat, a: FormatAction) returns (ok: bool, size': nat)
    requires size <= stack.Length
    modifies stack
    ensures ok <==> size < stack.Length
    ensures ok ==> size' == size + 1 && stack[..size'] == old(stack[..size]) + [a]
    ensures !ok ==> stack[..] == old(stack[..])
  {
    if size >= stack.Length {
      return false, size;
    }
    stack[size] := a;
    assert stack[..size + 1] == stack[..size] + [stack[size]];
    return true, size + 1;
  }

  /** src/type.cpp:607-636 and src/value.cpp:1782-1820: the closing text, then the children with their separators, last child first. */
  method PushTuple(stack: array<FormatAction>, size: nat, style: Style, edges: seq<nat>, first: nat, count: nat) returns (ok: bool, size': nat)
    requires size <= stack.Length && first + count <= |edges|
    requires size + |TupleActions(style, edges[first..first + count], 0)| <= stack.Length
    modifies stack
    ensures ok && size' <= stack.Length
    ensures stack[..size'] == old(stack[..size]) + TupleActions(style, edges[first..first + count], 0)
  {
    ghost var kids := edges[first..first + count];
    ActionsGrow(style, kids, 0, count);
    ok, size' := PushAction(stack, size, FormatText(style.after));
    assert ok;
    var offset := count;
    while offset > 0
      invariant ok && 0 <= offset <= count && size' <= stack.Length
      invariant stack[..size'] == old(stack[..size]) + TupleActions(style, kids, offset)
    {
      var child := offset - 1;
      ActionsGrow(style, kids, 0, child);
      ghost var before := stack[..size'];
      ok, size' := PushAction(stack, size', FormatNode(edges[first + child]));
      assert ok;
      if child != 0 {
        ok, size' := PushAction(stack, size', FormatText(style.separator));
        assert ok;
      }
      assert stack[..size'] == before + ([FormatNode(kids[child])] + (if child != 0 then [FormatText(style.separator)] else []));
      offset := child;
    }
  }

  lemma {:induction false} ActionsGrow(style: Style, kids: seq<nat>, j: nat, k: nat)
    requires j <= k <= |kids|
    ensures |TupleActions(style, kids, k)| <= |TupleActions(style, kids, j)|
    decreases k - j
  {
    if j < k { ActionsGrow(style, kids, j + 1, k); }
  }
}
