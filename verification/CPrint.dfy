/**
 src/rewrite_c_runtime.cpp:1663-1779: validating and printing a value in the emitted C by walking over the parent
 links.  The text of one scalar is a parameter; a stream that refuses to be written is not modelled.
 */
module CPrint {
  import opened Kinds
  import opened Arena
  import opened ValueArenas
  import opened CHeap
  import opened CTuples
  import opened ValueText
  import Lifting

  // ---------------------------------------------------------------- the walk

  /** Entering a cell, or leaving it with everything below it done. */
  datatype WState = WState(current: Ptr, entering: bool, text: string)

  predicate Linked(h: Heap, p: Ptr, d: nat, n: nat) {
    forall k: nat :: k < n ==> Points(h, At(d, k)) && Load(h, At(d, k)).parent == p && Load(h, At(d, k)).parentIndex == k
  }

  /** src/rewrite_c_runtime.cpp:1669-1695: what one cell of a valid value satisfies. */
  predicate CellValid(h: Heap, p: Ptr)
    requires Points(h, p)
  {
    var c := Load(h, p);
    match c.kind
    case CScalar => ValidScalarType(c.element) && c.count == 1 && c.data == 0 && c.cleanup == 0
    case CVector => ValidScalarType(c.element) && (c.count != 0 ==> c.data != 0) && c.cleanup == 0
    case CTuple => (c.count == 0 <==> c.data == 0) && c.cleanup == c.count && Linked(h, p, c.data, c.count)
  }

  /** The block of a vector is there. */
  predicate Readable(h: Heap, c: Cell) {
    c.kind == CVector ==>
      if c.count != 0 then c.data in h.blocks && |h.blocks[c.data]| == c.count else c.data !in h.blocks
  }

  function AtomText(h: Heap, show: ScalarText, c: Cell): string {
    if c.kind == CVector then
      "(" + (if c.data in h.blocks then RenderElements(show, c.element, h.blocks[c.data], 0) else "") + ")"
    else show(c.scalar)
  }

  /** One step of the walk; an invalid cell or a wild link would stop it for good, as does the way out of the root. */
  function WStep(h: Heap, show: ScalarText, s: WState): WState {
    if !Points(h, s.current) then s
    else
      var c := Load(h, s.current);
      if s.entering then
        if !CellValid(h, s.current) || !Readable(h, c) then s
        else if c.kind != CTuple then WState(s.current, false, s.text + AtomText(h, show, c))
        else if c.count != 0 then WState(At(c.data, 0), true, s.text + "[")
        else WState(s.current, false, s.text + "[]")
      else if !Points(h, c.parent) then s
      else
        var up := Load(h, c.parent);
        if c.parentIndex + 1 < up.count then WState(At(up.data, c.parentIndex + 1), true, s.text + " ")
        else WState(c.parent, false, s.text + "]")
  }

  function WRun(h: Heap, show: ScalarText, s: WState, n: nat): WState {
    if n == 0 then s else WStep(h, show, WRun(h, show, s, n - 1))
  }

  lemma {:induction false} WRunAdd(h: Heap, show: ScalarText, s: WState, a: nat, b: nat)
    ensures WRun(h, show, WRun(h, show, s, a), b) == WRun(h, show, s, a + b)
  {
    if b > 0 { WRunAdd(h, show, s, a, b - 1); }
  }

  lemma WChain(h: Heap, show: ScalarText, s: WState, a: nat, s1: WState, b: nat, s2: WState)
    requires WRun(h, show, s, a) == s1 && WRun(h, show, s1, b) == s2
    ensures WRun(h, show, s, a + b) == s2
  {
    WRunAdd(h, show, s, a, b);
  }

  lemma WOnce(h: Heap, show: ScalarText, s: WState)
    ensures WRun(h, show, s, 1) == WStep(h, show, s)
  {
    assert WRun(h, show, s, 1) == WStep(h, show, WRun(h, show, s, 0));
  }

  lemma {:induction false} WStuck(h: Heap, show: ScalarText, s: WState, n: nat)
    requires WStep(h, show, s) == s
    ensures WRun(h, show, s, n) == s
  {
    if n > 0 { WStuck(h, show, s, n - 1); }
  }

  function WSteps(t: ValueTree): nat
    decreases t, 0
  {
    1 + (if t.tag == TupleBranch && t.kids != [] then WStepsFrom(t.kids, 0) else 0)
  }

  function WStepsFrom(kids: seq<ValueTree>, k: nat): nat
    requires k < |kids|
    decreases kids, |kids| - k
  {
    WSteps(kids[k]) + 1 + (if k + 1 < |kids| then WStepsFrom(kids, k + 1) else 0)
  }

  // ---------------------------------------------------------------- the walk over a tree

  lemma {:induction false} LinkedKids(h: Heap, p: Ptr, d: nat, kids: seq<ValueTree>)
    requires KidsHold(h, p, d, kids)
    ensures Linked(h, p, d, |kids|)
  {
    forall k: nat | k < |kids| ensures Points(h, At(d, k)) && Load(h, At(d, k)).parent == p && Load(h, At(d, k)).parentIndex == k {
      KidOf(h, p, d, kids, k);
    }
  }

  /** Every cell of a held tree passes the check. */
  lemma HeldIsValid(h: Heap, p: Ptr, t: ValueTree)
    requires Points(h, p) && Holds(h, p, t)
    ensures CellValid(h, p)
  {
    if t.tag == TupleBranch {
      assert TableHolds(h, p, Load(h, p).data, t.kids, |t.kids|);
      LinkedKids(h, p, Load(h, p).data, t.kids);
    }
  }

  lemma AtomWalk(h: Heap, show: ScalarText, p: Ptr, t: ValueTree, text: string)
    requires Points(h, p) && Holds(h, p, t) && NoBlockZero(h) && (t.tag != TupleBranch || t.kids == [])
    ensures WRun(h, show, WState(p, true, text), WSteps(t)) == WState(p, false, text + Render(show, t))
  {
    HeldIsValid(h, p, t);
    WOnce(h, show, WState(p, true, text));
    if t.tag == TupleBranch {
      assert "[" + "" + "]" == "[]";
    }
  }

  predicate NoBlockZero(h: Heap) {
    0 !in h.blocks
  }

  lemma {:induction false} Walk(h: Heap, show: ScalarText, p: Ptr, t: ValueTree, text: string)
    requires Points(h, p) && Holds(h, p, t) && NoBlockZero(h)
    ensures WRun(h, show, WState(p, true, text), WSteps(t)) == WState(p, false, text + Render(show, t))
    decreases t, 0
  {
    if t.tag != TupleBranch || t.kids == [] {
      AtomWalk(h, show, p, t, text);
    } else {
      var d := Load(h, p).data;
      TupleParts(h, p, t);
      HeldIsValid(h, p, t);
      WOnce(h, show, WState(p, true, text));
      WalkFrom(h, show, p, d, t.kids, 0, text + "[");
      WChain(h, show, WState(p, true, text), 1, WState(At(d, 0), true, text + "["), WStepsFrom(t.kids, 0),
             WState(p, false, text + "[" + RenderFrom(show, t.kids, 0) + "]"));
      assert text + "[" + RenderFrom(show, t.kids, 0) + "]" == text + Render(show, t);
    }
  }

  /** From child `k` on to the end of its tuple. */
  lemma {:induction false} WalkFrom(h: Heap, show: ScalarText, p: Ptr, d: nat, kids: seq<ValueTree>, k: nat, text: string)
    requires k < |kids| && Points(h, p) && Load(h, p).data == d && Load(h, p).count == |kids| && KidsHold(h, p, d, kids) && NoBlockZero(h)
    ensures WRun(h, show, WState(At(d, k), true, text), WStepsFrom(kids, k)) == WState(p, false, text + RenderFrom(show, kids, k) + "]")
    decreases kids, |kids| - k
  {
    hide *;
    KidIsThere(h, p, d, kids, k);
    Walk(h, show, At(d, k), kids[k], text);
    var start, mine := WState(At(d, k), true, text), text + Render(show, kids[k]);
    var done := WState(At(d, k), false, mine);
    AfterKid(h, show, p, d, kids, k, mine);
    RenderNext(show, kids, k, text);
    WOnce(h, show, done);
    WChain(h, show, start, WSteps(kids[k]), done, 1, WStep(h, show, done));
    if k + 1 < |kids| {
      var next := WState(At(d, k + 1), true, mine + " ");
      WalkFrom(h, show, p, d, kids, k + 1, mine + " ");
      WChain(h, show, start, WSteps(kids[k]) + 1, next, WStepsFrom(kids, k + 1), WState(p, false, mine + " " + RenderFrom(show, kids, k + 1) + "]"));
    }
  }

  lemma KidIsThere(h: Heap, p: Ptr, d: nat, kids: seq<ValueTree>, k: nat)
    requires KidsHold(h, p, d, kids) && k < |kids|
    ensures Points(h, At(d, k)) && Holds(h, At(d, k), kids[k])
  {
    KidOf(h, p, d, kids, k);
  }

  /** From a finished child to its right neighbour, or back to the tuple after the last. */
  lemma AfterKid(h: Heap, show: ScalarText, p: Ptr, d: nat, kids: seq<ValueTree>, k: nat, text: string)
    requires k < |kids| && Points(h, p) && Load(h, p).data == d && Load(h, p).count == |kids| && KidsHold(h, p, d, kids)
    ensures WStep(h, show, WState(At(d, k), false, text))
         == if k + 1 < |kids| then WState(At(d, k + 1), true, text + " ") else WState(p, false, text + "]")
  {
    KidOf(h, p, d, kids, k);
  }

  lemma RenderNext(show: ScalarText, kids: seq<ValueTree>, k: nat, text: string)
    requires k < |kids|
    ensures WStepsFrom(kids, k) == WSteps(kids[k]) + 1 + (if k + 1 < |kids| then WStepsFrom(kids, k + 1) else 0)
    ensures k + 1 < |kids| ==>
              text + Render(show, kids[k]) + " " + RenderFrom(show, kids, k + 1) + "]" == text + RenderFrom(show, kids, k) + "]"
    ensures k + 1 == |kids| ==> text + Render(show, kids[k]) + "]" == text + RenderFrom(show, kids, k) + "]"
  {
    if k + 1 < |kids| {
      var a, b, c := text, Render(show, kids[k]), RenderFrom(show, kids, k + 1);
      assert RenderFrom(show, kids, k) == b + (" " + c);
      assert a + b + " " + c == a + (b + (" " + c));
    } else {
      assert RenderFrom(show, kids, k) == Render(show, kids[k]) + "";
    }
  }

  // ---------------------------------------------------------------- the loops

  /** A walk that ends at the root never meets an invalid cell or a wild link on its way. */
  lemma Going(h: Heap, show: ScalarText, start: WState, i: nat, total: nat, end: WState)
    requires i <= total && WRun(h, show, start, total) == end && !end.entering && Points(h, end.current) && Load(h, end.current).parent == Null
    ensures var s := WRun(h, show, start, i);
            && Points(h, s.current)
            && (s.entering ==> i < total && CellValid(h, s.current) && Readable(h, Load(h, s.current)))
            && (!s.entering && Load(h, s.current).parent != Null ==> i < total && Points(h, Load(h, s.current).parent))
            && (!s.entering && Load(h, s.current).parent == Null ==> s == end)
  {
    hide *;
    var s := WRun(h, show, start, i);
    if WStep(h, show, s) == s {
      WStuck(h, show, s, total - i);
      WRunAdd(h, show, start, i, total - i);
      assert s == end;
    }
    StepMoves(h, show, s);
    if i == total {
      WZero(h, show, s);
      WRunAdd(h, show, start, i, 0);
    }
  }

  lemma Plain(x: string)
    ensures "" + x == x
  {
  }

  lemma Brackets(x: string)
    ensures x + "[" + "]" == x + "[]"
  {
  }

  lemma StepMoves(h: Heap, show: ScalarText, s: WState)
    ensures WStep(h, show, s) != s ==>
              && Points(h, s.current)
              && (s.entering ==> CellValid(h, s.current) && Readable(h, Load(h, s.current)))
              && (!s.entering ==> Load(h, s.current).parent != Null && Points(h, Load(h, s.current).parent))
  {
    hide CellValid, AtomText;
  }

  lemma Next(h: Heap, show: ScalarText, start: WState, i: nat)
    ensures WRun(h, show, start, i + 1) == WStep(h, show, WRun(h, show, start, i))
  {
  }

  /** src/rewrite_c_runtime.cpp:1669-1695. */
  method CheckCell(h: Heap, p: Ptr) returns (ok: bool)
    requires Points(h, p)
    ensures ok <==> CellValid(h, p)
  {
    var c := Load(h, p);
    match c.kind
    case CScalar => ok := ValidScalarType(c.element) && c.count == 1 && c.data == 0 && c.cleanup == 0;
    case CVector => ok := ValidScalarType(c.element) && (c.count == 0 || c.data != 0) && c.cleanup == 0;
    case CTuple =>
      if (c.count == 0) != (c.data == 0) || c.cleanup != c.count {
        return false;
      }
      for k := 0 to c.count
        invariant Linked(h, p, c.data, k)
      {
        if !Points(h, At(c.data, k)) || Load(h, At(c.data, k)).parent != p || Load(h, At(c.data, k)).parentIndex != k {
          return false;
        }
      }
      ok := true;
  }

  /** A fan-out that still waits for elements is not a valid value. */
  lemma UnfinishedInvalid(h: Heap, p: Ptr, kids: seq<ValueTree>, size: nat)
    requires Points(h, p) && PartHolds(h, p, kids, size) && |kids| < size
    ensures !CellValid(h, p)
  {
  }

  /** src/rewrite_c_runtime.cpp:1697-1712: climb until there is a right neighbour; `more` tells whether there was one. */
  method Climb(h: Heap, show: ScalarText, from: Ptr, ghost start: WState, ghost total: nat, ghost end: WState, ghost at: nat, text: string)
    returns (more: bool, current: Ptr, text': string, ghost i: nat)
    requires at <= total && WRun(h, show, start, total) == end && !end.entering && Points(h, end.current) && Load(h, end.current).parent == Null
    requires WRun(h, show, start, at) == WState(from, false, text)
    ensures at <= i <= total && Points(h, current)
    ensures more ==> WRun(h, show, start, i) == WState(current, true, text') && at < i
    ensures !more ==> WState(current, false, text') == end
  {
    hide WRun, CellValid, Readable, AtomText;
    current, text', i := from, text, at;
    Going(h, show, start, i, total, end);
    while Load(h, current).parent != Null
      invariant at <= i <= total && Points(h, current) && WRun(h, show, start, i) == WState(current, false, text')
      decreases total - i
    {
      Going(h, show, start, i, total, end);
      Next(h, show, start, i);
      var parent, next := Load(h, current).parent, Load(h, current).parentIndex + 1;
      i := i + 1;
      if next < Load(h, parent).count {
        current, text' := At(Load(h, parent).data, next), text' + " ";
        Going(h, show, start, i, total, end);
        return true, current, text', i;
      }
      current, text' := parent, text' + "]";
      Going(h, show, start, i, total, end);
    }
    Going(h, show, start, i, total, end);
    more := false;
  }

  /** src/rewrite_c_runtime.cpp:1663-1713: a whole tree is a valid value exactly when it is a root. */
  method ValueValid(h: Heap, value: Ptr, ghost t: ValueTree) returns (ok: bool)
    requires Points(h, value) && Holds(h, value, t) && NoBlockZero(h)
    ensures ok <==> Load(h, value).parent == Null
  {
    if Load(h, value).parent != Null {
      return false;
    }
    var silent: ScalarText := _ => "";
    ghost var start, total, end := WState(value, true, ""), WSteps(t), WState(value, false, "" + Render(silent, t));
    Walk(h, silent, value, t, "");
    hide Holds, WRun, Render, WSteps, CellValid, AtomText;
    var current := value;
    ghost var i, text := 0, "";
    assert WRun(h, silent, start, 0) == start by { WZero(h, silent, start); }
    while true
      invariant i <= total && WRun(h, silent, start, i) == WState(current, true, text)
      decreases total - i
    {
      Going(h, silent, start, i, total, end);
      var sound := CheckCell(h, current);
      if !sound {
        assert false; // every cell of the tree is valid
      }
      Next(h, silent, start, i);
      var c := Load(h, current);
      i := i + 1;
      if c.kind == CTuple && c.count != 0 {
        current, text := At(c.data, 0), text + "[";
        continue;
      }
      text := text + (if c.kind == CTuple then "[]" else AtomText(h, silent, c));
      current, text, i := ClimbSilently(h, silent, current, start, total, end, i, text);
      if Load(h, current).parent == Null {
        return true;
      }
    }
  }

  /** src/rewrite_c_runtime.cpp:1700-1708: to the next right neighbour on the way up, or to the root. */
  method ClimbSilently(h: Heap, show: ScalarText, from: Ptr, ghost start: WState, ghost total: nat, ghost end: WState, ghost at: nat, ghost text: string)
    returns (current: Ptr, ghost text': string, ghost i: nat)
    requires at <= total && WRun(h, show, start, total) == end && !end.entering && Points(h, end.current) && Load(h, end.current).parent == Null
    requires WRun(h, show, start, at) == WState(from, false, text)
    ensures at <= i <= total && Points(h, current)
    ensures Load(h, current).parent != Null ==> WRun(h, show, start, i) == WState(current, true, text')
  {
    hide WRun, CellValid, Readable, AtomText;
    current, text', i := from, text, at;
    Going(h, show, start, i, total, end);
    while Load(h, current).parent != Null
      invariant at <= i <= total && Points(h, current) && WRun(h, show, start, i) == WState(current, false, text')
      decreases total - i
    {
      Going(h, show, start, i, total, end);
      Next(h, show, start, i);
      var parent, next := Load(h, current).parent, Load(h, current).parentIndex + 1;
      i := i + 1;
      if next < Load(h, parent).count {
        current, text' := At(Load(h, parent).data, next), text' + " ";
        Going(h, show, start, i, total, end);
        return;
      }
      current, text' := parent, text' + "]";
      Going(h, show, start, i, total, end);
    }
  }

  lemma WZero(h: Heap, show: ScalarText, s: WState)
    ensures WRun(h, show, s, 0) == s
  {
  }

  // ---------------------------------------------------------------- printing

  /** src/rewrite_c_runtime.cpp:1715-1734. */
  method PrintAtom(h: Heap, show: ScalarText, p: Ptr) returns (text: string)
    requires Points(h, p) && Load(h, p).kind != CTuple && Readable(h, Load(h, p))
    ensures text == AtomText(h, show, Load(h, p))
  {
    var c := Load(h, p);
    if c.kind == CScalar {
      return show(c.scalar);
    }
    text := "(";
    ghost var xs := if c.count == 0 then [] else h.blocks[c.data];
    for k := 0 to c.count
      invariant text + RenderElements(show, c.element, xs, k) == "(" + RenderElements(show, c.element, xs, 0)
    {
      ghost var before, rest := text, RenderElements(show, c.element, xs, k + 1);
      if k != 0 {
        text := text + " ";
      }
      var one := show(Lifting.Loaded(c.element, h.blocks[c.data][k]));
      text := text + one;
      assert text + rest == before + ((if k == 0 then "" else " ") + one + rest);
    }
    assert text + "" == text;
    text := text + ")";
  }

  /**
   src/rewrite_c_runtime.cpp:1736-1779: what is printed for a root is the rendering of its tree and a newline; a
   value that is not a root is refused before anything is written.
   */
  method PrintValue(h: Heap, show: ScalarText, value: Ptr, ghost t: ValueTree) returns (ok: bool, text: string)
    requires Points(h, value) && Holds(h, value, t) && NoBlockZero(h)
    ensures ok <==> Load(h, value).parent == Null
    ensures text == if ok then Render(show, t) + "\n" else ""
  {
    hide Holds, WRun, Render, WSteps, AtomText, CellValid, NoBlockZero;
    text := "";
    ok := ValueValid(h, value, t);
    if !ok {
      return;
    }
    ghost var start, total, end := WState(value, true, ""), WSteps(t), WState(value, false, "" + Render(show, t));
    Walk(h, show, value, t, "");
    WZero(h, show, start);
    Plain(Render(show, t));
    var current := value;
    ghost var i := 0;
    while true
      invariant i <= total && WRun(h, show, start, i) == WState(current, true, text)
      decreases total - i
    {
      Going(h, show, start, i, total, end);
      Next(h, show, start, i);
      var c := Load(h, current);
      i := i + 1;
      ghost var before := text;
      if c.kind == CTuple {
        text := text + "[";
        if c.count != 0 {
          current := At(c.data, 0);
          continue;
        }
        text := text + "]";
        Brackets(before);
      } else {
        var atom := PrintAtom(h, show, current);
        text := text + atom;
      }
      var more;
      more, current, text, i := Climb(h, show, current, start, total, end, i, text);
      if !more {
        text := text + "\n";
        return;
      }
    }
  }
}
