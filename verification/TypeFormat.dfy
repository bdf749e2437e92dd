/** src/type.cpp:498-643: the explicit-stack formatter, its text and its capacities. */
module TypeFormat {
  import opened Kinds
  import opened Arena
  import opened ArenaFormat
  import opened Sums
  import opened TypeArenas
  import opened TypePrinter
  import opened TypeEquality

  datatype FormatResult = Formatted(text: string) | InvalidType(verdict: Verdict) | FormatSizeOverflow | CapacityExceeded

  const TYPE_STYLE := Style("Tuple<", ", ", ">")

  // ---------------------------------------------------------------- how the nodes of a type are written

  ghost function TypeTexts(t: TypeArena): (r: seq<string>)
    requires WellFormedType(t)
    ensures |r| == |TypeNodes(t)| && forall i :: 0 <= i < |r| ==> r[i] == Print(TypeAt(t, i))
  {
    seq(|TypeNodes(t)|, i requires 0 <= i < |TypeNodes(t)| => Print(TypeAt(t, i)))
  }

  ghost function TupleNodes(t: TypeArena): (r: seq<bool>)
    ensures |r| == |TypeNodes(t)| && forall i :: 0 <= i < |r| ==> r[i] == (TypeNodes(t)[i].kind == TupleKind)
  {
    seq(|TypeNodes(t)|, i requires 0 <= i < |TypeNodes(t)| => TypeNodes(t)[i].kind == TupleKind)
  }

  /** The elements from `k` on, each but the first with its separator. */
  ghost function PrintFrom(trees: seq<TypeTree>, k: nat): string
    requires k <= |trees|
  {
    if k == 0 then PrintAll(trees) else PrintRest(trees[k..])
  }

  lemma PrintSteps(trees: seq<TypeTree>, k: nat)
    requires k <= |trees|
    ensures k == |trees| ==> PrintFrom(trees, k) == ""
    ensures k < |trees| ==>
              var rest := Print(trees[k]) + PrintFrom(trees, k + 1);
              PrintFrom(trees, k) == if k == 0 then rest else ", " + rest
  {
    if k < |trees| {
      assert trees[k..][0] == trees[k] && trees[k..][1..] == trees[k + 1..];
      Joined(", ", Print(trees[k]), PrintRest(trees[k + 1..]));
    }
  }

  /** Joining the elements' texts is printing them. */
  lemma {:induction false} JoinPrints(texts: seq<string>, kids: seq<nat>, trees: seq<TypeTree>, k: nat)
    requires k <= |kids| == |trees| && InTexts(texts, kids) && forall j :: 0 <= j < |kids| ==> texts[kids[j]] == Print(trees[j])
    ensures Join(texts, kids, TYPE_STYLE, k) == PrintFrom(trees, k) + ">"
    decreases |kids| - k
  {
    hide *;
    PrintSteps(trees, k);
    JoinStep(texts, kids, TYPE_STYLE, k);
    StyleIs();
    if k < |kids| {
      JoinPrints(texts, kids, trees, k + 1);
      OneMore(Print(trees[k]), PrintFrom(trees, k + 1));
    } else {
      assert "" + ">" == ">";
    }
  }

  lemma StyleIs()
    ensures TYPE_STYLE.separator == ", " && TYPE_STYLE.after == ">" && TYPE_STYLE.before == "Tuple<"
  {
  }

  lemma OneMore(p: string, r: string)
    ensures p + (r + ">") == (p + r) + ">"
    ensures ", " + (p + (r + ">")) == (", " + (p + r)) + ">"
  {
  }

  lemma TypeTextsOk(t: TypeArena)
    requires WellFormedType(t)
    ensures TextsOk(ShapeOf(t), TypeTexts(t), TYPE_STYLE, TupleNodes(t))
  {
    hide Print, PrintAll, PrintRest, Join, TypeAt, WellFormed;
    forall i: nat | i < |TypeNodes(t)| ensures NodeText(ShapeOf(t), TypeTexts(t), TYPE_STYLE, TupleNodes(t), i) {
      NodeShows(t, i);
      var kids, trees := Kids(ShapeOf(t), i), TypeAt(t, i).kids;
      if TupleNodes(t)[i] {
        JoinPrints(TypeTexts(t), kids, trees, 0);
        TuplePrints(TypeAt(t, i));
      } else {
        assert FieldsOk(TypeNodes(t)[i]);
      }
    }
  }

  lemma TuplePrints(t: TypeTree)
    requires t.tag == TupleTag
    ensures Print(t) == "Tuple<" + (PrintAll(t.kids) + ">")
  {
    hide PrintAll;
  }

  ghost function LeafText(n: TypeNode): string {
    if n.kind == ScalarKind then ScalarTypeName(n.scalar) else "Vector<" + ScalarTypeName(n.scalar) + ">"
  }

  lemma LeafPrints(t: TypeArena, i: nat)
    requires WellFormedType(t) && i < |TypeNodes(t)| && TypeNodes(t)[i].kind != TupleKind
    ensures Print(TypeAt(t, i)) == LeafText(TypeNodes(t)[i]) && |LeafText(TypeNodes(t)[i])| <= 16
    ensures SpanInRange(ShapeOf(t), i) && Kids(ShapeOf(t), i) == []
  {
    assert FieldsOk(TypeNodes(t)[i]);
  }

  /** Sixteen characters for every node and two for every edge are enough. */
  lemma TextFits(t: TypeArena)
    requires WellFormedType(t)
    ensures |Print(TypeOf(t))| <= 16 * |TypeNodes(t)| + 2 * |t.childIndexes|
  {
    var s, w := ShapeOf(t), seq(|TypeNodes(t)|, _ => 18);
    TypeTextsOk(t);
    forall j: nat | j < |w| ensures (if TupleNodes(t)[j] then 7 else |TypeTexts(t)[j]|) + 2 <= w[j] {
      if !TupleNodes(t)[j] { LeafPrints(t, j); }
    }
    EdgeCount(s);
    hide Print, TextsOk, WellFormedType, TypeAt;
    WholeLength(s, TypeTexts(t), TYPE_STYLE, TupleNodes(t), w);
    SumConstant(w, 18);
    RootIs(t);
  }

  lemma RootIs(t: TypeArena)
    requires WellFormedType(t)
    ensures t.rootIndex == Root(ShapeOf(t)) < |TypeNodes(t)| && TypeTexts(t)[t.rootIndex] == Print(TypeOf(t)) && WellFormed(ShapeOf(t))
  {
    hide Print;
  }

  // ---------------------------------------------------------------- the formatter

  /**
   src/type.cpp:503-643.  The text is the recursive printed form of the denoted type.  Past the two size
   checks neither the text buffer nor the action stack can fill up.
   */
  method FormatType(t: TypeArena) returns (r: FormatResult)
    ensures r.Formatted? <==> Accepted(t) && 16 * |TypeNodes(t)| + 2 * |t.childIndexes| <= SIZE_MAX
    ensures r.Formatted? ==> r.text == Print(TypeOf(t))
    ensures r.InvalidType? <==> !Accepted(t)
    ensures r.InvalidType? ==> (r.verdict.Invalid? && !WellFormedType(t)) || (r.verdict == SizeOverflow && |t.childIndexes| == SIZE_MAX)
    ensures r != CapacityExceeded
  {
    var v := ValidateType(t);
    if v != Valid {
      if v.Invalid? { ViolationRefutes(t, v.reason, v.node, v.edge); }
      return InvalidType(v);
    }
    var nodes, edges := |TypeNodes(t)|, |t.childIndexes|;
    if nodes > SIZE_MAX / 16 || edges > (SIZE_MAX - nodes * 16) / 2 {
      return FormatSizeOverflow;
    }
    var textCapacity := nodes * 16 + edges * 2;
    if edges > (SIZE_MAX - nodes - 1) / 2 {
      return FormatSizeOverflow;
    }
    r := WriteActions(t, textCapacity, nodes + edges * 2 + 1);
  }

  method WriteActions(t: TypeArena, textCapacity: nat, stackCapacity: nat) returns (r: FormatResult)
    requires WellFormedType(t)
    requires textCapacity == 16 * |TypeNodes(t)| + 2 * |t.childIndexes|
    requires stackCapacity == |TypeNodes(t)| + 2 * |t.childIndexes| + 1
    ensures r == Formatted(Print(TypeOf(t)))
  {
    hide WellFormedType, Print, TypeOf, TypeAt, TextsOk, FormatInv, WellFormed, TypeTexts, ShapeOf;
    RootIs(t);
    FormatStart(ShapeOf(t), TypeTexts(t));
    var nodes := TypeNodes(t);
    var buffer := new char[textCapacity];
    var stack := new FormatAction[stackCapacity];
    var used: nat, size: nat := 0, 0;
    var ok;
    ok, size := PushAction(stack, size, FormatNode(t.rootIndex));
    ghost var seen: set<nat> := {};
    assert buffer[..used] == "" && stack[..size] == [FormatNode(t.rootIndex)];
    while size != 0
      invariant used <= buffer.Length && size <= stack.Length
      invariant FormatInv(ShapeOf(t), TypeTexts(t), seen, stack[..size], buffer[..used])
      decreases |nodes| - |seen|, size
    {
      used, size, seen := FormatStep(t, buffer, used, stack, size, seen);
    }
    assert stack[..0] == [];
    FormatEnd(ShapeOf(t), TypeTexts(t), seen, buffer[..used]);
    return Formatted(buffer[..used]);
  }

  method FormatStep(t: TypeArena, buffer: array<char>, used: nat, stack: array<FormatAction>, size: nat, ghost seen: set<nat>)
    returns (used': nat, size': nat, ghost seen': set<nat>)
    requires WellFormedType(t) && used <= buffer.Length && 0 < size <= stack.Length
    requires FormatInv(ShapeOf(t), TypeTexts(t), seen, stack[..size], buffer[..used])
    requires buffer.Length == 16 * |TypeNodes(t)| + 2 * |t.childIndexes|
    requires stack.Length == |TypeNodes(t)| + 2 * |t.childIndexes| + 1
    modifies buffer, stack
    ensures used' <= buffer.Length && size' <= stack.Length
    ensures FormatInv(ShapeOf(t), TypeTexts(t), seen', stack[..size'], buffer[..used'])
    ensures (seen' == seen && size' < size) || |seen| < |seen'| <= |TypeNodes(t)|
  {
    hide FormatInv, WellFormedType, TypeTexts, Print, TypeAt;
    var action := stack[size - 1];
    used', size', seen' := used, size - 1, seen;
    ghost var rest, text := stack[..size'], buffer[..used];
    assert stack[..size] == rest + [action];
    match action {
      case FormatText(x) =>
        PopText(ShapeOf(t), TypeTexts(t), seen, rest, x, text);
        RoomFor(t, seen, rest, text + x);
        var ok;
        ok, used' := AppendText(buffer, used, x);
      case FormatNode(i) =>
        TopNode(ShapeOf(t), TypeTexts(t), seen, rest, i, text);
        used', size' := WriteNode(t, i, buffer, used, stack, size', seen);
        seen' := seen + {i};
    }
  }

  /** What was written fits the buffer, and what is stacked the stack. */
  lemma RoomFor(t: TypeArena, seen: set<nat>, stack: seq<FormatAction>, text: string)
    requires WellFormedType(t) && FormatInv(ShapeOf(t), TypeTexts(t), seen, stack, text)
    ensures |text| <= 16 * |TypeNodes(t)| + 2 * |t.childIndexes| && |stack| <= |TypeNodes(t)| + |t.childIndexes|
  {
    hide FormatInv, WellFormedType, Print, TypeAt;
    FormatFits(ShapeOf(t), TypeTexts(t), seen, stack, text);
    TextFits(t);
    RootIs(t);
  }

  /** src/type.cpp:579-637: write a leaf, or open a tuple and push its elements. */
  method WriteNode(t: TypeArena, i: nat, buffer: array<char>, used: nat, stack: array<FormatAction>, size: nat, ghost seen: set<nat>)
    returns (used': nat, size': nat)
    requires WellFormedType(t) && used <= buffer.Length && size <= stack.Length && i < |TypeNodes(t)| && SpanInRange(ShapeOf(t), i)
    requires FormatInv(ShapeOf(t), TypeTexts(t), seen, stack[..size] + [FormatNode(i)], buffer[..used])
    requires buffer.Length == 16 * |TypeNodes(t)| + 2 * |t.childIndexes|
    requires stack.Length == |TypeNodes(t)| + 2 * |t.childIndexes| + 1
    modifies buffer, stack
    ensures used' <= buffer.Length && size' <= stack.Length
    ensures FormatInv(ShapeOf(t), TypeTexts(t), seen + {i}, stack[..size'], buffer[..used'])
  {
    hide FormatInv, WellFormedType, Print, TypeAt, TypeOf, TextsOk, TupleActions, FieldsOk, LeafText;
    var node := TypeNodes(t)[i];
    ghost var rest, text := stack[..size], buffer[..used];
    used', size' := used, size;
    if node.kind != TupleKind {
      LeafPrints(t, i);
      PopLeaf(ShapeOf(t), TypeTexts(t), seen, rest, i, text);
      RoomFor(t, seen + {i}, rest, text + LeafText(node));
      used' := WriteLeaf(buffer, used, node);
    } else {
      ghost var pushed := TupleActions(TYPE_STYLE, Kids(ShapeOf(t), i), 0);
      TypeTextsOk(t);
      PopTuple(ShapeOf(t), TypeTexts(t), TYPE_STYLE, TupleNodes(t), seen, rest, i, text);
      RoomFor(t, seen + {i}, rest + pushed, text + "Tuple<");
      var ok;
      ok, used' := AppendText(buffer, used, "Tuple<");
      ok, size' := PushTuple(stack, size, TYPE_STYLE, t.childIndexes, node.firstChild, node.childCount);
    }
  }

  /** src/type.cpp:580-603. */
  method WriteLeaf(buffer: array<char>, used: nat, node: TypeNode) returns (used': nat)
    requires node.kind != TupleKind && used + |LeafText(node)| <= buffer.Length
    modifies buffer
    ensures used' <= buffer.Length && buffer[..used'] == old(buffer[..used]) + LeafText(node)
  {
    var ok;
    if node.kind == ScalarKind {
      ok, used' := AppendText(buffer, used, ScalarTypeName(node.scalar));
      assert ok;
    } else {
      ghost var start := buffer[..used];
      ok, used' := AppendText(buffer, used, "Vector<");
      assert ok && buffer[..used'] == start + "Vector<";
      ok, used' := AppendText(buffer, used', ScalarTypeName(node.scalar));
      assert ok && buffer[..used'] == start + "Vector<" + ScalarTypeName(node.scalar);
      ok, used' := AppendText(buffer, used', ">");
      assert buffer[..used'] == start + LeafText(node);
    }
  }
}
