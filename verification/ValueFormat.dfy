/** src/value.cpp:1256-1283, 1594-1838: writing a value with an explicit stack, its text and its capacities. */
module ValueFormat {
  import opened Kinds
  import opened Arena
  import opened ArenaFormat
  import opened Sums
  import opened HostStorage
  import opened ValueArenas
  import opened ValueElements
  import opened ValueWalk
  import opened ValueTotals
  import opened ValueTuple
  import opened ValueText
  import ArenaGraft
  import Lifting

  datatype ValueFormatResult = FormattedValue(text: string) | UnformattableValue | ValueTooLarge

  const VALUE_STYLE := Style("[", " ", "]")

  /** No number is longer than the buffer it is converted in (src/value.cpp:205, 268). */
  ghost predicate ShortTexts(show: ScalarText) {
    forall s: ScalarValue :: |show(s)| <= 64
  }

  // ---------------------------------------------------------------- how the nodes of a value are written

  ghost function ValueTexts(v: TupleValue, show: ScalarText): (r: seq<string>)
    requires Structured(v)
    ensures |r| == NodeCount(v) && forall i: nat :: i < |r| ==> r[i] == Render(show, ValueAt(v, i))
  {
    seq(NodeCount(v), i requires 0 <= i < NodeCount(v) => Render(show, ValueAt(v, i)))
  }

  ghost function BranchNodes(v: TupleValue): (r: seq<bool>)
    ensures |r| == NodeCount(v) && forall i: nat :: i < |r| ==> r[i] == (ContainerOf(v, i) == TupleC)
  {
    seq(NodeCount(v), i requires 0 <= i < NodeCount(v) => ContainerOf(v, i) == TupleC)
  }

  lemma RenderStep(show: ScalarText, kids: seq<ValueTree>, k: nat)
    requires k < |kids|
    ensures RenderFrom(show, kids, k) == Render(show, kids[k]) + (if k + 1 < |kids| then " " + RenderFrom(show, kids, k + 1) else "")
  {
  }

  lemma Assembled(a: string, b: string)
    ensures a + (" " + (b + "]")) == (a + (" " + b)) + "]"
    ensures a + "]" == (a + "") + "]"
  {
  }

  lemma StyleIs()
    ensures VALUE_STYLE.before == "[" && VALUE_STYLE.separator == " " && VALUE_STYLE.after == "]"
  {
  }

  /** Joining the elements' texts is rendering them. */
  lemma {:induction false} JoinRenders(texts: seq<string>, kids: seq<nat>, show: ScalarText, trees: seq<ValueTree>, k: nat)
    requires k < |kids| == |trees| && InTexts(texts, kids) && forall j :: 0 <= j < |kids| ==> texts[kids[j]] == Render(show, trees[j])
    ensures Join(texts, kids, VALUE_STYLE, k) == if k == 0 then RenderFrom(show, trees, k) + "]" else " " + (RenderFrom(show, trees, k) + "]")
    decreases |kids| - k
  {
    hide *;
    StyleIs();
    JoinStep(texts, kids, VALUE_STYLE, k);
    RenderStep(show, trees, k);
    var first, rest := Render(show, trees[k]), Join(texts, kids, VALUE_STYLE, k + 1);
    if k + 1 < |kids| {
      JoinRenders(texts, kids, show, trees, k + 1);
      Assembled(first, RenderFrom(show, trees, k + 1));
    } else {
      JoinStep(texts, kids, VALUE_STYLE, k + 1);
      Assembled(first, "");
    }
    assert first + rest == RenderFrom(show, trees, k) + "]";
  }

  lemma RenderTuple(show: ScalarText, t: ValueTree)
    requires t.tag == TupleBranch
    ensures t.kids == [] ==> Render(show, t) == "[" + "]"
    ensures t.kids != [] ==> Render(show, t) == "[" + (RenderFrom(show, t.kids, 0) + "]")
  {
    hide RenderFrom;
  }

  /** What node `i` denotes. */
  lemma ValueShows(v: TupleValue, i: nat)
    requires Structured(v) && i < NodeCount(v)
    ensures SlotExists(v, SlotOf(v, i)) && ValueAt(v, i).tag == ValueTagAt(v, i)
    ensures SpanInRange(TableOf(v), i) && |ValueAt(v, i).kids| == |Kids(TableOf(v), i)|
    ensures forall k :: 0 <= k < |Kids(TableOf(v), i)| ==>
              Kids(TableOf(v), i)[k] < i && ValueAt(v, i).kids[k] == ValueAt(v, Kids(TableOf(v), i)[k])
    ensures ContainerOf(v, i) != TupleC ==> Kids(TableOf(v), i) == []
    ensures ContainerOf(v, i) == TupleC <==> ValueTagAt(v, i) == TupleBranch
  {
    assert NodeFieldsOk(v, i) && SlotExists(v, SlotOf(v, i)) && TableOf(v).spans[i] == SpanOf(v, i);
    hide SlotsUnshared, SlotsUsed, StoragesDistinct;
    ArenaGraft.DenoteKids(TableOf(v), ValueTags(v), i);
  }

  lemma ValueTextsOk(v: TupleValue, show: ScalarText)
    requires Structured(v)
    ensures TextsOk(TableOf(v), ValueTexts(v, show), VALUE_STYLE, BranchNodes(v))
  {
    hide Structured, NodeText, WellFormed;
    StructuredShape(v);
    forall i: nat | i < NodeCount(v) ensures NodeText(TableOf(v), ValueTexts(v, show), VALUE_STYLE, BranchNodes(v), i) {
      ValueNodeText(v, show, i);
    }
  }

  lemma ValueNodeText(v: TupleValue, show: ScalarText, i: nat)
    requires Structured(v) && i < NodeCount(v) && |TableOf(v).spans| == NodeCount(v)
    ensures NodeText(TableOf(v), ValueTexts(v, show), VALUE_STYLE, BranchNodes(v), i)
  {
    hide Render, RenderFrom, Join, ValueAt, WellFormed, Structured, ContainerOf, ValueTagAt, SlotOf, SlotExists, Kids;
    ValueShows(v, i);
    var kids, trees := Kids(TableOf(v), i), ValueAt(v, i).kids;
    if BranchNodes(v)[i] {
      RenderTuple(show, ValueAt(v, i));
      JoinStep(ValueTexts(v, show), kids, VALUE_STYLE, 0);
      if kids != [] { JoinRenders(ValueTexts(v, show), kids, show, trees, 0); }
    }
  }

  lemma StructuredShape(v: TupleValue)
    requires Structured(v)
    ensures WellFormed(TableOf(v)) && |TableOf(v).spans| == NodeCount(v) && v.rootIndex == Root(TableOf(v)) == |v.nodes|
    ensures TableOf(v).edges == v.childIndexes
  {
  }

  // ---------------------------------------------------------------- how long the text is

  /** Elements of the vector that node `i` owns. */
  function LengthAt(v: TupleValue, i: nat): nat
    requires i < NodeCount(v) && SlotExists(v, SlotOf(v, i))
  {
    match SlotOf(v, i)
    case PayloadSlot(k) => |v.payloads[k].elements|
    case _ => 0
  }

  ghost function PayloadLengths(v: TupleValue): (r: seq<nat>)
    ensures |r| == |v.payloads| && forall k :: 0 <= k < |r| ==> r[k] == |v.payloads[k].elements|
  {
    seq(|v.payloads|, k requires 0 <= k < |v.payloads| => |v.payloads[k].elements|)
  }

  /** What the first `n` nodes may take up. */
  ghost function NodeRooms(v: TupleValue, n: nat): (r: seq<nat>)
    requires SlotsExist(v) && n <= NodeCount(v)
    ensures |r| == n && forall i: nat :: i < n ==> r[i] == 68 + 65 * LengthAt(v, i)
  {
    seq(n, i requires 0 <= i < n => 68 + 65 * LengthAt(v, i))
  }

  ghost function Upto(n: nat): (r: seq<nat>)
    ensures |r| == n && forall i :: 0 <= i < n ==> r[i] == i
  {
    seq(n, i => i)
  }

  lemma NodeRoomsStep(v: TupleValue, n: nat)
    requires SlotsExist(v) && n < NodeCount(v)
    ensures SlotExists(v, SlotOf(v, n)) && NodeRooms(v, n + 1) == NodeRooms(v, n) + [68 + 65 * LengthAt(v, n)]
    ensures Upto(n + 1) == Upto(n) + [n] && InTable(v, Upto(n)) && InTable(v, Upto(n + 1))
  {
    assert SlotExists(v, SlotOf(v, n));
    hide SlotOf, SlotExists, LengthAt;
  }

  /** One more node picks one more payload, or none. */
  lemma LengthsStep(v: TupleValue, nodes: seq<nat>, i: nat)
    requires SlotsExist(v) && InTable(v, nodes) && i < NodeCount(v) && InTable(v, nodes + [i]) && SlotExists(v, SlotOf(v, i))
    ensures PickSum(PayloadLengths(v), PayloadsAt(v, nodes + [i])) == PickSum(PayloadLengths(v), PayloadsAt(v, nodes)) + LengthAt(v, i)
  {
    IndexesSnoc(v, nodes, i);
    hide PayloadsAt, PickSum, InTable, SlotsExist;
    if SlotOf(v, i).PayloadSlot? { PickSnoc(PayloadLengths(v), PayloadsAt(v, nodes), SlotOf(v, i).index); }
  }

  lemma NoRooms(v: TupleValue)
    requires SlotsExist(v)
    ensures NodeRooms(v, 0) == [] && Upto(0) == [] && InTable(v, Upto(0)) && PickSum(PayloadLengths(v), PayloadsAt(v, Upto(0))) == 0
  {
    assert Upto(0) == [];
  }

  lemma {:induction false} RoomsSum(v: TupleValue, n: nat)
    requires SlotsExist(v) && n <= NodeCount(v)
    ensures InTable(v, Upto(n)) && Sum(NodeRooms(v, n)) == 68 * n + 65 * PickSum(PayloadLengths(v), PayloadsAt(v, Upto(n)))
  {
    hide *;
    if n == 0 {
      NoRooms(v);
      SumSnoc([], 0);
    } else {
      var k := n - 1;
      RoomsSum(v, k);
      NodeRoomsStep(v, k);
      LengthsStep(v, Upto(k), k);
      SumSnoc(NodeRooms(v, k), 68 + 65 * LengthAt(v, k));
    }
  }

  /** The characters that the source sets aside. */
  ghost function TextRoom(v: TupleValue): nat {
    66 * NodeCount(v) + 2 * |v.childIndexes| + 65 * Sum(PayloadLengths(v))
  }

  lemma AllRooms(v: TupleValue)
    requires Structured(v)
    ensures SlotsExist(v) && Sum(NodeRooms(v, NodeCount(v))) == 68 * NodeCount(v) + 65 * Sum(PayloadLengths(v))
  {
    var all := Upto(NodeCount(v));
    RoomsSum(v, NodeCount(v));
    forall i: nat | i < NodeCount(v) ensures i in all {
      assert all[i] == i;
    }
    assert Distinct(all);
    PayloadsAtDistinct(v, all);
    AllSlotsMet(v, all);
    hide Structured, PayloadsAt, PickSum, Sum, SlotsExist, Upto;
    PickAll(PayloadLengths(v), PayloadsAt(v, all));
  }

  lemma {:induction false} ElementsLength(show: ScalarText, element: ScalarType, xs: seq<int>, k: nat)
    requires ShortTexts(show) && k <= |xs|
    ensures |RenderElements(show, element, xs, k)| <= 65 * (|xs| - k)
    decreases |xs| - k
  {
    if k < |xs| { ElementsLength(show, element, xs, k + 1); }
  }

  lemma AtomLength(show: ScalarText, tag: ValueTag)
    requires ShortTexts(show)
    ensures |RenderAtom(show, tag)| <= match tag case VectorLeaf(_, xs) => 66 + 65 * |xs| case _ => 66
  {
    hide RenderElements;
    match tag
    case ScalarLeaf(s) =>
    case VectorLeaf(element, xs) => ElementsLength(show, element, xs, 0);
    case TupleBranch =>
  }

  lemma LeafRenders(v: TupleValue, show: ScalarText, i: nat)
    requires Structured(v) && i < NodeCount(v) && ContainerOf(v, i) != TupleC
    ensures SlotExists(v, SlotOf(v, i)) && Render(show, ValueAt(v, i)) == RenderAtom(show, ValueTagAt(v, i))
    ensures SpanInRange(TableOf(v), i) && Kids(TableOf(v), i) == []
    ensures ShortTexts(show) ==> |RenderAtom(show, ValueTagAt(v, i))| <= 66 + 65 * LengthAt(v, i)
  {
    ValueShows(v, i);
    assert NodeFieldsOk(v, i);
    if ShortTexts(show) { AtomLength(show, ValueTagAt(v, i)); }
    hide Structured, RenderAtom, ValueAt, ShortTexts;
  }

  lemma TextFits(v: TupleValue, show: ScalarText)
    requires Structured(v) && ShortTexts(show)
    ensures |Render(show, ValueOf(v))| <= TextRoom(v)
  {
    StructuredShape(v);
    AllRooms(v);
    ValueTextsOk(v, show);
    var s, w := TableOf(v), NodeRooms(v, NodeCount(v));
    EdgeCount(s);
    forall j: nat | j < |w| ensures (if BranchNodes(v)[j] then 2 else |ValueTexts(v, show)[j]|) + 2 <= w[j] {
      if !BranchNodes(v)[j] { LeafRenders(v, show, j); }
    }
    hide TextsOk, Structured, Render, ValueAt, ShortTexts, Sum, LengthAt, SlotsExist;
    WholeLength(s, ValueTexts(v, show), VALUE_STYLE, BranchNodes(v), w);
  }

  // ---------------------------------------------------------------- the formatter

  /** The value is valid and its capacities are machine sizes. */
  ghost predicate Formattable(buffers: seq<HostBuffer>, owners: set<nat>, e: Value) {
    && ValidElementValue(buffers, owners, e)
    && match e
       case ScalarV(_) => true
       case VectorV(p) => 66 + 65 * |p.elements| <= SIZE_MAX
       case TupleV(t) => TextRoom(t) <= SIZE_MAX
  }

  /**
   src/value.cpp:1594-1838.  The text is the recursive rendering of the value.  Past the size checks neither the
   text buffer nor the action stack can fill up.
   */
  method FormatValue(buffers: seq<HostBuffer>, owners: set<nat>, e: Value, show: ScalarText) returns (r: ValueFormatResult)
    requires ShortTexts(show)
    ensures r.FormattedValue? <==> Formattable(buffers, owners, e)
    ensures r.FormattedValue? ==> r.text == Render(show, ElementTree(buffers, owners, e))
    ensures r == UnformattableValue <==> !ValidElementValue(buffers, owners, e)
  {
    var valid := ValidateElement(buffers, owners, e);
    if !valid {
      return UnformattableValue;
    }
    match e
    case ScalarV(s) =>
      AtomLength(show, ScalarLeaf(s));
      var buffer := new char[66];
      var ok, used := AppendText(buffer, 0, show(s));
      assert buffer[..0] == "" && "" + show(s) == show(s);
      return FormattedValue(buffer[..used]);
    case VectorV(p) =>
      if |p.elements| > (SIZE_MAX - 66) / 65 {
        return ValueTooLarge;
      }
      AtomLength(show, VectorLeaf(p.element, p.elements));
      var buffer := new char[66 + 65 * |p.elements|];
      var used := AppendVector(buffer, 0, p.element, p.elements, show);
      assert buffer[..used] == [] + RenderAtom(show, VectorLeaf(p.element, p.elements));
      return FormattedValue(buffer[..used]);
    case TupleV(t) =>
      r := FormatTuple(t, show);
  }

  /** src/value.cpp:1256-1283. */
  method AppendVector(buffer: array<char>, used: nat, element: ScalarType, xs: seq<int>, show: ScalarText) returns (used': nat)
    requires used + |RenderAtom(show, VectorLeaf(element, xs))| <= buffer.Length
    modifies buffer
    ensures used' <= buffer.Length && buffer[..used'] == old(buffer[..used]) + RenderAtom(show, VectorLeaf(element, xs))
  {
    hide RenderElements;
    ghost var start, whole := buffer[..used], RenderElements(show, element, xs, 0);
    var ok;
    ok, used' := AppendText(buffer, used, "(");
    for k := 0 to |xs|
      invariant used' + |RenderElements(show, element, xs, k)| + 1 <= buffer.Length
      invariant buffer[..used'] + RenderElements(show, element, xs, k) == (start + "(") + whole
    {
      used' := AppendElement(buffer, used', element, xs, k, show);
    }
    NoElements(show, element, xs);
    assert buffer[..used'] + "" == buffer[..used'];
    ok, used' := AppendText(buffer, used', ")");
    assert ((start + "(") + whole) + ")" == start + ("(" + whole + ")");
  }

  lemma NoElements(show: ScalarText, element: ScalarType, xs: seq<int>)
    ensures RenderElements(show, element, xs, |xs|) == ""
  {
  }

  method AppendElement(buffer: array<char>, used: nat, element: ScalarType, xs: seq<int>, k: nat, show: ScalarText) returns (used': nat)
    requires k < |xs| && used + |RenderElements(show, element, xs, k)| + 1 <= buffer.Length
    modifies buffer
    ensures used' + |RenderElements(show, element, xs, k + 1)| + 1 <= buffer.Length
    ensures buffer[..used'] + RenderElements(show, element, xs, k + 1) == old(buffer[..used]) + RenderElements(show, element, xs, k)
  {
    ghost var before := buffer[..used];
    var text := show(Lifting.Loaded(element, xs[k]));
    ElementWritten(show, element, xs, k, before, before + (if k == 0 then "" else " ") + text);
    hide RenderElements;
    used' := used;
    var ok;
    if k != 0 {
      ok, used' := AppendText(buffer, used', " ");
    }
    ok, used' := AppendText(buffer, used', text);
    assert k == 0 ==> before + "" == before;
  }

  lemma ElementWritten(show: ScalarText, element: ScalarType, xs: seq<int>, k: nat, before: string, after: string)
    requires k < |xs| && after == before + (if k == 0 then "" else " ") + show(Lifting.Loaded(element, xs[k]))
    ensures after + RenderElements(show, element, xs, k + 1) == before + RenderElements(show, element, xs, k)
    ensures |after| + |RenderElements(show, element, xs, k + 1)| == |before| + |RenderElements(show, element, xs, k)|
  {
    var x, s, r := show(Lifting.Loaded(element, xs[k])), if k == 0 then "" else " ", RenderElements(show, element, xs, k + 1);
    assert (before + s + x) + r == before + (s + x + r);
  }

  /** src/value.cpp:1618-1671: the capacities; a sum that is no machine size is refused on the way. */
  method TextCapacity(t: TupleValue) returns (ok: bool, capacity: nat)
    requires |t.childIndexes| == |t.nodes|
    ensures ok <==> TextRoom(t) <= SIZE_MAX
    ensures ok ==> capacity == TextRoom(t)
  {
    capacity := 0;
    if |t.nodes| == SIZE_MAX || |t.nodes| + 1 > SIZE_MAX / 66 {
      return false, capacity;
    }
    capacity := (|t.nodes| + 1) * 66;
    if |t.childIndexes| > (SIZE_MAX - capacity) / 2 {
      return false, capacity;
    }
    capacity := capacity + |t.childIndexes| * 2;
    ghost var lengths, base := PayloadLengths(t), capacity;
    for k := 0 to |t.payloads|
      invariant capacity == base + 65 * Sum(lengths[..k]) <= SIZE_MAX
    {
      assert lengths[..k + 1][..k] == lengths[..k];
      SumGrows(lengths, k + 1);
      if |t.payloads[k].elements| > (SIZE_MAX - capacity) / 65 {
        return false, capacity;
      }
      capacity := capacity + |t.payloads[k].elements| * 65;
    }
    assert lengths[..|lengths|] == lengths;
    if |t.childIndexes| > (SIZE_MAX - |t.nodes| - 1) / 2 {
      assert false; // the text is longer than the stack
    }
    ok := true;
  }

  method FormatTuple(t: TupleValue, show: ScalarText) returns (r: ValueFormatResult)
    requires Structured(t) && ShortTexts(show)
    ensures r.FormattedValue? <==> TextRoom(t) <= SIZE_MAX
    ensures r == if TextRoom(t) <= SIZE_MAX then FormattedValue(Render(show, ValueOf(t))) else ValueTooLarge
  {
    StructuredShape(t);
    EdgeCount(TableOf(t));
    hide Structured, Render, ValueOf, ValueAt, ShortTexts, WellFormed, TextRoom;
    var ok, capacity := TextCapacity(t);
    if !ok {
      return ValueTooLarge;
    }
    r := WriteActions(t, show, capacity, |t.nodes| + |t.childIndexes| * 2 + 1);
  }

  /** src/value.cpp:1729-1833. */
  method WriteActions(t: TupleValue, show: ScalarText, textCapacity: nat, stackCapacity: nat) returns (r: ValueFormatResult)
    requires Structured(t) && ShortTexts(show) && textCapacity == TextRoom(t)
    requires stackCapacity == |t.nodes| + 2 * |t.childIndexes| + 1
    ensures r == FormattedValue(Render(show, ValueOf(t)))
  {
    hide Structured, Render, ValueAt, ShortTexts, WellFormed, TextRoom, FormatInv, TextsOk, ValueTexts;
    StructuredShape(t);
    FormatStart(TableOf(t), ValueTexts(t, show));
    var buffer := new char[textCapacity];
    var stack := new FormatAction[stackCapacity];
    var used: nat, size: nat := 0, 0;
    var ok;
    ok, size := PushAction(stack, size, FormatNode(t.rootIndex));
    ghost var seen: set<nat> := {};
    assert buffer[..used] == "" && stack[..size] == [FormatNode(t.rootIndex)];
    while size != 0
      invariant used <= buffer.Length && size <= stack.Length
      invariant FormatInv(TableOf(t), ValueTexts(t, show), seen, stack[..size], buffer[..used])
      decreases NodeCount(t) - |seen|, size
    {
      used, size, seen := FormatStep(t, show, buffer, used, stack, size, seen);
    }
    assert stack[..0] == [];
    FormatEnd(TableOf(t), ValueTexts(t, show), seen, buffer[..used]);
    return FormattedValue(buffer[..used]);
  }

  method FormatStep(t: TupleValue, show: ScalarText, buffer: array<char>, used: nat, stack: array<FormatAction>, size: nat, ghost seen: set<nat>)
    returns (used': nat, size': nat, ghost seen': set<nat>)
    requires Structured(t) && ShortTexts(show) && used <= buffer.Length && 0 < size <= stack.Length
    requires FormatInv(TableOf(t), ValueTexts(t, show), seen, stack[..size], buffer[..used])
    requires buffer.Length == TextRoom(t) && stack.Length == |t.nodes| + 2 * |t.childIndexes| + 1
    modifies buffer, stack
    ensures used' <= buffer.Length && size' <= stack.Length
    ensures FormatInv(TableOf(t), ValueTexts(t, show), seen', stack[..size'], buffer[..used'])
    ensures (seen' == seen && size' < size) || |seen| < |seen'| <= NodeCount(t)
  {
    hide FormatInv, Structured, ValueTexts, Render, ValueAt, ShortTexts, TextRoom;
    var action := stack[size - 1];
    used', size', seen' := used, size - 1, seen;
    ghost var rest, text := stack[..size'], buffer[..used];
    assert stack[..size] == rest + [action];
    match action {
      case FormatText(x) =>
        PopText(TableOf(t), ValueTexts(t, show), seen, rest, x, text);
        RoomFor(t, show, seen, rest, text + x);
        var ok;
        ok, used' := AppendText(buffer, used, x);
      case FormatNode(i) =>
        TopNode(TableOf(t), ValueTexts(t, show), seen, rest, i, text);
        used', size' := WriteNode(t, show, i, buffer, used, stack, size', seen);
        seen' := seen + {i};
    }
  }

  /** What was written fits the buffer, and what is stacked the stack. */
  lemma RoomFor(t: TupleValue, show: ScalarText, seen: set<nat>, stack: seq<FormatAction>, text: string)
    requires Structured(t) && ShortTexts(show) && FormatInv(TableOf(t), ValueTexts(t, show), seen, stack, text)
    ensures |text| <= TextRoom(t) && |stack| <= |t.nodes| + 2 * |t.childIndexes| + 1
  {
    hide FormatInv, Structured, Render, ShortTexts, TextRoom;
    FormatFits(TableOf(t), ValueTexts(t, show), seen, stack, text);
    TextFits(t, show);
    StructuredShape(t);
  }

  /** src/value.cpp:1751-1820: write a leaf, or open a tuple and push its elements. */
  method WriteNode(t: TupleValue, show: ScalarText, i: nat, buffer: array<char>, used: nat, stack: array<FormatAction>, size: nat,
                   ghost seen: set<nat>)
    returns (used': nat, size': nat)
    requires Structured(t) && ShortTexts(show) && used <= buffer.Length && size <= stack.Length && i < NodeCount(t)
    requires FormatInv(TableOf(t), ValueTexts(t, show), seen, stack[..size] + [FormatNode(i)], buffer[..used])
    requires buffer.Length == TextRoom(t) && stack.Length == |t.nodes| + 2 * |t.childIndexes| + 1
    modifies buffer, stack
    ensures used' <= buffer.Length && size' <= stack.Length
    ensures FormatInv(TableOf(t), ValueTexts(t, show), seen + {i}, stack[..size'], buffer[..used'])
  {
    hide FormatInv, Structured, Render, RenderAtom, ValueAt, ShortTexts, TextRoom, TextsOk, TupleActions, ValueTagAt;
    ghost var rest, text := stack[..size], buffer[..used];
    used', size' := used, size;
    ValueShows(t, i);
    if ContainerOf(t, i) != TupleC {
      LeafRenders(t, show, i);
      ghost var atom := RenderAtom(show, ValueTagAt(t, i));
      PopLeaf(TableOf(t), ValueTexts(t, show), seen, rest, i, text);
      RoomFor(t, show, seen + {i}, rest, text + atom);
      used' := WriteLeaf(t, show, i, buffer, used);
    } else {
      ghost var pushed := TupleActions(VALUE_STYLE, Kids(TableOf(t), i), 0);
      ValueTextsOk(t, show);
      PopTuple(TableOf(t), ValueTexts(t, show), VALUE_STYLE, BranchNodes(t), seen, rest, i, text);
      RoomFor(t, show, seen + {i}, rest + pushed, text + "[");
      var ok;
      ok, used' := AppendText(buffer, used, "[");
      var span := SpanOf(t, i);
      ok, size' := PushTuple(stack, size, VALUE_STYLE, t.childIndexes, span.first, span.count);
    }
  }

  /** src/value.cpp:1756-1776. */
  method WriteLeaf(t: TupleValue, show: ScalarText, i: nat, buffer: array<char>, used: nat) returns (used': nat)
    requires i < NodeCount(t) && SlotExists(t, SlotOf(t, i)) && ContainerOf(t, i) != TupleC && ValueTagAt(t, i) != TupleBranch
    requires used + |RenderAtom(show, ValueTagAt(t, i))| <= buffer.Length
    modifies buffer
    ensures used' <= buffer.Length && buffer[..used'] == old(buffer[..used]) + RenderAtom(show, ValueTagAt(t, i))
  {
    if ContainerOf(t, i) == VectorC {
      var p := t.payloads[t.nodes[i].payload];
      used' := AppendVector(buffer, used, p.element, p.elements, show);
    } else {
      var ok;
      ok, used' := AppendText(buffer, used, show(t.nodes[i].scalar));
    }
  }
}
