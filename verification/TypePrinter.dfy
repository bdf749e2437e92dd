/** The printed form of a type, and why no two types share one. */
module TypePrinter {
  import opened Kinds
  import opened Arena
  import opened TypeArenas

  function ScalarTypeName(s: ScalarType): string {
    match s
    case Boolean => "Bool"
    case Integer => "Int"
    case DoublePrecision => "Double"
    case UnknownScalar => ""
  }

  ghost function Print(t: TypeTree): string
    decreases t, 1
  {
    match t.tag
    case ScalarTag(s) => ScalarTypeName(s)
    case VectorTag(s) => "Vector<" + ScalarTypeName(s) + ">"
    case TupleTag => "Tuple<" + PrintAll(t.kids) + ">"
  }

  /** The elements, separated by a comma and a space. */
  ghost function PrintAll(ts: seq<TypeTree>): string
    decreases ts, 0
  {
    if ts == [] then "" else Print(ts[0]) + PrintRest(ts[1..])
  }

  ghost function PrintRest(ts: seq<TypeTree>): string
    decreases ts, 0
  {
    if ts == [] then "" else ", " + Print(ts[0]) + PrintRest(ts[1..])
  }

  // ---------------------------------------------------------------- injectivity

  lemma StartsWith(t: TypeTree)
    requires IsType(t)
    ensures |Print(t)| >= 3 && Print(t)[0] != '>'
    ensures t.tag == ScalarTag(Boolean) ==> Print(t)[0] == 'B'
    ensures t.tag == ScalarTag(Integer) ==> Print(t)[0] == 'I'
    ensures t.tag == ScalarTag(DoublePrecision) ==> Print(t)[0] == 'D'
    ensures t.tag.VectorTag? ==> Print(t)[0] == 'V'
    ensures t.tag == TupleTag ==> Print(t)[0] == 'T'
  {
  }

  lemma CancelPrefix(p: string, x: string, y: string)
    requires p + x == p + y
    ensures x == y
  {
    assert x == (p + x)[|p|..] && y == (p + y)[|p|..];
  }

  /** A printed type is self-delimiting: whatever follows it, the type and the rest can be read back. */
  lemma {:induction false} PrintDelimits(t: TypeTree, u: TypeTree, x: string, y: string)
    requires IsType(t) && IsType(u)
    requires Print(t) + x == Print(u) + y
    ensures t == u && x == y
    decreases t, 1
  {
    hide *;
    TypeShape(t);
    TypeShape(u);
    if t.tag == TupleTag && u.tag == TupleTag {
      TupleText(t, x);
      TupleText(u, y);
      CancelPrefix("Tuple<", PrintAll(t.kids) + (">" + x), PrintAll(u.kids) + (">" + y));
      PrintAllDelimits(t.kids, u.kids, x, y);
    } else {
      SameTag(t, u, x, y);
      CancelPrefix(Print(t), x, y);
    }
  }

  lemma TypeShape(t: TypeTree)
    requires IsType(t)
    ensures t == Node(t.tag, t.kids) && (t.tag == TupleTag || t.kids == []) && forall k :: 0 <= k < |t.kids| ==> IsType(t.kids[k])
  {
  }

  lemma TupleText(t: TypeTree, x: string)
    requires IsType(t) && t.tag == TupleTag
    ensures Print(t) + x == "Tuple<" + (PrintAll(t.kids) + (">" + x))
  {
    hide IsType, PrintAll;
  }

  /** The first characters tell which leaf it is, or that it is a tuple. */
  lemma SameTag(t: TypeTree, u: TypeTree, x: string, y: string)
    requires IsType(t) && IsType(u) && Print(t) + x == Print(u) + y
    ensures t.tag == u.tag
  {
    StartsWith(t);
    StartsWith(u);
    assert Print(t)[0] == (Print(t) + x)[0] && Print(u)[0] == (Print(u) + y)[0];
    hide PrintAll, PrintRest;
    if t.tag.VectorTag? {
      assert Print(t)[7] == (Print(t) + x)[7] && Print(u)[7] == (Print(u) + y)[7];
    }
  }

  /** What follows the elements of a tuple whose text is continued by `x`. */
  ghost function RestThen(ts: seq<TypeTree>, x: string): (r: string)
    ensures r == PrintRest(ts) + (">" + x)
  {
    PrintRest(ts) + (">" + x)
  }

  lemma SplitAll(ts: seq<TypeTree>, x: string)
    requires forall k :: 0 <= k < |ts| ==> IsType(ts[k])
    ensures ts == [] ==> PrintAll(ts) + (">" + x) == ">" + x
    ensures ts != [] ==> PrintAll(ts) + (">" + x) == Print(ts[0]) + RestThen(ts[1..], x)
    ensures ((PrintAll(ts) + (">" + x))[0] == '>') <==> ts == []
  {
    hide *;
    UnfoldAll(ts);
    if ts == [] {
      Joined("", "", ">" + x);
    } else {
      StartsWith(ts[0]);
      Joined(Print(ts[0]), PrintRest(ts[1..]), ">" + x);
    }
  }

  lemma Joined(a: string, b: string, c: string)
    ensures (a + b) + c == a + (b + c)
    ensures a == "" ==> a + b == b
  {
  }

  lemma UnfoldAll(ts: seq<TypeTree>)
    ensures PrintAll(ts) == if ts == [] then "" else Print(ts[0]) + PrintRest(ts[1..])
  {
  }

  lemma SplitRest(ts: seq<TypeTree>, x: string)
    ensures ts == [] ==> RestThen(ts, x) == ">" + x
    ensures ts != [] ==> RestThen(ts, x) == ", " + (Print(ts[0]) + RestThen(ts[1..], x))
    ensures (RestThen(ts, x)[0] == '>') <==> ts == []
  {
    hide Print;
    if ts != [] {
      var p, r, e := Print(ts[0]), PrintRest(ts[1..]), ">" + x;
      Joined(", ", p, r);
      Joined(", ", p + r, e);
      Joined(p, r, e);
      assert RestThen(ts, x)[0] == ',';
    }
  }

  lemma {:induction false} PrintAllDelimits(ts: seq<TypeTree>, us: seq<TypeTree>, x: string, y: string)
    requires (forall k :: 0 <= k < |ts| ==> IsType(ts[k])) && (forall k :: 0 <= k < |us| ==> IsType(us[k]))
    requires PrintAll(ts) + (">" + x) == PrintAll(us) + (">" + y)
    ensures ts == us && x == y
    decreases ts, 0
  {
    hide *;
    SplitAll(ts, x);
    SplitAll(us, y);
    if ts == [] {
      CancelPrefix(">", x, y);
    } else {
      PrintDelimits(ts[0], us[0], RestThen(ts[1..], x), RestThen(us[1..], y));
      PrintRestDelimits(ts[1..], us[1..], x, y);
      assert ts == [ts[0]] + ts[1..] && us == [us[0]] + us[1..];
    }
  }

  lemma {:induction false} PrintRestDelimits(ts: seq<TypeTree>, us: seq<TypeTree>, x: string, y: string)
    requires (forall k :: 0 <= k < |ts| ==> IsType(ts[k])) && (forall k :: 0 <= k < |us| ==> IsType(us[k]))
    requires RestThen(ts, x) == RestThen(us, y)
    ensures ts == us && x == y
    decreases ts, 0
  {
    hide *;
    SplitRest(ts, x);
    SplitRest(us, y);
    if ts == [] {
      CancelPrefix(">", x, y);
    } else {
      CancelPrefix(", ", Print(ts[0]) + RestThen(ts[1..], x), Print(us[0]) + RestThen(us[1..], y));
      PrintDelimits(ts[0], us[0], RestThen(ts[1..], x), RestThen(us[1..], y));
      PrintRestDelimits(ts[1..], us[1..], x, y);
      assert ts == [ts[0]] + ts[1..] && us == [us[0]] + us[1..];
    }
  }

  /** The words and brackets themselves. */
  lemma PrintShapes(e: ScalarType)
    ensures Print(Node(ScalarTag(Boolean), [])) == "Bool" && Print(Node(ScalarTag(Integer), [])) == "Int"
    ensures Print(Node(ScalarTag(DoublePrecision), [])) == "Double"
    ensures Print(Node(VectorTag(e), [])) == "Vector<" + Print(Node(ScalarTag(e), [])) + ">"
    ensures Print(Node(TupleTag, [])) == "Tuple<>"
    ensures Print(Node(TupleTag, [Node(ScalarTag(Integer), []), Node(VectorTag(Boolean), [])])) == "Tuple<Int, Vector<Bool>>"
  {
    TwoPrinted(Node(ScalarTag(Integer), []), Node(VectorTag(Boolean), []));
    hide PrintAll, PrintRest;
    assert "Int" + (", " + "Vector<Bool>") == "Int, Vector<Bool>";
  }

  lemma TwoPrinted(t: TypeTree, u: TypeTree)
    ensures PrintAll([]) == "" && PrintAll([t, u]) == Print(t) + (", " + Print(u))
  {
    hide Print;
    assert [t, u][1..] == [u] && [u][1..] == [];
    assert PrintRest([u]) == ", " + Print(u) + "";
  }

  /** Two valid arenas print the same text exactly when they denote the same type. */
  lemma PrintInjective(a: TypeArena, b: TypeArena)
    requires WellFormedType(a) && WellFormedType(b)
    ensures Print(TypeOf(a)) == Print(TypeOf(b)) <==> TypeOf(a) == TypeOf(b)
  {
    if Print(TypeOf(a)) == Print(TypeOf(b)) {
      TypeAtIsType(a, a.rootIndex);
      TypeAtIsType(b, b.rootIndex);
      PrintDelimits(TypeOf(a), TypeOf(b), "", "");
    }
  }
}
