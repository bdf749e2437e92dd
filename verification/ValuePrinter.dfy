/** Why the text of a value tells which value it is. */
module ValuePrinter {
  import opened Kinds
  import opened Arena
  import opened HostStorage
  import opened ValueArenas
  import opened ValueElements
  import opened ValueText
  import Lifting
  import ValueFormat

  // ---------------------------------------------------------------- what is asked of the texts of scalars

  predicate Delimiter(c: char) {
    c == ' ' || c == '[' || c == ']' || c == '(' || c == ')'
  }

  predicate Word(a: string) {
    a != "" && forall k :: 0 <= k < |a| ==> !Delimiter(a[k])
  }

  /** Numbers and truth values are written as words. */
  ghost predicate Plain(show: ScalarText) {
    forall s: ScalarValue :: ValidScalar(s) ==> Word(show(s))
  }

  /** No two scalars are written alike. */
  ghost predicate Injective(show: ScalarText) {
    forall a: ScalarValue, b: ScalarValue :: ValidScalar(a) && ValidScalar(b) && show(a) == show(b) ==> a == b
  }

  /** Leaves have no children and hold valid scalars or elements. */
  ghost predicate IsValue(t: ValueTree) {
    match t.tag
    case ScalarLeaf(s) => t.kids == [] && ValidScalar(s)
    case VectorLeaf(element, xs) => t.kids == [] && ValidScalarType(element) && forall k :: 0 <= k < |xs| ==> ValidElement(element, xs[k])
    case TupleBranch => forall k :: 0 <= k < |t.kids| ==> IsValue(t.kids[k])
  }

  /** The same value; the element type of an empty vector is not written. */
  ghost predicate SameValue(t: ValueTree, u: ValueTree)
    decreases t
  {
    match t.tag
    case ScalarLeaf(s) => u.tag == ScalarLeaf(s)
    case VectorLeaf(element, xs) => u.tag.VectorLeaf? && u.tag.elements == xs && (xs != [] ==> u.tag.element == element)
    case TupleBranch => u.tag == TupleBranch && |u.kids| == |t.kids| && forall k :: 0 <= k < |t.kids| ==> SameValue(t.kids[k], u.kids[k])
  }

  /** Nothing follows, or what follows cannot belong to a word. */
  predicate Ends(x: string) {
    x == "" || Delimiter(x[0])
  }

  // ---------------------------------------------------------------- words

  lemma CancelPrefix(p: string, x: string, y: string)
    requires p + x == p + y
    ensures x == y
  {
    assert x == (p + x)[|p|..] && y == (p + y)[|p|..];
  }

  lemma WordLength(a: string, b: string, x: string, y: string)
    requires Word(b) && Ends(x)
    ensures |a| < |b| ==> a + x != b + y
  {
    if |a| < |b| && x != "" {
      assert (a + x)[|a|] == x[0] && (b + y)[|a|] == b[|a|];
    }
  }

  /** A word is read up to the next delimiter. */
  lemma WordDelimits(a: string, b: string, x: string, y: string)
    requires Word(a) && Word(b) && Ends(x) && Ends(y) && a + x == b + y
    ensures a == b && x == y
  {
    WordLength(a, b, x, y);
    WordLength(b, a, y, x);
    assert a == (a + x)[..|a|] && b == (b + y)[..|b|];
    CancelPrefix(a, x, y);
  }

  lemma Regroup(a: string, b: string, c: string)
    ensures (a + b) + c == a + (b + c)
    ensures a == "" ==> a + b == b
  {
  }

  // ---------------------------------------------------------------- vectors

  /** The elements from `k` on, then the end of the vector and what follows it. */
  ghost function ElementsThen(show: ScalarText, element: ScalarType, xs: seq<int>, k: nat, x: string): (r: string)
    requires k <= |xs|
    ensures r == RenderElements(show, element, xs, k) + (")" + x)
  {
    RenderElements(show, element, xs, k) + (")" + x)
  }

  function ElementText(show: ScalarText, element: ScalarType, xs: seq<int>, k: nat): string
    requires k < |xs|
  {
    show(Lifting.Loaded(element, xs[k]))
  }

  lemma ElementIsWord(show: ScalarText, element: ScalarType, xs: seq<int>, k: nat)
    requires Plain(show) && ValidScalarType(element) && k < |xs| && ValidElement(element, xs[k])
    ensures Word(ElementText(show, element, xs, k))
  {
    assert ValidScalar(Lifting.Loaded(element, xs[k]));
  }

  lemma ElementsSplit(show: ScalarText, element: ScalarType, xs: seq<int>, k: nat, x: string)
    requires k <= |xs|
    ensures k == |xs| ==> ElementsThen(show, element, xs, k, x) == ")" + x
    ensures k < |xs| ==>
              ElementsThen(show, element, xs, k, x) ==
                (if k == 0 then "" else " ") + (ElementText(show, element, xs, k) + ElementsThen(show, element, xs, k + 1, x))
    ensures k > 0 ==> Ends(ElementsThen(show, element, xs, k, x))
    ensures k > 0 ==> (ElementsThen(show, element, xs, k, x)[0] == ')' <==> k == |xs|)
  {
    if k == |xs| {
      Regroup("", "", ")" + x);
    } else {
      var s, e, r := if k == 0 then "" else " ", ElementText(show, element, xs, k), RenderElements(show, element, xs, k + 1);
      hide RenderElements;
      Regroup(s + e, r, ")" + x);
      Regroup(s, e, r + (")" + x));
    }
  }

  lemma {:induction false} ElementsDelimit(show: ScalarText, t: ScalarType, u: ScalarType, xs: seq<int>, ys: seq<int>, k: nat, x: string, y: string)
    requires Plain(show) && k <= |xs| && k <= |ys| && Ends(x) && Ends(y)
    requires ValidScalarType(t) && ValidScalarType(u)
    requires (forall j :: 0 <= j < |xs| ==> ValidElement(t, xs[j])) && (forall j :: 0 <= j < |ys| ==> ValidElement(u, ys[j]))
    requires ElementsThen(show, t, xs, k, x) == ElementsThen(show, u, ys, k, y)
    ensures |xs| == |ys| && x == y
    ensures forall j :: k <= j < |xs| ==> ElementText(show, t, xs, j) == ElementText(show, u, ys, j)
    decreases |xs| - k
  {
    hide Plain, ValidElement, RenderElements, Ends, Word, ElementsThen, ElementText;
    ElementsSplit(show, t, xs, k, x);
    ElementsSplit(show, u, ys, k, y);
    if k < |xs| { ElementIsWord(show, t, xs, k); }
    if k < |ys| { ElementIsWord(show, u, ys, k); }
    EitherEnds(show, t, u, xs, ys, k, x, y);
    if k == |xs| {
      CancelPrefix(")", x, y);
    } else {
      CancelPrefix(if k == 0 then "" else " ", ElementText(show, t, xs, k) + ElementsThen(show, t, xs, k + 1, x),
                   ElementText(show, u, ys, k) + ElementsThen(show, u, ys, k + 1, y));
      ElementsSplit(show, t, xs, k + 1, x);
      ElementsSplit(show, u, ys, k + 1, y);
      WordDelimits(ElementText(show, t, xs, k), ElementText(show, u, ys, k), ElementsThen(show, t, xs, k + 1, x), ElementsThen(show, u, ys, k + 1, y));
      ElementsDelimit(show, t, u, xs, ys, k + 1, x, y);
    }
  }

  /** Both vectors end here, or neither does. */
  lemma EitherEnds(show: ScalarText, t: ScalarType, u: ScalarType, xs: seq<int>, ys: seq<int>, k: nat, x: string, y: string)
    requires k <= |xs| && k <= |ys| && ElementsThen(show, t, xs, k, x) == ElementsThen(show, u, ys, k, y)
    requires (k < |xs| ==> Word(ElementText(show, t, xs, k))) && (k < |ys| ==> Word(ElementText(show, u, ys, k)))
    ensures k == |xs| <==> k == |ys|
  {
    ElementsSplit(show, t, xs, k, x);
    ElementsSplit(show, u, ys, k, y);
    if k == 0 {
      hide ElementsThen, RenderElements, ElementText;
      FirstOf(show, t, xs, x);
      FirstOf(show, u, ys, y);
    }
  }

  lemma FirstOf(show: ScalarText, t: ScalarType, xs: seq<int>, x: string)
    requires 0 < |xs| ==> Word(ElementText(show, t, xs, 0))
    ensures ElementsThen(show, t, xs, 0, x) != "" && (ElementsThen(show, t, xs, 0, x)[0] == ')' <==> xs == [])
  {
    ElementsSplit(show, t, xs, 0, x);
    hide ElementsThen, RenderElements, ElementText;
    if xs != [] {
      var e, r := ElementText(show, t, xs, 0), ElementsThen(show, t, xs, 1, x);
      assert ("" + (e + r))[0] == e[0];
    }
  }

  // ---------------------------------------------------------------- tuples

  /** The children from `k` on, then the end of the tuple and what follows it. */
  ghost function KidsThen(show: ScalarText, ts: seq<ValueTree>, k: nat, x: string): (r: string)
    requires k < |ts|
    ensures r == RenderFrom(show, ts, k) + ("]" + x)
  {
    RenderFrom(show, ts, k) + ("]" + x)
  }

  /** What follows child `k`. */
  ghost function AfterKid(show: ScalarText, ts: seq<ValueTree>, k: nat, x: string): string
    requires k < |ts|
  {
    if k + 1 < |ts| then " " + KidsThen(show, ts, k + 1, x) else "]" + x
  }

  lemma KidsSplit(show: ScalarText, ts: seq<ValueTree>, k: nat, x: string)
    requires k < |ts|
    ensures KidsThen(show, ts, k, x) == Render(show, ts[k]) + AfterKid(show, ts, k, x)
    ensures Ends(AfterKid(show, ts, k, x)) && (AfterKid(show, ts, k, x)[0] == ']' <==> k + 1 == |ts|)
  {
    KidsUnfold(show, ts, k);
    hide Render, RenderFrom;
    var r := Render(show, ts[k]);
    if k + 1 < |ts| {
      var rest := RenderFrom(show, ts, k + 1);
      Regroup(r, " " + rest, "]" + x);
      Regroup(" ", rest, "]" + x);
    } else {
      Regroup(r, "", "]" + x);
      Regroup("", "]" + x, "");
    }
  }

  lemma KidsUnfold(show: ScalarText, ts: seq<ValueTree>, k: nat)
    requires k < |ts|
    ensures RenderFrom(show, ts, k) == Render(show, ts[k]) + (if k + 1 < |ts| then " " + RenderFrom(show, ts, k + 1) else "")
  {
  }

  lemma {:induction false} KidsDelimit(show: ScalarText, ts: seq<ValueTree>, us: seq<ValueTree>, k: nat, x: string, y: string)
    requires Plain(show) && Injective(show) && k < |ts| && k < |us| && Ends(x) && Ends(y)
    requires (forall j :: 0 <= j < |ts| ==> IsValue(ts[j])) && (forall j :: 0 <= j < |us| ==> IsValue(us[j]))
    requires KidsThen(show, ts, k, x) == KidsThen(show, us, k, y)
    ensures |ts| == |us| && x == y && forall j :: k <= j < |ts| ==> SameValue(ts[j], us[j])
    decreases ts, |ts| - k
  {
    hide *;
    KidsSplit(show, ts, k, x);
    KidsSplit(show, us, k, y);
    RenderDelimits(show, ts[k], us[k], AfterKid(show, ts, k, x), AfterKid(show, us, k, y));
    SameEnd(show, ts, us, k, x, y);
    if k + 1 < |ts| { KidsDelimit(show, ts, us, k + 1, x, y); }
  }

  /** Both tuples end after child `k`, or go on alike. */
  lemma SameEnd(show: ScalarText, ts: seq<ValueTree>, us: seq<ValueTree>, k: nat, x: string, y: string)
    requires k < |ts| && k < |us| && AfterKid(show, ts, k, x) == AfterKid(show, us, k, y)
    ensures k + 1 == |ts| <==> k + 1 == |us|
    ensures k + 1 == |ts| ==> x == y
    ensures k + 1 < |ts| ==> KidsThen(show, ts, k + 1, x) == KidsThen(show, us, k + 1, y)
  {
    KidsSplit(show, ts, k, x);
    KidsSplit(show, us, k, y);
    AfterIs(show, ts, k, x);
    AfterIs(show, us, k, y);
    hide *;
    if k + 1 == |ts| {
      CancelPrefix("]", x, y);
    } else {
      CancelPrefix(" ", KidsThen(show, ts, k + 1, x), KidsThen(show, us, k + 1, y));
    }
  }

  lemma AfterIs(show: ScalarText, ts: seq<ValueTree>, k: nat, x: string)
    requires k < |ts|
    ensures AfterKid(show, ts, k, x) == if k + 1 < |ts| then " " + KidsThen(show, ts, k + 1, x) else "]" + x
  {
  }

  // ---------------------------------------------------------------- values

  /** The first character tells a scalar, a vector and a tuple apart. */
  lemma FirstCharacter(show: ScalarText, t: ValueTree)
    requires Plain(show) && IsValue(t)
    ensures Render(show, t) != ""
    ensures Render(show, t)[0] == '[' <==> t.tag == TupleBranch
    ensures Render(show, t)[0] == '(' <==> t.tag.VectorLeaf?
    ensures Render(show, t)[0] != ']'
    ensures t.tag.ScalarLeaf? ==> Render(show, t) == show(t.tag.value) && Word(show(t.tag.value))
  {
    hide RenderElements, RenderFrom;
    if t.tag.ScalarLeaf? { assert Word(show(t.tag.value)); }
  }

  lemma VectorText(show: ScalarText, t: ValueTree, x: string)
    requires t.tag.VectorLeaf?
    ensures Render(show, t) + x == "(" + ElementsThen(show, t.tag.element, t.tag.elements, 0, x)
  {
    hide RenderElements, ElementsThen;
    var e := RenderElements(show, t.tag.element, t.tag.elements, 0);
    Regroup("(" + e, ")", x);
    Regroup("(", e, ")" + x);
  }

  lemma TupleText(show: ScalarText, t: ValueTree, x: string)
    requires t.tag == TupleBranch
    ensures Render(show, t) + x == "[" + (if t.kids == [] then "]" + x else KidsThen(show, t.kids, 0, x))
  {
    hide RenderFrom, KidsThen;
    if t.kids == [] {
      Regroup("[", "", "]");
      Regroup("[", "]", x);
    } else {
      var e := RenderFrom(show, t.kids, 0);
      Regroup("[" + e, "]", x);
      Regroup("[", e, "]" + x);
    }
  }

  /** A written value is self-delimiting: whatever follows it, the value and the rest can be read back. */
  lemma {:induction false} RenderDelimits(show: ScalarText, t: ValueTree, u: ValueTree, x: string, y: string)
    requires Plain(show) && Injective(show) && IsValue(t) && IsValue(u) && Ends(x) && Ends(y)
    requires Render(show, t) + x == Render(show, u) + y
    ensures SameValue(t, u) && x == y
    decreases t, 0
  {
    hide *;
    FirstCharacter(show, t);
    FirstCharacter(show, u);
    assert Render(show, t)[0] == (Render(show, t) + x)[0] && Render(show, u)[0] == (Render(show, u) + y)[0];
    match t.tag
    case ScalarLeaf(s) =>
      WordDelimits(show(s), show(u.tag.value), x, y);
      SameScalar(show, t, u);
    case VectorLeaf(_, _) =>
      SameVector(show, t, u, x, y);
    case TupleBranch =>
      TupleKids(t);
      TupleKids(u);
      TupleText(show, t, x);
      TupleText(show, u, y);
      if t.kids == [] || u.kids == [] {
        BothEmpty(show, t, u, x, y);
      } else {
        CancelPrefix("[", KidsThen(show, t.kids, 0, x), KidsThen(show, u.kids, 0, y));
        KidsDelimit(show, t.kids, u.kids, 0, x, y);
      }
      SameTuple(t, u);
  }

  lemma TupleKids(t: ValueTree)
    requires IsValue(t) && t.tag == TupleBranch
    ensures forall k :: 0 <= k < |t.kids| ==> IsValue(t.kids[k])
  {
  }

  lemma SameTuple(t: ValueTree, u: ValueTree)
    requires t.tag == TupleBranch == u.tag && |t.kids| == |u.kids| && forall k :: 0 <= k < |t.kids| ==> SameValue(t.kids[k], u.kids[k])
    ensures SameValue(t, u)
  {
  }

  lemma SameScalar(show: ScalarText, t: ValueTree, u: ValueTree)
    requires Injective(show) && IsValue(t) && IsValue(u) && t.tag.ScalarLeaf? && u.tag.ScalarLeaf? && show(t.tag.value) == show(u.tag.value)
    ensures SameValue(t, u)
  {
  }

  /** One of two tuples is empty only with the other. */
  lemma BothEmpty(show: ScalarText, t: ValueTree, u: ValueTree, x: string, y: string)
    requires Plain(show) && IsValue(t) && IsValue(u) && t.tag == TupleBranch == u.tag && (t.kids == [] || u.kids == [])
    requires Render(show, t) + x == Render(show, u) + y
    ensures t.kids == [] == u.kids && x == y
  {
    TupleStart(show, t, x);
    TupleStart(show, u, y);
    TupleText(show, t, x);
    TupleText(show, u, y);
    hide Render, KidsThen;
    if t.kids == [] == u.kids { CancelPrefix("[]", x, y); }
  }

  lemma TupleStart(show: ScalarText, t: ValueTree, x: string)
    requires Plain(show) && IsValue(t) && t.tag == TupleBranch
    ensures |Render(show, t) + x| > 1 && ((Render(show, t) + x)[1] == ']' <==> t.kids == [])
    ensures t.kids == [] ==> Render(show, t) + x == "[]" + x
  {
    TupleText(show, t, x);
    hide Render, RenderFrom, KidsThen;
    if t.kids != [] {
      KidsSplit(show, t.kids, 0, x);
      FirstCharacter(show, t.kids[0]);
    } else {
      Regroup("[", "]", x);
    }
  }

  lemma SameVector(show: ScalarText, t: ValueTree, u: ValueTree, x: string, y: string)
    requires Plain(show) && Injective(show) && IsValue(t) && IsValue(u) && Ends(x) && Ends(y)
    requires t.tag.VectorLeaf? && u.tag.VectorLeaf? && Render(show, t) + x == Render(show, u) + y
    ensures SameValue(t, u) && x == y
  {
    VectorText(show, t, x);
    VectorText(show, u, y);
    hide Render, RenderElements, ElementsThen, Plain, Ends, Word, Injective, ValidElement;
    var xs, ys := t.tag.elements, u.tag.elements;
    CancelPrefix("(", ElementsThen(show, t.tag.element, xs, 0, x), ElementsThen(show, u.tag.element, ys, 0, y));
    ElementsDelimit(show, t.tag.element, u.tag.element, xs, ys, 0, x, y);
    forall k | 0 <= k < |xs| ensures xs[k] == ys[k] && t.tag.element == u.tag.element {
      assert ElementText(show, t.tag.element, xs, k) == ElementText(show, u.tag.element, ys, k);
      SameElement(show, t.tag.element, u.tag.element, xs[k], ys[k]);
    }
    assert xs == ys;
  }

  lemma SameElement(show: ScalarText, t: ScalarType, u: ScalarType, x: int, y: int)
    requires Injective(show) && ValidScalarType(t) && ValidScalarType(u) && ValidElement(t, x) && ValidElement(u, y)
    requires show(Lifting.Loaded(t, x)) == show(Lifting.Loaded(u, y))
    ensures t == u && x == y
  {
    assert ValidScalar(Lifting.Loaded(t, x)) && ValidScalar(Lifting.Loaded(u, y));
  }

  // ---------------------------------------------------------------- the theorem

  lemma {:induction false} SameRenders(show: ScalarText, t: ValueTree, u: ValueTree)
    requires SameValue(t, u) && IsValue(t) && IsValue(u)
    ensures Render(show, t) == Render(show, u)
    decreases t, 0
  {
    if t.tag == TupleBranch {
      hide Render, RenderFrom;
      if t.kids != [] { SameRendersFrom(show, t.kids, u.kids, 0); }
      RenderTuple(show, t);
      RenderTuple(show, u);
    } else if t.tag.VectorLeaf? && t.tag.elements == [] {
      assert RenderElements(show, t.tag.element, [], 0) == "" == RenderElements(show, u.tag.element, [], 0);
    }
  }

  lemma RenderTuple(show: ScalarText, t: ValueTree)
    requires t.tag == TupleBranch
    ensures Render(show, t) == "[" + (if t.kids == [] then "" else RenderFrom(show, t.kids, 0)) + "]"
  {
  }

  lemma {:induction false} SameRendersFrom(show: ScalarText, ts: seq<ValueTree>, us: seq<ValueTree>, k: nat)
    requires k < |ts| == |us| && forall j :: 0 <= j < |ts| ==> SameValue(ts[j], us[j]) && IsValue(ts[j]) && IsValue(us[j])
    ensures RenderFrom(show, ts, k) == RenderFrom(show, us, k)
    decreases ts, |ts| - k
  {
    hide Render, SameValue, IsValue, RenderFrom;
    KidsUnfold(show, ts, k);
    KidsUnfold(show, us, k);
    SameRenders(show, ts[k], us[k]);
    if k + 1 < |ts| { SameRendersFrom(show, ts, us, k + 1); }
  }

  /** Two values are written alike exactly when they are the same, up to the element type of empty vectors. */
  lemma RenderInjective(show: ScalarText, t: ValueTree, u: ValueTree)
    requires Plain(show) && Injective(show) && IsValue(t) && IsValue(u)
    ensures Render(show, t) == Render(show, u) <==> SameValue(t, u)
  {
    hide *;
    if Render(show, t) == Render(show, u) {
      NothingFollows();
      RenderDelimits(show, t, u, "", "");
    }
    if SameValue(t, u) { SameRenders(show, t, u); }
  }

  lemma NothingFollows()
    ensures Ends("")
  {
  }

  /** The brackets: round for vectors, square for tuples, one blank between elements. */
  lemma RenderShapes(show: ScalarText, element: ScalarType, x: int, y: int)
    ensures Render(show, Node(VectorLeaf(element, []), [])) == "()" && Render(show, Node(TupleBranch, [])) == "[]"
    ensures var a, b := Lifting.Loaded(element, x), Lifting.Loaded(element, y);
            && Render(show, Node(ScalarLeaf(a), [])) == show(a)
            && Render(show, Node(VectorLeaf(element, [x, y]), [])) == "(" + show(a) + " " + show(b) + ")"
            && Render(show, Node(TupleBranch, [Node(ScalarLeaf(a), []), Node(ScalarLeaf(b), [])])) == "[" + show(a) + " " + show(b) + "]"
  {
    var a, b := Lifting.Loaded(element, x), Lifting.Loaded(element, y);
    hide Lifting.Loaded;
    TwoElements(show, element, x, y);
    TwoKids(show, Node(ScalarLeaf(a), []), Node(ScalarLeaf(b), []));
    hide RenderElements, RenderFrom;
  }

  lemma TwoElements(show: ScalarText, element: ScalarType, x: int, y: int)
    ensures RenderElements(show, element, [], 0) == ""
    ensures "(" + RenderElements(show, element, [x, y], 0) + ")" ==
            "(" + show(Lifting.Loaded(element, x)) + " " + show(Lifting.Loaded(element, y)) + ")"
  {
    var a, b := show(Lifting.Loaded(element, x)), show(Lifting.Loaded(element, y));
    hide Lifting.Loaded;
    assert RenderElements(show, element, [x, y], 2) == "";
    assert RenderElements(show, element, [x, y], 1) == " " + b + "";
    assert RenderElements(show, element, [x, y], 0) == "" + a + (" " + b + "");
  }

  lemma TwoKids(show: ScalarText, t: ValueTree, u: ValueTree)
    ensures "[" + RenderFrom(show, [t, u], 0) + "]" == "[" + Render(show, t) + " " + Render(show, u) + "]"
  {
    KidsUnfold(show, [t, u], 0);
    KidsUnfold(show, [t, u], 1);
    hide Render, RenderFrom;
    assert Render(show, u) + "" == Render(show, u);
  }

  // ---------------------------------------------------------------- valid values

  lemma {:induction false} NodeIsValue(buffers: seq<HostBuffer>, owners: set<nat>, v: TupleValue, i: nat)
    requires ValidTuple(buffers, owners, v) && i < NodeCount(v)
    ensures IsValue(ValueAt(v, i))
    decreases i
  {
    assert NodeFieldsOk(v, i) && SlotExists(v, SlotOf(v, i)) && SlotOk(buffers, owners, v, i);
    NodeShows(v, i);
    hide ValidTuple, Structured, ValueAt, SlotOk;
    var t := ValueAt(v, i);
    forall k | 0 <= k < |t.kids| ensures IsValue(t.kids[k]) {
      NodeIsValue(buffers, owners, v, Kids(TableOf(v), i)[k]);
    }
  }

  lemma NodeShows(v: TupleValue, i: nat)
    requires Structured(v) && i < NodeCount(v)
    ensures SlotExists(v, SlotOf(v, i)) && ValueAt(v, i).tag == ValueTagAt(v, i) && SpanInRange(TableOf(v), i)
    ensures |ValueAt(v, i).kids| == |Kids(TableOf(v), i)|
    ensures forall k :: 0 <= k < |ValueAt(v, i).kids| ==>
              Kids(TableOf(v), i)[k] < i && ValueAt(v, i).kids[k] == ValueAt(v, Kids(TableOf(v), i)[k])
    ensures ContainerOf(v, i) != TupleC ==> ValueAt(v, i).kids == []
  {
    ValueFormat.ValueShows(v, i);
  }

  lemma ValidIsValue(buffers: seq<HostBuffer>, owners: set<nat>, e: Value)
    requires ValidElementValue(buffers, owners, e)
    ensures IsValue(ElementTree(buffers, owners, e))
  {
    if e.TupleV? { NodeIsValue(buffers, owners, e.tuple, e.tuple.rootIndex); }
  }

  /** Two valid values have the same text exactly when they are the same value, wherever their nodes are kept. */
  lemma ValuesTold(buffers: seq<HostBuffer>, owners: set<nat>, e: Value, f: Value, show: ScalarText)
    requires ValidElementValue(buffers, owners, e) && ValidElementValue(buffers, owners, f) && Plain(show) && Injective(show)
    ensures var t, u := ElementTree(buffers, owners, e), ElementTree(buffers, owners, f);
            Render(show, t) == Render(show, u) <==> SameValue(t, u)
  {
    hide *;
    ValidIsValue(buffers, owners, e);
    ValidIsValue(buffers, owners, f);
    RenderInjective(show, ElementTree(buffers, owners, e), ElementTree(buffers, owners, f));
  }
}
