/** How a value is written, by the evaluator (src/value.cpp:1256-1283, 1594-1838) and by the emitted C; the text of one scalar is a parameter. */
module ValueText {
  import opened Kinds
  import opened Arena
  import opened ValueArenas
  import Lifting

  type ScalarText = ScalarValue -> string

  function RenderElements(show: ScalarText, element: ScalarType, xs: seq<int>, k: nat): string
    requires k <= |xs|
    decreases |xs| - k
  {
    if k == |xs| then ""
    else (if k == 0 then "" else " ") + show(Lifting.Loaded(element, xs[k])) + RenderElements(show, element, xs, k + 1)
  }

  function RenderAtom(show: ScalarText, tag: ValueTag): string {
    match tag
    case ScalarLeaf(s) => show(s)
    case VectorLeaf(element, xs) => "(" + RenderElements(show, element, xs, 0) + ")"
    case TupleBranch => ""
  }

  /** Tuples in brackets, vectors in parentheses, elements separated by one blank. */
  function Render(show: ScalarText, t: ValueTree): string
    decreases t, 0
  {
    if t.tag == TupleBranch then "[" + (if t.kids == [] then "" else RenderFrom(show, t.kids, 0)) + "]" else RenderAtom(show, t.tag)
  }

  function RenderFrom(show: ScalarText, kids: seq<ValueTree>, k: nat): string
    requires k < |kids|
    decreases kids, |kids| - k
  {
    Render(show, kids[k]) + (if k + 1 < |kids| then " " + RenderFrom(show, kids, k + 1) else "")
  }
}
