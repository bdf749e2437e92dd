/** The evaluator and the emitted C write the same text: src/value.cpp:1594-1838 and src/rewrite_c_runtime.cpp:1736-1779. */
module PrintAgreement {
  import opened Kinds
  import opened HostStorage
  import opened ValueArenas
  import opened ValueElements
  import opened ValueText
  import ValueFormat
  import CHeap
  import CPrint

  /** For the same tree, what C prints is what the evaluator formats and a newline. */
  method PrintBoth(h: CHeap.Heap, value: CHeap.Ptr, show: ScalarText, buffers: seq<HostBuffer>, owners: set<nat>, e: Value)
    returns (formatted: string, printed: string)
    requires ValueFormat.ShortTexts(show) && ValueFormat.Formattable(buffers, owners, e)
    requires CHeap.Points(h, value) && CHeap.Holds(h, value, ElementTree(buffers, owners, e)) && CPrint.NoBlockZero(h)
    requires CHeap.Load(h, value).parent == CHeap.Null
    ensures formatted == Render(show, ElementTree(buffers, owners, e)) && printed == formatted + "\n"
  {
    hide *;
    var r := ValueFormat.FormatValue(buffers, owners, e, show);
    ghost var t := ElementTree(buffers, owners, e);
    formatted := r.text;
    var ok;
    ok, printed := CPrint.PrintValue(h, show, value, t);
  }
}
