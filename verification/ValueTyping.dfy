/** Which values have which type, and that `value_type` finds the only one: src/value.cpp:1102-1254. */
module ValueTyping {
  import opened Kinds
  import opened Arena
  import opened HostStorage
  import opened TypeArenas
  import opened ValueArenas
  import opened ValueElements
  import opened ValueTypes
  import opened ValuePrinter

  /** The values of a type, by recursion over the type. */
  ghost predicate Inhabits(t: ValueTree, u: TypeTree)
    decreases u
  {
    match u.tag
    case ScalarTag(e) => u.kids == [] && t.tag.ScalarLeaf? && t.tag.value.element == e && ValidScalar(t.tag.value)
    case VectorTag(e) =>
      u.kids == [] && t.tag.VectorLeaf? && t.tag.element == e && forall k :: 0 <= k < |t.tag.elements| ==> ValidElement(e, t.tag.elements[k])
    case TupleTag => t.tag == TupleBranch && |t.kids| == |u.kids| && forall k :: 0 <= k < |u.kids| ==> Inhabits(t.kids[k], u.kids[k])
  }

  /** Every value has exactly one type, the one that forgets its elements. */
  lemma {:induction false} ErasedIsType(t: ValueTree, u: TypeTree)
    requires IsValue(t)
    ensures Inhabits(t, u) <==> u == Erase(t)
    decreases t
  {
    forall k, w: TypeTree | 0 <= k < |t.kids| && t.tag == TupleBranch ensures Inhabits(t.kids[k], w) <==> w == Erase(t.kids[k]) {
      ErasedIsType(t.kids[k], w);
    }
    if t.tag == TupleBranch && |u.kids| == |t.kids| {
      assert u.kids == Erase(t).kids <==> forall k :: 0 <= k < |u.kids| ==> u.kids[k] == Erase(t.kids[k]);
    }
  }

  /** A type that `ValueType` found is the type of the value, and no other is. */
  lemma TypeFound(buffers: seq<HostBuffer>, owners: set<nat>, e: Value, t: TypeArena, u: TypeTree)
    requires ValidElementValue(buffers, owners, e) && WellFormedType(t) && TypeOf(t) == Erase(ElementTree(buffers, owners, e))
    ensures Inhabits(ElementTree(buffers, owners, e), u) <==> u == TypeOf(t)
  {
    hide *;
    ValidIsValue(buffers, owners, e);
    ErasedIsType(ElementTree(buffers, owners, e), u);
  }
}
