/** src/application.cpp: applying a primitive in the evaluator. */
module Application {
  import opened Kinds
  import opened HostStorage
  import opened AccountRelease
  import opened ValueArenas
  import opened ValueElements
  import opened Primitives
  import opened Kernels
  import opened Resources
  import opened Lifting
  import opened ValueTuple
  import opened Arena
  import opened ArenaGraft
  import IntRounding
  import Binary64

  /** A value, or one node of a tuple value. */
  datatype Argument = Argument(owner: Value, node: Option<nat>)

  datatype View = ScalarView(scalar: ScalarValue) | VectorView(payload: Payload) | TupleView | NoView

  datatype ApplyError =
    | ArityError | InvalidPrimitiveTable | InvalidArgument(position: nat) | TypeError
    | ShapeError(position: nat, expected: nat, actual: nat) | ResourceError(why: Failure) | DomainFailure(index: Option<nat>)

  datatype ApplyResult = Applied(value: Value) | NotApplied(error: ApplyError)

  class ApplicationContext {
    const resources: EvaluationResources
    var invocations: nat

    constructor (resources: EvaluationResources)
      ensures this.resources == resources && invocations == 0
    {
      this.resources, invocations := resources, 0;
    }
  }

  // ---------------------------------------------------------------- arguments

  /** src/application.cpp:99-135. */
  function ViewOf(a: Argument): View {
    match a.node
    case None =>
      (match a.owner
       case ScalarV(s) => ScalarView(s)
       case VectorV(p) => VectorView(p)
       case TupleV(_) => TupleView)
    case Some(n) =>
      if !a.owner.TupleV? || n >= |a.owner.tuple.nodes| then NoView
      else
        var node := a.owner.tuple.nodes[n];
        match node.container
        case ScalarC => ScalarView(node.scalar)
        case VectorC => if node.payload < |a.owner.tuple.payloads| then VectorView(a.owner.tuple.payloads[node.payload]) else NoView
        case TupleC => TupleView
        case UnknownC => NoView
  }

  function OperandOf(v: View): Operand {
    match v
    case ScalarView(s) => ScalarArg(s)
    case VectorView(p) => VectorArg(p.element, p.elements)
    case _ => ScalarArg(NO_OPERAND)
  }

  function Operands(arguments: seq<Argument>): (r: seq<Operand>)
    ensures |r| == |arguments| && forall j :: 0 <= j < |r| ==> r[j] == OperandOf(ViewOf(arguments[j]))
  {
    seq(|arguments|, j requires 0 <= j < |arguments| => OperandOf(ViewOf(arguments[j])))
  }

  /** Integers and doubles of a value are 64 bits wide. */
  ghost predicate MachineView(v: View) {
    match v
    case ScalarView(s) => Machine(s)
    case VectorView(p) =>
      forall k :: 0 <= k < |p.elements| ==>
        (p.element == Integer ==> IntRounding.IsInt64(p.elements[k])) && (p.element == DoublePrecision ==> p.elements[k] < 2 * Binary64.SIGN)
    case _ => true
  }

  ghost predicate MachineArguments(arguments: seq<Argument>) {
    forall j :: 0 <= j < |arguments| ==> MachineView(ViewOf(arguments[j]))
  }

  /** A valid value whose view is a scalar or a vector. */
  ghost predicate ArgumentOk(buffers: seq<HostBuffer>, owners: set<nat>, a: Argument) {
    ValidElementValue(buffers, owners, a.owner) && (ViewOf(a).ScalarView? || ViewOf(a).VectorView?)
  }

  ghost predicate ArgumentsOk(buffers: seq<HostBuffer>, owners: set<nat>, arguments: seq<Argument>) {
    forall j :: 0 <= j < |arguments| ==> ArgumentOk(buffers, owners, arguments[j])
  }

  /** The value an argument stands for: a whole value, or what a node of a tuple denotes. */
  ghost function ArgumentTree(buffers: seq<HostBuffer>, owners: set<nat>, a: Argument): ValueTree
    requires ValidElementValue(buffers, owners, a.owner) && (a.node.Some? ==> a.owner.TupleV? && a.node.value < NodeCount(a.owner.tuple))
  {
    if a.node == None then ElementTree(buffers, owners, a.owner) else ValueAt(a.owner.tuple, a.node.value)
  }

  /** An argument shows the scalar, or the elements of the vector, that it stands for. */
  lemma ViewShows(buffers: seq<HostBuffer>, owners: set<nat>, a: Argument)
    requires ValidElementValue(buffers, owners, a.owner)
    ensures ViewOf(a) == NoView <==> a.node.Some? && (!a.owner.TupleV? || a.node.value >= |a.owner.tuple.nodes|)
    ensures ViewOf(a) != NoView ==>
              match ArgumentTree(buffers, owners, a).tag {
                case ScalarLeaf(s) => ViewOf(a) == ScalarView(s) && OperandOf(ViewOf(a)) == ScalarArg(s)
                case VectorLeaf(element, xs) => ViewOf(a).VectorView? && OperandOf(ViewOf(a)) == VectorArg(element, xs)
                case TupleBranch => ViewOf(a) == TupleView
              }
  {
    if a.owner.TupleV? {
      var t := a.owner.tuple;
      var n := if a.node.Some? then a.node.value else t.rootIndex;
      if n < NodeCount(t) {
        assert NodeFieldsOk(t, n) && SlotExists(t, SlotOf(t, n)) && SlotOk(buffers, owners, t, n);
        hide SlotsUnshared, SlotsUsed, StoragesDistinct;
        DenoteKids(TableOf(t), ValueTags(t), n);
      }
    }
  }

  lemma ViewIsOk(buffers: seq<HostBuffer>, owners: set<nat>, a: Argument)
    requires ArgumentOk(buffers, owners, a) && MachineView(ViewOf(a))
    ensures OperandOk(OperandOf(ViewOf(a)))
  {
    if a.node.Some? {
      var t, n := a.owner.tuple, a.node.value;
      assert NodeFieldsOk(t, n) && SlotExists(t, SlotOf(t, n)) && SlotOk(buffers, owners, t, n);
    }
  }

  lemma ViewsAreOk(buffers: seq<HostBuffer>, owners: set<nat>, arguments: seq<Argument>)
    requires ArgumentsOk(buffers, owners, arguments) && MachineArguments(arguments)
    ensures OperandsOk(Operands(arguments))
  {
    hide ArgumentOk, MachineView, OperandOk, ViewOf, OperandOf;
    forall j | 0 <= j < |arguments| ensures OperandOk(Operands(arguments)[j]) {
      ViewIsOk(buffers, owners, arguments[j]);
    }
  }

  /** Argument `j` is the first that is not accepted, and `e` says why: it is invalid, or it is a tuple. */
  ghost predicate FirstFault(buffers: seq<HostBuffer>, owners: set<nat>, arguments: seq<Argument>, j: nat, e: ApplyError) {
    && j < |arguments| && (forall k :: 0 <= k < j ==> ArgumentOk(buffers, owners, arguments[k]))
    && !ArgumentOk(buffers, owners, arguments[j])
    && e == if ValidElementValue(buffers, owners, arguments[j].owner) && ViewOf(arguments[j]) == TupleView then TypeError else InvalidArgument(j + 1)
  }

  /** src/application.cpp:266-327: validate the arguments one after another. */
  method CheckArguments(buffers: seq<HostBuffer>, owners: set<nat>, arguments: seq<Argument>) returns (e: Option<ApplyError>)
    ensures e == None <==> ArgumentsOk(buffers, owners, arguments)
    ensures e.Some? ==> exists j: nat :: FirstFault(buffers, owners, arguments, j, e.value)
  {
    hide ValidElementValue;
    for j := 0 to |arguments|
      invariant forall k :: 0 <= k < j ==> ArgumentOk(buffers, owners, arguments[k])
    {
      var valid := ValidateElement(buffers, owners, arguments[j].owner);
      var view := ViewOf(arguments[j]);
      if !valid || view == NoView {
        assert FirstFault(buffers, owners, arguments, j, InvalidArgument(j + 1));
        return Some(InvalidArgument(j + 1));
      }
      if view == TupleView {
        assert FirstFault(buffers, owners, arguments, j, TypeError);
        return Some(TypeError);
      }
    }
    e := None;
  }

  function TypesOf(args: seq<Operand>): (r: seq<ScalarType>)
    ensures |r| == |args| && forall j :: 0 <= j < |args| ==> r[j] == ElementOf(args[j])
  {
    seq(|args|, j requires 0 <= j < |args| => ElementOf(args[j]))
  }

  // ---------------------------------------------------------------- shapes

  /** The length of the first vector, 1 when there is none. */
  function LengthOf(args: seq<Operand>): nat {
    if args == [] then 1 else if args[0].VectorArg? then |args[0].elements| else LengthOf(args[1..])
  }

  ghost predicate FirstVector(args: seq<Operand>, m: nat, any: bool, n: nat)
    requires m <= |args|
  {
    && (any <==> exists j :: 0 <= j < m && args[j].VectorArg?)
    && (forall j :: 0 <= j < m && args[j].VectorArg? ==> |args[j].elements| == n)
    && (any ==> n == LengthOf(args)) && (!any ==> n == 1 && LengthOf(args) == LengthOf(args[m..]))
  }

  /** The named argument is the first vector whose length differs from that of the vectors before it. */
  ghost predicate ShapeFault(args: seq<Operand>, e: ApplyError) {
    && e.ShapeError? && 0 < e.position <= |args|
    && args[e.position - 1].VectorArg? && |args[e.position - 1].elements| == e.actual != e.expected
    && (exists i :: 0 <= i < e.position - 1 && args[i].VectorArg?)
    && forall i :: 0 <= i < e.position - 1 && args[i].VectorArg? ==> |args[i].elements| == e.expected
  }

  /** src/application.cpp:426-445. */
  method ResultShape(args: seq<Operand>) returns (e: Option<ApplyError>, vector: bool, n: nat)
    ensures e == None <==> ShapesAgree(args, LengthOf(args))
    ensures e == None ==> vector == AnyVector(args) && n == LengthOf(args)
    ensures e.Some? ==> ShapeFault(args, e.value)
  {
    vector, n := false, 1;
    assert args[0..] == args;
    for j := 0 to |args|
      invariant FirstVector(args, j, vector, n)
    {
      assert args[j..][0] == args[j] && args[j..][1..] == args[j + 1..];
      if args[j].ScalarArg? {
        continue;
      }
      var length := |args[j].elements|;
      if !vector {
        vector, n := true, length;
        continue;
      }
      if length != n {
        return Some(ShapeError(j + 1, n, length)), vector, n;
      }
    }
    e := None;
  }

  // ---------------------------------------------------------------- one element

  /** src/primitive.cpp:735-752. */
  method ConvertScalar(s: ScalarValue, t: ScalarType) returns (r: Option<ScalarValue>)
    requires Machine(s)
    ensures r == None <==> !ValidScalar(s) || ConversionCost(s.element, t) == None
    ensures r.Some? ==> r.value == Converted(s, t)
  {
    if !ValidScalar(s) {
      return None;
    }
    if s.element == t {
      return Some(s);
    }
    if s.element == Integer && t == DoublePrecision {
      var bits := IntRounding.IntToBinary64(s.integer);
      IntRounding.NearestEvenUnique(s.integer, bits, IntRounding.ToDouble(s.integer));
      return Some(ScalarValue(DoublePrecision, false, 0, bits));
    }
    return None;
  }

  /** A signature of a validated elementwise descriptor. */
  ghost predicate SignatureFits(d: Descriptor, s: nat, args: seq<Operand>, n: nat) {
    d.elementwise && DescriptorOk(d) && s < |d.signatures| && Liftable(d.signatures[s].implementation, args, n)
  }

  lemma SignatureMeans(d: Descriptor, s: nat)
    requires d.elementwise && DescriptorOk(d) && s < |d.signatures|
    ensures var i := d.signatures[s].implementation;
            && i != NoImplementation && i != IotaInt && ImplementationMatches(d.id, d.signatures[s])
            && |d.signatures[s].parameters| == ArityOf(i) && d.signatures[s].result == ValueType(ScalarC, ResultOf(i))
            && forall k :: 0 <= k < ArityOf(i) ==> d.signatures[s].parameters[k].element == ParameterOf(i)
  {
    assert SignatureOk(d, s) && ImplementationMatches(d.id, d.signatures[s]);
  }

  /** src/application.cpp:473-503: project, convert and invoke; for fitting arguments no conversion fails. */
  method InvokeAt(ctx: ApplicationContext, h: Hardware, d: Descriptor, s: nat, args: seq<Operand>, ghost n: nat, k: nat) returns (o: KernelResult)
    requires SignatureFits(d, s, args, n) && (AnyVector(args) ==> k < n)
    modifies ctx`invocations
    ensures o == OutcomeAt(h, d.signatures[s].implementation, args, n, k) && ctx.invocations == old(ctx.invocations) + 1
  {
    ghost var i := d.signatures[s].implementation;
    SignatureMeans(d, s);
    hide DescriptorOk, ValidScalar, Machine, Operate, ImplementationMatches;
    var operands: seq<ScalarValue> := [];
    for j := 0 to |args|
      invariant |operands| == j && ctx.invocations == old(ctx.invocations)
      invariant forall m :: 0 <= m < j ==>
                  && HasIndex(args[m], k) && Machine(Project(args[m], k)) && operands[m] == Converted(Project(args[m], k), ParameterOf(i))
                  && ValidScalar(operands[m]) && Machine(operands[m]) && operands[m].element == ParameterOf(i)
    {
      ProjectedOk(i, args, n, j, k);
      assert ConversionCost(ElementOf(args[j]), ParameterOf(i)).Some?;
      var converted := ConvertScalar(Project(args[j], k), d.signatures[s].parameters[j].element);
      if converted == None {
        assert false; // the types were accepted
      }
      operands := operands + [converted.value];
    }
    ctx.invocations := ctx.invocations + 1;
    o := Invoke(h, d, s, operands);
    assert Invocable(d, s, operands);
    OutcomeIs(h, i, args, n, k, operands);
  }

  lemma OutcomeIs(h: Hardware, i: Implementation, args: seq<Operand>, n: nat, k: nat, operands: seq<ScalarValue>)
    requires Liftable(i, args, n) && (AnyVector(args) ==> k < n) && |operands| == |args| && MachineAll(operands)
    requires forall m :: 0 <= m < |args| ==>
               HasIndex(args[m], k) && Machine(Project(args[m], k)) && operands[m] == Converted(Project(args[m], k), ParameterOf(i))
    ensures |operands| > 0
    ensures OutcomeAt(h, i, args, n, k) == Operate(h, i, operands[0], if |operands| > 1 then operands[1] else NO_OPERAND)
  {
    hide Operate, Converted, Project;
    assert 1 <= |args| <= 2;
  }

  // ---------------------------------------------------------------- the vector loop

  /** What the loop has stored so far; the rest of the vector is still zero. */
  ghost predicate Filled(h: Hardware, i: Implementation, args: seq<Operand>, n: nat, k: nat, stored: seq<int>)
    requires Liftable(i, args, n) && AnyVector(args) && k <= n
  {
    && |stored| == n
    && StoredSoFar(h, i, args, n, k, stored)
    && (forall m :: k <= m < n ==> stored[m] == 0)
  }

  lemma FilledStep(h: Hardware, i: Implementation, args: seq<Operand>, n: nat, k: nat, stored: seq<int>)
    requires Liftable(i, args, n) && AnyVector(args) && k < n && Filled(h, i, args, n, k, stored)
    requires OutcomeAt(h, i, args, n, k).KernelValue?
    ensures Filled(h, i, args, n, k + 1, stored[k := Stored(OutcomeAt(h, i, args, n, k).value)])
  {
    hide Liftable, OutcomeAt, AnyVector;
  }

  lemma FilledValid(h: Hardware, i: Implementation, args: seq<Operand>, n: nat, k: nat, stored: seq<int>)
    requires Liftable(i, args, n) && AnyVector(args) && k <= n && Filled(h, i, args, n, k, stored)
    ensures ValidScalarType(ResultOf(i)) && forall m :: 0 <= m < n ==> ValidElement(ResultOf(i), stored[m])
  {
    hide Liftable, OutcomeAt, AnyVector;
    forall m | 0 <= m < n ensures ValidElement(ResultOf(i), stored[m]) {
      if m < k {
        OutcomeOk(h, i, args, n, m);
        StoredLoads(OutcomeAt(h, i, args, n, m).value);
      }
    }
  }

  lemma FilledAll(h: Hardware, i: Implementation, args: seq<Operand>, n: nat, stored: seq<int>)
    requires Liftable(i, args, n) && AnyVector(args) && Filled(h, i, args, n, n, stored)
    ensures FirstFailure(h, i, args, n, n) == n && stored == Mapped(h, i, args, n, n)
  {
    hide Liftable, OutcomeAt, AnyVector;
    assert forall m: nat :: m < n ==> OutcomeAt(h, i, args, n, m) != DomainError;
  }

  lemma FailsFirst(h: Hardware, i: Implementation, args: seq<Operand>, n: nat, k: nat, stored: seq<int>)
    requires Liftable(i, args, n) && AnyVector(args) && k < n && Filled(h, i, args, n, k, stored)
    requires OutcomeAt(h, i, args, n, k) == DomainError
    ensures FirstFailure(h, i, args, n, n) == k
  {
    hide Liftable, OutcomeAt, AnyVector;
    var f := FirstFailure(h, i, args, n, n);
    assert forall m: nat :: m < k ==> OutcomeAt(h, i, args, n, m) != DomainError;
  }

  /** src/application.cpp:470-529: one kernel call an element, up to the first that fails. */
  method FillVector(ctx: ApplicationContext, h: Hardware, d: Descriptor, s: nat, args: seq<Operand>, n: nat, elements: array<int>)
    returns (failed: Option<nat>)
    requires SignatureFits(d, s, args, n) && AnyVector(args) && elements.Length == n
    requires forall m :: 0 <= m < n ==> elements[m] == 0
    modifies ctx`invocations, elements
    ensures failed == None ==>
              && FirstFailure(h, d.signatures[s].implementation, args, n, n) == n
              && elements[..] == Mapped(h, d.signatures[s].implementation, args, n, n)
              && ctx.invocations == old(ctx.invocations) + n
    ensures failed.Some? ==>
              && failed.value == FirstFailure(h, d.signatures[s].implementation, args, n, n) < n
              && ctx.invocations == old(ctx.invocations) + failed.value + 1
    ensures ValidScalarType(ResultOf(d.signatures[s].implementation))
    ensures forall m :: 0 <= m < n ==> ValidElement(ResultOf(d.signatures[s].implementation), elements[m])
  {
    ghost var i := d.signatures[s].implementation;
    SignatureMeans(d, s);
    hide Liftable, OutcomeAt, DescriptorOk, Mapped, FirstFailure, ImplementationMatches;
    for k := 0 to n
      invariant Filled(h, i, args, n, k, elements[..])
      invariant ctx.invocations == old(ctx.invocations) + k
    {
      var o := InvokeAt(ctx, h, d, s, args, n, k);
      OutcomeOk(h, i, args, n, k);
      if !o.KernelValue? {
        FailsFirst(h, i, args, n, k, elements[..]);
        FilledValid(h, i, args, n, k, elements[..]);
        return Some(k);
      }
      if o.value.element != d.signatures[s].result.element {
        assert false; // the kernel returns the declared type
      }
      ghost var before := elements[..];
      FilledStep(h, i, args, n, k, before);
      elements[k] := Stored(o.value);
      assert elements[..] == before[k := Stored(o.value)];
    }
    FilledAll(h, i, args, n, elements[..]);
    FilledValid(h, i, args, n, n, elements[..]);
    failed := None;
  }

  // ---------------------------------------------------------------- the application

  /** The result in the terms of the specification. */
  ghost predicate Shows(r: ApplyResult, o: Outcome) {
    match o
    case VectorOut(element, elements) => r.Applied? && r.value.VectorV? && r.value.payload.element == element && r.value.payload.elements == elements
    case ScalarOut(value) => r == Applied(ScalarV(value))
    case NoAdmission(why) => r.NotApplied? && r.error.ResourceError? && Unnumbered(r.error.why) == why
    case Domain(index) => r == NotApplied(DomainFailure(index))
  }

  ghost predicate Usable(r: EvaluationResources)
    reads r, r.state, r.host
  {
    r.Valid() && r.Unbound() >= 0 && r.OtherReferences() >= 1
  }

  /** src/application.cpp:448-531, for an application with a vector argument. */
  method ApplyVector(ctx: ApplicationContext, h: Hardware, d: Descriptor, s: nat, args: seq<Operand>, n: nat, owners: set<nat>) returns (r: ApplyResult)
    requires Usable(ctx.resources) && ctx.resources.state.token in owners
    requires SignatureFits(d, s, args, n) && AnyVector(args)
    modifies ctx`invocations, ctx.resources`work, ctx.resources`ordinal, ctx.resources.host, ctx.resources.state
    ensures Usable(ctx.resources) && ctx.resources.Unbound() == old(ctx.resources.Unbound())
    ensures ctx.resources.OtherReferences() == old(ctx.resources.OtherReferences())
    ensures ProfileOk(ctx.resources.profile, ctx.resources.limits) ==>
              var (o, after) := ApplySpec(h, d.signatures[s].implementation, args, n, ctx.resources.limits, ctx.resources.failAt, old(ctx.resources.Ledger()));
              && Shows(r, o) && ctx.resources.Ledger() == after
              && ctx.invocations == old(ctx.invocations) + Calls(o, n)
    ensures !ProfileOk(ctx.resources.profile, ctx.resources.limits) ==>
              r == NotApplied(ResourceError(InvalidProfile)) && ctx.resources.Ledger() == old(ctx.resources.Ledger()) && ctx.invocations == old(ctx.invocations)
    ensures r.Applied? ==> ValidElementValue(ctx.resources.host.buffers, owners, r.value)
  {
    hide Liftable, OutcomeAt, DescriptorOk, Mapped, FirstFailure, ImplementationMatches, Booked, BookedVector, Fits, ProfileOk, ApplySpec,
         AnyVector, ResultOf, StoredSoFar;
    var res := ctx.resources;
    ghost var i := d.signatures[s].implementation;
    SignatureMeans(d, s);
    VectorSpec(h, i, args, n, res.limits, res.failAt, res.Ledger());
    var element := d.signatures[s].result.element;
    ResultIsKnown(i);
    var granted := res.AllocateVector(element, n, n, false, owners);
    if granted.VectorDenied? {
      return NotApplied(ResourceError(granted.why));
    }
    var payload := granted.payload;
    var elements := new int[n](_ => 0);
    var failed := FillVector(ctx, h, d, s, args, n, elements);
    payload := payload.(elements := elements[..]);
    FilledPayload(res.host.buffers, owners, granted.payload, elements[..]);
    if failed.Some? {
      var released := res.ReleaseVector(payload, owners);
      if !released {
        assert false; // a partly filled vector is still valid
      }
      return NotApplied(DomainFailure(failed));
    }
    return Applied(VectorV(payload));
  }

  lemma ResultIsKnown(i: Implementation)
    ensures ValidScalarType(ResultOf(i))
  {
  }

  lemma FilledPayload(buffers: seq<HostBuffer>, owners: set<nat>, p: Payload, elements: seq<int>)
    requires PayloadOk(buffers, owners, p) && |elements| == |p.elements|
    requires forall k :: 0 <= k < |elements| ==> ValidElement(p.element, elements[k])
    ensures PayloadOk(buffers, owners, p.(elements := elements))
  {
  }

  /** src/application.cpp:459-468, 473-512, for scalar arguments. */
  method ApplyScalar(ctx: ApplicationContext, h: Hardware, d: Descriptor, s: nat, args: seq<Operand>, n: nat) returns (r: ApplyResult)
    requires ctx.resources.Valid() && SignatureFits(d, s, args, n) && !AnyVector(args)
    modifies ctx`invocations, ctx.resources`work
    ensures ctx.resources.Valid()
    ensures !ProfileOk(ctx.resources.profile, ctx.resources.limits) ==>
              r == NotApplied(ResourceError(InvalidProfile)) && ctx.resources.Ledger() == old(ctx.resources.Ledger()) && ctx.invocations == old(ctx.invocations)
    ensures ProfileOk(ctx.resources.profile, ctx.resources.limits) ==>
              var (o, after) := ApplySpec(h, d.signatures[s].implementation, args, n, ctx.resources.limits, ctx.resources.failAt, old(ctx.resources.Ledger()));
              && Shows(r, o) && ctx.resources.Ledger() == after
              && ctx.invocations == old(ctx.invocations) + Calls(o, n)
    ensures r.Applied? ==> r.value.ScalarV? && ValidScalar(r.value.scalar)
  {
    hide DescriptorOk, Liftable, OutcomeAt, Mapped, FirstFailure, Booked, ApplySpec, AnyVector, ImplementationMatches;
    ghost var i := d.signatures[s].implementation;
    SignatureMeans(d, s);
    ScalarSpec(h, i, args, n, ctx.resources.limits, ctx.resources.failAt, ctx.resources.Ledger());
    OutcomeOk(h, i, args, n, 0);
    BookedWork(ctx.resources.Ledger(), ctx.resources.limits, ctx.resources.failAt, 1);
    var refused := ctx.resources.ChargeWork(1);
    if refused.Some? {
      return NotApplied(ResourceError(refused.value));
    }
    var o := InvokeAt(ctx, h, d, s, args, n, 0);
    if !o.KernelValue? {
      return NotApplied(DomainFailure(None));
    }
    return Applied(ScalarV(o.value));
  }

  // ---------------------------------------------------------------- choosing and applying

  /** The signature an elementwise application uses: the given one, or the unique cheapest one. */
  ghost predicate Chosen(d: Descriptor, typed: Option<nat>, args: seq<Operand>, s: nat) {
    && d.elementwise && s < |d.signatures| && TypesFit(d.signatures[s].implementation, args)
    && (typed == Some(s) || (typed == None && UniqueLeast(d.signatures, TypesOf(args), s)))
  }

  lemma AcceptedFits(d: Descriptor, s: nat, args: seq<Operand>)
    requires DescriptorOk(d) && d.elementwise && s < |d.signatures|
    ensures Accepts(d.signatures[s], TypesOf(args)) <==> TypesFit(d.signatures[s].implementation, args)
  {
    SignatureMeans(d, s);
    hide DescriptorOk, ImplementationMatches;
  }

  /** src/application.cpp:401-424. */
  method ChooseSignature(d: Descriptor, typed: Option<nat>, args: seq<Operand>) returns (e: Option<ApplyError>, s: nat)
    requires DescriptorOk(d) && d.elementwise && (typed.Some? ==> typed.value < |d.signatures|)
    ensures e == None ==> Chosen(d, typed, args, s)
    ensures e.Some? ==> forall m: nat :: !Chosen(d, typed, args, m)
    ensures e.Some? ==> e.value == if typed == None && !ArityExists(d.signatures, |args|) then ArityError else TypeError
  {
    hide DescriptorOk;
    s := 0;
    if typed.Some? {
      s := typed.value;
      AcceptedFits(d, s, args);
      e := if Accepts(d.signatures[s], TypesOf(args)) then None else Some(TypeError);
      return;
    }
    var selection := SelectSignature(d, TypesOf(args));
    if selection.Selected? {
      s := selection.index;
      AcceptedFits(d, s, args);
      return None, s;
    }
    NothingChosen(d, typed, args);
    return Some(if selection == ArityMismatch then ArityError else TypeError), s;
  }

  lemma NothingChosen(d: Descriptor, typed: Option<nat>, args: seq<Operand>)
    requires DescriptorOk(d) && d.elementwise && typed == None
    requires (forall i: nat :: !AcceptsAt(d.signatures, TypesOf(args), i)) || AmbiguousFor(d.signatures, TypesOf(args))
          || !ArityExists(d.signatures, |args|)
    ensures forall m: nat :: !Chosen(d, typed, args, m)
  {
    forall m: nat ensures !Chosen(d, typed, args, m) {
      if AmbiguousFor(d.signatures, TypesOf(args)) {
        var i: nat, j: nat :| i < j && LeastAt(d.signatures, TypesOf(args), i) && LeastAt(d.signatures, TypesOf(args), j);
        assert i != m || j != m;
      } else if !ArityExists(d.signatures, |args|) {
        assert m < |d.signatures| ==> |d.signatures[m].parameters| != |args|;
      }
    }
  }

  /** src/application.cpp:401-531. */
  method ApplyElementwise(ctx: ApplicationContext, h: Hardware, d: Descriptor, typed: Option<nat>, args: seq<Operand>, owners: set<nat>)
    returns (r: ApplyResult)
    requires Usable(ctx.resources) && ctx.resources.state.token in owners
    requires DescriptorOk(d) && d.elementwise && (typed.Some? ==> typed.value < |d.signatures|) && OperandsOk(args)
    modifies ctx`invocations, ctx.resources`work, ctx.resources`ordinal, ctx.resources.host, ctx.resources.state
    ensures Usable(ctx.resources) && ctx.resources.Unbound() == old(ctx.resources.Unbound())
    ensures forall s: nat :: Chosen(d, typed, args, s) && ShapesAgree(args, LengthOf(args)) && ProfileOk(ctx.resources.profile, ctx.resources.limits) ==>
              && Liftable(d.signatures[s].implementation, args, LengthOf(args))
              && var (o, after) := ApplySpec(h, d.signatures[s].implementation, args, LengthOf(args), ctx.resources.limits, ctx.resources.failAt,
                                             old(ctx.resources.Ledger()));
                 && Shows(r, o) && ctx.resources.Ledger() == after
                 && ctx.invocations == old(ctx.invocations) + Calls(o, LengthOf(args))
    ensures (forall s: nat :: !Chosen(d, typed, args, s)) ==>
              r == NotApplied(if typed == None && !ArityExists(d.signatures, |args|) then ArityError else TypeError)
    ensures (exists s: nat :: Chosen(d, typed, args, s)) && !ShapesAgree(args, LengthOf(args)) ==> r.NotApplied? && ShapeFault(args, r.error)
    ensures r.NotApplied? && !r.error.ResourceError? && !r.error.DomainFailure? ==>
              ctx.resources.Ledger() == old(ctx.resources.Ledger()) && ctx.invocations == old(ctx.invocations)
    ensures (exists s: nat :: Chosen(d, typed, args, s)) && ShapesAgree(args, LengthOf(args)) ==>
              r.Applied? || r.error.ResourceError? || r.error.DomainFailure?
  {
    hide DescriptorOk, OperandsOk, TypesFit, ShapesAgree, AnyVector, ApplySpec, ProfileOk, UniqueLeast;
    var e, s := ChooseSignature(d, typed, args);
    if e.Some? {
      return NotApplied(e.value);
    }
    ChosenOnce(d, typed, args, s);
    var vector, n;
    e, vector, n := ResultShape(args);
    if e.Some? {
      return NotApplied(e.value);
    }
    ChosenFits(d, typed, args, s, n);
    if vector {
      r := ApplyVector(ctx, h, d, s, args, n, owners);
    } else {
      r := ApplyScalar(ctx, h, d, s, args, n);
    }
  }

  /** Kernel calls made: up to the failing element, one for each element, one for scalars. */
  function Calls(o: Outcome, n: nat): nat {
    match o
    case VectorOut(_, _) => n
    case ScalarOut(_) => 1
    case Domain(index) => if index.Some? then index.value + 1 else 1
    case NoAdmission(_) => 0
  }

  lemma ChosenOnce(d: Descriptor, typed: Option<nat>, args: seq<Operand>, s: nat)
    requires Chosen(d, typed, args, s)
    ensures forall m: nat :: Chosen(d, typed, args, m) ==> m == s
  {
    hide LeastAt, TypesFit;
  }

  lemma ChosenFits(d: Descriptor, typed: Option<nat>, args: seq<Operand>, s: nat, n: nat)
    requires DescriptorOk(d) && Chosen(d, typed, args, s) && OperandsOk(args) && ShapesAgree(args, n)
    ensures SignatureFits(d, s, args, n)
  {
    SignatureMeans(d, s);
    hide DescriptorOk, UniqueLeast, ImplementationMatches;
  }

  // ---------------------------------------------------------------- iota

  predicate MatchesStructure(s: Signature, args: seq<Operand>) {
    && |s.parameters| == |args|
    && forall j :: 0 <= j < |args| ==> s.parameters[j] == ValueType(if args[j].VectorArg? then VectorC else ScalarC, ElementOf(args[j]))
  }

  /** src/application.cpp:329-371. */
  method ChooseStructural(d: Descriptor, typed: Option<nat>, args: seq<Operand>) returns (s: Option<nat>)
    requires typed.Some? ==> typed.value < |d.signatures|
    ensures s.Some? ==> s.value < |d.signatures| && MatchesStructure(d.signatures[s.value], args) && (typed.Some? ==> s == typed)
    ensures s == None ==>
              if typed.Some? then !MatchesStructure(d.signatures[typed.value], args)
              else forall k: nat :: k < |d.signatures| ==> !MatchesStructure(d.signatures[k], args)
  {
    if typed.Some? {
      return if MatchesStructure(d.signatures[typed.value], args) then typed else None;
    }
    for k := 0 to |d.signatures|
      invariant forall j: nat :: j < k ==> !MatchesStructure(d.signatures[j], args)
    {
      if MatchesStructure(d.signatures[k], args) {
        return Some(k);
      }
    }
    s := None;
  }

  predicate IsIotaArgument(args: seq<Operand>) {
    |args| == 1 && args[0].ScalarArg? && args[0].value.element == Integer
  }

  /** `iota` takes one integer; no other structural primitive can be applied. */
  ghost predicate StructuralRight(d: Descriptor, args: seq<Operand>, r: ApplyResult) {
    if d.id != Iota then r == NotApplied(TypeError) || r == NotApplied(InvalidPrimitiveTable)
    else if IsIotaArgument(args) then r.Applied? || r.error.ResourceError?
    else r == NotApplied(TypeError)
  }

  /** Applying `iota` to one integer in a properly configured context is what the specification says. */
  twostate predicate MeetsIota(res: EvaluationResources, d: Descriptor, args: seq<Operand>, r: ApplyResult)
    requires old(BookOk(res.Ledger()))
    reads res, res.state
  {
    d.id == Iota && IsIotaArgument(args) && ProfileOk(res.profile, res.limits) ==>
      var (o, after) := IotaSpec(args[0].value.integer, res.limits, res.failAt, old(res.Ledger()));
      Shows(r, o) && res.Ledger() == after
  }

  /** src/application.cpp:329-399.  The only structural primitive is `iota`. */
  method ApplyStructural(ctx: ApplicationContext, d: Descriptor, typed: Option<nat>, args: seq<Operand>, owners: set<nat>) returns (r: ApplyResult)
    requires Usable(ctx.resources) && ctx.resources.state.token in owners && OperandsOk(args)
    requires DescriptorOk(d) && (typed.Some? ==> typed.value < |d.signatures|)
    modifies ctx.resources`work, ctx.resources`ordinal, ctx.resources.host, ctx.resources.state
    ensures Usable(ctx.resources) && ctx.resources.Unbound() == old(ctx.resources.Unbound())
    ensures MeetsIota(ctx.resources, d, args, r) && StructuralRight(d, args, r)
    ensures r.NotApplied? && !r.error.ResourceError? ==> ctx.resources.Ledger() == old(ctx.resources.Ledger())
  {
    hide DescriptorOk, OperandsOk, Booked, Fits, ProfileOk, ImplementationMatches, MatchesStructure;
    var s := ChooseStructural(d, typed, args);
    if d.id == Iota { StructuralIota(d, typed, args); }
    if s == None {
      return NotApplied(TypeError);
    }
    if d.signatures[s.value].implementation != IotaInt || d.id != Iota || |args| != 1 {
      return NotApplied(InvalidPrimitiveTable);
    }
    IotaArgument(d, s.value, args);
    var bound := args[0].value.integer;
    var count: nat := if bound > 0 then bound else 0;
    var granted := ctx.resources.AllocateVector(Integer, count, count, false, owners);
    if granted.VectorDenied? {
      return NotApplied(ResourceError(granted.why));
    }
    var elements := CountUp(count);
    return Applied(VectorV(granted.payload.(elements := elements)));
  }

  /** src/application.cpp:393-396. */
  method CountUp(count: nat) returns (r: seq<int>)
    ensures r == Lifting.Counted(count)
  {
    var elements := new int[count](_ => 0);
    for k := 0 to count
      invariant forall m :: 0 <= m < k ==> elements[m] == m + 1
    {
      elements[k] := k + 1;
    }
    assert elements[..] == Lifting.Counted(count);
    r := elements[..];
  }

  lemma IotaArgument(d: Descriptor, s: nat, args: seq<Operand>)
    requires DescriptorOk(d) && s < |d.signatures| && d.id == Iota && OperandsOk(args) && |args| == 1 && MatchesStructure(d.signatures[s], args)
    ensures args[0].ScalarArg? && args[0].value.element == Integer && args[0].value.integer <= SIZE_MAX
  {
    assert ImplementationMatches(d.id, d.signatures[s]) && OperandOk(args[0]);
  }

  /** With the one integer argument, `iota` matches its only possible signature. */
  lemma StructuralIota(d: Descriptor, typed: Option<nat>, args: seq<Operand>)
    requires DescriptorOk(d) && (typed.Some? ==> typed.value < |d.signatures|) && d.id == Iota
    ensures forall s: nat :: s < |d.signatures| ==>
              d.signatures[s].implementation == IotaInt && (MatchesStructure(d.signatures[s], args) ==> |args| == 1)
    ensures |args| == 1 && args[0].ScalarArg? && args[0].value.element == Integer ==>
              |d.signatures| > 0 && MatchesStructure(d.signatures[0], args)
              && forall s: nat :: s < |d.signatures| ==> MatchesStructure(d.signatures[s], args)
  {
    forall s: nat | s < |d.signatures| ensures d.signatures[s].implementation == IotaInt && d.signatures[s].parameters == [ValueType(ScalarC, Integer)] {
      assert ImplementationMatches(d.id, d.signatures[s]);
    }
  }

  lemma IotaArity(d: Descriptor)
    requires DescriptorOk(d)
    ensures d.id == Iota ==> ArityExists(d.signatures, 1)
  {
    if d.id == Iota {
      assert ImplementationMatches(d.id, d.signatures[0]);
      assert |d.signatures[0].parameters| == 1;
    }
  }

  // ---------------------------------------------------------------- entry points

  const MAXIMUM_ARITY: nat := 2

  /** The first check that fails decides the error: arity, number of arguments, each argument, signature, shapes. */
  ghost predicate RefusedRightly(buffers: seq<HostBuffer>, owners: set<nat>, d: Descriptor, typed: Option<nat>, arguments: seq<Argument>, r: ApplyResult) {
    var args := Operands(arguments);
    if !ArityExists(d.signatures, |arguments|) then r == NotApplied(ArityError)
    else if |arguments| > MAXIMUM_ARITY then r == NotApplied(InvalidPrimitiveTable)
    else if !ArgumentsOk(buffers, owners, arguments) then r.NotApplied? && exists j: nat :: FirstFault(buffers, owners, arguments, j, r.error)
    else if !d.elementwise then StructuralRight(d, args, r)
    else if forall s: nat :: !Chosen(d, typed, args, s) then r == NotApplied(TypeError)
    else if !ShapesAgree(args, LengthOf(args)) then r.NotApplied? && ShapeFault(args, r.error)
    else r.Applied? || r.error.ResourceError? || r.error.DomainFailure?
  }

  /** src/application.cpp:250-531: check the arguments, then apply. */
  method ApplyChecked(ctx: ApplicationContext, h: Hardware, d: Descriptor, typed: Option<nat>, arguments: seq<Argument>, owners: set<nat>)
    returns (r: ApplyResult)
    requires Usable(ctx.resources) && ctx.resources.state.token in owners && MachineArguments(arguments)
    requires DescriptorOk(d) && (typed.Some? ==> typed.value < |d.signatures|)
    modifies ctx`invocations, ctx.resources`work, ctx.resources`ordinal, ctx.resources.host, ctx.resources.state
    ensures Usable(ctx.resources) && ctx.resources.Unbound() == old(ctx.resources.Unbound())
    ensures RefusedRightly(old(ctx.resources.host.buffers), owners, d, typed, arguments, r)
    ensures !d.elementwise && old(ArgumentsOk(ctx.resources.host.buffers, owners, arguments)) ==> MeetsIota(ctx.resources, d, Operands(arguments), r)
    ensures old(Applicable(ctx.resources, d, arguments, owners)) ==>
              forall s: nat :: Chosen(d, typed, Operands(arguments), s) ==> old(Lifts(ctx.resources, d, s, arguments)) && MeetsSpec(ctx, h, d, s, arguments, r)
    ensures r.NotApplied? && !r.error.ResourceError? && !r.error.DomainFailure? ==>
              ctx.resources.Ledger() == old(ctx.resources.Ledger()) && ctx.invocations == old(ctx.invocations)
  {
    hide DescriptorOk, ArgumentsOk, MachineArguments, OperandsOk, TypesFit, UniqueLeast, ProfileOk, ShapesAgree, ApplySpec, Liftable, Shows;
    var arity := HasArity(d.signatures, |arguments|);
    if !arity {
      WrongArityChosen(d, typed, arguments);
      IotaArity(d);
      return NotApplied(ArityError);
    }
    if |arguments| > MAXIMUM_ARITY {
      TooManyChosen(d, typed, arguments);
      return NotApplied(InvalidPrimitiveTable);
    }
    var e := CheckArguments(ctx.resources.host.buffers, owners, arguments);
    if e.Some? {
      return NotApplied(e.value);
    }
    ViewsAreOk(ctx.resources.host.buffers, owners, arguments);
    if d.elementwise {
      r := ApplyElementwise(ctx, h, d, typed, Operands(arguments), owners);
    } else {
      r := ApplyStructural(ctx, d, typed, Operands(arguments), owners);
      StructuralChosen(d, typed, arguments);
    }
  }

  /** Valid arguments of one shape, in a properly configured context. */
  ghost predicate Applicable(r: EvaluationResources, d: Descriptor, arguments: seq<Argument>, owners: set<nat>)
    reads r, r.host
  {
    && ArgumentsOk(r.host.buffers, owners, arguments) && ProfileOk(r.profile, r.limits)
    && ShapesAgree(Operands(arguments), LengthOf(Operands(arguments)))
  }

  ghost predicate Lifts(r: EvaluationResources, d: Descriptor, s: nat, arguments: seq<Argument>)
    reads r, r.state
  {
    s < |d.signatures| && Liftable(d.signatures[s].implementation, Operands(arguments), LengthOf(Operands(arguments))) && BookOk(r.Ledger())
  }

  /** The outcome, the ledger and the number of kernel calls are those of the specification. */
  twostate predicate MeetsSpec(ctx: ApplicationContext, h: Hardware, d: Descriptor, s: nat, arguments: seq<Argument>, r: ApplyResult)
    requires old(Lifts(ctx.resources, d, s, arguments))
    reads ctx, ctx.resources, ctx.resources.state
  {
    var args := Operands(arguments);
    var (o, after) := ApplySpec(h, d.signatures[s].implementation, args, LengthOf(args), ctx.resources.limits, ctx.resources.failAt,
                                old(ctx.resources.Ledger()));
    Shows(r, o) && ctx.resources.Ledger() == after && ctx.invocations == old(ctx.invocations) + Calls(o, LengthOf(args))
  }

  method HasArity(sigs: seq<Signature>, arity: nat) returns (found: bool)
    ensures found <==> ArityExists(sigs, arity)
  {
    for i := 0 to |sigs|
      invariant forall j: nat :: j < i ==> |sigs[j].parameters| != arity
    {
      if |sigs[i].parameters| == arity {
        return true;
      }
    }
    found := false;
  }

  lemma WrongArityChosen(d: Descriptor, typed: Option<nat>, arguments: seq<Argument>)
    requires DescriptorOk(d) && !ArityExists(d.signatures, |arguments|)
    ensures forall s: nat :: !Chosen(d, typed, Operands(arguments), s)
  {
    forall s: nat ensures !Chosen(d, typed, Operands(arguments), s) {
      if s < |d.signatures| { assert |d.signatures[s].parameters| != |arguments|; }
    }
  }

  lemma TooManyChosen(d: Descriptor, typed: Option<nat>, arguments: seq<Argument>)
    requires |arguments| > MAXIMUM_ARITY
    ensures forall s: nat :: !Chosen(d, typed, Operands(arguments), s)
  {
    hide UniqueLeast;
  }

  lemma StructuralChosen(d: Descriptor, typed: Option<nat>, arguments: seq<Argument>)
    requires !d.elementwise
    ensures forall s: nat :: !Chosen(d, typed, Operands(arguments), s)
  {
  }

  /** src/application.cpp:535-566: selection by the argument types. */
  method ApplyPrimitive(ctx: ApplicationContext, h: Hardware, d: Descriptor, arguments: seq<Argument>, owners: set<nat>) returns (r: ApplyResult)
    requires Usable(ctx.resources) && ctx.resources.state.token in owners && MachineArguments(arguments) && DescriptorOk(d)
    modifies ctx`invocations, ctx.resources`work, ctx.resources`ordinal, ctx.resources.host, ctx.resources.state
    ensures Usable(ctx.resources) && ctx.resources.Unbound() == old(ctx.resources.Unbound())
    ensures RefusedRightly(old(ctx.resources.host.buffers), owners, d, None, arguments, r)
    ensures !d.elementwise && old(ArgumentsOk(ctx.resources.host.buffers, owners, arguments)) ==> MeetsIota(ctx.resources, d, Operands(arguments), r)
    ensures r.NotApplied? && !r.error.ResourceError? && !r.error.DomainFailure? ==>
              ctx.resources.Ledger() == old(ctx.resources.Ledger()) && ctx.invocations == old(ctx.invocations)
    ensures old(Applicable(ctx.resources, d, arguments, owners)) ==>
              forall s: nat :: Chosen(d, None, Operands(arguments), s) ==> old(Lifts(ctx.resources, d, s, arguments)) && MeetsSpec(ctx, h, d, s, arguments, r)
  {
    hide *;
    r := ApplyChecked(ctx, h, d, None, arguments, owners);
  }

  /** src/application.cpp:568-591: the implementation is given; it names one signature, and no two of a valid descriptor. */
  method ApplyTyped(ctx: ApplicationContext, h: Hardware, d: Descriptor, implementation: Implementation, arguments: seq<Argument>, owners: set<nat>)
    returns (r: ApplyResult)
    requires Usable(ctx.resources) && ctx.resources.state.token in owners && MachineArguments(arguments) && DescriptorOk(d)
    modifies ctx`invocations, ctx.resources`work, ctx.resources`ordinal, ctx.resources.host, ctx.resources.state
    ensures Usable(ctx.resources) && ctx.resources.Unbound() == old(ctx.resources.Unbound())
    ensures old(Applicable(ctx.resources, d, arguments, owners)) ==>
              forall s: nat :: s < |d.signatures| && d.signatures[s].implementation == implementation && Chosen(d, Some(s), Operands(arguments), s) ==>
                old(Lifts(ctx.resources, d, s, arguments)) && MeetsSpec(ctx, h, d, s, arguments, r)
    ensures (forall s: nat :: s < |d.signatures| ==> d.signatures[s].implementation != implementation) ==> r == NotApplied(InvalidPrimitiveTable)
    ensures forall s: nat :: s < |d.signatures| && d.signatures[s].implementation == implementation ==>
              && RefusedRightly(old(ctx.resources.host.buffers), owners, d, Some(s), arguments, r)
              && (!d.elementwise && old(ArgumentsOk(ctx.resources.host.buffers, owners, arguments)) ==> MeetsIota(ctx.resources, d, Operands(arguments), r))
    ensures r.NotApplied? && !r.error.ResourceError? && !r.error.DomainFailure? ==>
              ctx.resources.Ledger() == old(ctx.resources.Ledger()) && ctx.invocations == old(ctx.invocations)
  {
    hide DescriptorOk, Applicable, Chosen, MachineArguments, ApplySpec, Liftable, Shows, ArgumentsOk, RefusedRightly;
    var found := FindImplementation(d, implementation);
    if found == None {
      return NotApplied(InvalidPrimitiveTable);
    }
    r := ApplyChecked(ctx, h, d, found, arguments, owners);
    assert forall s: nat :: s < |d.signatures| && d.signatures[s].implementation == implementation ==> Some(s) == found;
  }

  method FindImplementation(d: Descriptor, implementation: Implementation) returns (found: Option<nat>)
    requires DescriptorOk(d)
    ensures found == None ==> forall j: nat :: j < |d.signatures| ==> d.signatures[j].implementation != implementation
    ensures found.Some? ==> found.value < |d.signatures| && d.signatures[found.value].implementation == implementation
    ensures found.Some? ==> forall j: nat :: j < |d.signatures| && j != found.value ==> d.signatures[j].implementation != implementation
  {
    hide DescriptorOk;
    found := None;
    for k := 0 to |d.signatures|
      invariant found == None ==> forall j: nat :: j < k ==> d.signatures[j].implementation != implementation
      invariant found.Some? ==> found.value < k && d.signatures[found.value].implementation == implementation
      invariant found.Some? ==> forall j: nat :: j < k && j != found.value ==> d.signatures[j].implementation != implementation
    {
      if d.signatures[k].implementation == implementation {
        if found.Some? {
          ImplementationOnce(d, found.value, k);
          assert false;
        }
        found := Some(k);
      }
    }
    if found.Some? && implementation == NoImplementation {
      RealImplementation(d, found.value);
      assert false;
    }
  }

  lemma ImplementationOnce(d: Descriptor, j: nat, k: nat)
    requires DescriptorOk(d) && j < k < |d.signatures|
    ensures d.signatures[j].implementation != d.signatures[k].implementation
  {
    assert SignatureOk(d, k) && ImplementationMatches(d.id, d.signatures[j]) && ImplementationMatches(d.id, d.signatures[k]);
    assert !SameSignature(d.signatures[j], d.signatures[k]);
  }

  lemma RealImplementation(d: Descriptor, k: nat)
    requires DescriptorOk(d) && k < |d.signatures|
    ensures d.signatures[k].implementation != NoImplementation
  {
    assert ImplementationMatches(d.id, d.signatures[k]);
  }
}
