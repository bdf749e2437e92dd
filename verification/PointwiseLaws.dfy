/**
 What `Lifting` says, without its own projection: applying a primitive to vectors is applying it to their elements,
 index by index, as scalars.
 */
module PointwiseLaws {
  import opened Kinds
  import opened ValueArenas
  import opened Primitives
  import opened Kernels
  import opened Resources
  import opened Lifting
  import Binary64
  import IntRounding

  const UNLIMITED := Limits(None, None, None, None)

  /** The scalar that a stored element of type `t` is. */
  ghost predicate IsElement(s: ScalarValue, t: ScalarType, x: int) {
    s.element == t && ValidScalar(s) && Machine(s) && match t {
      case Boolean => s.boolean <==> x == 1
      case DoublePrecision => s.double == x
      case _ => s.integer == x
    }
  }

  /** The arguments at index `k`: every vector replaced by its own element there. */
  function ElementsAt(args: seq<Operand>, n: nat, k: nat): (r: seq<Operand>)
    requires OperandsOk(args) && ShapesAgree(args, n) && k < n
    ensures |r| == |args|
    ensures forall j :: 0 <= j < |args| ==>
              r[j].ScalarArg? && (if args[j].ScalarArg? then r[j] == args[j] else IsElement(r[j].value, args[j].element, args[j].elements[k]))
  {
    ElementScalars(args, n, k);
    seq(|args|, j requires 0 <= j < |args| && HasIndex(args[j], k) => ScalarArg(Project(args[j], k)))
  }

  lemma ElementScalars(args: seq<Operand>, n: nat, k: nat)
    requires OperandsOk(args) && ShapesAgree(args, n) && k < n
    ensures forall j :: 0 <= j < |args| ==>
              && HasIndex(args[j], k)
              && (if args[j].ScalarArg? then ScalarArg(Project(args[j], k)) == args[j]
                  else IsElement(Project(args[j], k), args[j].element, args[j].elements[k]))
  {
    forall j | 0 <= j < |args| && args[j].VectorArg? ensures IsElement(Project(args[j], k), args[j].element, args[j].elements[k]) {
      assert OperandOk(args[j]);
      LoadedOk(args[j].element, args[j].elements[k]);
    }
  }

  /** An element is one scalar only. */
  lemma ElementOnce(s: ScalarValue, s': ScalarValue, t: ScalarType, x: int)
    requires IsElement(s, t, x) && IsElement(s', t, x)
    ensures s == s'
  {
  }

  /** The application of scalars, with nothing to stop it. */
  ghost function ScalarApplication(h: Hardware, i: Implementation, scalars: seq<Operand>): Outcome
    requires Liftable(i, scalars, 1)
  {
    ApplySpec(h, i, scalars, 1, UNLIMITED, None, Book(0, 0, 0)).0
  }

  lemma ElementsLift(h: Hardware, i: Implementation, args: seq<Operand>, n: nat, k: nat)
    requires Liftable(i, args, n) && k < n
    ensures var scalars := ElementsAt(args, n, k);
            && Liftable(i, scalars, 1) && !AnyVector(scalars)
            && OutcomeAt(h, i, scalars, 1, 0) == OutcomeAt(h, i, args, n, k)
  {
    var scalars := ElementsAt(args, n, k);
    ElementScalars(args, n, k);
    forall j | 0 <= j < |args| ensures OperandOk(scalars[j]) && ElementOf(scalars[j]) == ElementOf(args[j]) && Project(scalars[j], 0) == Project(args[j], k) {
      assert OperandOk(args[j]);
      if args[j].VectorArg? { ElementOnce(scalars[j].value, Project(args[j], k), args[j].element, args[j].elements[k]); }
    }
    hide Operate, Converted, ConversionCost, OperandOk, IsElement, Project;
    assert Liftable(i, scalars, 1);
  }

  lemma ScalarOutcome(h: Hardware, i: Implementation, scalars: seq<Operand>)
    requires Liftable(i, scalars, 1) && !AnyVector(scalars)
    ensures var o := OutcomeAt(h, i, scalars, 1, 0);
            ScalarApplication(h, i, scalars) == if o.KernelValue? then ScalarOut(o.value) else Domain(None)
  {
    ScalarSpec(h, i, scalars, 1, UNLIMITED, None, Book(0, 0, 0));
    hide Liftable, OutcomeAt, AnyVector, ApplySpec;
  }

  /**
   A successful application stores at every index what the scalars at that index give, and a failed one names the
   least index at which they fail.
   */
  lemma PointwiseMap(h: Hardware, i: Implementation, args: seq<Operand>, n: nat, limits: Limits, failAt: Option<nat>, b: Book)
    requires Liftable(i, args, n) && BookOk(b) && AnyVector(args)
    ensures forall k: nat :: k < n ==> Liftable(i, ElementsAt(args, n, k), 1)
    ensures var o := ApplySpec(h, i, args, n, limits, failAt, b).0;
            && !o.ScalarOut?
            && (o.VectorOut? ==>
                  && o.element == ResultOf(i) && |o.elements| == n
                  && forall k: nat :: k < n ==>
                       var s := ScalarApplication(h, i, ElementsAt(args, n, k));
                       s.ScalarOut? && IsElement(s.value, o.element, o.elements[k]))
            && (o.Domain? ==>
                  && o.index.Some? && o.index.value < n
                  && forall k: nat :: k <= o.index.value ==>
                       (ScalarApplication(h, i, ElementsAt(args, n, k)) == Domain(None) <==> k == o.index.value))
  {
    hide *;
    LiftableParts(i, args, n);
    FailureIsFirst(h, i, args, n);
    VectorSpec(h, i, args, n, limits, failAt, b);
    MapIsKernel(h, i, args, n, limits, failAt, b);
    forall k: nat | k < n
      ensures Liftable(i, ElementsAt(args, n, k), 1)
      ensures var o := OutcomeAt(h, i, args, n, k);
              && (o == DomainError || o.KernelValue?)
              && (ScalarApplication(h, i, ElementsAt(args, n, k)) == if o.KernelValue? then ScalarOut(o.value) else Domain(None))
    {
      ElementsLift(h, i, args, n, k);
      ScalarOutcome(h, i, ElementsAt(args, n, k));
      OutcomeOk(h, i, args, n, k);
    }
    var o := ApplySpec(h, i, args, n, limits, failAt, b).0;
    if o.VectorOut? {
      ResultIsScalar(i);
      forall k: nat | k < n
        ensures var s := ScalarApplication(h, i, ElementsAt(args, n, k)); s.ScalarOut? && IsElement(s.value, o.element, o.elements[k])
      {
        LoadedIsElement(o.element, o.elements[k]);
      }
    }
  }

  lemma LiftableParts(i: Implementation, args: seq<Operand>, n: nat)
    requires Liftable(i, args, n)
    ensures OperandsOk(args) && ShapesAgree(args, n)
  {
  }

  lemma FailureIsFirst(h: Hardware, i: Implementation, args: seq<Operand>, n: nat)
    requires Liftable(i, args, n) && AnyVector(args)
    ensures var f := FirstFailure(h, i, args, n, n);
            f < n ==> forall k: nat :: k <= f ==> (OutcomeAt(h, i, args, n, k) == DomainError <==> k == f)
  {
    hide Liftable, OutcomeAt, AnyVector;
    var f := FirstFailure(h, i, args, n, n);
  }

  lemma ResultIsScalar(i: Implementation)
    ensures ValidScalarType(ResultOf(i))
  {
  }

  lemma LoadedIsElement(t: ScalarType, x: int)
    requires ValidScalarType(t) && ElementOk(t, x)
    ensures IsElement(Loaded(t, x), t, x)
  {
  }

  /** Integer arithmetic on vectors is exact integer arithmetic on their elements. */
  lemma IntegerMap(h: Hardware, i: Implementation, args: seq<Operand>, n: nat, limits: Limits, failAt: Option<nat>, b: Book)
    requires Liftable(i, args, n) && BookOk(b) && AnyVector(args) && ChecksRange(i)
    ensures var o := ApplySpec(h, i, args, n, limits, failAt, b).0;
            o.VectorOut? ==>
              && o.element == Integer && |o.elements| == n
              && forall k: nat :: k < n ==>
                   && HasIndex(args[0], k) && (|args| == 2 ==> HasIndex(args[1], k))
                   && o.elements[k] == ExactResult(i, IntegerAt(args[0], k), if |args| == 2 then IntegerAt(args[1], k) else 0)
  {
    hide Liftable, ApplySpec, ElementOk, OutcomeAt, ExactAt, ExactResult, IntegerAt, Loaded, ChecksRange, ResultOf, AnyVector, IntRounding.IsInt64;
    MapIsKernel(h, i, args, n, limits, failAt, b);
    IntegerImplementation(i, args, n);
    var o := ApplySpec(h, i, args, n, limits, failAt, b).0;
    if o.VectorOut? {
      forall k: nat | k < n
        ensures HasIndex(args[0], k) && (|args| == 2 ==> HasIndex(args[1], k))
        ensures o.elements[k] == ExactResult(i, IntegerAt(args[0], k), if |args| == 2 then IntegerAt(args[1], k) else 0)
      {
        OutcomeExact(h, i, args, n, k);
        ExactIs(i, args, n, k);
        LoadedInteger(o.elements[k]);
      }
    }
  }

  lemma IntegerImplementation(i: Implementation, args: seq<Operand>, n: nat)
    requires Liftable(i, args, n) && ChecksRange(i)
    ensures ResultOf(i) == Integer && 1 <= |args| <= 2
  {
  }

  lemma ExactIs(i: Implementation, args: seq<Operand>, n: nat, k: nat)
    requires Liftable(i, args, n) && (AnyVector(args) ==> k < n) && ChecksRange(i) && 1 <= |args| <= 2
    ensures HasIndex(args[0], k) && (|args| == 2 ==> HasIndex(args[1], k))
    ensures ExactAt(i, args, n, k) == ExactResult(i, IntegerAt(args[0], k), if |args| == 2 then IntegerAt(args[1], k) else 0)
  {
    ProjectedInteger(i, args, n, 0, k);
    if |args| == 2 { ProjectedInteger(i, args, n, 1, k); }
    hide Liftable, ExactResult, IntegerAt;
  }

  lemma LoadedInteger(x: int)
    ensures Loaded(Integer, x) == IntScalar(x)
  {
  }

  // ---------------------------------------------------------------- scalars

  /** Scalars of the types of the implementation are handed to the kernel as they are. */
  lemma ScalarsApply(h: Hardware, i: Implementation, scalars: seq<Operand>)
    requires Liftable(i, scalars, 1) && !AnyVector(scalars)
    requires forall j :: 0 <= j < |scalars| ==> ElementOf(scalars[j]) == ParameterOf(i)
    ensures 1 <= |scalars| <= 2 && forall j :: 0 <= j < |scalars| ==> scalars[j].ScalarArg? && Machine(scalars[j].value)
    ensures var o := Operate(h, i, scalars[0].value, if |scalars| == 2 then scalars[1].value else NO_OPERAND);
            ScalarApplication(h, i, scalars) == if o.KernelValue? then ScalarOut(o.value) else Domain(None)
  {
    forall j | 0 <= j < |scalars| ensures scalars[j].ScalarArg? && Machine(scalars[j].value) {
      assert OperandOk(scalars[j]);
    }
    ScalarOutcome(h, i, scalars);
    hide Operate, ApplySpec, ScalarApplication;
  }

  /** Scalars that convert alike have the same outcome. */
  lemma SameConverted(h: Hardware, i: Implementation, a: seq<Operand>, b: seq<Operand>)
    requires Liftable(i, a, 1) && Liftable(i, b, 1) && !AnyVector(a) && !AnyVector(b) && |a| == |b|
    requires forall m :: 0 <= m < |a| ==>
               && HasIndex(a[m], 0) && HasIndex(b[m], 0) && Machine(Project(a[m], 0)) && Machine(Project(b[m], 0))
               && Converted(Project(a[m], 0), ParameterOf(i)) == Converted(Project(b[m], 0), ParameterOf(i))
    ensures OutcomeAt(h, i, a, 1, 0) == OutcomeAt(h, i, b, 1, 0)
  {
    hide Operate, Converted, Project, HasIndex, AnyVector;
    assert 1 <= |a| <= 2;
  }

  lemma PromotedLifts(i: Implementation, scalars: seq<Operand>, j: nat, bits: Bits)
    requires Liftable(i, scalars, 1) && !AnyVector(scalars) && j < |scalars|
    requires ElementOf(scalars[j]) == Integer && ParameterOf(i) == DoublePrecision && scalars[j].ScalarArg? && Binary64.IsFinite(bits)
    ensures var promoted := scalars[j := ScalarArg(ScalarValue(DoublePrecision, false, 0, bits))];
            Liftable(i, promoted, 1) && !AnyVector(promoted)
  {
    PromotedOk(bits);
    hide OperandOk, Binary64.IsFinite;
  }

  lemma PromotedConverts(s: ScalarValue, bits: Bits)
    requires Machine(s) && s.element == Integer && IntRounding.NearestEven(s.integer, bits)
    ensures var d := ScalarValue(DoublePrecision, false, 0, bits);
            Machine(d) && Converted(s, DoublePrecision) == d == Converted(d, DoublePrecision)
  {
    IntRounding.NearestEvenUnique(s.integer, bits, IntRounding.ToDouble(s.integer));
    hide IntRounding.NearestEven;
  }

  /** An integer where a double is expected stands for the nearest double, ties to even. */
  lemma PromotedArgument(h: Hardware, i: Implementation, scalars: seq<Operand>, j: nat, bits: Bits)
    requires Liftable(i, scalars, 1) && !AnyVector(scalars) && j < |scalars|
    requires ElementOf(scalars[j]) == Integer && ParameterOf(i) == DoublePrecision && scalars[j].ScalarArg?
    requires IntRounding.NearestEven(scalars[j].value.integer, bits)
    ensures var promoted := scalars[j := ScalarArg(ScalarValue(DoublePrecision, false, 0, bits))];
            Liftable(i, promoted, 1) && ScalarApplication(h, i, promoted) == ScalarApplication(h, i, scalars)
  {
    var promoted := scalars[j := ScalarArg(ScalarValue(DoublePrecision, false, 0, bits))];
    NearestIsFinite(scalars[j].value.integer, bits);
    PromotedLifts(i, scalars, j, bits);
    assert OperandOk(scalars[j]);
    PromotedConverts(scalars[j].value, bits);
    hide Liftable, Converted, OperandOk, ApplySpec, ScalarApplication, AnyVector, Machine, OutcomeAt, IntRounding.NearestEven;
    forall m | 0 <= m < |scalars|
      ensures HasIndex(scalars[m], 0) && HasIndex(promoted[m], 0) && Machine(Project(scalars[m], 0)) && Machine(Project(promoted[m], 0))
      ensures Converted(Project(promoted[m], 0), DoublePrecision) == Converted(Project(scalars[m], 0), DoublePrecision)
    {
      ProjectedOk(i, scalars, 1, m, 0);
      ProjectedOk(i, promoted, 1, m, 0);
    }
    SameConverted(h, i, promoted, scalars);
    ScalarOutcome(h, i, scalars);
    ScalarOutcome(h, i, promoted);
  }

  lemma NearestIsFinite(x: int, bits: nat)
    requires IntRounding.NearestEven(x, bits)
    ensures Binary64.IsFinite(bits)
  {
  }

  lemma PromotedOk(bits: Bits)
    requires Binary64.IsFinite(bits)
    ensures OperandOk(ScalarArg(ScalarValue(DoublePrecision, false, 0, bits)))
  {
  }

  // ---------------------------------------------------------------- iota

  /** `iota` of a bound below one is empty and free; any other gives the integers from one to the bound, eight bytes and one unit each. */
  lemma IotaExact(bound: int, limits: Limits, failAt: Option<nat>, b: Book)
    requires BookOk(b)
    ensures var (o, after) := IotaSpec(bound, limits, failAt, b);
            var n := if bound < 1 then 0 else bound;
            && (o.VectorOut? || o.NoAdmission?)
            && (o.VectorOut? ==>
                  && o.element == Integer && |o.elements| == n && (forall k: nat :: k < n ==> o.elements[k] == k + 1)
                  && after.live == b.live + 8 * n && after.work == b.work + n)
            && (o.NoAdmission? ==> after.live == b.live && after.work == b.work)
            && (bound < 1 && Within(b.live, limits.liveBytes) && Within(b.work, limits.workUnits) ==> o == VectorOut(Integer, []) && after == b)
  {
    hide *;
    IotaUnfolds(bound, limits, failAt, b);
    BookedExact(b, limits, failAt, if bound < 1 then 0 else bound);
  }

  lemma IotaUnfolds(bound: int, limits: Limits, failAt: Option<nat>, b: Book)
    requires BookOk(b)
    ensures var n := if bound < 1 then 0 else bound;
            var (why, after) := BookedVector(b, limits, failAt, Integer, n, n, false);
            IotaSpec(bound, limits, failAt, b) == if why.Some? then (NoAdmission(Unnumbered(why.value)), after) else (VectorOut(Integer, Counted(n)), after)
    ensures b.live <= SIZE_MAX && b.work <= SIZE_MAX
  {
    hide BookedVector;
  }

  lemma BookedExact(b: Book, limits: Limits, failAt: Option<nat>, n: nat)
    requires BookOk(b)
    ensures var (why, after) := BookedVector(b, limits, failAt, Integer, n, n, false);
            && (why == None ==> after.live == b.live + 8 * n && after.work == b.work + n)
            && (why.Some? ==> after.live == b.live && after.work == b.work)
            && (n == 0 && Within(b.live, limits.liveBytes) && Within(b.work, limits.workUnits) ==> why == None && after == b)
    ensures b.live <= SIZE_MAX && b.work <= SIZE_MAX
  {
  }
}
