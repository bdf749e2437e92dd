/**
 What applying a primitive to scalars and vectors means: a pointwise map of the scalar kernel, charged to the
 ledger first.  The evaluator and the emitted C are both proved against it.
 */
module Lifting {
  import opened Kinds
  import opened ValueArenas
  import opened Primitives
  import opened Kernels
  import opened Resources
  import Binary64
  import IntRounding

  datatype Operand = ScalarArg(value: ScalarValue) | VectorArg(element: ScalarType, elements: seq<int>)

  /** A stored vector element of the machine. */
  predicate ElementOk(t: ScalarType, x: int) {
    ValidElement(t, x) && (t == Integer ==> IntRounding.IsInt64(x)) && (t == DoublePrecision ==> 0 <= x && Binary64.IsBits(x))
  }

  ghost predicate OperandOk(a: Operand) {
    match a
    case ScalarArg(s) => ValidScalar(s) && Machine(s)
    case VectorArg(t, xs) => ValidScalarType(t) && forall k :: 0 <= k < |xs| ==> ElementOk(t, xs[k])
  }

  ghost predicate OperandsOk(args: seq<Operand>) {
    forall j :: 0 <= j < |args| ==> OperandOk(args[j])
  }

  function ElementOf(a: Operand): ScalarType {
    match a
    case ScalarArg(s) => s.element
    case VectorArg(t, _) => t
  }

  /** A stored element as a scalar, and back. */
  function Loaded(t: ScalarType, x: int): ScalarValue {
    match t
    case Boolean => BoolScalar(x != 0)
    case DoublePrecision => ScalarValue(DoublePrecision, false, 0, if x < 0 then 0 else x)
    case _ => IntScalar(x)
  }

  function Stored(s: ScalarValue): int {
    match s.element
    case Boolean => if s.boolean then 1 else 0
    case DoublePrecision => s.double
    case _ => s.integer
  }

  lemma StoredLoads(s: ScalarValue)
    requires ValidScalar(s) && Machine(s)
    ensures Loaded(s.element, Stored(s)) == s && ElementOk(s.element, Stored(s))
  {
  }

  lemma LoadedOk(t: ScalarType, x: int)
    requires ValidScalarType(t) && ElementOk(t, x)
    ensures ValidScalar(Loaded(t, x)) && Machine(Loaded(t, x)) && Loaded(t, x).element == t
  {
  }

  predicate HasIndex(a: Operand, k: nat) {
    a.VectorArg? ==> k < |a.elements|
  }

  /** src/application.cpp:223-241 and src/rewrite_c_runtime.cpp:961-975: a scalar stands for every index. */
  function Project(a: Operand, k: nat): ScalarValue
    requires HasIndex(a, k)
  {
    if a.ScalarArg? then a.value else Loaded(a.element, a.elements[k])
  }

  ghost function Converted(s: ScalarValue, t: ScalarType): ScalarValue
    requires Machine(s)
  {
    if s.element == Integer && t == DoublePrecision then ScalarValue(DoublePrecision, false, 0, IntRounding.ToDouble(s.integer)) else s
  }

  /** The arguments have the arity and the types of the implementation, integers standing for doubles. */
  predicate TypesFit(i: Implementation, args: seq<Operand>) {
    |args| == ArityOf(i) && forall j :: 0 <= j < |args| ==> ConversionCost(ElementOf(args[j]), ParameterOf(i)).Some?
  }

  ghost predicate ShapesAgree(args: seq<Operand>, n: nat) {
    forall j :: 0 <= j < |args| && args[j].VectorArg? ==> |args[j].elements| == n
  }

  predicate AnyVector(args: seq<Operand>) {
    exists j :: 0 <= j < |args| && args[j].VectorArg?
  }

  /** An application that passed the checks on its arguments: elementwise, of length `n` when it has a vector. */
  ghost predicate Liftable(i: Implementation, args: seq<Operand>, n: nat) {
    && i != NoImplementation && i != IotaInt
    && OperandsOk(args) && TypesFit(i, args) && ShapesAgree(args, n)
  }

  lemma ProjectedOk(i: Implementation, args: seq<Operand>, n: nat, j: nat, k: nat)
    requires Liftable(i, args, n) && j < |args| && (AnyVector(args) ==> k < n)
    ensures HasIndex(args[j], k)
    ensures var s := Project(args[j], k);
            && ValidScalar(s) && Machine(s) && s.element == ElementOf(args[j])
            && Machine(Converted(s, ParameterOf(i))) && ValidScalar(Converted(s, ParameterOf(i)))
            && Converted(s, ParameterOf(i)).element == ParameterOf(i)
  {
    var a := args[j];
    assert OperandOk(a) && ConversionCost(ElementOf(a), ParameterOf(i)).Some?;
    if a.VectorArg? { LoadedOk(a.element, a.elements[k]); }
    var s := Project(a, k);
    FiniteIsCanonical(s, ParameterOf(i));
  }

  lemma FiniteIsCanonical(s: ScalarValue, t: ScalarType)
    requires ValidScalar(s) && Machine(s)
    ensures ValidScalar(Converted(s, t)) && Machine(Converted(s, t))
  {
  }

  /** The kernel at one index. */
  ghost function OutcomeAt(h: Hardware, i: Implementation, args: seq<Operand>, n: nat, k: nat): KernelResult
    requires Liftable(i, args, n) && (AnyVector(args) ==> k < n)
  {
    ProjectedOk(i, args, n, 0, k);
    var l := Converted(Project(args[0], k), ParameterOf(i));
    if |args| == 1 then Operate(h, i, l, NO_OPERAND)
    else
      ProjectedOk(i, args, n, 1, k);
      Operate(h, i, l, Converted(Project(args[1], k), ParameterOf(i)))
  }

  /** `f` is the least index below `m` at which the kernel fails, `m` when there is none. */
  ghost predicate FailsFirstAt(h: Hardware, i: Implementation, args: seq<Operand>, n: nat, m: nat, f: nat)
    requires Liftable(i, args, n) && m <= n
  {
    && f <= m
    && (forall k: nat :: k < f ==> OutcomeAt(h, i, args, n, k) != DomainError)
    && (f < m ==> OutcomeAt(h, i, args, n, f) == DomainError)
  }

  lemma FailsStep(h: Hardware, i: Implementation, args: seq<Operand>, n: nat)
    requires Liftable(i, args, n)
    ensures FailsFirstAt(h, i, args, n, 0, 0)
    ensures forall m: nat, f: nat :: m < n && FailsFirstAt(h, i, args, n, m, f) ==>
              FailsFirstAt(h, i, args, n, m + 1, if f < m then f else if OutcomeAt(h, i, args, n, m) == DomainError then m else m + 1)
  {
    hide Liftable, OutcomeAt;
  }

  /** The least failing index below `m`, or `m`. */
  ghost function FirstFailure(h: Hardware, i: Implementation, args: seq<Operand>, n: nat, m: nat): (f: nat)
    requires Liftable(i, args, n) && m <= n
    ensures FailsFirstAt(h, i, args, n, m, f)
  {
    hide *;
    FailsStep(h, i, args, n);
    if m == 0 then 0
    else
      var f := FirstFailure(h, i, args, n, m - 1);
      if f < m - 1 then f else if OutcomeAt(h, i, args, n, m - 1) == DomainError then m - 1 else m
  }

  lemma OutcomeOk(h: Hardware, i: Implementation, args: seq<Operand>, n: nat, k: nat)
    requires Liftable(i, args, n) && (AnyVector(args) ==> k < n)
    ensures var o := OutcomeAt(h, i, args, n, k);
            && o != InvalidInvocation && (o == DomainError ==> ChecksRange(i))
            && (o.KernelValue? ==> o.value.element == ResultOf(i) && ValidScalar(o.value) && Machine(o.value))
  {
    ProjectedOk(i, args, n, 0, k);
    var l := Converted(Project(args[0], k), ParameterOf(i));
    var r := NO_OPERAND;
    if |args| > 1 {
      ProjectedOk(i, args, n, 1, k);
      r := Converted(Project(args[1], k), ParameterOf(i));
    }
    hide Liftable, Converted, Project, Operate;
    KernelResults(h, i, l, r);
  }

  /** The first `k` elements stored are those the kernel returns. */
  ghost predicate StoredSoFar(h: Hardware, i: Implementation, args: seq<Operand>, n: nat, k: nat, stored: seq<int>)
    requires Liftable(i, args, n) && k <= n
  {
    k <= |stored| && forall m: nat :: m < k ==> var o := OutcomeAt(h, i, args, n, m); o.KernelValue? && stored[m] == Stored(o.value)
  }

  function StoredResult(o: KernelResult): int {
    if o.KernelValue? then Stored(o.value) else 0
  }

  lemma StoredNone(h: Hardware, i: Implementation, args: seq<Operand>, n: nat, stored: seq<int>)
    requires Liftable(i, args, n)
    ensures StoredSoFar(h, i, args, n, 0, stored)
  {
    hide Liftable, OutcomeAt;
  }

  lemma StoredStep(h: Hardware, i: Implementation, args: seq<Operand>, n: nat, k: nat, stored: seq<int>)
    requires Liftable(i, args, n) && k < n == |stored| && StoredSoFar(h, i, args, n, k, stored)
    requires OutcomeAt(h, i, args, n, k).KernelValue?
    ensures StoredSoFar(h, i, args, n, k + 1, stored[k := Stored(OutcomeAt(h, i, args, n, k).value)])
  {
    hide Liftable, OutcomeAt, Stored;
  }

  /** The mapped elements below `m`, as they are stored; none of them fails where this is used. */
  ghost function Mapped(h: Hardware, i: Implementation, args: seq<Operand>, n: nat, m: nat): (r: seq<int>)
    requires Liftable(i, args, n) && m <= n
    ensures |r| == m
  {
    hide Liftable, OutcomeAt, StoredResult;
    seq(m, k requires 0 <= k < m => StoredResult(OutcomeAt(h, i, args, n, k)))
  }

  lemma MappedStored(h: Hardware, i: Implementation, args: seq<Operand>, n: nat, m: nat)
    requires Liftable(i, args, n) && m <= n && forall k: nat :: k < m ==> OutcomeAt(h, i, args, n, k) != DomainError
    ensures StoredSoFar(h, i, args, n, m, Mapped(h, i, args, n, m))
  {
    hide Liftable, OutcomeAt;
    forall k: nat | k < m ensures OutcomeAt(h, i, args, n, k).KernelValue? {
      OutcomeOk(h, i, args, n, k);
    }
  }

  function Counted(n: nat): (r: seq<int>)
    ensures |r| == n && forall k :: 0 <= k < n ==> r[k] == k + 1
  {
    seq(n, k => k + 1)
  }

  // ---------------------------------------------------------------- the specification

  datatype Outcome = VectorOut(element: ScalarType, elements: seq<int>) | ScalarOut(value: ScalarValue) | NoAdmission(why: Failure) | Domain(index: Option<nat>)

  predicate BookOk(b: Book) {
    b.live <= SIZE_MAX && b.work <= SIZE_MAX && b.ordinal <= SIZE_MAX
  }

  /** A refusal for want of memory does not say which reservation it was. */
  function Unnumbered(f: Failure): Failure {
    if f.Unavailable? then Unavailable(None) else f
  }

  /** Applying an elementwise implementation: admission, then the map, and the refund when an element fails. */
  ghost function ApplySpec(h: Hardware, i: Implementation, args: seq<Operand>, n: nat, limits: Limits, failAt: Option<nat>, b: Book): (Outcome, Book)
    requires Liftable(i, args, n) && BookOk(b)
  {
    if AnyVector(args) then
      var (why, after) := BookedVector(b, limits, failAt, ResultOf(i), n, n, false);
      if why.Some? then (NoAdmission(Unnumbered(why.value)), after)
      else if FirstFailure(h, i, args, n, n) < n then (Domain(Some(FirstFailure(h, i, args, n, n))), after.(live := b.live))
      else (VectorOut(ResultOf(i), Mapped(h, i, args, n, n)), after)
    else
      var (why, after) := Booked(b, limits, failAt, None, 0, 1, false);
      if why.Some? then (NoAdmission(Unnumbered(why.value)), after)
      else
        OutcomeOk(h, i, args, n, 0);
        var o := OutcomeAt(h, i, args, n, 0);
        (if o == DomainError then Domain(None) else ScalarOut(o.value), after)
  }

  /** Charging work alone never asks for memory. */
  lemma BookedWork(b: Book, limits: Limits, failAt: Option<nat>, units: nat)
    requires BookOk(b)
    ensures var (why, after) := Booked(b, limits, failAt, None, 0, units, false);
            && (why.Some? ==> Unnumbered(why.value) == why.value)
            && after == if why == None then b.(work := b.work + units) else b
  {
  }

  lemma VectorSpec(h: Hardware, i: Implementation, args: seq<Operand>, n: nat, limits: Limits, failAt: Option<nat>, b: Book)
    requires Liftable(i, args, n) && BookOk(b) && AnyVector(args)
    ensures var (why, after) := BookedVector(b, limits, failAt, ResultOf(i), n, n, false);
            var f := FirstFailure(h, i, args, n, n);
            ApplySpec(h, i, args, n, limits, failAt, b) ==
              if why.Some? then (NoAdmission(Unnumbered(why.value)), after)
              else if f < n then (Domain(Some(f)), after.(live := b.live))
              else (VectorOut(ResultOf(i), Mapped(h, i, args, n, n)), after)
  {
    hide Liftable, OutcomeAt, FirstFailure, Mapped, AnyVector, BookedVector, Booked;
  }

  lemma ScalarSpec(h: Hardware, i: Implementation, args: seq<Operand>, n: nat, limits: Limits, failAt: Option<nat>, b: Book)
    requires Liftable(i, args, n) && BookOk(b) && !AnyVector(args)
    ensures var (why, after) := Booked(b, limits, failAt, None, 0, 1, false);
            var o := OutcomeAt(h, i, args, n, 0);
            && (o == DomainError || o.KernelValue?)
            && ApplySpec(h, i, args, n, limits, failAt, b) ==
                 if why.Some? then (NoAdmission(Unnumbered(why.value)), after)
                 else (if o.KernelValue? then ScalarOut(o.value) else Domain(None), after)
  {
    OutcomeOk(h, i, args, n, 0);
    hide Liftable, OutcomeAt, FirstFailure, Mapped, AnyVector, Booked;
  }

  /** `iota n`: the integers from one to `n`, charged one unit each. */
  function IotaSpec(bound: int, limits: Limits, failAt: Option<nat>, b: Book): (Outcome, Book)
    requires BookOk(b)
  {
    var n := if bound > 0 then bound else 0;
    var (why, after) := BookedVector(b, limits, failAt, Integer, n, n, false);
    if why.Some? then (NoAdmission(Unnumbered(why.value)), after) else (VectorOut(Integer, Counted(n)), after)
  }

  // ---------------------------------------------------------------- what the specification says

  /** The integer an argument contributes at index `k`: itself, or its own element there. */
  function IntegerAt(a: Operand, k: nat): int
    requires a.VectorArg? ==> k < |a.elements|
  {
    match a
    case ScalarArg(s) => s.integer
    case VectorArg(_, xs) => xs[k]
  }

  /** The exact integer result at one index, before any range check. */
  ghost function ExactAt(i: Implementation, args: seq<Operand>, n: nat, k: nat): int
    requires Liftable(i, args, n) && (AnyVector(args) ==> k < n) && ChecksRange(i)
  {
    ProjectedOk(i, args, n, 0, k);
    if |args| == 1 then ExactResult(i, IntegerAt(args[0], k), 0)
    else
      ProjectedOk(i, args, n, 1, k);
      ExactResult(i, IntegerAt(args[0], k), IntegerAt(args[1], k))
  }

  lemma ProjectedInteger(i: Implementation, args: seq<Operand>, n: nat, j: nat, k: nat)
    requires Liftable(i, args, n) && (AnyVector(args) ==> k < n) && ChecksRange(i) && j < |args|
    ensures HasIndex(args[j], k) && Project(args[j], k).integer == IntegerAt(args[j], k)
  {
    ProjectedOk(i, args, n, j, k);
    assert ElementOf(args[j]) == Integer;
  }

  lemma OutcomeExact(h: Hardware, i: Implementation, args: seq<Operand>, n: nat, k: nat)
    requires Liftable(i, args, n) && (AnyVector(args) ==> k < n) && ChecksRange(i)
    ensures OutcomeAt(h, i, args, n, k) ==
            if IntRounding.IsInt64(ExactAt(i, args, n, k)) then KernelValue(IntScalar(ExactAt(i, args, n, k))) else DomainError
  {
    ProjectedOk(i, args, n, 0, k);
    ProjectedInteger(i, args, n, 0, k);
    var l := Converted(Project(args[0], k), ParameterOf(i));
    var r := NO_OPERAND;
    if |args| > 1 {
      ProjectedOk(i, args, n, 1, k);
      ProjectedInteger(i, args, n, 1, k);
      r := Converted(Project(args[1], k), ParameterOf(i));
    }
    assert ParameterOf(i) == Integer;
    IntegerKernelExact(h, i, l, r);
    hide Operate, ExactResult, Liftable, Project, IntegerAt;
  }

  /**
   An admitted application fails with a domain error exactly when some element's mathematical result does not
   fit 64 bits, and it names the least such index.
   */
  lemma DomainErrorIff(h: Hardware, i: Implementation, args: seq<Operand>, n: nat, limits: Limits, failAt: Option<nat>, b: Book)
    requires Liftable(i, args, n) && BookOk(b) && AnyVector(args)
    requires BookedVector(b, limits, failAt, ResultOf(i), n, n, false).0 == None
    ensures var o := ApplySpec(h, i, args, n, limits, failAt, b).0;
            && (o.Domain? <==> ChecksRange(i) && exists k: nat :: k < n && !IntRounding.IsInt64(ExactAt(i, args, n, k)))
            && (o.Domain? ==>
                  && o.index.Some? && o.index.value < n && ChecksRange(i)
                  && !IntRounding.IsInt64(ExactAt(i, args, n, o.index.value))
                  && forall k: nat :: k < o.index.value ==> IntRounding.IsInt64(ExactAt(i, args, n, k)))
  {
    FailureIff(h, i, args, n);
    hide ExactAt, Liftable, OutcomeAt, FirstFailure, Mapped, Booked, ChecksRange, ConversionCost;
  }

  lemma FailureIff(h: Hardware, i: Implementation, args: seq<Operand>, n: nat)
    requires Liftable(i, args, n) && AnyVector(args)
    ensures var f := FirstFailure(h, i, args, n, n);
            && (f < n <==> ChecksRange(i) && exists k: nat :: k < n && !IntRounding.IsInt64(ExactAt(i, args, n, k)))
            && (f < n ==> !IntRounding.IsInt64(ExactAt(i, args, n, f)))
            && (ChecksRange(i) ==> forall k: nat :: k < f ==> IntRounding.IsInt64(ExactAt(i, args, n, k)))
  {
    hide Liftable, OutcomeAt, ExactAt, FirstFailure, ChecksRange;
    var f := FirstFailure(h, i, args, n, n);
    if f < n { OutcomeOk(h, i, args, n, f); }
    if ChecksRange(i) {
      forall k: nat | k < n ensures IntRounding.IsInt64(ExactAt(i, args, n, k)) <==> OutcomeAt(h, i, args, n, k) != DomainError {
        OutcomeExact(h, i, args, n, k);
      }
    }
  }

  /** Every element of a successful application is what the kernel returns there, and is a valid element. */
  lemma MapIsKernel(h: Hardware, i: Implementation, args: seq<Operand>, n: nat, limits: Limits, failAt: Option<nat>, b: Book)
    requires Liftable(i, args, n) && BookOk(b)
    ensures var o := ApplySpec(h, i, args, n, limits, failAt, b).0;
            o.VectorOut? ==>
              && AnyVector(args) && o.element == ResultOf(i) && |o.elements| == n
              && forall k: nat :: k < n ==>
                   && ElementOk(o.element, o.elements[k])
                   && OutcomeAt(h, i, args, n, k) == KernelValue(Loaded(o.element, o.elements[k]))
  {
    var o := ApplySpec(h, i, args, n, limits, failAt, b).0;
    if o.VectorOut? {
      VectorSpec(h, i, args, n, limits, failAt, b);
      MappedStored(h, i, args, n, n);
      hide Liftable, OutcomeAt, Loaded, Stored, ElementOk, Mapped, ApplySpec;
      forall k: nat | k < n
        ensures ElementOk(o.element, o.elements[k]) && OutcomeAt(h, i, args, n, k) == KernelValue(Loaded(o.element, o.elements[k]))
      {
        OutcomeOk(h, i, args, n, k);
        StoredLoads(OutcomeAt(h, i, args, n, k).value);
      }
    }
  }

  /** Whatever happens, live bytes grow by exactly the result, and a failed application leaves them as they were. */
  lemma LedgerAfterApply(h: Hardware, i: Implementation, args: seq<Operand>, n: nat, limits: Limits, failAt: Option<nat>, b: Book)
    requires Liftable(i, args, n) && BookOk(b)
    ensures var (o, after) := ApplySpec(h, i, args, n, limits, failAt, b);
            && after.live == b.live + (if o.VectorOut? then n * Width(ResultOf(i)) else 0)
            && after.work == b.work + (if o.NoAdmission? then 0 else if AnyVector(args) then n else 1)
            && b.ordinal <= after.ordinal <= b.ordinal + 1
            && (o.VectorOut? ==> Within(after.live, limits.liveBytes)) && (!o.NoAdmission? ==> Within(after.work, limits.workUnits))
  {
    hide Liftable, OutcomeAt, FirstFailure, AnyVector;
  }
}
