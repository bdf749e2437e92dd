/**
 src/rewrite_c_runtime.cpp:408-515, 961-1030, 1222-1518: the ledger and the application of primitives in the
 emitted C.  Every operation is proved against the specification that the evaluator meets, so that the two agree.
 */
module CApply {
  import opened Kinds
  import opened ValueArenas
  import opened Primitives
  import opened Kernels
  import opened Resources
  import opened Lifting
  import IntRounding

  class CResources {
    var live: nat
    var work: nat
    var ordinal: nat
    const limits: Limits
    const failAt: Option<nat>

    constructor (limits: Limits, failAt: Option<nat>)
      ensures Ledger() == Book(0, 0, 0) && this.limits == limits && this.failAt == failAt
    {
      live, work, ordinal := 0, 0, 0;
      this.limits, this.failAt := limits, failAt;
    }

    function Ledger(): Book
      reads this
    {
      Book(live, work, ordinal)
    }

    /** The counters are in range and the live bytes within their limit, which C does not test again when it only charges work. */
    ghost predicate Valid()
      reads this
    {
      BookOk(Ledger()) && Within(live, limits.liveBytes)
    }

    /** src/rewrite_c_runtime.cpp:408-430. */
    method ChargeWork(units: nat) returns (why: Option<Failure>)
      requires Valid()
      modifies this`work
      ensures Valid()
      ensures (why, Ledger()) == Booked(old(Ledger()), limits, failAt, None, 0, units, false)
    {
      if units > SIZE_MAX - work {
        return Some(SizeOverflow);
      }
      if limits.workUnits.Some? && work + units > limits.workUnits.value {
        return Some(LimitReached(MaxWorkUnits, limits.workUnits.value, work, units));
      }
      work := work + units;
      why := None;
    }

    /** src/rewrite_c_runtime.cpp:432-505.  The ordinal would wrap around where the evaluator refuses. */
    method Allocate(element: ScalarType, count: nat, units: nat, hostFails: bool) returns (why: Option<Failure>)
      requires Valid() && ordinal < SIZE_MAX && ValidScalarType(element)
      modifies this
      ensures Valid()
      ensures var (reason, after) := BookedVector(old(Ledger()), limits, failAt, element, count, units, hostFails);
              Ledger() == after && why == (if reason.Some? then Some(Unnumbered(reason.value)) else None)
    {
      var width := Width(element);
      if count > SIZE_MAX / width {
        return Some(SizeOverflow);
      }
      var bytes := count * width;
      if units > SIZE_MAX - work || bytes > SIZE_MAX - live {
        return Some(SizeOverflow);
      }
      var liveAfter, workAfter := live + bytes, work + units;
      if limits.vectorBytes.Some? && bytes > limits.vectorBytes.value {
        return Some(LimitReached(MaxVectorBytes, limits.vectorBytes.value, 0, bytes));
      }
      if limits.liveBytes.Some? && liveAfter > limits.liveBytes.value {
        return Some(LimitReached(MaxLiveBytes, limits.liveBytes.value, live, bytes));
      }
      if limits.workUnits.Some? && workAfter > limits.workUnits.value {
        return Some(LimitReached(MaxWorkUnits, limits.workUnits.value, work, units));
      }
      if bytes != 0 {
        var mine := ordinal;
        ordinal := (ordinal + 1) % (SIZE_MAX + 1);
        if failAt == Some(mine) || hostFails {
          return Some(Unavailable(None));
        }
      }
      live, work := liveAfter, workAfter;
      why := None;
    }

    /** src/rewrite_c_runtime.cpp:639-645: give a vector's bytes back. */
    method Refund(bytes: nat)
      modifies this`live
      ensures live == if bytes <= old(live) then old(live) - bytes else old(live)
    {
      if bytes <= live {
        live := live - bytes;
      }
    }
  }

  // ---------------------------------------------------------------- types

  /** src/rewrite_c_runtime.cpp:1222-1252. */
  function ResultType(i: Implementation): ScalarType {
    if i in {EqualsBool, EqualsInt, EqualsDouble, NotBool, AndBool, OrBool, NotEqualsBool, NotEqualsInt, NotEqualsDouble, OddInt, EvenInt,
             IsPositiveInt, IsPositiveDouble, IsNegativeInt, IsNegativeDouble, LessThanInt, LessThanDouble, GreaterThanInt, GreaterThanDouble}
    then Boolean
    else if i in {IncDouble, AddDouble, DecDouble, NegDouble, AbsDouble, SubDouble, MulDouble} then DoublePrecision
    else Integer
  }

  /** src/rewrite_c_runtime.cpp:1443-1463. */
  function ParameterType(i: Implementation): ScalarType {
    if i in {IncDouble, AddDouble, EqualsDouble, NotEqualsDouble, IsPositiveDouble, IsNegativeDouble, LessThanDouble, GreaterThanDouble,
             DecDouble, NegDouble, AbsDouble, SubDouble, MulDouble}
    then DoublePrecision
    else if i in {EqualsBool, NotBool, AndBool, OrBool, NotEqualsBool} then Boolean
    else Integer
  }

  /** The emitted tables of types are those of the primitive table. */
  lemma TypesAgree(i: Implementation)
    ensures ResultType(i) == ResultOf(i) && ValidScalarType(ResultType(i)) && (i != NoImplementation ==> ParameterType(i) == ParameterOf(i))
  {
  }

  // ---------------------------------------------------------------- application

  /** src/rewrite_c_runtime.cpp:1021-1030: only integers are converted. */
  method Convert(s: ScalarValue, t: ScalarType) returns (r: ScalarValue)
    requires Machine(s)
    ensures r == Converted(s, t)
  {
    r := s;
    if s.element == Integer && t == DoublePrecision {
      var bits := IntRounding.CIntToDouble(s.integer);
      IntRounding.NearestEvenUnique(s.integer, bits, IntRounding.ToDouble(s.integer));
      r := ScalarValue(DoublePrecision, false, 0, bits);
    }
  }

  /** src/rewrite_c_runtime.cpp:1472-1485: one kernel call. */
  method KernelAt(h: Hardware, i: Implementation, args: seq<Operand>, ghost n: nat, k: nat) returns (o: KernelResult)
    requires Liftable(i, args, n) && (AnyVector(args) ==> k < n)
    ensures o == OutcomeAt(h, i, args, n, k)
  {
    TypesAgree(i);
    ProjectedOk(i, args, n, 0, k);
    var l := Convert(Project(args[0], k), ParameterType(i));
    var r := NO_OPERAND;
    if |args| == 2 {
      ProjectedOk(i, args, n, 1, k);
      r := Convert(Project(args[1], k), ParameterType(i));
    }
    hide Project, Converted, Operate, COperate, ParameterType, ResultType;
    o := COperate(h, i, l, r);
    KernelsAgree(h, i, l, r);
  }

  lemma StoredEnd(h: Hardware, i: Implementation, args: seq<Operand>, n: nat, k: nat, stored: seq<int>)
    requires Liftable(i, args, n) && AnyVector(args) && k <= n && StoredSoFar(h, i, args, n, k, stored)
    ensures k == n && |stored| == n ==> FirstFailure(h, i, args, n, n) == n && stored == Mapped(h, i, args, n, n)
    ensures k < n && OutcomeAt(h, i, args, n, k) == DomainError ==> FirstFailure(h, i, args, n, n) == k
  {
    hide Liftable, OutcomeAt, AnyVector;
    var f := FirstFailure(h, i, args, n, n);
    assert forall m: nat :: m < k ==> OutcomeAt(h, i, args, n, m) != DomainError;
  }

  /** src/rewrite_c_runtime.cpp:1471-1516 for a vector result: the index of the first failure, if there is one. */
  method MapInto(h: Hardware, i: Implementation, args: seq<Operand>, n: nat, elements: array<int>) returns (failed: Option<nat>)
    requires Liftable(i, args, n) && AnyVector(args) && elements.Length == n
    modifies elements
    ensures failed == None ==> FirstFailure(h, i, args, n, n) == n && elements[..] == Mapped(h, i, args, n, n)
    ensures failed.Some? ==> failed.value == FirstFailure(h, i, args, n, n) < n
  {
    hide *;
    StoredNone(h, i, args, n, elements[..]);
    for k := 0 to n
      invariant StoredSoFar(h, i, args, n, k, elements[..])
    {
      var o := KernelAt(h, i, args, n, k);
      OutcomeOk(h, i, args, n, k);
      if !o.KernelValue? {
        StoredEnd(h, i, args, n, k, elements[..]);
        return Some(k);
      }
      ghost var before := elements[..];
      StoredStep(h, i, args, n, k, before);
      elements[k] := Stored(o.value);
      assert elements[..] == before[k := Stored(o.value)];
    }
    StoredEnd(h, i, args, n, n, elements[..]);
    failed := None;
  }

  /** The count of the last vector argument, 1 when there is none. */
  function CountOf(args: seq<Operand>): nat
    requires 1 <= |args| <= 2
  {
    if |args| == 2 && args[1].VectorArg? then |args[1].elements| else if args[0].VectorArg? then |args[0].elements| else 1
  }

  /**
   src/rewrite_c_runtime.cpp:1392-1518: the elements, the failure and its index, and the ledger are those of the
   specification, the refund of a failed vector included.
   */
  method Apply(res: CResources, h: Hardware, i: Implementation, args: seq<Operand>) returns (o: Outcome)
    requires res.Valid() && res.ordinal < SIZE_MAX && 1 <= |args| <= 2 && Liftable(i, args, CountOf(args))
    modifies res
    ensures res.Valid()
    ensures (o, res.Ledger()) == ApplySpec(h, i, args, CountOf(args), res.limits, res.failAt, old(res.Ledger()))
  {
    hide Liftable;
    AnyOfTwo(args);
    if args[0].VectorArg? || (|args| == 2 && args[1].VectorArg?) {
      o := ApplyVector(res, h, i, args, CountOf(args));
    } else {
      o := ApplyScalar(res, h, i, args, CountOf(args));
    }
  }

  lemma AnyOfTwo(args: seq<Operand>)
    requires 1 <= |args| <= 2
    ensures AnyVector(args) <==> args[0].VectorArg? || (|args| == 2 && args[1].VectorArg?)
  {
  }

  method ApplyVector(res: CResources, h: Hardware, i: Implementation, args: seq<Operand>, n: nat) returns (o: Outcome)
    requires res.Valid() && res.ordinal < SIZE_MAX && Liftable(i, args, n) && AnyVector(args)
    modifies res
    ensures res.Valid()
    ensures (o, res.Ledger()) == ApplySpec(h, i, args, n, res.limits, res.failAt, old(res.Ledger()))
  {
    hide Liftable, OutcomeAt, Mapped, FirstFailure, ResultType, ParameterType, BookedVector, Booked, ApplySpec, AnyVector, StoredSoFar, ResultOf;
    VectorSpec(h, i, args, n, res.limits, res.failAt, res.Ledger());
    BookedBytes(res.Ledger(), res.limits, res.failAt, ResultOf(i), n, n);
    TypesAgree(i);
    var why := res.Allocate(ResultType(i), n, n, false);
    if why.Some? {
      return NoAdmission(why.value);
    }
    var elements := new int[n](_ => 0);
    var failed := MapInto(h, i, args, n, elements);
    if failed.Some? {
      res.Refund(n * Width(ResultType(i)));
      return Domain(failed);
    }
    return VectorOut(ResultType(i), elements[..]);
  }

  method ApplyScalar(res: CResources, h: Hardware, i: Implementation, args: seq<Operand>, n: nat) returns (o: Outcome)
    requires res.Valid() && Liftable(i, args, n) && !AnyVector(args)
    modifies res
    ensures res.Valid()
    ensures (o, res.Ledger()) == ApplySpec(h, i, args, n, res.limits, res.failAt, old(res.Ledger()))
  {
    hide Liftable, OutcomeAt, Mapped, FirstFailure, Booked, ApplySpec, AnyVector;
    ScalarSpec(h, i, args, n, res.limits, res.failAt, res.Ledger());
    BookedWork(res.Ledger(), res.limits, res.failAt, 1);
    var why := res.ChargeWork(1);
    if why.Some? {
      return NoAdmission(why.value);
    }
    var output := KernelAt(h, i, args, n, 0);
    o := if output.KernelValue? then ScalarOut(output.value) else Domain(None);
  }

  lemma BookedBytes(b: Book, limits: Limits, failAt: Option<nat>, element: ScalarType, count: nat, units: nat)
    requires BookOk(b)
    ensures var (why, after) := BookedVector(b, limits, failAt, element, count, units, false);
            why == None ==> after.live == b.live + count * Width(element)
  {
  }

  /** src/rewrite_c_runtime.cpp:1408-1432: `iota`. */
  method ApplyIota(res: CResources, bound: int) returns (o: Outcome)
    requires res.Valid() && res.ordinal < SIZE_MAX && IntRounding.IsInt64(bound)
    modifies res
    ensures res.Valid()
    ensures (o, res.Ledger()) == IotaSpec(bound, res.limits, res.failAt, old(res.Ledger()))
  {
    var count: nat := if bound > 0 then bound else 0;
    if count > SIZE_MAX {
      assert false; // an Int64 is at most SIZE_MAX
    }
    hide Booked, Fits;
    var why := res.Allocate(Integer, count, count, false);
    if why.Some? {
      return NoAdmission(why.value);
    }
    var elements := new int[count](_ => 0);
    for k := 0 to count
      invariant res.Ledger() == BookedVector(old(res.Ledger()), res.limits, res.failAt, Integer, count, count, false).1 && res.Valid()
      invariant forall m :: 0 <= m < k ==> elements[m] == m + 1
    {
      elements[k] := k + 1;
    }
    assert elements[..] == Counted(count);
    return VectorOut(Integer, elements[..]);
  }
}
