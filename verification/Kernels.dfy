/**
 The scalar kernels: src/primitive.cpp:866-1114 in the evaluator, src/rewrite_c_runtime.cpp:1020-1065, 1159-1390
 in the emitted C.  Hardware addition, subtraction and multiplication of doubles are one shared parameter.
 */
module Kernels {
  import opened Kinds
  import opened ValueArenas
  import opened Primitives
  import Binary64
  import IntRounding

  datatype DoubleOp = AddOp | SubOp | MulOp

  type Bits = b: nat | b < 0x1_0000_0000_0000_0000 witness 0

  type Hardware = (DoubleOp, Bits, Bits) -> Bits

  datatype KernelResult = KernelValue(value: ScalarValue) | DomainError | InvalidInvocation

  const ONE: Bits := 0x3ff0_0000_0000_0000

  /** A scalar of the machine: 64-bit integer and double fields. */
  predicate Machine(s: ScalarValue) {
    IntRounding.IsInt64(s.integer) && Binary64.IsBits(s.double)
  }

  function BoolScalar(b: bool): ScalarValue {
    ScalarValue(Boolean, b, 0, 0)
  }

  function IntScalar(n: int): ScalarValue {
    ScalarValue(Integer, false, n, 0)
  }

  /** Every NaN becomes the canonical one. */
  function DoubleScalar(b: Bits): ScalarValue {
    ScalarValue(DoublePrecision, false, 0, if Binary64.IsNaN(b) then CANONICAL_NAN else b)
  }

  // ---------------------------------------------------------------- integers

  /** Division that truncates toward zero, section 6.5.5 of C11. */
  function TruncDiv(a: int, b: int): int
    requires b != 0
  {
    var q := IntRounding.Abs(a) / IntRounding.Abs(b);
    if (a < 0) == (b < 0) then q else 0 - q
  }

  function TruncMod(a: int, b: int): int
    requires b != 0
  {
    a - b * TruncDiv(a, b)
  }

  const MIN: int := IntRounding.INT_MIN
  const MAX: int := IntRounding.INT_MAX

  /** src/primitive.cpp:928-931 and src/rewrite_c_runtime.cpp:1031-1036. */
  predicate AddOverflows(l: int, r: int) {
    (r > 0 && l > MAX - r) || (r < 0 && l < MIN - r)
  }

  predicate SubOverflows(l: int, r: int) {
    (r > 0 && l < MIN + r) || (r < 0 && l > MAX + r)
  }

  /** src/primitive.cpp:1040-1056 and src/rewrite_c_runtime.cpp:1049-1064: the product is tested by dividing the bounds. */
  predicate MulOverflows(l: int, r: int) {
    if l > 0 then (if r > 0 then l > TruncDiv(MAX, r) else r < TruncDiv(MIN, l))
    else l < 0 && (if r > 0 then l < TruncDiv(MIN, r) else r < 0 && r < TruncDiv(MAX, l))
  }

  lemma AddExact(l: int, r: int)
    requires IntRounding.IsInt64(l) && IntRounding.IsInt64(r)
    ensures AddOverflows(l, r) <==> !IntRounding.IsInt64(l + r)
    ensures SubOverflows(l, r) <==> !IntRounding.IsInt64(l - r)
  {
  }

  lemma FloorCompare(a: nat, b: nat, n: nat)
    requires a > 0 && b > 0
    ensures a > n / b <==> a * b > n
  {
    var q := n / b;
    assert n == q * b + n % b;
    if a > q {
      Binary64.TimesGrows(q + 1, a, b);
    } else {
      Binary64.TimesGrows(a, q, b);
    }
  }

  lemma TruncDivSigns(a: nat, b: nat)
    requires b > 0
    ensures TruncDiv(a, b) == a / b && TruncDiv(0 - a, b) == 0 - a / b && TruncDiv(a, 0 - b) == 0 - a / b
  {
    if a == 0 { assert 0 / b == 0; }
  }

  lemma ProductSign(l: int, r: int, a: nat, b: nat)
    requires (l == a || l == 0 - a) && (r == b || r == 0 - b)
    ensures (l == a && r == b) || (l == 0 - a && r == 0 - b) ==> l * r == a * b
    ensures (l == a && r == 0 - b) || (l == 0 - a && r == b) ==> l * r == 0 - a * b
  {
    assert a * (0 - b) == 0 - a * b && (0 - a) * b == 0 - a * b && (0 - a) * (0 - b) == a * b;
  }

  lemma MulSameSign(l: int, r: int, a: nat, b: nat)
    requires 0 < a <= 0 - MIN && 0 < b <= 0 - MIN && ((l == a && r == b) || (l == 0 - a && r == 0 - b))
    ensures MulOverflows(l, r) <==> l * r > MAX
    ensures l * r > 0
  {
    ProductSign(l, r, a, b);
    FloorCompare(a, b, MAX);
    FloorCompare(b, a, MAX);
    TruncDivSigns(MAX, a);
    TruncDivSigns(MAX, b);
    Binary64.TimesGrows(1, a, b);
    var p := a * b;
    assert b * a == p;
    hide TruncDiv;
  }

  lemma MulOtherSign(l: int, r: int, a: nat, b: nat)
    requires 0 < a <= 0 - MIN && 0 < b <= 0 - MIN && ((l == a && r == 0 - b) || (l == 0 - a && r == b))
    ensures MulOverflows(l, r) <==> l * r < MIN
    ensures l * r < 0
  {
    ProductSign(l, r, a, b);
    FloorCompare(a, b, 0 - MIN);
    FloorCompare(b, a, 0 - MIN);
    TruncDivSigns(0 - MIN, a);
    TruncDivSigns(0 - MIN, b);
    Binary64.TimesGrows(1, a, b);
    var p := a * b;
    assert b * a == p;
    hide TruncDiv;
  }

  lemma MulZero(l: int, r: int)
    requires IntRounding.IsInt64(l) && IntRounding.IsInt64(r) && (l == 0 || r == 0)
    ensures !MulOverflows(l, r) && l * r == 0
  {
    if r == 0 && l > 0 { TruncDivSigns(0 - MIN, l); }
    if r == 0 && l < 0 { assert l * r == 0; }
  }

  /** The division test refuses exactly the products that do not fit. */
  lemma MulExact(l: int, r: int)
    requires IntRounding.IsInt64(l) && IntRounding.IsInt64(r)
    ensures MulOverflows(l, r) <==> !IntRounding.IsInt64(l * r)
  {
    hide MulOverflows;
    if l == 0 || r == 0 {
      MulZero(l, r);
    } else if (l > 0) == (r > 0) {
      MulSameSign(l, r, IntRounding.Abs(l), IntRounding.Abs(r));
    } else {
      MulOtherSign(l, r, IntRounding.Abs(l), IntRounding.Abs(r));
    }
  }

  lemma ParityExact(n: int)
    ensures TruncMod(n, 2) != 0 <==> n % 2 == 1
  {
  }

  // ---------------------------------------------------------------- doubles

  predicate SignsDiffer(l: Bits, r: Bits) {
    Binary64.IsNegative(l) != Binary64.IsNegative(r)
  }

  predicate IsInfinity(b: Bits) {
    Binary64.MagnitudeBits(b) == Binary64.EXPONENT_MASK
  }

  /** src/primitive.cpp:866-940. */
  function StrictArithmetic(h: Hardware, l: Bits, r: Bits, op: DoubleOp): Bits {
    if Binary64.IsNaN(l) || Binary64.IsNaN(r) then CANONICAL_NAN
    else
      var badSum := IsInfinity(l) && IsInfinity(r) && ((op == AddOp && SignsDiffer(l, r)) || (op == SubOp && !SignsDiffer(l, r)));
      var badProduct := op == MulOp && ((IsInfinity(l) && Binary64.IsZero(r)) || (Binary64.IsZero(l) && IsInfinity(r)));
      if badSum || badProduct then CANONICAL_NAN else DoubleScalar(h(op, l, r)).double
  }

  /** src/rewrite_c_runtime.cpp:1182-1220. */
  function CArithmetic(h: Hardware, l: Bits, r: Bits, op: DoubleOp): Bits {
    if || Binary64.IsNaN(l) || Binary64.IsNaN(r)
       || (IsInfinity(l) && IsInfinity(r) && ((op == AddOp && SignsDiffer(l, r)) || (op == SubOp && !SignsDiffer(l, r))))
       || (op == MulOp && ((IsInfinity(l) && Binary64.IsZero(r)) || (Binary64.IsZero(l) && IsInfinity(r))))
    then CANONICAL_NAN
    else
      var result := h(op, l, r);
      if Binary64.IsNaN(result) then CANONICAL_NAN else result
  }

  // ---------------------------------------------------------------- the evaluator's kernel

  function Checked(overflows: bool, n: int): KernelResult {
    if overflows then DomainError else KernelValue(IntScalar(n))
  }

  /** src/primitive.cpp:962-1110: the operation itself; a unary operation ignores its second operand. */
  function Operate(h: Hardware, i: Implementation, l: ScalarValue, r: ScalarValue): KernelResult
    requires Machine(l) && Machine(r)
  {
    match i
    case IncInt => Checked(l.integer == MAX, l.integer + 1)
    case AddInt => Checked(AddOverflows(l.integer, r.integer), l.integer + r.integer)
    case DecInt => Checked(l.integer == MIN, l.integer - 1)
    case NegInt => Checked(l.integer == MIN, 0 - l.integer)
    case AbsInt => Checked(l.integer == MIN, if l.integer < 0 then 0 - l.integer else l.integer)
    case SubInt => Checked(SubOverflows(l.integer, r.integer), l.integer - r.integer)
    case MulInt => Checked(MulOverflows(l.integer, r.integer), l.integer * r.integer)
    case IncDouble => KernelValue(DoubleScalar(StrictArithmetic(h, l.double, ONE, AddOp)))
    case AddDouble => KernelValue(DoubleScalar(StrictArithmetic(h, l.double, r.double, AddOp)))
    case DecDouble => KernelValue(DoubleScalar(StrictArithmetic(h, l.double, ONE, SubOp)))
    case SubDouble => KernelValue(DoubleScalar(StrictArithmetic(h, l.double, r.double, SubOp)))
    case MulDouble => KernelValue(DoubleScalar(StrictArithmetic(h, l.double, r.double, MulOp)))
    case NegDouble => KernelValue(DoubleScalar(if l.double < Binary64.SIGN then l.double + Binary64.SIGN else l.double - Binary64.SIGN))
    case AbsDouble => KernelValue(DoubleScalar(l.double % Binary64.SIGN))
    case EqualsBool => KernelValue(BoolScalar(l.boolean == r.boolean))
    case EqualsInt => KernelValue(BoolScalar(l.integer == r.integer))
    case EqualsDouble => KernelValue(BoolScalar(Binary64.Equal(l.double, r.double)))
    case NotBool => KernelValue(BoolScalar(!l.boolean))
    case AndBool => KernelValue(BoolScalar(l.boolean && r.boolean))
    case OrBool => KernelValue(BoolScalar(l.boolean || r.boolean))
    case NotEqualsBool => KernelValue(BoolScalar(l.boolean != r.boolean))
    case NotEqualsInt => KernelValue(BoolScalar(l.integer != r.integer))
    case NotEqualsDouble => KernelValue(BoolScalar(!Binary64.Equal(l.double, r.double)))
    case OddInt => KernelValue(BoolScalar(TruncMod(l.integer, 2) != 0))
    case EvenInt => KernelValue(BoolScalar(TruncMod(l.integer, 2) == 0))
    case IsPositiveInt => KernelValue(BoolScalar(l.integer > 0))
    case IsPositiveDouble => KernelValue(BoolScalar(Binary64.IsPositive(l.double)))
    case IsNegativeInt => KernelValue(BoolScalar(l.integer < 0))
    case IsNegativeDouble => KernelValue(BoolScalar(Binary64.IsBelowZero(l.double)))
    case LessThanInt => KernelValue(BoolScalar(l.integer < r.integer))
    case LessThanDouble => KernelValue(BoolScalar(Binary64.LessThan(l.double, r.double)))
    case GreaterThanInt => KernelValue(BoolScalar(l.integer > r.integer))
    case GreaterThanDouble => KernelValue(BoolScalar(Binary64.LessThan(r.double, l.double)))
    case NoImplementation => InvalidInvocation
    case IotaInt => InvalidInvocation
  }

  /** src/primitive.cpp:942-961: what an invocation must satisfy. */
  predicate Invocable(d: Descriptor, s: nat, operands: seq<ScalarValue>) {
    && d.elementwise && s < |d.signatures| && ImplementationMatches(d.id, d.signatures[s])
    && |d.signatures[s].parameters| == |operands| && d.signatures[s].result.container == ScalarC
    && forall k :: 0 <= k < |operands| ==> ValidScalar(operands[k]) && operands[k].element == d.signatures[s].parameters[k].element
  }

  const NO_OPERAND := ScalarValue(Integer, false, 0, 0)

  predicate MachineAll(operands: seq<ScalarValue>) {
    forall k :: 0 <= k < |operands| ==> Machine(operands[k])
  }

  function Invoke(h: Hardware, d: Descriptor, s: nat, operands: seq<ScalarValue>): KernelResult
    requires MachineAll(operands)
  {
    if !Invocable(d, s, operands) then InvalidInvocation
    else Operate(h, d.signatures[s].implementation, operands[0], if |operands| > 1 then operands[1] else NO_OPERAND)
  }

  // ---------------------------------------------------------------- the C kernel

  function CChecked(fits: bool, n: int): KernelResult {
    if fits then KernelValue(IntScalar(n)) else DomainError
  }

  /** src/rewrite_c_runtime.cpp:1265-1390; incrementing goes through the checked addition. */
  function COperate(h: Hardware, i: Implementation, l: ScalarValue, r: ScalarValue): KernelResult
    requires Machine(l) && Machine(r)
  {
    if i == IncInt then CChecked(!AddOverflows(l.integer, 1), l.integer + 1)
    else if i == IncDouble then CDouble(CArithmetic(h, l.double, ONE, AddOp))
    else if i == AddInt then CChecked(!AddOverflows(l.integer, r.integer), l.integer + r.integer)
    else if i == AddDouble then CDouble(CArithmetic(h, l.double, r.double, AddOp))
    else if i == EqualsBool then CBool(l.boolean == r.boolean)
    else if i == EqualsInt then CBool(l.integer == r.integer)
    else if i == EqualsDouble then CBool(Binary64.Equal(l.double, r.double))
    else if i == NotBool then CBool(l.boolean == false)
    else if i == AndBool then CBool(l.boolean && r.boolean)
    else if i == OrBool then CBool(l.boolean || r.boolean)
    else if i == NotEqualsBool then CBool(l.boolean != r.boolean)
    else if i == NotEqualsInt then CBool(l.integer != r.integer)
    else if i == NotEqualsDouble then CBool(Binary64.Equal(l.double, r.double) == false)
    else if i == OddInt then CBool(TruncMod(l.integer, 2) != 0)
    else if i == EvenInt then CBool(TruncMod(l.integer, 2) == 0)
    else if i == IsPositiveInt then CBool(l.integer > 0)
    else if i == IsPositiveDouble then CBool(Binary64.IsPositive(l.double))
    else if i == IsNegativeInt then CBool(l.integer < 0)
    else if i == IsNegativeDouble then CBool(Binary64.IsBelowZero(l.double))
    else if i == LessThanInt then CBool(l.integer < r.integer)
    else if i == LessThanDouble then CBool(Binary64.LessThan(l.double, r.double))
    else if i == GreaterThanInt then CBool(l.integer > r.integer)
    else if i == GreaterThanDouble then CBool(Binary64.LessThan(r.double, l.double))
    else if i == DecInt then CChecked(l.integer != MIN, l.integer - 1)
    else if i == DecDouble then CDouble(CArithmetic(h, l.double, ONE, SubOp))
    else if i == NegInt then CChecked(l.integer != MIN, 0 - l.integer)
    else if i == NegDouble then CDouble(DoubleScalar(IntRounding.Negated(l.double)).double)
    else if i == AbsInt then CChecked(l.integer != MIN, if l.integer < 0 then 0 - l.integer else l.integer)
    else if i == AbsDouble then CDouble(DoubleScalar(Binary64.MagnitudeBits(l.double)).double)
    else if i == SubInt then CChecked(!SubOverflows(l.integer, r.integer), l.integer - r.integer)
    else if i == SubDouble then CDouble(CArithmetic(h, l.double, r.double, SubOp))
    else if i == MulInt then CChecked(!MulOverflows(l.integer, r.integer), l.integer * r.integer)
    else if i == MulDouble then CDouble(CArithmetic(h, l.double, r.double, MulOp))
    else InvalidInvocation
  }

  function CBool(b: bool): KernelResult {
    KernelValue(ScalarValue(Boolean, b, 0, 0))
  }

  function CDouble(b: Bits): KernelResult {
    KernelValue(ScalarValue(DoublePrecision, false, 0, b))
  }

  // ---------------------------------------------------------------- what the kernels do

  predicate ChecksRange(i: Implementation) {
    match i
    case IncInt | AddInt | DecInt | NegInt | AbsInt | SubInt | MulInt => true
    case _ => false
  }

  /** The mathematical result of an integer operation. */
  function ExactResult(i: Implementation, l: int, r: int): int
    requires ChecksRange(i)
  {
    match i
    case IncInt => l + 1
    case AddInt => l + r
    case DecInt => l - 1
    case NegInt => 0 - l
    case AbsInt => IntRounding.Abs(l)
    case SubInt => l - r
    case MulInt => l * r
  }

  /** Integer kernels return the mathematical result, and fail exactly when it does not fit 64 bits. */
  lemma IntegerKernelExact(h: Hardware, i: Implementation, l: ScalarValue, r: ScalarValue)
    requires Machine(l) && Machine(r) && ChecksRange(i)
    ensures var exact := ExactResult(i, l.integer, r.integer);
            Operate(h, i, l, r) == if IntRounding.IsInt64(exact) then KernelValue(IntScalar(exact)) else DomainError
  {
    AddExact(l.integer, r.integer);
    MulExact(l.integer, r.integer);
    hide AddOverflows, SubOverflows, MulOverflows;
  }

  /** Only integer arithmetic fails, and every result is a valid scalar of the declared type. */
  lemma KernelResults(h: Hardware, i: Implementation, l: ScalarValue, r: ScalarValue)
    requires Machine(l) && Machine(r) && i != NoImplementation && i != IotaInt
    ensures var o := Operate(h, i, l, r);
            && o != InvalidInvocation
            && (o == DomainError ==> ChecksRange(i))
            && (o.KernelValue? ==> o.value.element == ResultOf(i) && ValidScalar(o.value) && Machine(o.value))
  {
    hide *;
    if ChecksRange(i) {
      IntegerResult(h, i, l, r);
    } else if IsDoubleKernel(i) {
      DoubleResult(h, i, l, r);
    } else {
      BoolResult(h, i, l, r);
    }
  }

  /**
   What a Boolean kernel says about its operands: truth tables row by row, order and equality of integers by the sign
   of their exact difference, parity by the Euclidean remainder, and doubles by the values they decode to.
   */
  ghost function MeantBy(i: Implementation, l: ScalarValue, r: ScalarValue): Option<bool> {
    var x, y := Binary64.Decode(l.double), Binary64.Decode(r.double);
    var difference := ExactResult(SubInt, l.integer, r.integer);
    match i
    case NotBool => Some(if l.boolean then false else true)
    case AndBool => Some(if l.boolean then r.boolean else false)
    case OrBool => Some(if l.boolean then true else r.boolean)
    case EqualsBool => Some(if l.boolean then r.boolean else !r.boolean)
    case NotEqualsBool => Some(if l.boolean then !r.boolean else r.boolean)
    case EqualsInt => Some(difference == 0)
    case NotEqualsInt => Some(difference != 0)
    case LessThanInt => Some(difference < 0)
    case GreaterThanInt => Some(difference > 0)
    case IsPositiveInt => Some(ExactResult(SubInt, 0, l.integer) < 0)
    case IsNegativeInt => Some(ExactResult(SubInt, 0, l.integer) > 0)
    case OddInt => Some(l.integer % 2 == 1)
    case EvenInt => Some(l.integer % 2 == 0)
    case EqualsDouble => Some(x == y != Binary64.NotANumber)
    case NotEqualsDouble => Some(!(x == y != Binary64.NotANumber))
    case IsPositiveDouble => Some(Binary64.Below(Binary64.Number(0), x))
    case IsNegativeDouble => Some(Binary64.Below(x, Binary64.Number(0)))
    case LessThanDouble => Some(Binary64.Below(x, y))
    case GreaterThanDouble => Some(Binary64.Below(y, x))
    case _ => None
  }

  /** Truncated remainders tell odd from even for negative integers too, and bit patterns compare as their values. */
  lemma PredicateKernelExact(h: Hardware, i: Implementation, l: ScalarValue, r: ScalarValue)
    requires Machine(l) && Machine(r) && i != NoImplementation
    ensures MeantBy(i, l, r).Some? <==> ResultOf(i) == Boolean
    ensures ResultOf(i) == Boolean ==> Operate(h, i, l, r) == KernelValue(BoolScalar(MeantBy(i, l, r).value))
  {
    ParityExact(l.integer);
    Binary64.ComparesValues(l.double, r.double);
    Binary64.ComparesValues(r.double, l.double);
    Binary64.SignsOfValues(l.double);
    hide TruncMod, Binary64.LessThan, Binary64.Equal, Binary64.IsPositive, Binary64.IsBelowZero, Binary64.Decode, Binary64.Below,
         StrictArithmetic, AddOverflows, SubOverflows, MulOverflows, DoubleScalar;
    match i
    case OddInt =>
    case EvenInt =>
    case EqualsDouble =>
    case NotEqualsDouble =>
    case IsPositiveDouble =>
    case IsNegativeDouble =>
    case LessThanDouble =>
    case GreaterThanDouble =>
    case _ =>
  }

  lemma IntegerResult(h: Hardware, i: Implementation, l: ScalarValue, r: ScalarValue)
    requires Machine(l) && Machine(r) && ChecksRange(i)
    ensures var o := Operate(h, i, l, r);
            o == DomainError || (o.KernelValue? && o.value.element == ResultOf(i) && ValidScalar(o.value) && Machine(o.value))
  {
    IntegerKernelExact(h, i, l, r);
    hide Operate, ExactResult;
  }

  lemma BoolResult(h: Hardware, i: Implementation, l: ScalarValue, r: ScalarValue)
    requires Machine(l) && Machine(r) && i != NoImplementation && i != IotaInt && !ChecksRange(i)
    requires !IsDoubleKernel(i)
    ensures var o := Operate(h, i, l, r); o.KernelValue? && o.value.element == ResultOf(i) && ValidScalar(o.value) && Machine(o.value)
  {
    hide StrictArithmetic, DoubleScalar, AddOverflows, SubOverflows, MulOverflows, Checked, Binary64.Equal, Binary64.LessThan,
         Binary64.IsPositive, Binary64.IsBelowZero, TruncMod;
  }

  /** The operation and the second operand of a double kernel that computes. */
  function SecondOf(i: Implementation, r: Bits): Bits {
    if i == IncDouble || i == DecDouble then ONE else r
  }

  function OperationOf(i: Implementation): DoubleOp {
    if i == IncDouble || i == AddDouble then AddOp else if i == MulDouble then MulOp else SubOp
  }

  predicate IsDoubleKernel(i: Implementation) {
    match i
    case IncDouble | AddDouble | DecDouble | SubDouble | MulDouble | NegDouble | AbsDouble => true
    case _ => false
  }

  /** What a double kernel computes before NaN is made canonical. */
  function RawDouble(h: Hardware, i: Implementation, l: Bits, r: Bits): Bits
    requires IsDoubleKernel(i)
  {
    match i
    case NegDouble => FlipSign(l)
    case AbsDouble => ClearSign(l)
    case _ => StrictArithmetic(h, l, SecondOf(i, r), OperationOf(i))
  }

  function FlipSign(b: Bits): Bits {
    IntRounding.Negated(b)
  }

  function ClearSign(b: Bits): Bits {
    Binary64.MagnitudeBits(b)
  }

  lemma UnfoldDouble(h: Hardware, i: Implementation, l: ScalarValue, r: ScalarValue)
    requires Machine(l) && Machine(r) && IsDoubleKernel(i)
    ensures Operate(h, i, l, r) == KernelValue(DoubleScalar(RawDouble(h, i, l.double, r.double)))
  {
    hide StrictArithmetic, DoubleScalar, BoolScalar, Checked, AddOverflows, SubOverflows, MulOverflows;
    match i
    case IncDouble =>
    case AddDouble =>
    case DecDouble =>
    case SubDouble =>
    case MulDouble =>
    case NegDouble =>
    case AbsDouble =>
  }

  function RawCDouble(h: Hardware, i: Implementation, l: Bits, r: Bits): Bits
    requires IsDoubleKernel(i)
  {
    match i
    case NegDouble => DoubleScalar(FlipSign(l)).double
    case AbsDouble => DoubleScalar(ClearSign(l)).double
    case _ => CArithmetic(h, l, SecondOf(i, r), OperationOf(i))
  }

  lemma UnfoldCDouble(h: Hardware, i: Implementation, l: ScalarValue, r: ScalarValue)
    requires Machine(l) && Machine(r) && IsDoubleKernel(i)
    ensures COperate(h, i, l, r) == CDouble(RawCDouble(h, i, l.double, r.double))
  {
    hide CArithmetic, DoubleScalar, CDouble, CBool, CChecked, AddOverflows, SubOverflows, MulOverflows;
    match i
    case IncDouble =>
    case AddDouble =>
    case DecDouble =>
    case SubDouble =>
    case MulDouble =>
    case NegDouble =>
    case AbsDouble =>
  }

  lemma DoubleResult(h: Hardware, i: Implementation, l: ScalarValue, r: ScalarValue)
    requires Machine(l) && Machine(r) && IsDoubleKernel(i)
    ensures ResultOf(i) == DoublePrecision && !ChecksRange(i)
    ensures var o := Operate(h, i, l, r); o.KernelValue? && o.value.element == DoublePrecision && ValidScalar(o.value) && Machine(o.value)
  {
    UnfoldDouble(h, i, l, r);
    hide Operate, RawDouble, DoubleScalar, ValidScalar, Machine;
    CanonicalIsValid(RawDouble(h, i, l.double, r.double));
  }

  lemma CanonicalIsValid(b: Bits)
    ensures ValidScalar(DoubleScalar(b)) && Machine(DoubleScalar(b)) && DoubleScalar(b).element == DoublePrecision
  {
  }

  lemma ArithmeticAgrees(h: Hardware, l: Bits, r: Bits, op: DoubleOp)
    ensures CDouble(CArithmetic(h, l, r, op)) == KernelValue(DoubleScalar(StrictArithmetic(h, l, r, op)))
  {
  }

  lemma NormalizedAgrees(b: Bits)
    ensures CDouble(DoubleScalar(b).double) == KernelValue(DoubleScalar(b))
  {
  }

  lemma DoubleKernelsAgree(h: Hardware, i: Implementation, l: ScalarValue, r: ScalarValue)
    requires Machine(l) && Machine(r) && IsDoubleKernel(i)
    ensures COperate(h, i, l, r) == Operate(h, i, l, r)
  {
    UnfoldDouble(h, i, l, r);
    UnfoldCDouble(h, i, l, r);
    ArithmeticAgrees(h, l.double, SecondOf(i, r.double), OperationOf(i));
    NormalizedAgrees(FlipSign(l.double));
    NormalizedAgrees(ClearSign(l.double));
    hide Operate, COperate, CDouble, DoubleScalar, CArithmetic, StrictArithmetic, FlipSign, ClearSign;
  }

  lemma IntegerKernelsAgree(h: Hardware, i: Implementation, l: ScalarValue, r: ScalarValue)
    requires Machine(l) && Machine(r) && ChecksRange(i)
    ensures COperate(h, i, l, r) == Operate(h, i, l, r)
  {
    AddExact(l.integer, 1);
    hide MulOverflows;
  }

  lemma BoolKernelsAgree(h: Hardware, i: Implementation, l: ScalarValue, r: ScalarValue)
    requires Machine(l) && Machine(r) && !ChecksRange(i) && !IsDoubleKernel(i)
    ensures COperate(h, i, l, r) == Operate(h, i, l, r)
  {
    hide CArithmetic, StrictArithmetic, DoubleScalar, CDouble, AddOverflows, SubOverflows, MulOverflows, Checked, CChecked,
         Binary64.Equal, Binary64.LessThan, Binary64.IsPositive, Binary64.IsBelowZero, TruncMod;
    match i
    case EqualsBool =>
    case EqualsInt =>
    case EqualsDouble =>
    case NotBool =>
    case AndBool =>
    case OrBool =>
    case NotEqualsBool =>
    case NotEqualsInt =>
    case NotEqualsDouble =>
    case _ =>
  }

  /** The emitted kernel computes what the evaluator's kernel computes. */
  lemma KernelsAgree(h: Hardware, i: Implementation, l: ScalarValue, r: ScalarValue)
    requires Machine(l) && Machine(r)
    ensures COperate(h, i, l, r) == Operate(h, i, l, r)
  {
    hide *;
    if ChecksRange(i) {
      IntegerKernelsAgree(h, i, l, r);
    } else if IsDoubleKernel(i) {
      DoubleKernelsAgree(h, i, l, r);
    } else {
      BoolKernelsAgree(h, i, l, r);
    }
  }
}
