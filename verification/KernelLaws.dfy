/** Laws between the scalar kernels, and what the double kernels compute in terms of the values they stand for. */
module KernelLaws {
  import opened Kinds
  import opened ValueArenas
  import opened Primitives
  import opened Kernels
  import Binary64
  import IntRounding

  const TRUE := BoolScalar(true)
  const FALSE := BoolScalar(false)
  const ZERO := IntScalar(0)

  /** The kernel says yes. */
  ghost predicate Says(h: Hardware, i: Implementation, l: ScalarValue, r: ScalarValue)
    requires Machine(l) && Machine(r)
  {
    Operate(h, i, l, r) == KernelValue(TRUE)
  }

  predicate IsTruth(x: ScalarValue) {
    x == TRUE || x == FALSE
  }

  /** Unit and zero of the connectives, and a negation that is its own inverse and never its operand. */
  lemma ConnectiveLaws(h: Hardware, x: ScalarValue, y: ScalarValue)
    requires IsTruth(x) && IsTruth(y)
    ensures Operate(h, AndBool, x, TRUE) == KernelValue(x) == Operate(h, AndBool, TRUE, x)
    ensures Operate(h, AndBool, x, FALSE) == KernelValue(FALSE) == Operate(h, AndBool, FALSE, x)
    ensures Operate(h, OrBool, x, FALSE) == KernelValue(x) == Operate(h, OrBool, FALSE, x)
    ensures Operate(h, OrBool, x, TRUE) == KernelValue(TRUE) == Operate(h, OrBool, TRUE, x)
    ensures Operate(h, NotBool, x, y) == KernelValue(if x == TRUE then FALSE else TRUE)
    ensures Says(h, EqualsBool, x, y) <==> x == y
    ensures Says(h, NotEqualsBool, x, y) <==> !Says(h, EqualsBool, x, y)
  {
    hide StrictArithmetic, DoubleScalar, AddOverflows, SubOverflows, MulOverflows, Checked, TruncMod, Binary64.Equal, Binary64.LessThan,
         Binary64.IsPositive, Binary64.IsBelowZero;
  }

  /** Exactly one of less, equal and greater; less says that the exact difference is negative. */
  lemma IntegerOrder(h: Hardware, l: ScalarValue, r: ScalarValue)
    requires Machine(l) && Machine(r)
    ensures Says(h, LessThanInt, l, r) <==> ExactResult(SubInt, l.integer, r.integer) < 0
    ensures Says(h, EqualsInt, l, r) <==> ExactResult(SubInt, l.integer, r.integer) == 0
    ensures Says(h, GreaterThanInt, l, r) <==> Says(h, LessThanInt, r, l)
    ensures Says(h, NotEqualsInt, l, r) <==> !Says(h, EqualsInt, l, r)
    ensures Says(h, LessThanInt, l, r) || Says(h, EqualsInt, l, r) || Says(h, GreaterThanInt, l, r)
    ensures !(Says(h, LessThanInt, l, r) && Says(h, EqualsInt, l, r)) && !(Says(h, LessThanInt, l, r) && Says(h, GreaterThanInt, l, r))
    ensures !(Says(h, EqualsInt, l, r) && Says(h, GreaterThanInt, l, r))
    ensures Says(h, IsPositiveInt, l, r) <==> Says(h, GreaterThanInt, l, ZERO)
    ensures Says(h, IsNegativeInt, l, r) <==> Says(h, LessThanInt, l, ZERO)
    ensures Says(h, OddInt, l, r) <==> !Says(h, EvenInt, l, r)
  {
    hide Operate, MeantBy;
    IntegerSays(h, LessThanInt, l, r);
    IntegerSays(h, EqualsInt, l, r);
    IntegerSays(h, NotEqualsInt, l, r);
    IntegerSays(h, GreaterThanInt, l, r);
    IntegerSays(h, LessThanInt, r, l);
    IntegerSays(h, IsPositiveInt, l, r);
    IntegerSays(h, IsNegativeInt, l, r);
    IntegerSays(h, GreaterThanInt, l, ZERO);
    IntegerSays(h, LessThanInt, l, ZERO);
    IntegerSays(h, OddInt, l, r);
    IntegerSays(h, EvenInt, l, r);
  }

  ghost function IntegerSense(i: Implementation, l: int, r: int): bool {
    match i
    case LessThanInt => l - r < 0
    case EqualsInt => l - r == 0
    case NotEqualsInt => l - r != 0
    case GreaterThanInt => l - r > 0
    case IsPositiveInt => l > 0
    case IsNegativeInt => l < 0
    case OddInt => l % 2 == 1
    case EvenInt => l % 2 == 0
    case _ => false
  }

  lemma IntegerSays(h: Hardware, i: Implementation, l: ScalarValue, r: ScalarValue)
    requires Machine(l) && Machine(r)
    requires i in {LessThanInt, EqualsInt, NotEqualsInt, GreaterThanInt, IsPositiveInt, IsNegativeInt, OddInt, EvenInt}
    ensures Says(h, i, l, r) <==> IntegerSense(i, l.integer, r.integer)
  {
    PredicateKernelExact(h, i, l, r);
    hide Operate, Binary64.Decode, Binary64.Below;
  }

  // ---------------------------------------------------------------- what a kernel reads

  /** Two scalars with the same field of type `t`. */
  predicate SameField(t: ScalarType, a: ScalarValue, b: ScalarValue) {
    match t
    case Boolean => a.boolean == b.boolean
    case Integer => a.integer == b.integer
    case DoublePrecision => a.double == b.double
    case UnknownScalar => false
  }

  /** A kernel reads nothing but the fields of its parameter type, and a unary one nothing of a second operand. */
  lemma ReadsParameters(h: Hardware, i: Implementation, l: ScalarValue, r: ScalarValue, l': ScalarValue, r': ScalarValue)
    requires Machine(l) && Machine(r) && Machine(l') && Machine(r') && i != NoImplementation
    requires SameField(ParameterOf(i), l, l') && (ArityOf(i) == 2 ==> SameField(ParameterOf(i), r, r'))
    ensures Operate(h, i, l, r) == Operate(h, i, l', r')
  {
    hide StrictArithmetic, DoubleScalar, AddOverflows, SubOverflows, MulOverflows, Checked, TruncMod, Binary64.Equal, Binary64.LessThan,
         Binary64.IsPositive, Binary64.IsBelowZero;
  }

  // ---------------------------------------------------------------- doubles

  /** What a double kernel without hardware does to a value. */
  ghost function Opposite(x: Binary64.Extended): Binary64.Extended {
    match x
    case NotANumber => Binary64.NotANumber
    case NegativeInfinity => Binary64.PositiveInfinity
    case PositiveInfinity => Binary64.NegativeInfinity
    case Number(n) => Binary64.Number(0 - n)
  }

  lemma OppositeDecodes(b: Bits)
    ensures IntRounding.Negated(b) < 2 * Binary64.SIGN
    ensures Binary64.Decode(IntRounding.Negated(b)) == Opposite(Binary64.Decode(b))
  {
    IntRounding.NegatedFields(b);
    hide Binary64.Magnitude, IntRounding.Negated, Binary64.MagnitudeBits, Binary64.IsNegative;
  }

  lemma MagnitudeDecodes(b: Bits)
    ensures var m, x := Binary64.Decode(Binary64.MagnitudeBits(b)), Binary64.Decode(b);
            && (Binary64.Below(x, Binary64.Number(0)) ==> m == Opposite(x))
            && (!Binary64.Below(x, Binary64.Number(0)) ==> m == x)
  {
    var m := Binary64.MagnitudeBits(b);
    assert Binary64.MagnitudeBits(m) == m && !Binary64.IsNegative(m);
    Binary64.ZeroMagnitude(m);
    hide Binary64.Magnitude, Binary64.MagnitudeBits, Binary64.IsNegative;
  }

  lemma CanonicalDecodes(b: Bits)
    ensures Binary64.Decode(DoubleScalar(b).double) == Binary64.Decode(b)
    ensures Binary64.Decode(b) == Binary64.NotANumber ==> DoubleScalar(b).double == CANONICAL_NAN
  {
  }

  /** Negation and absolute value are exact, for infinities, zeros and NaN too. */
  lemma SignKernelsExact(h: Hardware, l: ScalarValue, r: ScalarValue)
    requires Machine(l) && Machine(r)
    ensures var x := Binary64.Decode(l.double);
            var neg, abs := Operate(h, NegDouble, l, r), Operate(h, AbsDouble, l, r);
            && neg.KernelValue? && Binary64.Decode(neg.value.double) == Opposite(x)
            && abs.KernelValue?
            && Binary64.Decode(abs.value.double) == if Binary64.Below(x, Binary64.Number(0)) then Opposite(x) else x
  {
    UnfoldDouble(h, NegDouble, l, r);
    UnfoldDouble(h, AbsDouble, l, r);
    OppositeDecodes(l.double);
    MagnitudeDecodes(l.double);
    CanonicalDecodes(IntRounding.Negated(l.double));
    CanonicalDecodes(Binary64.MagnitudeBits(l.double));
    hide Operate, Binary64.Decode, DoubleScalar, IntRounding.Negated, Binary64.MagnitudeBits, Opposite, Binary64.Below, StrictArithmetic;
  }

  /** Section 7.2 of IEEE 754-2019: the invalid operations. */
  ghost predicate Invalid(op: DoubleOp, x: Binary64.Extended, y: Binary64.Extended) {
    || x == Binary64.NotANumber || y == Binary64.NotANumber
    || match op {
         case AddOp => (x == Binary64.PositiveInfinity && y == Binary64.NegativeInfinity) || (x == Binary64.NegativeInfinity && y == Binary64.PositiveInfinity)
         case SubOp => x == y && (x == Binary64.PositiveInfinity || x == Binary64.NegativeInfinity)
         case MulOp => (Infinite(x) && y == Binary64.Number(0)) || (x == Binary64.Number(0) && Infinite(y))
       }
  }

  ghost predicate Infinite(x: Binary64.Extended) {
    x == Binary64.PositiveInfinity || x == Binary64.NegativeInfinity
  }

  lemma ArithmeticMeans(h: Hardware, l: Bits, r: Bits, op: DoubleOp)
    ensures Invalid(op, Binary64.Decode(l), Binary64.Decode(r)) ==> StrictArithmetic(h, l, r, op) == CANONICAL_NAN
    ensures !Invalid(op, Binary64.Decode(l), Binary64.Decode(r)) ==> StrictArithmetic(h, l, r, op) == DoubleScalar(h(op, l, r)).double
  {
    FieldsDecode(l);
    FieldsDecode(r);
    hide Binary64.Decode, Binary64.MagnitudeBits, Binary64.IsNegative, Binary64.IsNaN, Binary64.IsZero, IsInfinity;
  }

  lemma FieldsDecode(b: Bits)
    ensures Binary64.IsNaN(b) <==> Binary64.Decode(b) == Binary64.NotANumber
    ensures Binary64.IsZero(b) <==> Binary64.Decode(b) == Binary64.Number(0)
    ensures IsInfinity(b) <==> Infinite(Binary64.Decode(b))
    ensures IsInfinity(b) ==> (Binary64.IsNegative(b) <==> Binary64.Decode(b) == Binary64.NegativeInfinity)
  {
    Binary64.ZeroMagnitude(Binary64.MagnitudeBits(b));
    hide Binary64.Magnitude;
  }

  /** The hardware operation that a kernel asks for, and its second operand. */
  lemma DoubleKernelExact(h: Hardware, l: ScalarValue, r: ScalarValue)
    requires Machine(l) && Machine(r)
    ensures Computes(h, AddDouble, l, r, AddOp, r.double)
    ensures Computes(h, SubDouble, l, r, SubOp, r.double)
    ensures Computes(h, MulDouble, l, r, MulOp, r.double)
    ensures Computes(h, IncDouble, l, r, AddOp, ONE)
    ensures Computes(h, DecDouble, l, r, SubOp, ONE)
    ensures Binary64.Decode(ONE) == Binary64.Number(Binary64.Unit())
  {
    OneDecodes();
    hide Binary64.Decode, StrictArithmetic, DoubleScalar, Invalid;
    DoubleComputes(h, AddDouble, l, r);
    DoubleComputes(h, SubDouble, l, r);
    DoubleComputes(h, MulDouble, l, r);
    DoubleComputes(h, IncDouble, l, r);
    DoubleComputes(h, DecDouble, l, r);
  }

  /** The canonical NaN for an invalid operation, otherwise what the hardware returns for the operands in order. */
  ghost predicate Computes(h: Hardware, i: Implementation, l: ScalarValue, r: ScalarValue, op: DoubleOp, second: Bits)
    requires Machine(l) && Machine(r)
  {
    Operate(h, i, l, r) ==
      KernelValue(DoubleScalar(if Invalid(op, Binary64.Decode(l.double), Binary64.Decode(second)) then CANONICAL_NAN else h(op, l.double, second)))
  }

  lemma DoubleComputes(h: Hardware, i: Implementation, l: ScalarValue, r: ScalarValue)
    requires Machine(l) && Machine(r) && i in {AddDouble, SubDouble, MulDouble, IncDouble, DecDouble}
    ensures Computes(h, i, l, r, OperationOf(i), SecondOf(i, r.double))
  {
    UnfoldDouble(h, i, l, r);
    var second, op := SecondOf(i, r.double), OperationOf(i);
    ArithmeticMeans(h, l.double, second, op);
    CanonicalTwice(h(op, l.double, second));
    hide Operate, StrictArithmetic, DoubleScalar, Invalid, Binary64.Decode;
  }

  lemma CanonicalTwice(b: Bits)
    ensures DoubleScalar(DoubleScalar(b).double) == DoubleScalar(b)
    ensures DoubleScalar(CANONICAL_NAN).double == CANONICAL_NAN
  {
  }

  lemma OneDecodes()
    ensures Binary64.Decode(ONE) == Binary64.Number(Binary64.Unit())
  {
    hide Binary64.Pow2, Binary64.Magnitude;
    OneFields();
    assert Binary64.Unit() == Binary64.Pow2(1074);
    OneMagnitude();
  }

  lemma OneMagnitude()
    ensures Binary64.Magnitude(ONE) == Binary64.Pow2(1074)
  {
    hide Binary64.Pow2;
    OneFields();
    IntRounding.Powers();
    Binary64.Pow2Sum(52, 1022);
  }

  lemma OneFields()
    ensures ONE / Binary64.HIDDEN == 1023 && ONE % Binary64.HIDDEN == 0 && Binary64.MagnitudeBits(ONE) == ONE && !Binary64.IsNegative(ONE)
  {
  }

  // ---------------------------------------------------------------- promotion

  /** Integers that a double holds exactly. */
  predicate Small(x: int) {
    -0x20_0000_0000_0000 <= x <= 0x20_0000_0000_0000
  }

  /** The scalar that an integer is promoted to. */
  ghost predicate Promoted(x: ScalarValue, d: ScalarValue) {
    Machine(x) && Machine(d) && IntRounding.NearestEven(x.integer, d.double)
  }

  lemma PromotedDecodes(x: ScalarValue, d: ScalarValue)
    requires Promoted(x, d) && Small(x.integer)
    ensures Binary64.Decode(d.double) == Binary64.Number(IntRounding.Scaled(x.integer))
  {
    IntRounding.RoundingExact(x.integer, d.double);
    FiniteDecodes(d.double);
    hide IntRounding.Scaled, Binary64.Steps, Binary64.Decode, Binary64.IsFinite;
  }

  lemma FiniteDecodes(b: nat)
    ensures Binary64.IsFinite(b) ==> Binary64.Decode(b) == Binary64.Number(Binary64.Steps(b))
  {
  }

  /** Order, equality and sides of zero survive when integers stand for steps in the same order. */
  lemma SameSense(i: Implementation, j: Implementation, x: ScalarValue, y: ScalarValue, d: ScalarValue, e: ScalarValue, p: int, q: int)
    requires (i, j) in {(EqualsInt, EqualsDouble), (NotEqualsInt, NotEqualsDouble), (IsPositiveInt, IsPositiveDouble),
                        (IsNegativeInt, IsNegativeDouble), (LessThanInt, LessThanDouble), (GreaterThanInt, GreaterThanDouble)}
    requires Binary64.Decode(d.double) == Binary64.Number(p) && Binary64.Decode(e.double) == Binary64.Number(q)
    requires (x.integer < y.integer <==> p < q) && (y.integer < x.integer <==> q < p)
    requires (x.integer < 0 <==> p < 0) && (0 < x.integer <==> 0 < p)
    ensures MeantBy(i, x, y) == MeantBy(j, d, e)
  {
    hide Binary64.Decode;
  }

  lemma ScaledSense(v: int, w: int)
    ensures v < w <==> IntRounding.Scaled(v) < IntRounding.Scaled(w)
  {
    IntRounding.ScaledOrder(v, w);
    IntRounding.ScaledOrder(w, v);
    hide IntRounding.Scaled;
  }

  /**
   The integer and the double kernel of one predicate agree on integers that a double holds exactly, so that promotion
   does not change an answer.
   */
  lemma PromotionAgrees(h: Hardware, i: Implementation, j: Implementation, x: ScalarValue, y: ScalarValue, d: ScalarValue, e: ScalarValue)
    requires IdOf(i) == IdOf(j) && ParameterOf(i) == Integer && ParameterOf(j) == DoublePrecision && ResultOf(i) == Boolean
    requires Promoted(x, d) && Promoted(y, e) && Small(x.integer) && Small(y.integer)
    ensures ResultOf(j) == Boolean && Operate(h, i, x, y) == Operate(h, j, d, e)
  {
    hide *;
    PromotedDecodes(x, d);
    PromotedDecodes(y, e);
    PromotedMachine(x, d);
    PromotedMachine(y, e);
    SamePredicate(i, j);
    ScaledSense(x.integer, y.integer);
    ScaledSense(y.integer, x.integer);
    ScaledSense(x.integer, 0);
    ScaledSense(0, x.integer);
    IntRounding.ScaledOrder(0, 0);
    SameSense(i, j, x, y, d, e, IntRounding.Scaled(x.integer), IntRounding.Scaled(y.integer));
    PredicateKernelExact(h, i, x, y);
    PredicateKernelExact(h, j, d, e);
  }

  lemma PromotedMachine(x: ScalarValue, d: ScalarValue)
    requires Promoted(x, d)
    ensures Machine(x) && Machine(d)
  {
    hide IntRounding.NearestEven;
  }

  lemma SamePredicate(i: Implementation, j: Implementation)
    requires IdOf(i) == IdOf(j) && ParameterOf(i) == Integer && ParameterOf(j) == DoublePrecision && ResultOf(i) == Boolean
    ensures i != NoImplementation && j != NoImplementation && ResultOf(j) == Boolean
    ensures (i, j) in {(EqualsInt, EqualsDouble), (NotEqualsInt, NotEqualsDouble), (IsPositiveInt, IsPositiveDouble),
                       (IsNegativeInt, IsNegativeDouble), (LessThanInt, LessThanDouble), (GreaterThanInt, GreaterThanDouble)}
  {
  }
}
