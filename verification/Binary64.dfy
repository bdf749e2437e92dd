/**
 src/primitive.cpp:693-727, 807-859 and src/rewrite_c_runtime.cpp:978-1018: binary64 by its bits.

 A bit pattern is a natural number below 2^64; shifts, masks and complements are written as arithmetic.  Finite
 values are whole multiples of 2^-1074, the smallest positive value, so that they are compared as integers.
 */
module Binary64 {
  import opened Kinds

  const SIGN: nat := 0x8000_0000_0000_0000
  const HIDDEN: nat := 0x10_0000_0000_0000
  const EXPONENT_MASK: nat := 0x7ff0_0000_0000_0000

  function Pow2(n: nat): (r: nat)
    ensures r > 0
  {
    if n == 0 then 1 else 2 * Pow2(n - 1)
  }

  /** How many steps of 2^-1074 make one. */
  function Unit(): (r: nat)
    ensures r > 0
  {
    Pow2(1074)
  }

  predicate IsBits(b: nat) {
    b < 2 * SIGN
  }

  function MagnitudeBits(b: nat): nat {
    b % SIGN
  }

  predicate IsNegative(b: nat) {
    b / SIGN == 1
  }

  predicate IsNaN(b: nat) {
    MagnitudeBits(b) > EXPONENT_MASK
  }

  predicate IsFinite(b: nat) {
    IsBits(b) && MagnitudeBits(b) < EXPONENT_MASK
  }

  /** Section 3.4 of IEEE 754-2019: the magnitude that an exponent and fraction field encode. */
  function Magnitude(m: nat): nat {
    var e, f := m / HIDDEN, m % HIDDEN;
    if e == 0 then f else (HIDDEN + f) * Pow2(e - 1)
  }

  /** The value of a finite pattern, in steps of 2^-1074. */
  function Steps(b: nat): int {
    if IsNegative(b) then 0 - Magnitude(MagnitudeBits(b)) else Magnitude(MagnitudeBits(b))
  }

  datatype Extended = NotANumber | NegativeInfinity | Number(steps: int) | PositiveInfinity

  function Decode(b: nat): Extended {
    if IsNaN(b) then NotANumber
    else if MagnitudeBits(b) == EXPONENT_MASK then (if IsNegative(b) then NegativeInfinity else PositiveInfinity)
    else Number(Steps(b))
  }

  /** The order of the extended reals; not-a-number is unordered. */
  predicate Below(a: Extended, b: Extended) {
    match a
    case NotANumber => false
    case PositiveInfinity => false
    case NegativeInfinity => b == PositiveInfinity || b.Number?
    case Number(x) => b == PositiveInfinity || (b.Number? && x < b.steps)
  }

  // ---------------------------------------------------------------- magnitudes

  lemma {:induction false} Pow2Sum(a: nat, b: nat)
    ensures Pow2(a + b) == Pow2(a) * Pow2(b)
  {
    if a > 0 {
      Pow2Sum(a - 1, b);
      assert Pow2(a + b) == 2 * (Pow2(a - 1) * Pow2(b));
    }
  }

  lemma Pow2Grows(a: nat, b: nat)
    requires a <= b
    ensures Pow2(a) <= Pow2(b)
  {
    Pow2Sum(a, b - a);
    assert Pow2(b) == Pow2(a) * Pow2(b - a);
  }

  lemma TimesGrows(x: nat, y: nat, k: nat)
    requires x <= y
    ensures x * k <= y * k && k * x <= k * y
    ensures x < y && k > 0 ==> x * k < y * k
  {
  }

  /**
   Section 3.4 of IEEE 754-2019 step by step: the encoding starts at zero, and neighbours are one step apart through the
   subnormal numbers and the first binade, twice as far in every binade after it.
   */
  lemma MagnitudeSpacing(m: nat)
    ensures Magnitude(0) == 0
    ensures Magnitude(m + 1) == Magnitude(m) + Pow2(if m < HIDDEN then 0 else m / HIDDEN - 1)
  {
    var e, f := m / HIDDEN, m % HIDDEN;
    if f + 1 < HIDDEN {
      NextFields(m, e, f + 1);
      if e > 0 { assert (HIDDEN + (f + 1)) * Pow2(e - 1) == (HIDDEN + f) * Pow2(e - 1) + Pow2(e - 1); }
    } else {
      NextFields(m, e + 1, 0);
      if e > 0 { assert HIDDEN * Pow2(e) == (HIDDEN + f) * Pow2(e - 1) + Pow2(e - 1); }
    }
  }

  lemma NextFields(m: nat, e: nat, f: nat)
    requires m + 1 == e * HIDDEN + f && f < HIDDEN
    ensures (m + 1) / HIDDEN == e && (m + 1) % HIDDEN == f
  {
  }

  /** Magnitudes are ordered like their bits. */
  lemma MagnitudeOrder(a: nat, b: nat)
    requires a < b
    ensures Magnitude(a) < Magnitude(b)
  {
    var ea, fa, eb, fb := a / HIDDEN, a % HIDDEN, b / HIDDEN, b % HIDDEN;
    if ea == eb {
      if ea > 0 { TimesGrows(HIDDEN + fa, HIDDEN + fb, Pow2(ea - 1)); }
    } else {
      assert ea < eb;
      TimesGrows(HIDDEN, HIDDEN + fb, Pow2(eb - 1));
      if ea > 0 {
        Pow2Grows(ea, eb - 1);
        TimesGrows(Pow2(ea), Pow2(eb - 1), HIDDEN);
        TimesGrows(HIDDEN + fa, 2 * HIDDEN, Pow2(ea - 1));
        assert 2 * HIDDEN * Pow2(ea - 1) == HIDDEN * Pow2(ea);
      }
    }
  }

  lemma MagnitudeIff(a: nat, b: nat)
    ensures a < b <==> Magnitude(a) < Magnitude(b)
    ensures a == b <==> Magnitude(a) == Magnitude(b)
  {
    if a < b { MagnitudeOrder(a, b); } else if b < a { MagnitudeOrder(b, a); }
  }

  lemma ZeroMagnitude(m: nat)
    ensures Magnitude(m) == 0 <==> m == 0
  {
    MagnitudeIff(m, 0);
  }

  // ---------------------------------------------------------------- ordering

  predicate IsZero(b: nat) {
    MagnitudeBits(b) == 0
  }

  /** src/primitive.cpp:823-827. */
  function OrderKey(b: nat): nat
    requires IsBits(b)
  {
    if b / SIGN == 1 then 2 * SIGN - 1 - b else b + SIGN
  }

  predicate Equal(left: nat, right: nat) {
    if IsNaN(left) || IsNaN(right) then false else if IsZero(left) && IsZero(right) then true else left == right
  }

  predicate LessThan(left: nat, right: nat)
    requires IsBits(left) && IsBits(right)
  {
    if IsNaN(left) || IsNaN(right) || (IsZero(left) && IsZero(right)) then false else OrderKey(left) < OrderKey(right)
  }

  predicate IsPositive(b: nat) {
    !IsNaN(b) && !IsZero(b) && b / SIGN == 0
  }

  predicate IsBelowZero(b: nat) {
    !IsNaN(b) && !IsZero(b) && b / SIGN == 1
  }

  lemma SplitBits(b: nat)
    requires IsBits(b)
    ensures b == (if IsNegative(b) then SIGN else 0) + MagnitudeBits(b)
    ensures !IsNegative(b) ==> b / SIGN == 0
  {
  }

  /** Section 5.11 of IEEE 754-2019: comparing order keys is comparing values. */
  lemma ComparesValues(left: nat, right: nat)
    requires IsBits(left) && IsBits(right)
    ensures LessThan(left, right) <==> Below(Decode(left), Decode(right))
    ensures Equal(left, right) <==> Decode(left) == Decode(right) != NotANumber
  {
    SplitBits(left);
    SplitBits(right);
    MagnitudeIff(MagnitudeBits(left), MagnitudeBits(right));
    ZeroMagnitude(MagnitudeBits(left));
    ZeroMagnitude(MagnitudeBits(right));
    hide Magnitude;
  }

  /** The sign predicates ask for the side of zero. */
  lemma SignsOfValues(b: nat)
    requires IsBits(b)
    ensures IsPositive(b) <==> Below(Number(0), Decode(b))
    ensures IsBelowZero(b) <==> Below(Decode(b), Number(0))
  {
    SplitBits(b);
    ZeroMagnitude(MagnitudeBits(b));
    hide Magnitude;
  }

  /** Exactly one of less, equal and greater holds of two numbers, and none of a NaN. */
  lemma Trichotomy(left: nat, right: nat)
    requires IsBits(left) && IsBits(right)
    ensures IsNaN(left) || IsNaN(right) ==> !LessThan(left, right) && !Equal(left, right) && !LessThan(right, left)
    ensures !IsNaN(left) && !IsNaN(right) ==> LessThan(left, right) || Equal(left, right) || LessThan(right, left)
    ensures !(LessThan(left, right) && Equal(left, right)) && !(LessThan(left, right) && LessThan(right, left))
    ensures !(Equal(left, right) && LessThan(right, left))
  {
    ComparesValues(left, right);
    ComparesValues(right, left);
    hide LessThan, Equal;
  }

  lemma LessTransitive(a: nat, b: nat, c: nat)
    requires IsBits(a) && IsBits(b) && IsBits(c) && LessThan(a, b) && LessThan(b, c)
    ensures LessThan(a, c)
  {
    ComparesValues(a, b);
    ComparesValues(b, c);
    ComparesValues(a, c);
    hide LessThan, Decode;
  }
}
