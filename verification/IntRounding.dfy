/** src/primitive.cpp:693-727 and src/rewrite_c_runtime.cpp:978-1018: integers to binary64, to nearest with ties to even. */
module IntRounding {
  import opened Binary64

  const INT_MIN: int := -0x8000_0000_0000_0000
  const INT_MAX: int := 0x7fff_ffff_ffff_ffff

  predicate IsInt64(v: int) {
    INT_MIN <= v <= INT_MAX
  }

  function Abs(x: int): nat {
    if x < 0 then 0 - x else x
  }

  /** An integer in steps of 2^-1074. */
  function Scaled(v: int): int {
    v * Unit()
  }

  lemma ScaledOrder(v: int, w: int)
    ensures v < w ==> Scaled(v) < Scaled(w)
    ensures Scaled(0 - v) == 0 - Scaled(v) && Scaled(0) == 0 && Scaled(1) == Unit()
  {
    if v < w {
      TimesGrows(1, w - v, Unit());
      assert w * Unit() == v * Unit() + (w - v) * Unit();
    }
    assert (0 - v) * Unit() == 0 - v * Unit();
  }

  /** How far a finite pattern is from an integer. */
  function Distance(b: nat, v: int): nat {
    Abs(Steps(b) - Scaled(v))
  }

  /**
   Section 4.3.1 of IEEE 754-2019: no finite value is nearer, and when another value is equally near the last
   bit of the chosen one is zero.  Zero becomes the positive zero.
   */
  ghost predicate NearestEven(v: int, r: nat) {
    && IsFinite(r) && (v == 0 ==> r == 0)
    && forall b: nat :: IsFinite(b) ==>
         Distance(r, v) <= Distance(b, v) && (Distance(b, v) == Distance(r, v) && Steps(b) != Steps(r) ==> r % 2 == 0)
  }

  // ---------------------------------------------------------------- neighbours

  lemma PositiveSteps(m: nat)
    requires m < SIGN
    ensures Steps(m) == Magnitude(m) && MagnitudeBits(m) == m && !IsNegative(m)
  {
  }

  /** No finite value lies strictly between two neighbouring magnitudes. */
  lemma NoValueBetween(lo: nat, b: nat)
    requires lo + 1 < SIGN && IsFinite(b)
    ensures Steps(b) <= Magnitude(lo) || Steps(b) >= Magnitude(lo + 1)
    ensures Magnitude(lo) < Magnitude(lo + 1)
  {
    MagnitudeIff(lo, lo + 1);
    MagnitudeIff(lo, MagnitudeBits(b));
    MagnitudeIff(MagnitudeBits(b), lo + 1);
    hide Magnitude;
  }

  lemma NearestExact(v: int, r: nat)
    requires IsFinite(r) && Steps(r) == Scaled(v) && (v == 0 ==> r == 0)
    ensures NearestEven(v, r)
  {
    hide Scaled, Steps;
  }

  ghost predicate AsNear(v: int, r: nat, b: nat) {
    Distance(r, v) <= Distance(b, v) && (Distance(b, v) == Distance(r, v) && Steps(b) != Steps(r) ==> r % 2 == 0)
  }

  lemma MakeNearest(v: int, r: nat)
    requires IsFinite(r) && (v == 0 ==> r == 0) && forall b: nat :: IsFinite(b) ==> AsNear(v, r, b)
    ensures NearestEven(v, r)
  {
    hide Distance, Steps, IsFinite;
  }

  lemma DistanceIs(b: nat, v: int)
    ensures Distance(b, v) == Abs(Steps(b) - Scaled(v))
  {
    hide Abs, Steps, Scaled;
  }

  lemma OddNext(lo: nat)
    ensures lo % 2 == 1 ==> (lo + 1) % 2 == 0
  {
  }

  /** `x` lies between neighbouring magnitudes, and not nearer to the upper one. */
  ghost predicate LowerHalf(v: int, lo: nat) {
    var sum := Magnitude(lo) + Magnitude(lo + 1);
    Magnitude(lo) <= Scaled(v) && (2 * Scaled(v) < sum || (2 * Scaled(v) == sum && lo % 2 == 0))
  }

  ghost predicate UpperHalf(v: int, lo: nat) {
    var sum := Magnitude(lo) + Magnitude(lo + 1);
    Scaled(v) <= Magnitude(lo + 1) && (2 * Scaled(v) > sum || (2 * Scaled(v) == sum && lo % 2 == 1))
  }

  lemma NearBelow(v: int, lo: nat, b: nat)
    requires lo + 1 < EXPONENT_MASK && LowerHalf(v, lo) && IsFinite(b)
    ensures AsNear(v, lo, b)
  {
    hide Magnitude, Scaled, Steps, IsFinite, Abs, Distance;
    FiniteBelow(lo);
    NoValueBetween(lo, b);
    DistanceIs(lo, v);
    DistanceIs(b, v);
    LowerIsNear(Scaled(v), Magnitude(lo), Magnitude(lo + 1), Steps(b));
  }

  lemma NearAbove(v: int, lo: nat, b: nat)
    requires lo + 1 < EXPONENT_MASK && UpperHalf(v, lo) && IsFinite(b)
    ensures AsNear(v, lo + 1, b)
  {
    hide Magnitude, Scaled, Steps, IsFinite, Abs, Distance;
    FiniteBelow(lo + 1);
    NoValueBetween(lo, b);
    DistanceIs(lo + 1, v);
    DistanceIs(b, v);
    OddNext(lo);
    UpperIsNear(Scaled(v), Magnitude(lo), Magnitude(lo + 1), Steps(b));
  }

  lemma NearestBelow(v: int, lo: nat)
    requires lo + 1 < EXPONENT_MASK && v > 0 && LowerHalf(v, lo)
    ensures NearestEven(v, lo)
  {
    hide *;
    FiniteBelow(lo);
    forall b: nat | IsFinite(b) ensures AsNear(v, lo, b) {
      NearBelow(v, lo, b);
    }
    MakeNearest(v, lo);
  }

  lemma NearestAbove(v: int, lo: nat)
    requires lo + 1 < EXPONENT_MASK && v > 0 && UpperHalf(v, lo)
    ensures NearestEven(v, lo + 1)
  {
    hide *;
    FiniteBelow(lo + 1);
    forall b: nat | IsFinite(b) ensures AsNear(v, lo + 1, b) {
      NearAbove(v, lo, b);
    }
    MakeNearest(v, lo + 1);
  }

  lemma LowerIsNear(x: int, low: int, high: int, s: int)
    requires low < high && low <= x && 2 * x <= low + high && (s <= low || s >= high)
    ensures Abs(low - x) <= Abs(s - x)
    ensures Abs(low - x) == Abs(s - x) && s != low ==> 2 * x == low + high
  {
  }

  lemma UpperIsNear(x: int, low: int, high: int, s: int)
    requires low < high && x <= high && 2 * x >= low + high && (s <= low || s >= high)
    ensures Abs(high - x) <= Abs(s - x)
    ensures Abs(high - x) == Abs(s - x) && s != high ==> 2 * x == low + high
  {
  }

  // ---------------------------------------------------------------- the significand

  lemma Powers()
    ensures Pow2(52) == HIDDEN && Pow2(53) == 2 * HIDDEN && Pow2(63) == SIGN && Pow2(64) == 2 * SIGN
  {
    assert Pow2(11) == 2048 && Pow2(13) == 8192;
    Pow2Sum(13, 13);
    Pow2Sum(26, 26);
    Pow2Sum(52, 11);
    Pow2Sum(1, 52);
    Pow2Sum(1, 63);
  }

  /** The pattern of exponent field `e` and significand `s`, where `s` may have reached the next power of two. */
  lemma FieldsMagnitude(e: nat, s: nat)
    requires e > 0 && HIDDEN <= s <= 2 * HIDDEN
    ensures Magnitude((e - 1) * HIDDEN + s) == s * Pow2(e - 1)
  {
    var m := (e - 1) * HIDDEN + s;
    if s < 2 * HIDDEN {
      assert m == e * HIDDEN + (s - HIDDEN);
      Quotient(m, e, s - HIDDEN);
    } else {
      assert m == (e + 1) * HIDDEN + 0;
      Quotient(m, e + 1, 0);
      assert HIDDEN * Pow2(e) == HIDDEN * (2 * Pow2(e - 1));
    }
  }

  lemma Quotient(m: nat, q: nat, r: nat)
    requires r < HIDDEN && m == q * HIDDEN + r
    ensures m / HIDDEN == q && m % HIDDEN == r
  {
  }

  /** The most significant bit of a positive number. */
  ghost predicate TopBit(m: nat, top: nat) {
    Pow2(top) <= m < Pow2(top + 1)
  }

  lemma Rearranged(m: nat, s: nat, rest: nat, k: nat, u: nat)
    requires m == s * k + rest
    ensures m * u == s * (k * u) + rest * u
  {
    assert m * u == s * k * u + rest * u;
  }

  lemma ScaledUnit(top: nat)
    requires top >= 52
    ensures Pow2(top + 1022) == Pow2(top - 52) * Unit()
  {
    hide Pow2;
    Pow2Sum(top - 52, 1074);
  }

  /** Integers of at most 53 bits are exact. */
  lemma SmallIsExact(m: nat, top: nat)
    requires TopBit(m, top) && top <= 52
    ensures var s := m * Pow2(52 - top);
            && HIDDEN <= s < 2 * HIDDEN
            && Magnitude((top + 1022) * HIDDEN + s) == Scaled(m)
  {
    hide *;
    Powers();
    var k := Pow2(52 - top);
    var s := m * k;
    Pow2Sum(52 - top, top);
    Pow2Sum(52 - top, top + 1);
    UnitIs();
    Pow2Sum(52 - top, top + 1022);
    TopIs(m, top);
    SmallRange(m, k, Pow2(top), Pow2(top + 1));
    FieldsMagnitude(top + 1023, s);
    SmallArithmetic(m, k, Pow2(top + 1022));
    ScaledIs(m);
  }

  lemma UnitIs()
    ensures Unit() == Pow2(1074)
  {
    hide Pow2;
  }

  lemma TopIs(m: nat, top: nat)
    requires TopBit(m, top)
    ensures Pow2(top) <= m < Pow2(top + 1)
  {
    hide Pow2;
  }

  lemma SmallRange(m: nat, k: nat, low: nat, high: nat)
    requires low <= m < high && k > 0
    ensures k * low <= m * k < k * high
  {
    TimesGrows(low, m, k);
    TimesGrows(m, high, k);
  }

  lemma SmallArithmetic(m: nat, k: nat, p: nat)
    ensures m * k * p == m * (k * p)
  {
  }

  lemma SignificandRange(m: nat, top: nat)
    requires TopBit(m, top) && top >= 52
    ensures var k := Pow2(top - 52); HIDDEN <= m / k < 2 * HIDDEN && m == (m / k) * k + m % k
  {
    Powers();
    var k := Pow2(top - 52);
    hide Pow2;
    Pow2Sum(52, top - 52);
    Pow2Sum(53, top - 52);
    Floor(m, HIDDEN, k);
  }

  lemma Floor(m: nat, h: nat, k: nat)
    requires k > 0 && h * k <= m < 2 * h * k
    ensures h <= m / k < 2 * h && m == (m / k) * k + m % k
  {
    var q := m / k;
    assert m == q * k + m % k;
    if q < h { TimesGrows(q + 1, h, k); }
    if q >= 2 * h { TimesGrows(2 * h, q, k); }
  }

  /** The two neighbours of a large integer and where it lies between them. */
  lemma TwoHalves(top: nat)
    requires top >= 53
    ensures Pow2(top - 52) == 2 * Pow2(top - 53) && Pow2(top - 53) > 0
  {
  }

  lemma LargeNeighbours(m: nat, top: nat)
    requires TopBit(m, top) && 53 <= top <= 63
    ensures var k, half := Pow2(top - 52), Pow2(top - 53);
            var s, rest, lo := m / k, m % k, (top + 1022) * HIDDEN + m / k;
            && k == 2 * half && half > 0 && HIDDEN <= s < 2 * HIDDEN && lo + 1 < EXPONENT_MASK
            && Magnitude(lo) + rest * Unit() == Scaled(m)
            && Magnitude(lo + 1) == Magnitude(lo) + 2 * (half * Unit())
            && lo % 2 == s % 2
  {
    var k, half := Pow2(top - 52), Pow2(top - 53);
    var s, rest, lo := m / k, m % k, (top + 1022) * HIDDEN + m / k;
    hide *;
    TwoHalves(top);
    LargeParts(m, top);
    FieldsMagnitude(top + 1023, s);
    FieldsMagnitude(top + 1023, s + 1);
    ScaledUnit(top);
    LargeArithmetic(m, s, rest, k, half, Unit());
    EvenField(top, s);
    ScaledIs(m);
  }

  lemma ScaledIs(m: nat)
    ensures Scaled(m) == m * Unit()
  {
  }

  lemma LargeArithmetic(m: nat, s: nat, rest: nat, k: nat, half: nat, u: nat)
    requires m == s * k + rest && k == 2 * half
    ensures s * (k * u) + rest * u == m * u
    ensures (s + 1) * (k * u) == s * (k * u) + 2 * (half * u)
  {
    NextSignificand(s, half, k, u);
    Rearranged(m, s, rest, k, u);
  }

  lemma LargeParts(m: nat, top: nat)
    requires TopBit(m, top) && 53 <= top <= 63
    ensures var k, s := Pow2(top - 52), m / Pow2(top - 52);
            HIDDEN <= s < 2 * HIDDEN && m == s * k + m % k && (top + 1022) * HIDDEN + s + 1 < EXPONENT_MASK
  {
    SignificandRange(m, top);
  }

  lemma NextSignificand(s: nat, half: nat, k: nat, u: nat)
    requires k == 2 * half
    ensures (s + 1) * (k * u) == s * (k * u) + 2 * (half * u)
  {
    assert k * u == 2 * (half * u);
  }

  lemma EvenField(top: nat, s: nat)
    ensures ((top + 1022) * HIDDEN + s) % 2 == s % 2
  {
    DoubleEven((top + 1022) * 0x8_0000_0000_0000, s);
  }

  lemma DoubleEven(y: nat, s: nat)
    ensures (2 * y + s) % 2 == s % 2
  {
  }

  /** Rounding a large integer by its remainder picks the nearest neighbour. */
  lemma LargeIsNearest(m: nat, top: nat, s: nat, rest: nat, half: nat, lo: nat, up: bool)
    requires TopBit(m, top) && 53 <= top <= 63
    requires s == m / Pow2(top - 52) && rest == m % Pow2(top - 52) && half == Pow2(top - 53)
    requires lo == (top + 1022) * HIDDEN + s && up == (rest > half || (rest == half && s % 2 != 0))
    ensures NearestEven(m, if up then lo + 1 else lo)
  {
    hide *;
    LargeNeighbours(m, top);
    CompareHalf(rest, half, Unit());
    TopIs(m, top);
    WhichHalf(m, lo, s, rest * Unit(), half * Unit(), up);
    if up { NearestAbove(m, lo); } else { NearestBelow(m, lo); }
  }

  lemma WhichHalf(m: nat, lo: nat, s: nat, rest: nat, half: nat, up: bool)
    requires Magnitude(lo) + rest == Scaled(m) && Magnitude(lo + 1) == Magnitude(lo) + 2 * half && lo % 2 == s % 2
    requires up == (rest > half || (rest == half && s % 2 != 0)) && rest <= 2 * half
    ensures if up then UpperHalf(m, lo) else LowerHalf(m, lo)
  {
    hide Magnitude, Scaled;
  }

  lemma CompareHalf(rest: nat, half: nat, u: nat)
    requires u > 0
    ensures rest < half <==> rest * u < half * u
    ensures rest == half <==> rest * u == half * u
    ensures rest <= 2 * half ==> rest * u <= 2 * (half * u)
  {
    if rest < half { TimesGrows(rest, half, u); }
    if half < rest { TimesGrows(half, rest, u); }
    if rest <= 2 * half { TimesGrows(rest, 2 * half, u); }
  }

  // ---------------------------------------------------------------- signs

  function Negated(b: nat): nat {
    if b < SIGN then b + SIGN else b - SIGN
  }

  lemma SignQuotient(m: nat, q: nat, r: nat)
    requires r < SIGN && m == q * SIGN + r
    ensures m / SIGN == q && m % SIGN == r
  {
  }

  lemma NegatedFields(b: nat)
    requires IsBits(b)
    ensures IsBits(Negated(b)) && MagnitudeBits(Negated(b)) == MagnitudeBits(b) && IsNegative(Negated(b)) == !IsNegative(b)
    ensures Negated(Negated(b)) == b
  {
    if b < SIGN {
      SignQuotient(b, 0, b);
      SignQuotient(b + SIGN, 1, b);
    } else {
      SignQuotient(b, 1, b - SIGN);
      SignQuotient(b - SIGN, 0, b - SIGN);
    }
  }

  lemma NegatedParity(b: nat)
    ensures Negated(b) % 2 == b % 2
  {
  }

  lemma NegatedSteps(b: nat)
    requires IsFinite(b)
    ensures IsFinite(Negated(b)) && Steps(Negated(b)) == 0 - Steps(b) && Negated(b) % 2 == b % 2
    ensures Negated(Negated(b)) == b
  {
    hide Magnitude, Negated, MagnitudeBits, IsNegative;
    NegatedFields(b);
    NegatedParity(b);
  }

  lemma NegativeIsNearest(v: int, r: nat)
    requires v > 0 && NearestEven(v, r)
    ensures NearestEven(0 - v, Negated(r))
  {
    NegatedSteps(r);
    ScaledOrder(v, v);
    hide Steps, Negated, Scaled;
    forall b: nat | IsFinite(b)
      ensures Distance(Negated(r), 0 - v) <= Distance(b, 0 - v)
      ensures Distance(b, 0 - v) == Distance(Negated(r), 0 - v) && Steps(b) != Steps(Negated(r)) ==> Negated(r) % 2 == 0
    {
      NegatedSteps(b);
      assert Distance(Negated(b), v) == Distance(b, 0 - v) && Distance(r, v) == Distance(Negated(r), 0 - v);
    }
  }

  // ---------------------------------------------------------------- the two implementations

  /** src/primitive.cpp:704-727 and src/rewrite_c_runtime.cpp:993-1010: significand, rounding, carry and fields. */
  method RoundMagnitude(magnitude: nat, top: nat) returns (bits: nat)
    requires TopBit(magnitude, top) && top <= 63
    ensures bits < EXPONENT_MASK && NearestEven(magnitude, bits)
  {
    hide Magnitude, NearestEven, TopBit, Unit;
    var mostSignificant, significand := top, 0;
    if mostSignificant <= 52 {
      significand := magnitude * Pow2(52 - mostSignificant);
      SmallIsExact(magnitude, top);
    } else {
      var shift: nat := mostSignificant - 52;
      significand := magnitude / Pow2(shift);
      var remainder, halfway := magnitude % Pow2(shift), Pow2(shift - 1);
      SignificandRange(magnitude, top);
      LargeIsNearest(magnitude, top, significand, remainder, halfway, (top + 1022) * HIDDEN + significand,
                     remainder > halfway || (remainder == halfway && significand % 2 != 0));
      if remainder > halfway || (remainder == halfway && significand % 2 != 0) {
        significand := significand + 1;
        if significand == 2 * HIDDEN {
          significand := significand / 2;
          mostSignificant := mostSignificant + 1;
        }
      }
    }
    bits := (mostSignificant + 1023) * HIDDEN + significand % HIDDEN;
    hide Pow2;
    assert significand % HIDDEN == significand - HIDDEN;
    if top <= 52 { SmallNearest(magnitude, top, bits); }
  }

  lemma SmallNearest(m: nat, top: nat, bits: nat)
    requires TopBit(m, top) && top <= 52 && bits == (top + 1022) * HIDDEN + m * Pow2(52 - top)
    ensures NearestEven(m, bits)
  {
    SmallIsExact(m, top);
    assert bits < EXPONENT_MASK && m > 0;
    hide Magnitude, Pow2, Unit;
    PositiveSteps(bits);
    NearestExact(m, bits);
  }

  function TopOf(m: nat): (top: nat)
    requires m > 0
    ensures TopBit(m, top)
  {
    if m == 1 then 0 else TopOf(m / 2) + 1
  }

  lemma TopIsSmall(m: nat, top: nat)
    requires TopBit(m, top) && m <= SIGN
    ensures top <= 63
  {
    Powers();
    if top >= 64 { Pow2Grows(64, top); }
  }

  /** src/primitive.cpp:693-727. */
  method IntToBinary64(value: int) returns (bits: nat)
    requires IsInt64(value)
    ensures IsFinite(bits) && NearestEven(value, bits)
  {
    if value == 0 {
      NearestExact(0, 0);
      return 0;
    }
    var negative := value < 0;
    var magnitude: nat := if negative then 0 - (value + 1) + 1 else value;
    var top := TopOf(magnitude);
    TopIsSmall(magnitude, top);
    hide NearestEven, TopBit;
    bits := RoundMagnitude(magnitude, top);
    if negative {
      NegativeIsNearest(magnitude, bits);
      bits := bits + SIGN;
    }
  }

  /** src/rewrite_c_runtime.cpp:978-1018: the C runtime finds the top bit with a loop. */
  method CIntToDouble(value: int) returns (bits: nat)
    requires IsInt64(value)
    ensures IsFinite(bits) && NearestEven(value, bits)
  {
    var negative := value < 0;
    var magnitude: nat := if negative then 0 - (value + 1) + 1 else value;
    if magnitude == 0 {
      NearestExact(0, 0);
      return 0;
    }
    var scan, top := magnitude, 0;
    while scan > 1
      invariant scan >= 1 && scan * Pow2(top) <= magnitude < (scan + 1) * Pow2(top)
    {
      Halved(magnitude, scan, top);
      scan := scan / 2;
      top := top + 1;
    }
    TopIsSmall(magnitude, top);
    hide NearestEven, TopBit;
    bits := RoundMagnitude(magnitude, top);
    if negative {
      NegativeIsNearest(magnitude, bits);
      bits := bits + SIGN;
    }
  }

  lemma Halved(m: nat, scan: nat, top: nat)
    requires scan > 1 && scan * Pow2(top) <= m < (scan + 1) * Pow2(top)
    ensures (scan / 2) * Pow2(top + 1) <= m < (scan / 2 + 1) * Pow2(top + 1)
  {
    TimesGrows(scan / 2 * 2, scan, Pow2(top));
    TimesGrows(scan + 1, scan / 2 * 2 + 2, Pow2(top));
    assert (scan / 2) * Pow2(top + 1) == scan / 2 * 2 * Pow2(top);
    assert (scan / 2 + 1) * Pow2(top + 1) == (scan / 2 * 2 + 2) * Pow2(top);
  }

  // ---------------------------------------------------------------- the rounded integer

  lemma NearestExists(v: int) returns (r: nat)
    requires IsInt64(v)
    ensures NearestEven(v, r)
  {
    hide NearestEven, Steps, Scaled;
    if v == 0 {
      r := ZeroNearest();
    } else {
      r := PositiveNearest(Abs(v));
      if v < 0 {
        NegativeIsNearest(Abs(v), r);
        r := Negated(r);
      }
    }
  }

  lemma ZeroNearest() returns (r: nat)
    ensures NearestEven(0, r)
  {
    r := 0;
    PositiveSteps(0);
    ScaledOrder(0, 0);
    ZeroMagnitude(0);
    FiniteBelow(0);
    NearestExact(0, 0);
  }

  lemma PositiveNearest(m: nat) returns (r: nat)
    requires 0 < m <= SIGN
    ensures NearestEven(m, r)
  {
    hide *;
    var top := TopOf(m);
    TopIsSmall(m, top);
    if top <= 52 {
      r := (top + 1022) * HIDDEN + m * Pow2(52 - top);
      SmallNearest(m, top, r);
    } else {
      var s, rest, half := m / Pow2(top - 52), m % Pow2(top - 52), Pow2(top - 53);
      var lo := (top + 1022) * HIDDEN + s;
      var up := rest > half || (rest == half && s % 2 != 0);
      r := if up then lo + 1 else lo;
      LargeIsNearest(m, top, s, rest, half, lo, up);
    }
  }

  /** The double that an Int64 becomes. */
  ghost function ToDouble(v: int): (r: nat)
    requires IsInt64(v)
    ensures NearestEven(v, r) && IsFinite(r)
  {
    Rounds(v);
    var r: nat :| NearestEven(v, r);
    r
  }

  lemma Rounds(v: int)
    requires IsInt64(v)
    ensures exists r: nat :: NearestEven(v, r)
  {
    hide NearestEven;
    var r := NearestExists(v);
  }

  // ---------------------------------------------------------------- what nearest-even means

  lemma SameStepsSameBits(a: nat, b: nat)
    requires IsFinite(a) && IsFinite(b) && Steps(a) == Steps(b) != 0
    ensures a == b
  {
    SplitBits(a);
    SplitBits(b);
    MagnitudeIff(MagnitudeBits(a), MagnitudeBits(b));
    hide Magnitude;
  }

  lemma OneIsNear(v: int, r: nat)
    requires v != 0 && NearestEven(v, r)
    ensures Steps(r) != 0 && (v > 0 <==> Steps(r) > 0)
  {
    hide *;
    var one := OneBits();
    ScaledOrder(1, v);
    ScaledOrder(v, -1);
    ScaledOrder(1, 1);
    if v > 0 {
      Nearer(v, r, one);
    } else {
      Nearer(v, r, Negated(one));
    }
  }

  lemma Nearer(v: int, r: nat, b: nat)
    requires NearestEven(v, r) && IsFinite(b)
    ensures Abs(Steps(r) - Scaled(v)) <= Abs(Steps(b) - Scaled(v))
    ensures Steps(r) == Scaled(v) || Abs(Steps(r) - Scaled(v)) > 0
    ensures forall x: int :: 0 <= Abs(x) && (Abs(x) == x || Abs(x) == 0 - x)
  {
    hide Steps, Scaled;
    assert Distance(r, v) <= Distance(b, v);
  }

  lemma OneBits() returns (one: nat)
    ensures IsFinite(one) && Steps(one) == Unit() && IsFinite(Negated(one)) && Steps(Negated(one)) == 0 - Unit() && Unit() > 0
  {
    one := 1022 * HIDDEN + HIDDEN;
    OneTop();
    hide Pow2, TopBit, Magnitude;
    SmallIsExact(1, 0);
    PositiveSteps(one);
    NegatedSteps(one);
    ScaledIs(1);
  }

  lemma OneTop()
    ensures TopBit(1, 0) && Pow2(52) == HIDDEN
  {
    Powers();
  }

  /** Between two equally near values there is none, so that one of the two has an odd last bit. */
  lemma NeighboursDiffer(v: int, a: nat, b: nat)
    requires v > 0 && NearestEven(v, a) && NearestEven(v, b) && Steps(a) < Steps(b)
    ensures a % 2 != b % 2
  {
    hide *;
    NearestFinite(v, a);
    NearestFinite(v, b);
    OneIsNear(v, a);
    OneIsNear(v, b);
    PositivePattern(a);
    PositivePattern(b);
    MagnitudeIff(a, b);
    if b != a + 1 {
      MagnitudeIff(a, a + 1);
      MagnitudeIff(a + 1, b);
      FiniteBelow(a + 1);
      NothingBetween(v, a, a + 1, b);
    }
  }

  /** No other encoding lies between two nearest ones. */
  lemma NothingBetween(v: int, a: nat, c: nat, b: nat)
    requires v > 0 && NearestEven(v, a) && NearestEven(v, b) && IsFinite(a) && IsFinite(b) && IsFinite(c)
    ensures !(Steps(a) < Steps(c) < Steps(b))
  {
    hide *;
    Nearer(v, a, c);
    Nearer(v, b, c);
    Nearer(v, a, b);
    AbsIs(Steps(a) - Scaled(v));
    AbsIs(Steps(b) - Scaled(v));
    AbsIs(Steps(c) - Scaled(v));
  }

  lemma AbsIs(x: int)
    ensures Abs(x) == if x < 0 then 0 - x else x
  {
  }

  lemma NearestFinite(v: int, r: nat)
    requires NearestEven(v, r)
    ensures IsFinite(r) && (v == 0 ==> r == 0)
  {
  }

  lemma PositivePattern(a: nat)
    requires IsFinite(a) && Steps(a) > 0
    ensures a < EXPONENT_MASK && Steps(a) == Magnitude(a)
  {
    SplitBits(a);
    hide Magnitude;
  }

  lemma FiniteBelow(m: nat)
    requires m < EXPONENT_MASK
    ensures IsFinite(m) && Steps(m) == Magnitude(m)
  {
    hide Magnitude;
  }

  lemma PositiveUnique(v: int, a: nat, b: nat)
    requires v > 0 && NearestEven(v, a) && NearestEven(v, b)
    ensures a == b
  {
    OneIsNear(v, a);
    OneIsNear(v, b);
    assert Distance(a, v) == Distance(b, v);
    if Steps(a) == Steps(b) {
      SameStepsSameBits(a, b);
    } else if Steps(a) < Steps(b) {
      NeighboursDiffer(v, a, b);
    } else {
      NeighboursDiffer(v, b, a);
    }
  }

  lemma PositiveIsNearest(v: int, r: nat)
    requires v < 0 && NearestEven(v, r)
    ensures NearestEven(0 - v, Negated(r))
  {
    NegatedSteps(r);
    ScaledOrder(v, v);
    hide Steps, Negated, Scaled;
    forall b: nat | IsFinite(b)
      ensures Distance(Negated(r), 0 - v) <= Distance(b, 0 - v)
      ensures Distance(b, 0 - v) == Distance(Negated(r), 0 - v) && Steps(b) != Steps(Negated(r)) ==> Negated(r) % 2 == 0
    {
      NegatedSteps(b);
      assert Distance(Negated(b), v) == Distance(b, 0 - v) && Distance(r, v) == Distance(Negated(r), 0 - v);
    }
  }

  /** Nearest-even determines the pattern, so that the evaluator and the C runtime agree bit for bit. */
  lemma NearestEvenUnique(v: int, a: nat, b: nat)
    requires NearestEven(v, a) && NearestEven(v, b)
    ensures a == b
  {
    hide *;
    NearestFinite(v, a);
    NearestFinite(v, b);
    if v > 0 {
      PositiveUnique(v, a, b);
    } else if v < 0 {
      PositiveIsNearest(v, a);
      PositiveIsNearest(v, b);
      PositiveUnique(0 - v, Negated(a), Negated(b));
      NegatedSteps(a);
      NegatedSteps(b);
    }
  }

  /** Rounding is monotone. */
  lemma RoundingMonotone(v: int, w: int, a: nat, b: nat)
    requires v <= w && NearestEven(v, a) && NearestEven(w, b)
    ensures Steps(a) <= Steps(b)
  {
    if v == w {
      NearestEvenUnique(v, a, b);
    } else {
      ScaledOrder(v, w);
      hide Steps, Scaled;
      assert Distance(a, v) <= Distance(b, v) && Distance(b, w) <= Distance(a, w);
    }
  }

  /** Integers up to 2^53 in magnitude are converted exactly. */
  lemma RoundingExact(v: int, r: nat)
    requires NearestEven(v, r) && Abs(v) <= 2 * HIDDEN
    ensures Steps(r) == Scaled(v)
  {
    if v == 0 {
      PositiveSteps(0);
    } else {
      var top := TopOf(Abs(v));
      var exact := ExactBits(Abs(v), top);
      NegatedSteps(exact);
      ScaledOrder(v, v);
      hide Steps, Scaled, Negated;
      assert Distance(r, v) <= Distance(if v < 0 then Negated(exact) else exact, v);
    }
  }

  lemma ExactBits(m: nat, top: nat) returns (bits: nat)
    requires TopBit(m, top) && 0 < m <= 2 * HIDDEN
    ensures IsFinite(bits) && Steps(bits) == Scaled(m)
  {
    hide *;
    SmallTop(m, top);
    if top == 53 {
      bits := 1075 * HIDDEN + HIDDEN;
      FieldsMagnitude(1076, HIDDEN);
      FieldsFit(53, HIDDEN);
      NextUnit();
    } else {
      SmallIsExact(m, top);
      bits := (top + 1022) * HIDDEN + m * Pow2(52 - top);
      FieldsFit(top, m * Pow2(52 - top));
    }
    ScaledIs(m);
    FiniteBelow(bits);
  }

  lemma FieldsFit(top: nat, s: nat)
    requires top <= 53 && s < 2 * HIDDEN
    ensures (top + 1022) * HIDDEN + s < EXPONENT_MASK
  {
  }

  lemma SmallTop(m: nat, top: nat)
    requires TopBit(m, top) && 0 < m <= 2 * HIDDEN
    ensures top <= 53 && (top == 53 ==> m == 2 * HIDDEN)
  {
    Powers();
    Pow2Sum(1, 53);
    assert top > 53 ==> Pow2(top) >= Pow2(54) by {
      if top > 53 { Pow2Grows(54, top); }
    }
  }

  lemma NextUnit()
    ensures Pow2(1075) == 2 * Unit() && HIDDEN * Pow2(1075) == 2 * HIDDEN * Unit()
  {
    Pow2Sum(1, 1074);
  }
}
