/** The arbitrary-precision number engine, seen only through the operations
    the formatters use. A value is NaN, a signed infinity or an exact real;
    the engine's (sign, layer, magnitude) encoding and its floating-point
    rounding are not modelled. What cannot be computed exactly (the
    super-logarithm and 10 raised to a fractional power) is supplied as an
    `Engine` record whose only promise is `Lawful`. */
module Decimal {
  import opened Digits

  datatype Num = NaN | Inf(negative: bool) | Fin(x: real)

  /** The engine's `sign < 0` test: a number, not NaN, that is not at or
      above zero. */
  predicate IsNeg(v: Num): (r: bool)
    ensures r <==> v != NaN && !NumGte(v, Fin(0.0))
  {
    match v
    case NaN => false
    case Inf(neg) => neg
    case Fin(x) => x < 0.0
  }

  /** The engine's `neg()`. */
  function Negate(v: Num): (w: Num)
    ensures v.Fin? && v.x > 0.0 ==> IsNeg(w)
    ensures IsNeg(v) ==> !IsNeg(w) && w != NaN
  {
    match v
    case NaN => NaN
    case Inf(neg) => Inf(!neg)
    case Fin(x) => Fin(-x)
  }

  lemma {:induction false} NegateInvolution(v: Num)
    ensures Negate(Negate(v)) == v
  {
  }

  /** The engine's `gte(t)` against a plain number: the general comparison
      with t as a number, so false for NaN. */
  predicate Gte(v: Num, t: real): (r: bool)
    ensures r <==> NumGte(v, Fin(t))
    ensures v == NaN ==> !r
  {
    match v
    case NaN => false
    case Inf(neg) => !neg
    case Fin(x) => x >= t
  }

  /** The engine's `lte(t)` against a plain number: t at or above v, so
      false for NaN. */
  predicate Lte(v: Num, t: real): (r: bool)
    ensures r <==> NumGte(Fin(t), v)
    ensures v == NaN ==> !r
  {
    match v
    case NaN => false
    case Inf(neg) => neg
    case Fin(x) => x <= t
  }

  /** The engine's `gte` between two numbers: false when either is NaN;
      the infinities sit at the two ends. */
  predicate NumGte(a: Num, b: Num): (r: bool)
    ensures r ==> a != NaN && b != NaN
    ensures a.Fin? && b.Fin? ==> (r <==> a.x >= b.x)
    ensures b != NaN && a == Inf(false) ==> r
    ensures a != NaN && b == Inf(true) ==> r
  {
    match (a, b)
    case (NaN, _) => false
    case (_, NaN) => false
    case (Inf(na), Inf(nb)) => !na || nb
    case (Inf(na), Fin(_)) => !na
    case (Fin(_), Inf(nb)) => nb
    case (Fin(x), Fin(y)) => x >= y
  }

  /** Apart from NaN, `gte` is a total order: any two numbers compare one
      way or the other, both ways only when equal, and chains compose. */
  lemma {:induction false} NumGteOrder(a: Num, b: Num, c: Num)
    requires a != NaN && b != NaN && c != NaN
    ensures NumGte(a, b) || NumGte(b, a)
    ensures NumGte(a, b) && NumGte(b, a) ==> a == b
    ensures NumGte(a, b) && NumGte(b, c) ==> NumGte(a, c)
  {
  }

  /** Against a plain bound a number other than NaN is at or above it or at
      or below it, and both only when it equals the bound. */
  lemma {:induction false} GteLteTotal(v: Num, t: real)
    requires v != NaN
    ensures Gte(v, t) || Lte(v, t)
    ensures Gte(v, t) && Lte(v, t) <==> v == Fin(t)
  {
  }

  /** The engine's `sub(d)` with a plain number: NaN and the infinities
      absorb it. */
  function SubReal(v: Num, d: real): (w: Num)
    ensures w.Fin? <==> v.Fin?
    ensures v.Fin? ==> w.x + d == v.x
  {
    match v
    case NaN => NaN
    case Inf(neg) => Inf(neg)
    case Fin(x) => Fin(x - d)
  }

  /** The engine's `mag < t` test: `mag` is the absolute magnitude, and
      comparisons with a NaN magnitude are false. It holds exactly for a
      finite number strictly between -t and t. */
  predicate MagBelow(v: Num, t: real): (r: bool)
    ensures r <==> v.Fin? && !Gte(v, t) && !Lte(v, -t)
  {
    match v
    case NaN => false
    case Inf(_) => false
    case Fin(x) => Abs(x) < t
  }

  function Abs(x: real): (a: real)
    ensures a >= 0.0 && (a == x || a == -x)
  {
    if x < 0.0 then -x else x
  }

  /* ---------- decimal exponent of a positive real ---------- */

  lemma {:induction false} ShrinkingFloor(x: real)
    requires x >= 10.0
    ensures 1.0 <= x / 10.0 && (x / 10.0).Floor < x.Floor
  {
  }

  lemma {:induction false} ShrinkingInverse(x: real)
    requires 0.0 < x && x * 10.0 < 1.0
    ensures 0 <= (1.0 / (x * 10.0)).Floor < (1.0 / x).Floor
  {
    var y := 1.0 / x;
    assert y > 10.0;
    assert 1.0 / (x * 10.0) == y / 10.0;
  }

  /** floor(log10 x): the unique k with 10^k <= x < 10^(k+1). */
  function Log10Floor(x: real): (k: int)
    requires x > 0.0
    ensures Pow10(k) <= x < Pow10(k + 1)
    decreases if x >= 1.0 then 0 else 1, if x >= 1.0 then x.Floor else (1.0 / x).Floor
  {
    if x >= 10.0 then
      ShrinkingFloor(x);
      var k := Log10Floor(x / 10.0);
      Pow10Step(k, k + 1);
      Pow10Step(k + 1, k + 2);
      k + 1
    else if x >= 1.0 then
      Pow10Step(0, 1);
      0
    else
      Log10FloorBelowOne(x)
  }

  /** The case 0 < x < 1 of Log10Floor, one decade at a time. */
  function Log10FloorBelowOne(x: real): (k: int)
    requires 0.0 < x < 1.0
    ensures Pow10(k) <= x < Pow10(k + 1)
    decreases 1, (1.0 / x).Floor, 0
  {
    var k := if x * 10.0 < 1.0 then ShrinkingInverse(x); Log10Floor(x * 10.0) else Log10Floor(x * 10.0);
    Pow10Step(k - 1, k);
    Pow10Step(k, k + 1);
    k - 1
  }

  /** The exponent is determined by the bracket it places x in. */
  lemma {:induction false} Log10FloorUnique(x: real, k: int)
    requires x > 0.0 && Pow10(k) <= x < Pow10(k + 1)
    ensures Log10Floor(x) == k
  {
    var j := Log10Floor(x);
    if j < k {
      Pow10Monotone(j + 1, k);
    } else if j > k {
      Pow10Monotone(k + 1, j);
    }
  }

  lemma {:induction false} DecadeQuotient(x: real, q: real, q10: real, m: real)
    requires q > 0.0 && q10 == 10.0 * q && q <= x < q10 && m == x / q
    ensures 1.0 <= m < 10.0 && m * q == x
  {
    DivMonotone(q, x, q);
    DivStrictMonotone(x, q10, q);
  }

  /** x / 10^floor(log10 x): the leading digit and the rest, in [1, 10). */
  function Mantissa(x: real): (m: real)
    requires x > 0.0
    ensures 1.0 <= m < 10.0
  {
    var e := Log10Floor(x);
    var q, q10 := Pow10(e), Pow10(e + 1);
    Pow10Step(e, e + 1);
    DecadeQuotient(x, q, q10, x / q);
    x / q
  }

  /** m * 10^e == x. Named so that the equation reaches callers as one
      fact rather than as a product the solver reopens. */
  predicate Scales(m: real, e: int, x: real) {
    m * Pow10(e) == x
  }

  /** The mantissa times the power of ten of the leading digit is x. */
  lemma {:induction false} MantissaScale(x: real)
    requires x > 0.0
    ensures Scales(Mantissa(x), Log10Floor(x), x)
  {
    QuotientScales(x, Log10Floor(x), Mantissa(x));
  }

  lemma {:induction false} QuotientScales(x: real, e: int, m: real)
    requires m == x / Pow10(e)
    ensures Scales(m, e, x)
  {
  }

  /** ceil(log10 x): the unique k with 10^(k-1) < x <= 10^k. */
  function Log10Ceil(x: real): (k: int)
    requires x > 0.0
    ensures Pow10(k - 1) < x <= Pow10(k)
  {
    var j := Log10Floor(x);
    if Pow10(j) == x then
      Pow10StrictMonotone(j - 1, j);
      j
    else
      j + 1
  }

  lemma {:induction false} Log10CeilUnique(x: real, k: int)
    requires x > 0.0 && Pow10(k - 1) < x <= Pow10(k)
    ensures Log10Ceil(x) == k
  {
    var j := Log10Ceil(x);
    if j < k {
      Pow10Monotone(j, k - 1);
    } else if j > k {
      Pow10Monotone(k, j - 1);
    }
  }

  /* ---------- order-of-magnitude inversion ---------- */

  lemma {:induction false} DivMonotone(a: real, b: real, q: real)
    requires q > 0.0 && a <= b
    ensures a / q <= b / q
  {
  }

  lemma {:induction false} DivStrictMonotone(a: real, b: real, q: real)
    requires q > 0.0 && a < b
    ensures a / q < b / q
  {
  }

  lemma {:induction false} MantissaRange(x: real, q: real, q1: real)
    requires q1 > 0.0 && q == 10.0 * q1 && q1 < x <= q
    ensures 0.1 < x / q <= 1.0
  {
    DivMonotone(x, q, q);
    DivStrictMonotone(q1, x, q);
    assert q1 / q == 0.1;
  }

  lemma {:induction false} MulMonotone(a: real, b: real, q: real)
    requires q > 0.0 && a <= b
    ensures q * a <= q * b && a * q <= b * q
  {
  }

  lemma {:induction false} MulStrictMonotone(a: real, b: real, q: real)
    requires q > 0.0 && a < b
    ensures q * a < q * b && a * q < b * q
  {
  }

  lemma {:induction false} Cancel(q: real, m: real)
    requires q > 0.0
    ensures (q * m) / q == m
  {
  }

  /** invertOOM as written: e = ceil(log10 x), m = x / 10^e (a mantissa in
      (0.1, 1]), result 10^(-e) * m. It negates the ceiling exponent, which
      for a non-power of ten is one above the exponent of the leading
      digit. */
  function InvertOOMAsWritten(x: real): (y: real)
    requires x > 0.0
    ensures y > 0.0
    ensures Log10Ceil(y) == -Log10Ceil(x)
    ensures CeilMantissa(y) == CeilMantissa(x)
  {
    var e := Log10Ceil(x);
    var m := CeilMantissa(x);
    var y := Pow10(-e) * m;
    ProductScales(m, -e, y);
    ScalesCeil(y, m, -e);
    y
  }

  /** x / 10^ceil(log10 x): the mantissa of the ceiling form, in (0.1, 1]. */
  function CeilMantissa(x: real): (m: real)
    requires x > 0.0
    ensures 0.1 < m <= 1.0
  {
    var e := Log10Ceil(x);
    Pow10Step(e - 1, e);
    MantissaRange(x, Pow10(e), Pow10(e - 1));
    x / Pow10(e)
  }

  /** A mantissa in (0.1, 1] at exponent e scales to a number whose ceiling
      exponent is e and whose ceiling mantissa is m. */
  lemma {:induction false} ScalesCeil(y: real, m: real, e: int)
    requires 0.1 < m <= 1.0 && Scales(m, e, y)
    ensures y > 0.0 && Log10Ceil(y) == e && CeilMantissa(y) == m
  {
    var r, r1 := Pow10(e), Pow10(e - 1);
    Pow10Step(e - 1, e);
    CeilBounds(m, r, r1, y);
    Log10CeilUnique(y, e);
  }

  lemma {:induction false} CeilBounds(m: real, r: real, r1: real, y: real)
    requires 0.1 < m <= 1.0 && r1 > 0.0 && r == 10.0 * r1 && m * r == y
    ensures r1 < y <= r && y / r == m
  {
    MulMonotone(m, 1.0, r);
    assert y <= 1.0 * r;
    MulStrictMonotone(0.1, m, r);
    assert 0.1 * r == r1;
    assert r1 < m * r;
    Cancel(r, m);
  }

  /** The ceiling form is still an involution. */
  lemma {:induction false} InvertOOMAsWrittenInvolution(x: real)
    requires x > 0.0
    ensures InvertOOMAsWritten(InvertOOMAsWritten(x)) == x
  {
    var z := InvertOOMAsWritten(InvertOOMAsWritten(x));
    QuotientScales(x, Log10Ceil(x), CeilMantissa(x));
    QuotientScales(z, Log10Ceil(z), CeilMantissa(z));
    ScalesUnique(CeilMantissa(x), Log10Ceil(x), x, z);
  }

  /** 5e-4 is sent to 5e2 rather than 5e4: the leading digit keeps its
      place but the exponent printed after inversion is 2, not 4. */
  lemma InvertOOMAsWrittenOffByTwo()
    ensures Log10Floor(0.0005) == -4
    ensures InvertOOMAsWritten(0.0005) == 500.0
    ensures Log10Floor(InvertOOMAsWritten(0.0005)) == 2
  {
    Log10FloorUnique(0.0005, -4);
    Log10CeilUnique(0.0005, -3);
    assert Pow10(3) == 1000.0;
    Log10FloorUnique(500.0, 2);
  }

  /** Below 0.001 the ceiling exponent is -3 or lower, so invertOOM as
      written sends x above 100. */
  lemma {:induction false} InvertOOMAsWrittenOfSmall(x: real)
    requires 0.0 < x < 0.001
    ensures Log10Ceil(x) <= -3
    ensures InvertOOMAsWritten(x) > 100.0
  {
    SmallExponent(x);
    CeilAboveFloor(x);
    var c := Log10Ceil(x);
    var y := InvertOOMAsWritten(x);
    assert Pow10(-c - 1) < y;
    Pow10Monotone(2, -c - 1);
    assert Pow10(2) == 100.0;
  }

  /** The ceiling exponent is the floor exponent or one above it. */
  lemma {:induction false} CeilAboveFloor(x: real)
    requires x > 0.0
    ensures Log10Ceil(x) == Log10Floor(x) || Log10Ceil(x) == Log10Floor(x) + 1
    ensures Pow10(Log10Floor(x)) != x ==> Log10Ceil(x) == Log10Floor(x) + 1
  {
  }

  /** For x that is not a power of ten, invertOOM as written keeps the
      mantissa and gives the leading digit the exponent -e-2, where e is
      x's own: two decades below the inverse's intended exponent -e. */
  lemma {:induction false} InvertOOMAsWrittenShift(x: real)
    requires x > 0.0 && Pow10(Log10Floor(x)) != x
    ensures Log10Floor(InvertOOMAsWritten(x)) == -Log10Floor(x) - 2
    ensures Mantissa(InvertOOMAsWritten(x)) == Mantissa(x)
  {
    var e, m := Log10Floor(x), Mantissa(x);
    CeilAboveFloor(x);
    var y := InvertOOMAsWritten(x);
    var mc := CeilMantissa(x);
    MantissaScale(x);
    QuotientScales(x, e + 1, mc);
    QuotientScales(y, Log10Ceil(y), CeilMantissa(y));
    ShiftScales(m, mc, e, x, y);
    ScalesMantissa(y, m, -e - 2);
  }

  lemma {:induction false} ShiftScales(m: real, mc: real, e: int, x: real, y: real)
    requires Scales(m, e, x) && Scales(mc, e + 1, x) && Scales(mc, -e - 1, y)
    ensures Scales(m, -e - 2, y)
  {
    var q, q1, r, r1 := Pow10(e), Pow10(e + 1), Pow10(-e - 2), Pow10(-e - 1);
    Pow10Step(e, e + 1);
    Pow10Step(-e - 2, -e - 1);
    ShiftedQuotient(m, mc, q, q1, r, r1, x, y);
  }

  lemma {:induction false} ShiftedQuotient(m: real, mc: real, q: real, q1: real, r: real, r1: real, x: real, y: real)
    requires q > 0.0 && q1 == 10.0 * q && r1 == 10.0 * r
    requires m * q == x && mc * q1 == x && mc * r1 == y
    ensures m * r == y
  {
    assert (mc * 10.0) * q == m * q;
    assert mc * 10.0 == m;
  }

  /** For a power of ten, invertOOM as written is exact: 10^k goes to
      10^-k. */
  lemma {:induction false} InvertOOMAsWrittenOfPower(k: int)
    ensures Log10Floor(Pow10(k)) == k && Mantissa(Pow10(k)) == 1.0
    ensures InvertOOMAsWritten(Pow10(k)) == Pow10(-k)
  {
    var x := Pow10(k);
    assert Scales(1.0, k, x);
    ScalesMantissa(x, 1.0, k);
    ScalesCeil(x, 1.0, k);
    var y := InvertOOMAsWritten(x);
    QuotientScales(y, Log10Ceil(y), CeilMantissa(y));
    assert Scales(1.0, -k, y);
  }

  /** A mantissa in [1, 10) and an exponent e determine the number they
      scale to: its leading digit sits at 10^e and its mantissa is m. */
  lemma {:induction false} ScalesMantissa(x: real, m: real, e: int)
    requires 1.0 <= m < 10.0 && Scales(m, e, x)
    ensures x > 0.0 && Log10Floor(x) == e && Mantissa(x) == m
  {
    var q, q10 := Pow10(e), Pow10(e + 1);
    Pow10Step(e, e + 1);
    ScaleBounds(m, q, q10, x);
    Log10FloorUnique(x, e);
    MantissaOfQuotient(x, e, m);
  }

  lemma {:induction false} ScaleBounds(m: real, q: real, q10: real, x: real)
    requires 1.0 <= m < 10.0 && q > 0.0 && q10 == 10.0 * q && m * q == x
    ensures q <= x < q10 && x / q == m
  {
    MulMonotone(1.0, m, q);
    MulStrictMonotone(m, 10.0, q);
  }

  /** invertOOM as intended: x = m * 10^e with 1 <= m < 10 becomes
      m * 10^(-e), so the leading digits stay and the exponent of the
      leading digit changes sign. */
  function InvertOOM(x: real): (y: real)
    requires x > 0.0
    ensures y > 0.0
    ensures Log10Floor(y) == -Log10Floor(x)
    ensures Mantissa(y) == Mantissa(x)
  {
    var e := Log10Floor(x);
    var m := Mantissa(x);
    var y := Pow10(-e) * m;
    ProductScales(m, -e, y);
    ScalesMantissa(y, m, -e);
    y
  }

  lemma {:induction false} ProductScales(m: real, e: int, y: real)
    requires y == Pow10(e) * m
    ensures Scales(m, e, y)
  {
  }

  /** The mantissa is the quotient by the power of ten of the leading
      digit. */
  lemma {:induction false} MantissaOfQuotient(x: real, e: int, m: real)
    requires x > 0.0 && Log10Floor(x) == e && x / Pow10(e) == m
    ensures Mantissa(x) == m
  {
  }

  /** A positive number is determined by its leading-digit exponent and
      its mantissa. */
  lemma {:induction false} MantissaDetermines(x: real, z: real)
    requires x > 0.0 && z > 0.0
    requires Log10Floor(x) == Log10Floor(z) && Mantissa(x) == Mantissa(z)
    ensures x == z
  {
    MantissaScale(x);
    MantissaScale(z);
    ScalesUnique(Mantissa(x), Log10Floor(x), x, z);
  }

  lemma {:induction false} ScalesUnique(m: real, e: int, x: real, z: real)
    requires Scales(m, e, x) && Scales(m, e, z)
    ensures x == z
  {
  }

  /** Inverting twice gives the value back. */
  lemma {:induction false} InvertOOMInvolution(x: real)
    requires x > 0.0
    ensures InvertOOM(InvertOOM(x)) == x
  {
    MantissaDetermines(InvertOOM(InvertOOM(x)), x);
  }

  /** 5e-4 is sent to 5e4. */
  lemma InvertOOMExample()
    ensures InvertOOM(0.0005) == 50000.0
  {
    Log10FloorUnique(0.0005, -4);
    assert Pow10(-4) == 0.0001;
    assert Pow10(4) == 10000.0;
  }

  /** Below 0.001 the leading digit sits at 10^-4 or lower. */
  lemma {:induction false} SmallExponent(x: real)
    requires 0.0 < x < 0.001
    ensures Log10Floor(x) <= -4
  {
    var e := Log10Floor(x);
    if e > -4 {
      assert Pow10(-3) == 0.001;
      Pow10Monotone(-3, e);
      assert false;
    }
  }

  /** A number whose leading digit sits at 10^-3 or lower inverts to at
      least 1000. */
  lemma {:induction false} InvertOOMOfSmall(x: real)
    requires x > 0.0 && Log10Floor(x) <= -3
    ensures InvertOOM(x) >= 1000.0
    ensures Log10Floor(InvertOOM(x)) >= 3
  {
    var e := Log10Floor(x);
    Pow10Monotone(3, -e);
    assert Pow10(3) == 1000.0;
  }

  /* ---------- the parts of the engine that stay abstract ---------- */

  /** `slog`: the super-logarithm; `pow10`: 10 raised to a real power. */
  datatype Engine = Engine(slog: real -> real, pow10: real -> real)

  /** What the formatters rely on: at or above 1 the super-logarithm is
      non-negative and at least 1 below its argument (true of slog, which
      is at most log10 there). */
  ghost predicate Lawful(eng: Engine) {
    forall x: real :: x >= 1.0 ==> 0.0 <= eng.slog(x) <= x - 1.0
  }
}
