/** The display formatters of `src/util/break_eternity.ts`: commaFormat,
    regularFormat, exponentialFormat, format, formatWhole, toPlaces and
    formatSmall. The two `modInfo` settings they read are passed as a
    `Config`; the engine's super-logarithm and fractional power of ten are
    passed as an `Engine`. */
module BreakEternity {
  import opened Digits
  import opened Decimal
  import opened Fixed
  import opened Grouping

  datatype Option<T> = None | Some(value: T)

  /** `modInfo.defaultDecimalsShown` and `modInfo.allowSmall`. */
  datatype Config = Config(defaultDecimalsShown: nat, allowSmall: bool)

  /** Which reading of break_eternity.ts the formatters follow: the code
      as written, or the code with two defects corrected — exponentialFormat
      rolls its mantissa over whenever it renders as 10 at the places asked
      for, and formatSmall's path inverts with the exponent of the leading
      digit rather than the ceiling of log10. */
  datatype Variant = AsWritten | Corrected

  /** `Math.max` on precisions. */
  function Max(a: nat, b: nat): (c: nat)
    ensures c >= a && c >= b && (c == a || c == b)
  {
    if a >= b then a else b
  }

  /* ---------- thresholds of format ---------- */

  const Thousand: real := 1000.0
  const Billion: real := 1000000000.0
  /** "1e1000" */
  const E1000: real := Pow10Nat(1000) as real
  /** "1e100000" */
  const E100000: real := Pow10Nat(100000) as real
  /** "eeee1000", that is 10^10^10^10^1000. */
  const Tower: real := Pow10Nat(Pow10Nat(Pow10Nat(Pow10Nat(1000)))) as real

  lemma Pow10NatStrict(a: nat, b: nat)
    requires a < b
    ensures Pow10Nat(a) < Pow10Nat(b)
  {
    Pow10NatMonotone(a + 1, b);
  }

  /** The thresholds of format increase, so each bracket of the chain is an
      interval. */
  lemma ThresholdOrder()
    ensures 0.001 < Thousand < Billion < E1000 < E100000 < Tower
  {
    BillionBelowE1000();
    Pow10NatStrict(1000, 100000);
    TowerAboveE100000();
  }

  lemma BillionBelowE1000()
    ensures Billion < E1000
  {
    Pow10NatStrict(9, 1000);
    assert Pow10Nat(9) == 1000000000;
  }

  lemma TowerAboveE100000()
    ensures E100000 < Tower
  {
    assert Pow10Nat(5) == 100000;
    FourLevels(1000, 100000);
  }

  /** 10^k < 10^10^10^10^n once k <= 10^5 <= 10^n. */
  lemma {:induction false} FourLevels(n: nat, k: nat)
    requires 5 <= n && k <= Pow10Nat(5)
    ensures Pow10Nat(k) < Pow10Nat(Pow10Nat(Pow10Nat(Pow10Nat(n))))
  {
    var a := Pow10Nat(n);
    var b := Pow10Nat(a);
    var c := Pow10Nat(b);
    Pow10NatMonotone(5, n);
    Pow10NatAbove(a);
    Pow10NatAbove(b);
    Pow10NatStrict(k, c);
  }

  /* ---------- commaFormat and regularFormat ---------- */

  /** commaFormat: null or undefined gives "NaN"; a magnitude below 0.001
      gives the zero of that many places; otherwise the rendering at p
      places with the integer part grouped by threes. */
  function CommaFormat(src: Option<Num>, p: nat): (s: string)
    ensures |s| > 0
  {
    match src
    case None => "NaN"
    case Some(v) =>
      if MagBelow(v, 0.001) then ZeroFixed(p) else GroupIntegerPart(ToFixed(v, p))
  }

  /** The tail of commaFormat: split at the dots, group the first piece,
      and put the second piece back after a '.' if there is one. */
  function GroupIntegerPart(init: string): (s: string)
    ensures |init| > 0 ==> |s| > 0
  {
    var portions := SplitDots(init);
    var head := Group(portions[0]);
    if |portions| == 1 then
      JoinSplit(init);
      head
    else head + "." + portions[1]
  }

  /** The precision regularFormat renders with: raised to at least 4 and to
      the configured default when the magnitude is below 0.1 and the
      precision asked for is not 0. */
  function RegularPlaces(v: Num, p: nat, cfg: Config): (q: nat)
    ensures q >= p
    ensures !(MagBelow(v, 0.1) && p != 0) ==> q == p
    ensures MagBelow(v, 0.1) && p != 0 ==>
      q >= 4 && q >= cfg.defaultDecimalsShown && (q == p || q == 4 || q == cfg.defaultDecimalsShown)
  {
    if MagBelow(v, 0.1) && p != 0 then Max(Max(p, 4), cfg.defaultDecimalsShown) else p
  }

  /** regularFormat: null or undefined gives "NaN"; a magnitude below 0.0001
      gives the zero of p places; otherwise the rendering at the (possibly
      raised) precision. */
  function RegularFormat(src: Option<Num>, p: nat, cfg: Config): (s: string)
    ensures |s| > 0
  {
    match src
    case None => "NaN"
    case Some(v) =>
      if MagBelow(v, 0.0001) then ZeroFixed(p) else ToFixed(v, RegularPlaces(v, p, cfg))
  }

  /* ---------- exponentialFormat ---------- */

  /** A mantissa and a decimal exponent. */
  datatype Sci = Sci(mantissa: real, exponent: int)

  /** The same mantissa with the sign of the exponent changed. */
  function Inverted(r: Sci): Sci {
    Sci(r.mantissa, -r.exponent)
  }

  /** exponentialFormat's rollover test as written: the mantissa is
      replaced by 1 and the exponent raised only when the mantissa renders
      as exactly "10", which a rendering with p > 0 places never does
      ("10.0", "10.00", ...; see RolloverAsWritten). */
  function SplitExponentAsWritten(x: real, p: nat): (r: Sci)
    requires x > 0.0
    ensures 1.0 <= r.mantissa < 10.0
    ensures r.exponent == Log10Floor(x) || r.exponent == Log10Floor(x) + 1
    ensures ToFixed(Fin(Mantissa(x)), p) == "10" <==> r == Sci(1.0, Log10Floor(x) + 1)
    ensures ToFixed(Fin(Mantissa(x)), p) != "10" <==> r == Sci(Mantissa(x), Log10Floor(x))
  {
    var e := Log10Floor(x);
    var m := Mantissa(x);
    if ToFixed(Fin(m), p) == "10" then Sci(1.0, e + 1) else Sci(m, e)
  }

  lemma {:induction false} RolloverValue(one: real, ten: real, q: real, q10: real)
    requires one == 1.0 && ten == 10.0 && q10 == 10.0 * q
    ensures one * q10 == ten * q
  {
  }

  /** exponentialFormat's rollover test as intended: the mantissa rolls
      over whenever it renders as 10 at the precision asked for. The
      mantissa shown is then in [1, 10), and the rollover does not change
      the number displayed. */
  function SplitExponent(x: real, p: nat): (r: Sci)
    requires x > 0.0
    ensures 1.0 <= r.mantissa < 10.0
    ensures 1.0 <= Rounded(r.mantissa, p) < 10.0
    ensures r.exponent == Log10Floor(x) || r.exponent == Log10Floor(x) + 1
  {
    var e := Log10Floor(x);
    var m := Mantissa(x);
    RolloverTest(m, p);
    if ToFixed(Fin(m), p) == ToFixed(Fin(10.0), p) then Sci(1.0, e + 1) else Sci(m, e)
  }

  /** The corrected rollover test: a mantissa in [1, 10) renders as 10
      exactly when it rounds to 10, and otherwise rounds into [1, 10). */
  lemma {:induction false} RolloverTest(m: real, p: nat)
    requires 1.0 <= m < 10.0
    ensures ToFixed(Fin(m), p) == ToFixed(Fin(10.0), p) <==> Rounded(m, p) == 10.0
    ensures 1.0 <= Rounded(m, p) <= 10.0
    ensures Rounded(1.0, p) == 1.0
  {
    MantissaRounding(m, p);
    RoundedOfNat(1, p);
    RoundedOfNat(10, p);
    SameText(m, 10.0, p);
  }

  /** The test as written fires exactly when no places are asked for and
      the mantissa rounds to 10: with places, a rendering is longer than
      "10". */
  lemma {:induction false} RolloverAsWritten(m: real, p: nat)
    requires 1.0 <= m < 10.0
    ensures ToFixed(Fin(m), p) == "10" <==> p == 0 && Rounded(m, p) == 10.0
  {
    if p == 0 {
      RolloverTest(m, 0);
      TenAtNoPlaces();
    } else {
      var s := ToFixed(Fin(m), p);
      assert IsFixedText(s, p) && |s| >= 3;
    }
  }

  lemma TenAtNoPlaces()
    ensures ToFixed(Fin(10.0), 0) == "10"
  {
    ScaledWhole(10);
    assert NatDigits(10) == NatDigits(1) + [DigitChar(0)];
  }

  /** exponentialFormat's split in either reading. */
  function Split(variant: Variant, x: real, p: nat): (r: Sci)
    requires x > 0.0
    ensures 1.0 <= r.mantissa < 10.0
    ensures r.exponent == Log10Floor(x) || r.exponent == Log10Floor(x) + 1
  {
    match variant
    case AsWritten => SplitExponentAsWritten(x, p)
    case Corrected => SplitExponent(x, p)
  }

  /** The two readings split alike when no places are asked for; with
      places the split as written never rolls over. */
  lemma {:induction false} SplitsAgree(x: real, p: nat)
    requires x > 0.0
    ensures p == 0 ==> Split(AsWritten, x, p) == Split(Corrected, x, p)
    ensures p > 0 ==> Split(AsWritten, x, p) == Sci(Mantissa(x), Log10Floor(x))
  {
    RolloverAsWritten(Mantissa(x), p);
    RolloverTest(Mantissa(x), p);
    if p == 0 {
      TenAtNoPlaces();
    }
  }

  /** When the mantissa does not round up to 10 the split is x's own
      mantissa and exponent. */
  lemma {:induction false} SplitWithoutRollover(x: real, p: nat)
    requires x > 0.0 && Rounded(Mantissa(x), p) < 10.0
    ensures SplitExponent(x, p) == Sci(Mantissa(x), Log10Floor(x))
  {
    RolloverTest(Mantissa(x), p);
  }

  /** "M" + "e" + "K": the mantissa at p places and the whole exponent,
      as exponentialFormat writes them for an exponent below 10000. */
  function SciText(r: Sci, p: nat): string {
    ToFixed(Fin(r.mantissa), p) + "e" + ToFixed(Fin(r.exponent as real), 0)
  }

  /** The number a mantissa and exponent display at p places. */
  function Shown(r: Sci, p: nat): real {
    Rounded(r.mantissa, p) * Pow10(r.exponent)
  }

  /** Rolling over, in either reading, does not change the number
      displayed. */
  lemma {:induction false} RolloverKeepsValue(variant: Variant, x: real, p: nat)
    requires x > 0.0
    ensures Shown(Split(variant, x, p), p) == Shown(Sci(Mantissa(x), Log10Floor(x)), p)
  {
    SplitsAgree(x, p);
    CorrectedKeepsValue(x, p);
  }

  lemma {:induction false} CorrectedKeepsValue(x: real, p: nat)
    requires x > 0.0
    ensures Shown(SplitExponent(x, p), p) == Shown(Sci(Mantissa(x), Log10Floor(x)), p)
  {
    var e := Log10Floor(x);
    var m := Mantissa(x);
    RolloverTest(m, p);
    if Rounded(m, p) == 10.0 {
      assert SplitExponent(x, p) == Sci(1.0, e + 1);
      RolloverShown(m, e, p);
    } else {
      assert SplitExponent(x, p) == Sci(m, e);
    }
  }

  lemma {:induction false} RolloverShown(m: real, e: int, p: nat)
    requires Rounded(m, p) == 10.0 && Rounded(1.0, p) == 1.0
    ensures Shown(Sci(1.0, e + 1), p) == Shown(Sci(m, e), p)
  {
    Pow10Step(e, e + 1);
    var a, c, q, q10 := Rounded(1.0, p), Rounded(m, p), Pow10(e), Pow10(e + 1);
    ShownOf(Sci(1.0, e + 1), p, a, q10);
    ShownOf(Sci(m, e), p, c, q);
    RolloverValue(a, c, q, q10);
  }

  lemma {:induction false} ShownOf(r: Sci, p: nat, c: real, q: real)
    requires c == Rounded(r.mantissa, p) && q == Pow10(r.exponent)
    ensures Shown(r, p) == c * q
  {
  }

  /** The number a mantissa in [1, 10) and an exponent stand for: its
      leading digit sits at 10^exponent and its mantissa is the one given. */
  function SciValue(r: Sci): (y: real)
    requires 1.0 <= r.mantissa < 10.0
    ensures y > 0.0 && Log10Floor(y) == r.exponent && Mantissa(y) == r.mantissa
  {
    var y := Pow10(r.exponent) * r.mantissa;
    ProductScales(r.mantissa, r.exponent, y);
    ScalesMantissa(y, r.mantissa, r.exponent);
    y
  }

  /** The number the small path of format inverts x to. As written: the
      ceiling-based invertOOM of x itself. Corrected: the floor-based
      inverse of x rolled over (RolledOver), so that the text shows x's
      own mantissa and exponent. Either way it is above 100, hence not
      small. */
  function InvertSmall(variant: Variant, x: real, p: nat): (y: real)
    requires 0.0 < x < 0.001
    ensures y > 100.0
  {
    match variant
    case AsWritten =>
      InvertOOMAsWrittenOfSmall(x);
      InvertOOMAsWritten(x)
    case Corrected =>
      SmallExponent(x);
      var r := RolledOver(x, p);
      InvertOOMOfSmall(r);
      InvertOOM(r)
  }

  /** x with its mantissa rolled over as SplitExponent rolls it at p
      places: x itself, or the power of ten it shows as. */
  function RolledOver(x: real, p: nat): (y: real)
    requires x > 0.0
    ensures y > 0.0
    ensures Log10Floor(y) == SplitExponent(x, p).exponent
    ensures Mantissa(y) == SplitExponent(x, p).mantissa
  {
    SciValue(SplitExponent(x, p))
  }

  /** The rank that orders the small-number path before everything else in
      the termination argument of format. */
  function SmallRank(v: Num): nat {
    if v.Fin? && 0.0 < Abs(v.x) < 0.001 then 1 else 0
  }

  /** The whole part of the magnitude: what the exponent and
      super-logarithm recursions decrease. */
  function Magnitude(v: Num): nat {
    if v.Fin? then Abs(v.x).Floor else 0
  }

  lemma {:induction false} SuccBelowPow(e: nat)
    requires e >= 1
    ensures e + 1 < Pow10Nat(e)
  {
    Pow10NatAbove(e - 1);
  }

  /** An exponent of at least 10^9 is far below the number it came from. */
  lemma {:induction false} ExponentDecreases(x: real, e: int)
    requires x > 0.0 && e >= 1000000000
    requires e == Log10Floor(x) || e == Log10Floor(x) + 1
    ensures SmallRank(Fin(x)) == 0 && SmallRank(Fin(e as real)) == 0
    ensures Magnitude(Fin(e as real)) < Magnitude(Fin(x))
  {
    var k := Log10Floor(x);
    var n: nat := k;
    Pow10OfNat(n);
    SuccBelowPow(n);
    assert Pow10Nat(n) as real <= x;
  }

  /** Negating a negative number keeps both measures and removes the sign. */
  lemma {:induction false} NegateMeasure(v: Num)
    requires IsNeg(v)
    ensures !IsNeg(Negate(v))
    ensures SmallRank(Negate(v)) == SmallRank(v) && Magnitude(Negate(v)) == Magnitude(v)
  {
    if v.Fin? {
      assert Abs(-v.x) == Abs(v.x);
    }
  }

  /** The inverse of a small number is not small. */
  lemma {:induction false} LeavesSmall(x: real, y: real)
    requires 0.0 < x < 0.001 && y >= 0.001
    ensures SmallRank(Fin(y)) < SmallRank(Fin(x))
  {
  }

  /** exponentialFormat, with the rollover of the variant's Split. The
      exponent is written by format when it reaches 10^9, grouped by
      commaFormat from 10000, and plainly below that. */
  function ExponentialFormat(variant: Variant, eng: Engine, cfg: Config, x: real, p: nat, mantissa: bool): (s: string)
    requires Lawful(eng)
    requires x > 0.0
    ensures |s| > 0
    decreases SmallRank(Fin(x)), Magnitude(Fin(x)), 1
  {
    var r := Split(variant, x, p);
    var e := r.exponent;
    var eString :=
      if e >= 1000000000 then
        ExponentDecreases(x, e);
        Format(variant, eng, cfg, Fin(e as real), Some(Max(Max(p, 3), cfg.defaultDecimalsShown)), false)
      else if e >= 10000 then CommaFormat(Some(Fin(e as real)), 0)
      else ToFixed(Fin(e as real), 0);
    if mantissa then ToFixed(Fin(r.mantissa), p) + "e" + eString else "e" + eString
  }

  /* ---------- format ---------- */

  /** Which branch of format's if-chain a number takes. */
  datatype Bracket =
    | NotANumber | Negative | Infinite
    | Tetration          // at least eeee1000: "F" notation
    | ExponentOnly       // at least 1e100000: "e" and the exponent
    | WholeMantissa      // at least 1e1000: mantissa without places
    | FullMantissa       // at least 1e9: mantissa at the precision
    | Commas             // at least 1000: grouped whole number
    | Regular            // at least 0.001, or small numbers not wanted
    | Zero
    | Small              // below 0.001 and small numbers wanted

  /** The chain of tests of format, first match wins. */
  function Classify(v: Num, small: bool): (b: Bracket)
    ensures b == NotANumber <==> v.NaN?
    ensures b == Negative <==> IsNeg(v)
    ensures b == Infinite <==> v == Inf(false)
    ensures b == Tetration <==> v.Fin? && v.x >= Tower
    ensures b == ExponentOnly <==> v.Fin? && E100000 <= v.x < Tower
    ensures b == WholeMantissa <==> v.Fin? && E1000 <= v.x < E100000
    ensures b == FullMantissa <==> v.Fin? && Billion <= v.x < E1000
    ensures b == Commas <==> v.Fin? && Thousand <= v.x < Billion
    ensures b == Regular <==> v.Fin? && 0.0 <= v.x < Thousand && (v.x >= 0.001 || !small)
    ensures b == Zero <==> v.Fin? && v.x == 0.0 && small
    ensures b == Small <==> v.Fin? && 0.0 < v.x < 0.001 && small
  {
    ThresholdOrder();
    if v.NaN? then NotANumber
    else if IsNeg(v) then Negative
    else if v.Inf? then Infinite
    else ClassifyFinite(v.x, small)
  }

  /** The tests of format's chain that a finite, non-negative number
      reaches. */
  function ClassifyFinite(x: real, small: bool): (b: Bracket)
    requires x >= 0.0
    ensures b !in {NotANumber, Negative, Infinite}
    ensures b == Tetration <==> x >= Tower
    ensures b == ExponentOnly <==> E100000 <= x < Tower
    ensures b == WholeMantissa <==> E1000 <= x < E100000
    ensures b == FullMantissa <==> Billion <= x < E1000
    ensures b == Commas <==> Thousand <= x < Billion
    ensures b == Regular <==> x < Thousand && (x >= 0.001 || !small)
    ensures b == Zero <==> x == 0.0 && small
    ensures b == Small <==> 0.0 < x < 0.001 && small
  {
    ThresholdOrder();
    if x >= Tower then Tetration
    else if x >= E100000 then ExponentOnly
    else if x >= E1000 then WholeMantissa
    else if x >= Billion then FullMantissa
    else if x >= Thousand then Commas
    else if x >= 0.001 || !small then Regular
    else if x == 0.0 then Zero
    else Small
  }

  /** The super-logarithm of a number past eeee1000 is a smaller whole
      number. */
  lemma {:induction false} SlogDecreases(eng: Engine, x: real)
    requires Lawful(eng) && x >= 1.0
    ensures 0 <= eng.slog(x).Floor
    ensures SmallRank(Fin(eng.slog(x).Floor as real)) <= SmallRank(Fin(x))
    ensures Magnitude(Fin(eng.slog(x).Floor as real)) < Magnitude(Fin(x))
  {
    assert 0.0 <= eng.slog(x) <= x - 1.0;
  }

  lemma TowerAboveOne()
    ensures Tower >= 1.0
  {
  }

  /** "⁻¹", written after the small-number form of a number below
      1e-1000. */
  const Reciprocal: string := "\U{207B}\U{00B9}"

  /** The last position right after one of the characters of the class
      `[(?:e|F)]`, or 0. */
  predicate IsExponentMark(c: char) {
    c == '(' || c == '?' || c == ':' || c == 'e' || c == '|' || c == 'F' || c == ')'
  }

  function MarkEnd(s: string): (i: nat)
    ensures i <= |s|
    ensures forall j :: i <= j < |s| ==> !IsExponentMark(s[j])
    ensures i > 0 ==> IsExponentMark(s[i - 1])
  {
    if |s| == 0 then 0
    else if IsExponentMark(s[|s| - 1]) then |s|
    else MarkEnd(s[..|s| - 1])
  }

  /** `s.replace(/([^(?:e|F)]*)$/, "-$1")`: the first place from which the
      rest of s has none of the class's characters is right after the last
      of them, and a '-' is put there. */
  function NegateExponent(s: string): (t: string)
    ensures |t| == |s| + 1
  {
    var i := MarkEnd(s);
    s[..i] + "-" + s[i..]
  }

  /** The precision format renders with: the one given, or the configured
      default when none is. */
  function Places(cfg: Config, precision: Option<nat>): (p: nat)
    ensures precision.Some? ==> p == precision.value
    ensures precision.None? ==> p == cfg.defaultDecimalsShown
  {
    if precision.None? then cfg.defaultDecimalsShown else precision.value
  }

  /** format: a missing precision means the configured default and
      `small` is or-ed with the configured allowSmall; the chain of tests
      is FormatAt. */
  function Format(variant: Variant, eng: Engine, cfg: Config, v: Num, precision: Option<nat>, small: bool): (s: string)
    requires Lawful(eng)
    ensures |s| > 0
    decreases SmallRank(v), Magnitude(v), if IsNeg(v) then 5 else 3
  {
    FormatAt(variant, eng, cfg, v, Places(cfg, precision), small || cfg.allowSmall)
  }

  /** format's chain at the precision p, with `small` already resolved.
      The negative branch passes the precision on but not `small`, as
      break_eternity.ts does. The small path is FormatInverse. */
  function FormatAt(variant: Variant, eng: Engine, cfg: Config, v: Num, p: nat, small: bool): (s: string)
    requires Lawful(eng)
    ensures |s| > 0
    decreases SmallRank(v), Magnitude(v), if IsNeg(v) then 4 else 2
  {
    match Classify(v, small)
    case NotANumber => "NaN"
    case Negative =>
      NegateMeasure(v);
      "-" + Format(variant, eng, cfg, Negate(v), Some(p), false)
    case Infinite => "Infinity"
    case Tetration => FormatTower(variant, eng, cfg, v.x)
    case ExponentOnly => ExponentialFormat(variant, eng, cfg, v.x, 0, false)
    case WholeMantissa => ExponentialFormat(variant, eng, cfg, v.x, 0, true)
    case FullMantissa => ExponentialFormat(variant, eng, cfg, v.x, p, true)
    case Commas => CommaFormat(Some(v), 0)
    case Regular => RegularFormat(Some(v), p, cfg)
    case Zero => ZeroFixed(p)
    case Small => FormatInverse(variant, eng, cfg, v.x, p)
  }

  /** The small path of format for x in (0, 0.001): the exponential form
      of the variant's inverse (InvertSmall) with the exponent's sign
      changed, or, from 1e1000 up, the format of the inverse followed by
      "⁻¹". */
  function FormatInverse(variant: Variant, eng: Engine, cfg: Config, x: real, p: nat): (s: string)
    requires Lawful(eng) && 0.0 < x < 0.001
    ensures |s| > 0
    decreases SmallRank(Fin(x)), Magnitude(Fin(x)), 1
  {
    var inv := InvertSmall(variant, x, p);
    LeavesSmall(x, inv);
    if inv < E1000 then NegateExponent(ExponentialFormat(variant, eng, cfg, inv, p, true))
    else Format(variant, eng, cfg, Fin(inv), Some(p), false) + Reciprocal
  }

  /** The "F" notation from eeee1000 up: "F" and the format of the whole
      super-logarithm from 10^6 up, otherwise 10 to its fractional part at
      3 places, "F" and its whole part grouped. */
  function FormatTower(variant: Variant, eng: Engine, cfg: Config, x: real): (s: string)
    requires Lawful(eng) && x >= Tower
    ensures |s| > 0
    decreases SmallRank(Fin(x)), Magnitude(Fin(x)), 1
  {
    var slog := eng.slog(x);
    var whole := slog.Floor;
    TowerAboveOne();
    SlogDecreases(eng, x);
    if slog >= 1000000.0 then "F" + Format(variant, eng, cfg, Fin(whole as real), None, false)
    else TowerText(eng, slog)
  }

  /** Below a super-logarithm of 10^6: 10 to its fractional part at 3
      places, "F", and its whole part grouped. */
  function TowerText(eng: Engine, slog: real): (s: string)
    ensures |s| > 0
  {
    var whole := slog.Floor;
    ToFixed(Fin(eng.pow10(slog - whole as real)), 3) + "F" + CommaFormat(Some(Fin(whole as real)), 0)
  }

  /** formatWhole: whole-number display, falling back to format's default
      precision for large numbers and for non-zero numbers up to 0.98. */
  function FormatWhole(variant: Variant, eng: Engine, cfg: Config, v: Num): (s: string)
    requires Lawful(eng)
    ensures |s| > 0
    decreases if IsNeg(v) then 1 else 0
  {
    if IsNeg(v) then "-" + FormatWhole(variant, eng, cfg, Negate(v))
    else if Gte(v, Billion) then Format(variant, eng, cfg, v, None, false)
    else if Lte(v, 0.98) && v != Fin(0.0) then Format(variant, eng, cfg, v, None, false)
    else Format(variant, eng, cfg, v, Some(0), false)
  }

  /** formatSmall: format with small numbers wanted. */
  function FormatSmall(variant: Variant, eng: Engine, cfg: Config, v: Num, precision: Option<nat>): (s: string)
    requires Lawful(eng)
    ensures |s| > 0
  {
    Format(variant, eng, cfg, v, precision, true)
  }

  /** toPlaces: the rendering at p places, unless it reads back at or above
      maxAccepted, in which case maxAccepted minus one unit of the last
      place is rendered instead. */
  function ToPlaces(x: Num, p: nat, maxAccepted: Num): (s: string)
    ensures |s| > 0
  {
    var result := ToFixed(x, p);
    if NumGte(ParseFixed(result), maxAccepted) then ToFixed(SubReal(maxAccepted, Pow10(-(p as int))), p)
    else result
  }
}
