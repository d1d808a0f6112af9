/** What the formatters promise, stated against independent definitions:
    the reference grouping, the reading of a rendering back into a number,
    and the intervals of format's chain. */
module Properties {
  import opened Digits
  import opened Decimal
  import opened Fixed
  import opened Grouping
  import opened BreakEternity

  /* ---------- commaFormat ---------- */

  /** On a text with no ',' and at most one '.', the grouping of the
      integer part loses nothing but the separators it adds. */
  lemma {:induction false} GroupIntegerPartRoundTrip(s: string)
    requires ',' !in s && AtMostOneDot(s)
    ensures RemoveCommas(GroupIntegerPart(s)) == s
  {
    if '.' !in s {
      SplitNoDot(s);
      UngroupRoundTrip(s);
    } else {
      var i := IndexOf(s, '.');
      var a, b := s[..i], s[i + 1..];
      forall k | 0 <= k < |b| ensures b[k] != '.' {
        assert b[k] == s[i + 1 + k];
      }
      assert s == a + "." + b;
      GroupAroundDot(a, b);
    }
  }

  lemma {:induction false} GroupAroundDot(a: string, b: string)
    requires ',' !in a && ',' !in b && '.' !in a && '.' !in b
    ensures RemoveCommas(GroupIntegerPart(a + "." + b)) == a + "." + b
  {
    GroupDotted(a, b);
    UngroupRoundTrip(a);
    RemoveCommasNone(b);
    RemoveCommasAppend(Group(a) + ".", b);
    RemoveCommasAppend(Group(a), ".");
  }

  lemma {:induction false} GroupDotted(a: string, b: string)
    requires '.' !in a && '.' !in b
    ensures GroupIntegerPart(a + "." + b) == Group(a) + "." + b
  {
    SplitOneDot(a, b);
  }

  /** commaFormat adds only separators to the rendering at p places, so
      deleting them reads back as x rounded to p places. */
  lemma {:induction false} CommaFormatReadsBack(x: real, p: nat)
    requires Abs(x) >= 0.001
    ensures RemoveCommas(CommaFormat(Some(Fin(x)), p)) == ToFixed(Fin(x), p)
    ensures ParseFixed(RemoveCommas(CommaFormat(Some(Fin(x)), p))) == Fin(Rounded(x, p))
  {
    var s := ToFixed(Fin(x), p);
    FixedTextShape(s, p);
    GroupIntegerPartRoundTrip(s);
    ParseToFixed(x, p);
  }

  /** The rendering of a non-negative x at 0 places is the numeral of x
      rounded half up. */
  lemma {:induction false} ToFixedWhole(x: real)
    requires x >= 0.0
    ensures ToFixed(Fin(x), 0) == NatDigits(ScaledDigits(x, 0))
  {
    ToFixedFin(x, 0);
    assert "" + NatDigits(ScaledDigits(x, 0)) == NatDigits(ScaledDigits(x, 0));
  }

  /** commaFormat at 0 places of a number from 0.001 up is the reference
      grouping of its rounded numeral. */
  lemma {:induction false} CommaFormatRounded(x: real)
    requires x >= 0.001
    ensures CommaFormat(Some(Fin(x)), 0) == RefGroup(NatDigits(ScaledDigits(x, 0)))
  {
    var d := NatDigits(ScaledDigits(x, 0));
    ToFixedWhole(x);
    NoCommaInDigits(d);
    SplitNoDot(d);
    GroupIsRefGroup(d);
  }

  /** commaFormat of a whole number at 0 places is the reference grouping
      of its numeral. */
  lemma {:induction false} CommaFormatWhole(n: nat)
    ensures CommaFormat(Some(Fin(n as real)), 0) == RefGroup(NatDigits(n))
  {
    if n > 0 {
      ScaledWhole(n);
      CommaFormatRounded(n as real);
    }
  }

  /** A rendering of a finite number is made of numeral characters, so it
      is never the word "NaN". */
  lemma {:induction false} FixedNotNaN(s: string, p: nat)
    requires IsFixedText(s, p)
    ensures s != "NaN"
  {
    FixedTextShape(s, p);
    assert IsNumeralChar(s[0]);
  }

  /** Grouping never turns a text without separators into "NaN" unless it
      already was "NaN". */
  lemma {:induction false} GroupNotNaN(s: string)
    requires ',' !in s && AtMostOneDot(s) && s != "NaN"
    ensures GroupIntegerPart(s) != "NaN"
  {
    GroupIntegerPartRoundTrip(s);
    RemoveCommasNone("NaN");
  }

  /** commaFormat writes "NaN" exactly for a missing input and for NaN. */
  lemma {:induction false} CommaFormatNaN(src: Option<Num>, p: nat)
    ensures CommaFormat(src, p) == "NaN" <==> src.None? || src == Some(NaN)
  {
    if src.Some? {
      match src.value
      case NaN => CommaOfNaN(p);
      case Inf(neg) => CommaOfInf(neg, p);
      case Fin(x) => CommaOfFin(x, p);
    }
  }

  lemma {:induction false} CommaOfNaN(p: nat)
    ensures CommaFormat(Some(NaN), p) == "NaN"
  {
    SplitNoDot("NaN");
    assert Group("NaN") == "NaN";
  }

  lemma {:induction false} CommaOfInf(neg: bool, p: nat)
    ensures CommaFormat(Some(Inf(neg)), p) != "NaN"
  {
    var t := ToFixed(Inf(neg), p);
    assert t == "Infinity" || t == "-Infinity";
    assert ',' !in t && AtMostOneDot(t);
    GroupNotNaN(t);
  }

  lemma {:induction false} CommaOfFin(x: real, p: nat)
    ensures CommaFormat(Some(Fin(x)), p) != "NaN"
  {
    if Abs(x) < 0.001 {
      FixedNotNaN(ZeroFixed(p), p);
    } else {
      var t := ToFixed(Fin(x), p);
      FixedNotNaN(t, p);
      FixedTextShape(t, p);
      GroupNotNaN(t);
    }
  }

  /** Below 0.001 in magnitude commaFormat shows a zero. */
  lemma {:induction false} CommaFormatBelowThousandth(x: real, p: nat)
    requires Abs(x) < 0.001
    ensures CommaFormat(Some(Fin(x)), p) == ZeroFixed(p)
    ensures ParseFixed(CommaFormat(Some(Fin(x)), p)) == Fin(0.0)
  {
    ParseToFixed(0.0, p);
    RoundedOfNat(0, p);
  }

  /* ---------- regularFormat ---------- */

  lemma {:induction false} HalfUnitBelow(q: real, b: real)
    requires q >= b > 0.0
    ensures 0.5 / q <= 0.5 / b
  {
  }

  /** regularFormat reads back as x rounded to the precision it chose;
      below 0.0001 it shows zero. */
  lemma {:induction false} RegularFormatReadsBack(x: real, p: nat, cfg: Config)
    ensures Abs(x) < 0.0001 ==> RegularFormat(Some(Fin(x)), p, cfg) == ZeroFixed(p)
    ensures Abs(x) < 0.0001 ==> ParseFixed(RegularFormat(Some(Fin(x)), p, cfg)) == Fin(0.0)
    ensures Abs(x) >= 0.0001 ==>
      ParseFixed(RegularFormat(Some(Fin(x)), p, cfg)) == Fin(Rounded(x, RegularPlaces(Fin(x), p, cfg)))
  {
    var q := RegularPlaces(Fin(x), p, cfg);
    if Abs(x) < 0.0001 {
      ParseToFixed(0.0, p);
      RoundedOfNat(0, p);
    } else {
      assert RegularFormat(Some(Fin(x)), p, cfg) == ToFixed(Fin(x), q);
      ParseToFixed(x, q);
    }
  }

  /** regularFormat writes "NaN" exactly for a missing input and for
      NaN. */
  lemma {:induction false} RegularFormatNaN(src: Option<Num>, p: nat, cfg: Config)
    ensures RegularFormat(src, p, cfg) == "NaN" <==> src.None? || src == Some(NaN)
  {
    match src
    case None =>
    case Some(v) =>
      if v.Fin? {
        var q := if MagBelow(v, 0.0001) then p else RegularPlaces(v, p, cfg);
        FixedNotNaN(ToFixed(v, q), q);
      }
  }

  lemma {:induction false} NonZeroNear(x: real, r: real, h: real)
    requires x - h <= r <= x + h && h < Abs(x)
    ensures r != 0.0
  {
  }

  /** Unless 0 places are asked for, the raised precision keeps every
      magnitude from 0.0001 up from showing as zero. */
  lemma {:induction false} RegularFormatNotZero(x: real, p: nat, cfg: Config)
    requires Abs(x) >= 0.0001 && p != 0
    ensures Rounded(x, RegularPlaces(Fin(x), p, cfg)) != 0.0
  {
    var q := RegularPlaces(Fin(x), p, cfg);
    var h := 0.5 / Pow10(q);
    RoundedNear(x, q);
    if Abs(x) < 0.1 {
      Pow10Monotone(4, q);
      assert Pow10(4) == 10000.0;
      HalfUnitBelow(Pow10(q), 10000.0);
    } else {
      Pow10Monotone(1, q);
      HalfUnitBelow(Pow10(q), 10.0);
    }
    NonZeroNear(x, Rounded(x, q), h);
  }

  /* ---------- exponentialFormat ---------- */

  /** The reading of "M" + "e" + "K" as M * 10^K, for a rendered mantissa
      M and a rendered whole exponent K; anything else is NaN. */
  function ReadScientific(s: string): Num {
    if 'e' in s then
      var i := IndexOf(s, 'e');
      Scale(ParseFixed(s[..i]), ParseFixed(s[i + 1..]))
    else NaN
  }

  /** m * 10^k for a finite m and a finite whole k. */
  function Scale(m: Num, k: Num): Num {
    if m.Fin? && k.Fin? && k.x == k.x.Floor as real then Fin(m.x * Pow10(k.x.Floor)) else NaN
  }

  /** A rendered mantissa and exponent, joined by 'e', read back as the
      number they show. */
  lemma {:induction false} ReadScientificOf(a: string, b: string, r: Sci, p: nat)
    requires 'e' !in a && ParseFixed(a) == Fin(Rounded(r.mantissa, p)) && ParseFixed(b) == Fin(r.exponent as real)
    ensures ReadScientific(a + "e" + b) == Fin(Shown(r, p))
  {
    var s := a + "e" + b;
    IndexOfAfter(a, 'e', b);
    var i := IndexOf(s, 'e');
    assert s[..i] == a && s[i + 1..] == b;
    assert ReadScientific(s) == Scale(ParseFixed(a), ParseFixed(b));
    ScaleShown(r, p);
  }

  lemma {:induction false} ScaleShown(r: Sci, p: nat)
    ensures Scale(Fin(Rounded(r.mantissa, p)), Fin(r.exponent as real)) == Fin(Shown(r, p))
  {
    var kr := r.exponent as real;
    assert kr.Floor == r.exponent;
  }

  /** A rendering is made of digits, '.' and '-', so it has no 'e' in it. */
  lemma {:induction false} NoMarkInFixed(x: real, p: nat)
    ensures 'e' !in ToFixed(Fin(x), p)
    ensures forall k :: 0 <= k < |ToFixed(Fin(x), p)| ==> !IsExponentMark(ToFixed(Fin(x), p)[k])
  {
    FixedTextShape(ToFixed(Fin(x), p), p);
  }

  /** The text of a split reads back as the number it shows. */
  lemma {:induction false} SciTextReadsBack(r: Sci, p: nat)
    ensures ReadScientific(SciText(r, p)) == Fin(Shown(r, p))
  {
    var a, b := ToFixed(Fin(r.mantissa), p), ToFixed(Fin(r.exponent as real), 0);
    NoMarkInFixed(r.mantissa, p);
    ParseToFixed(r.mantissa, p);
    ParseToFixed(r.exponent as real, 0);
    RoundedOfInt(r.exponent, 0);
    ReadScientificOf(a, b, r, p);
  }

  /** exponentialFormat with an exponent below 10000 reads back, in either
      reading, as the number its split shows: by RolloverKeepsValue, the
      mantissa of x rounded to p places times 10 to the exponent of x. */
  lemma {:induction false} ExponentialReadsBack(variant: Variant, eng: Engine, cfg: Config, x: real, p: nat)
    requires Lawful(eng) && x > 0.0
    requires Split(variant, x, p).exponent < 10000
    ensures ReadScientific(ExponentialFormat(variant, eng, cfg, x, p, true)) == Fin(Shown(Split(variant, x, p), p))
  {
    var r := Split(variant, x, p);
    assert ExponentialFormat(variant, eng, cfg, x, p, true) == SciText(r, p);
    SciTextReadsBack(r, p);
  }

  /** From 10^9 up the exponent is itself formatted, at no fewer than 3
      places and the configured default. */
  lemma {:induction false} ExponentFormatted(variant: Variant, eng: Engine, cfg: Config, x: real, p: nat, mantissa: bool)
    requires Lawful(eng) && x > 0.0
    requires Split(variant, x, p).exponent >= 1000000000
    ensures ExponentialFormat(variant, eng, cfg, x, p, mantissa) ==
      (if mantissa then ToFixed(Fin(Split(variant, x, p).mantissa), p) else "")
      + "e" + Format(variant, eng, cfg, Fin(Split(variant, x, p).exponent as real), Some(Max(Max(p, 3), cfg.defaultDecimalsShown)), false)
  {
    if !mantissa {
      assert "" + "e" == "e";
    }
  }

  /** From 10000 up to 10^9 the exponent is grouped by threes. */
  lemma {:induction false} ExponentGrouped(variant: Variant, eng: Engine, cfg: Config, x: real, p: nat, mantissa: bool)
    requires Lawful(eng) && x > 0.0
    requires 10000 <= Split(variant, x, p).exponent < 1000000000
    ensures ExponentialFormat(variant, eng, cfg, x, p, mantissa) ==
      (if mantissa then ToFixed(Fin(Split(variant, x, p).mantissa), p) else "")
      + "e" + RefGroup(NatDigits(Split(variant, x, p).exponent))
  {
    var r := Split(variant, x, p);
    var n: nat := r.exponent;
    CommaFormatWhole(n);
    if !mantissa {
      assert "" + "e" == "e";
    }
  }

  lemma {:induction false} ShownNearStep(c: real, m: real, q: real, h: real, x: real)
    requires q > 0.0 && m - h <= c <= m + h && m * q == x
    ensures x - h * q <= c * q <= x + h * q
  {
    MulMonotone(m - h, c, q);
    MulMonotone(c, m + h, q);
  }

  /** |v - x| <= tolerance. */
  predicate Within(v: real, x: real, tolerance: real) {
    Abs(v - x) <= tolerance
  }

  /** Half a unit in the last of p mantissa places, at decimal exponent e. */
  function HalfUnit(p: nat, e: int): real {
    0.5 / Pow10(p) * Pow10(e)
  }

  /** A mantissa and exponent of x show x to within half a unit of the
      last mantissa place. */
  lemma {:induction false} ShownBound(m: real, e: int, p: nat, x: real)
    requires Scales(m, e, x)
    ensures Within(Shown(Sci(m, e), p), x, HalfUnit(p, e))
  {
    var c, q, h := Rounded(m, p), Pow10(e), 0.5 / Pow10(p);
    RoundedNear(m, p);
    assert Shown(Sci(m, e), p) == c * q;
    ShownNearStep(c, m, q, h, x);
  }

  /** exponentialFormat shows x to within half a unit of the last place of
      its mantissa, in either reading, rollover or not. */
  lemma {:induction false} ExponentialAccurate(variant: Variant, x: real, p: nat)
    requires x > 0.0
    ensures Within(Shown(Split(variant, x, p), p), x, HalfUnit(p, Log10Floor(x)))
  {
    var m, e := Mantissa(x), Log10Floor(x);
    MantissaScale(x);
    RolloverKeepsValue(variant, x, p);
    ShownBound(m, e, p, x);
    WithinSame(Split(variant, x, p), Sci(m, e), p, x, HalfUnit(p, e));
  }

  lemma {:induction false} WithinSame(a: Sci, b: Sci, p: nat, x: real, t: real)
    requires Shown(a, p) == Shown(b, p) && Within(Shown(b, p), x, t)
    ensures Within(Shown(a, p), x, t)
  {
  }

  /** The rollover test as written misses "10.0": at one place 99.999
      keeps the mantissa 9.9999, which renders as "10.0", so the text
      "10.0e1" is shown; the corrected test gives 1.0 and exponent 2. */
  lemma RolloverMissedAtOnePlace()
    ensures SplitExponentAsWritten(99.999, 1) == Sci(9.9999, 1)
    ensures ToFixed(Fin(9.9999), 1) == "10.0"
    ensures SplitExponent(99.999, 1) == Sci(1.0, 2)
  {
    assert Pow10(1) == 10.0 && Pow10(2) == 100.0;
    Log10FloorUnique(99.999, 1);
    assert Mantissa(99.999) == 9.9999;
    assert ScaledDigits(9.9999, 1) == 100;
    assert NatDigits(100) == "100";
    assert ToFixed(Fin(9.9999), 1) == "10.0";
    RoundedOfNat(10, 1);
    RolloverTest(9.9999, 1);
    assert Rounded(9.9999, 1) == 10.0;
  }

  /** The text of that example: as written "10.0e1", which still reads
      back as 100; corrected "1.0e2". */
  lemma ExponentialRolloverExample(eng: Engine, cfg: Config)
    requires Lawful(eng)
    ensures ExponentialFormat(AsWritten, eng, cfg, 99.999, 1, true) == "10.0e1"
    ensures ReadScientific(ExponentialFormat(AsWritten, eng, cfg, 99.999, 1, true)) == Fin(100.0)
    ensures ExponentialFormat(Corrected, eng, cfg, 99.999, 1, true) == "1.0e2"
  {
    RolloverTextAsWritten(eng, cfg);
    RolloverTextCorrected(eng, cfg);
    RolloverReadsBack(eng, cfg);
  }

  lemma RolloverReadsBack(eng: Engine, cfg: Config)
    requires Lawful(eng)
    ensures ReadScientific(ExponentialFormat(AsWritten, eng, cfg, 99.999, 1, true)) == Fin(100.0)
  {
    SplitsNearHundred();
    ExponentialReadsBack(AsWritten, eng, cfg, 99.999, 1);
    RolloverShownAsWritten();
  }

  lemma RolloverTextAsWritten(eng: Engine, cfg: Config)
    requires Lawful(eng)
    ensures ExponentialFormat(AsWritten, eng, cfg, 99.999, 1, true) == "10.0e1"
  {
    SplitsNearHundred();
    TenAtOnePlace();
    ExponentialLiteral(AsWritten, eng, cfg, 99.999, 1, 9.9999, 1, "10.0", "1", "10.0e1");
  }

  lemma RolloverTextCorrected(eng: Engine, cfg: Config)
    requires Lawful(eng)
    ensures ExponentialFormat(Corrected, eng, cfg, 99.999, 1, true) == "1.0e2"
  {
    CorrectedRolloverParts();
    ExponentialLiteral(Corrected, eng, cfg, 99.999, 1, 1.0, 2, "1.0", "2", "1.0e2");
  }

  lemma CorrectedRolloverParts()
    ensures Split(Corrected, 99.999, 1) == Sci(1.0, 2)
    ensures ToFixed(Fin(1.0), 1) == "1.0" && NatDigits(2) == "2"
    ensures "1.0e2" == "1.0" + "e" + "2"
  {
    SplitsNearHundred();
    OneAtOnePlace();
  }

  /** exponentialFormat's text for a known split, mantissa text and
      exponent text. */
  lemma {:induction false} ExponentialLiteral(variant: Variant, eng: Engine, cfg: Config, x: real, p: nat, m: real, k: nat, a: string, d: string, t: string)
    requires Lawful(eng) && x > 0.0 && Split(variant, x, p) == Sci(m, k) && k < 10000
    requires ToFixed(Fin(m), p) == a && NatDigits(k) == d && t == a + "e" + d
    ensures ExponentialFormat(variant, eng, cfg, x, p, true) == t
  {
    ExponentialPlain(variant, eng, cfg, x, p, m, k);
  }

  lemma SplitsNearHundred()
    ensures Split(AsWritten, 99.999, 1) == Sci(9.9999, 1)
    ensures Split(Corrected, 99.999, 1) == Sci(1.0, 2)
  {
    RolloverMissedAtOnePlace();
  }

  lemma TenAtOnePlace()
    ensures ToFixed(Fin(9.9999), 1) == "10.0" && NatDigits(1) == "1"
  {
    RolloverMissedAtOnePlace();
  }

  lemma RolloverShownAsWritten()
    ensures Shown(Sci(9.9999, 1), 1) == 100.0
  {
    var c := Rounded(9.9999, 1);
    NearHundredRounds();
    assert Pow10(1) == 10.0;
    ShownOf(Sci(9.9999, 1), 1, c, 10.0);
  }

  lemma NearHundredRounds()
    ensures Rounded(9.9999, 1) == 10.0
  {
    RolloverMissedAtOnePlace();
  }

  lemma OneAtOnePlace()
    ensures ToFixed(Fin(1.0), 1) == "1.0" && NatDigits(2) == "2"
  {
    assert Pow10(1) == 10.0;
    assert ScaledDigits(1.0, 1) == 10;
    assert NatDigits(10) == "10";
  }

  /* ---------- the small-number path ---------- */

  /** Characters after the last mark do not move it. */
  lemma {:induction false} MarkEndSkip(s: string, b: string)
    requires forall k :: 0 <= k < |b| ==> !IsExponentMark(b[k])
    ensures MarkEnd(s + b) == MarkEnd(s)
    decreases |b|
  {
    if |b| > 0 {
      var b' := b[..|b| - 1];
      assert !IsExponentMark(b[|b| - 1]);
      assert (s + b)[..|s + b| - 1] == s + b';
      assert (s + b)[|s + b| - 1] == b[|b| - 1];
      assert MarkEnd(s + b) == MarkEnd((s + b)[..|s + b| - 1]);
      MarkEndSkip(s, b');
    } else {
      assert s + b == s;
    }
  }

  /** The replacement puts the '-' right after the 'e' when the exponent
      text has none of the class's characters. */
  lemma {:induction false} NegateAfterMark(a: string, b: string)
    requires forall k :: 0 <= k < |b| ==> !IsExponentMark(b[k])
    ensures NegateExponent(a + "e" + b) == a + "e-" + b
  {
    var s := a + "e";
    MarkEndSkip(s, b);
    assert MarkEnd(s) == |s|;
    var t := s + b;
    assert t[..|s|] == s && t[|s|..] == b;
  }

  /** Digits are not among the class's characters. */
  lemma {:induction false} NoMarkInDigits(d: string)
    requires AllDigits(d)
    ensures forall k :: 0 <= k < |d| ==> !IsExponentMark(d[k])
  {
  }

  /** The rendering of a whole number at 0 places is its numeral. */
  lemma {:induction false} WholeText(k: nat)
    ensures ToFixed(Fin(k as real), 0) == NatDigits(k)
  {
    ScaledWhole(k);
    ToFixedWhole(k as real);
  }

  /** The rendering of a negative whole number at 0 places is '-' and the
      numeral of its magnitude. */
  lemma {:induction false} NegativeWholeText(e: int)
    requires e < 0
    ensures ToFixed(Fin(e as real), 0) == "-" + NatDigits(-e)
  {
    var n: nat := -e;
    assert Abs(e as real) == n as real;
    ScaledWhole(n);
    assert ScaledDigits(e as real, 0) == n;
    ToFixedFin(e as real, 0);
  }

  /** Rolling over is idempotent: the rolled-over number splits as x
      does. */
  lemma {:induction false} RolledOverStable(x: real, p: nat)
    requires x > 0.0
    ensures SplitExponent(RolledOver(x, p), p) == SplitExponent(x, p)
  {
    SplitWithoutRollover(RolledOver(x, p), p);
  }

  /** Corrected: what the small path inverts is x's split with the sign
      of the exponent changed, and it splits without a further rollover. */
  lemma {:induction false} SmallInverse(x: real, p: nat)
    requires 0.0 < x < 0.001
    ensures InvertSmall(Corrected, x, p) == SciValue(Inverted(SplitExponent(x, p)))
    ensures SplitExponent(InvertSmall(Corrected, x, p), p) == Inverted(SplitExponent(x, p))
  {
    var r := SplitExponent(x, p);
    var inv := InvertSmall(Corrected, x, p);
    assert inv == InvertOOM(RolledOver(x, p));
    MantissaDetermines(inv, SciValue(Inverted(r)));
    SplitWithoutRollover(inv, p);
  }

  /** Where 10^n falls relative to a positive number: by its leading
      digit. */
  lemma {:induction false} ComparePow10(y: real, n: nat)
    requires y > 0.0
    ensures y < Pow10Nat(n) as real <==> Log10Floor(y) < n
  {
    var k := Log10Floor(y);
    Pow10OfNat(n);
    if k < n {
      Pow10Monotone(k + 1, n);
    } else {
      Pow10Monotone(n, k);
    }
  }

  /** The small path of format's chain, on the number the variant inverts
      x to. */
  lemma {:induction false} FormatSmallStep(variant: Variant, eng: Engine, cfg: Config, x: real, p: nat, inv: real)
    requires Lawful(eng) && 0.0 < x < 0.001 && inv == InvertSmall(variant, x, p)
    ensures inv < E1000 ==>
      FormatAt(variant, eng, cfg, Fin(x), p, true) == NegateExponent(ExponentialFormat(variant, eng, cfg, inv, p, true))
    ensures inv >= E1000 ==>
      FormatAt(variant, eng, cfg, Fin(x), p, true) == Format(variant, eng, cfg, Fin(inv), Some(p), false) + Reciprocal
  {
    assert Classify(Fin(x), true) == Small;
  }

  /** exponentialFormat of a number whose split has a whole exponent
      below 10000 is the mantissa text, 'e' and the plain numeral. */
  lemma {:induction false} ExponentialPlain(variant: Variant, eng: Engine, cfg: Config, x: real, p: nat, m: real, k: nat)
    requires Lawful(eng) && x > 0.0 && Split(variant, x, p) == Sci(m, k) && k < 10000
    ensures ExponentialFormat(variant, eng, cfg, x, p, true) == ToFixed(Fin(m), p) + "e" + NatDigits(k)
  {
    WholeText(k);
  }

  /** exponentialFormat of a number whose split has a positive exponent
      below 10000, with the '-' put in, is the text of the split with the
      exponent's sign changed. */
  lemma {:induction false} NegatedSciText(variant: Variant, eng: Engine, cfg: Config, y: real, p: nat)
    requires Lawful(eng) && y > 0.0 && 0 < Split(variant, y, p).exponent < 10000
    ensures NegateExponent(ExponentialFormat(variant, eng, cfg, y, p, true)) == SciText(Inverted(Split(variant, y, p)), p)
  {
    var r := Split(variant, y, p);
    var k: nat := r.exponent;
    var a, d := ToFixed(Fin(r.mantissa), p), NatDigits(k);
    ExponentialPlain(variant, eng, cfg, y, p, r.mantissa, k);
    NegateDigits(a, d);
    InvertedText(r, k, p);
  }

  /** The text of a split with a positive exponent, the sign changed. */
  lemma {:induction false} InvertedText(r: Sci, k: nat, p: nat)
    requires r.exponent == k > 0
    ensures SciText(Inverted(r), p) == ToFixed(Fin(r.mantissa), p) + "e" + ("-" + NatDigits(k))
  {
    var ir := Inverted(r);
    assert ir.mantissa == r.mantissa && ir.exponent == -(k as int);
    NegativeWholeText(ir.exponent);
    SciTextOf(ir, p, ToFixed(Fin(r.mantissa), p), "-" + NatDigits(k));
  }

  lemma {:induction false} SciTextOf(r: Sci, p: nat, a: string, b: string)
    requires a == ToFixed(Fin(r.mantissa), p) && b == ToFixed(Fin(r.exponent as real), 0)
    ensures SciText(r, p) == a + "e" + b
  {
  }

  /** The replacement turns "M" + "e" + "K", for a digit run K, into
      "M" + "e" + "-K". */
  lemma {:induction false} NegateDigits(a: string, d: string)
    requires AllDigits(d)
    ensures NegateExponent(a + "e" + d) == a + "e" + ("-" + d)
  {
    NoMarkInDigits(d);
    NegateAfterMark(a, d);
    assert a + "e-" + d == a + "e" + ("-" + d);
  }

  /** formatSmall is format's chain at the resolved precision with small
      numbers wanted. */
  lemma {:induction false} FormatSmallAt(variant: Variant, eng: Engine, cfg: Config, v: Num, precision: Option<nat>)
    requires Lawful(eng)
    ensures FormatSmall(variant, eng, cfg, v, precision) == FormatAt(variant, eng, cfg, v, Places(cfg, precision), true)
  {
  }

  /** Corrected: from 1e-999 up to 0.001 formatSmall writes x's own split,
      exactly as exponentialFormat writes a split: the mantissa at p places,
      'e', and the (negative) exponent. */
  lemma {:induction false} FormatSmallShape(eng: Engine, cfg: Config, x: real, precision: Option<nat>)
    requires Lawful(eng) && 0.0 < x < 0.001
    requires SplitExponent(x, Places(cfg, precision)).exponent > -1000
    ensures FormatSmall(Corrected, eng, cfg, Fin(x), precision) == SciText(SplitExponent(x, Places(cfg, precision)), Places(cfg, precision))
  {
    var p := Places(cfg, precision);
    FormatSmallAt(Corrected, eng, cfg, Fin(x), precision);
    SmallText(eng, cfg, x, p);
  }

  /** Below 0.001 the split's exponent is -3 or lower, rollover or not. */
  lemma {:induction false} SmallSplit(x: real, p: nat)
    requires 0.0 < x < 0.001
    ensures SplitExponent(x, p).exponent <= -3
  {
    SmallExponent(x);
  }

  lemma {:induction false} SmallText(eng: Engine, cfg: Config, x: real, p: nat)
    requires Lawful(eng) && 0.0 < x < 0.001 && SplitExponent(x, p).exponent > -1000
    ensures FormatAt(Corrected, eng, cfg, Fin(x), p, true) == SciText(SplitExponent(x, p), p)
  {
    var inv := InvertSmall(Corrected, x, p);
    SmallInverse(x, p);
    SmallSplit(x, p);
    ComparePow10(inv, 1000);
    FormatSmallStep(Corrected, eng, cfg, x, p, inv);
    SmallSciText(eng, cfg, x, p);
  }

  /** Corrected: the inverted number's exponentialFormat, with the '-' put
      in, is the text of x's split. */
  lemma {:induction false} SmallSciText(eng: Engine, cfg: Config, x: real, p: nat)
    requires Lawful(eng) && 0.0 < x < 0.001 && SplitExponent(x, p).exponent > -1000
    ensures NegateExponent(ExponentialFormat(Corrected, eng, cfg, InvertSmall(Corrected, x, p), p, true)) == SciText(SplitExponent(x, p), p)
  {
    var r := SplitExponent(x, p);
    var inv := InvertSmall(Corrected, x, p);
    SmallSplit(x, p);
    SmallInverse(x, p);
    assert Split(Corrected, inv, p) == Inverted(r);
    NegatedSciText(Corrected, eng, cfg, inv, p);
    assert Inverted(Inverted(r)) == r;
  }

  /** Corrected: so the text reads back as the number x's split shows,
      which is within half a unit of the last mantissa place of x. */
  lemma {:induction false} FormatSmallAccurate(eng: Engine, cfg: Config, x: real, precision: Option<nat>)
    requires Lawful(eng) && 0.0 < x < 0.001
    requires SplitExponent(x, Places(cfg, precision)).exponent > -1000
    ensures ReadScientific(FormatSmall(Corrected, eng, cfg, Fin(x), precision)).Fin?
    ensures Within(ReadScientific(FormatSmall(Corrected, eng, cfg, Fin(x), precision)).x, x,
                   HalfUnit(Places(cfg, precision), Log10Floor(x)))
  {
    var p := Places(cfg, precision);
    FormatSmallShape(eng, cfg, x, precision);
    SciTextReadsBack(SplitExponent(x, p), p);
    ExponentialAccurate(Corrected, x, p);
  }

  /** Corrected: below that, format shows the number with x's mantissa
      and the exponent's sign changed, followed by "⁻¹". */
  lemma {:induction false} FormatSmallReciprocal(eng: Engine, cfg: Config, x: real, precision: Option<nat>)
    requires Lawful(eng) && 0.0 < x < 0.001
    requires SplitExponent(x, Places(cfg, precision)).exponent <= -1000
    ensures FormatSmall(Corrected, eng, cfg, Fin(x), precision) ==
      Format(Corrected, eng, cfg, Fin(SciValue(Inverted(SplitExponent(x, Places(cfg, precision))))), Some(Places(cfg, precision)), false)
      + Reciprocal
  {
    var p := Places(cfg, precision);
    FormatSmallAt(Corrected, eng, cfg, Fin(x), precision);
    SmallReciprocal(eng, cfg, x, p);
  }

  lemma {:induction false} SmallReciprocal(eng: Engine, cfg: Config, x: real, p: nat)
    requires Lawful(eng) && 0.0 < x < 0.001 && SplitExponent(x, p).exponent <= -1000
    ensures FormatAt(Corrected, eng, cfg, Fin(x), p, true) ==
      Format(Corrected, eng, cfg, Fin(SciValue(Inverted(SplitExponent(x, p)))), Some(p), false) + Reciprocal
  {
    var inv := InvertSmall(Corrected, x, p);
    SmallInverse(x, p);
    ComparePow10(inv, 1000);
    FormatSmallStep(Corrected, eng, cfg, x, p, inv);
  }

  /** As written, for x in (0, 0.001) that is not a power of ten and whose
      leading digit sits at 10^-1001 or above, formatSmall shows x's
      mantissa with an exponent two above x's own (InvertOOMAsWrittenShift)
      or, when the mantissa renders as "10", 1 with an exponent one above
      x's own. */
  lemma {:induction false} FormatSmallAsWritten(eng: Engine, cfg: Config, x: real, precision: Option<nat>)
    requires Lawful(eng) && 0.0 < x < 0.001
    requires Pow10(Log10Floor(x)) != x && Log10Floor(x) >= -1001
    ensures ToFixed(Fin(Mantissa(x)), Places(cfg, precision)) != "10" ==>
      FormatSmall(AsWritten, eng, cfg, Fin(x), precision) == SciText(Sci(Mantissa(x), Log10Floor(x) + 2), Places(cfg, precision))
    ensures ToFixed(Fin(Mantissa(x)), Places(cfg, precision)) == "10" ==>
      FormatSmall(AsWritten, eng, cfg, Fin(x), precision) == SciText(Sci(1.0, Log10Floor(x) + 1), Places(cfg, precision))
  {
    var p := Places(cfg, precision);
    FormatSmallAt(AsWritten, eng, cfg, Fin(x), precision);
    SmallTextAsWritten(eng, cfg, x, p);
    ShiftedSplit(x, p);
  }

  lemma {:induction false} SmallTextAsWritten(eng: Engine, cfg: Config, x: real, p: nat)
    requires Lawful(eng) && 0.0 < x < 0.001
    requires Pow10(Log10Floor(x)) != x && Log10Floor(x) >= -1001
    ensures FormatAt(AsWritten, eng, cfg, Fin(x), p, true) == SciText(Inverted(Split(AsWritten, InvertOOMAsWritten(x), p)), p)
  {
    var inv := InvertSmall(AsWritten, x, p);
    assert inv == InvertOOMAsWritten(x);
    SmallExponent(x);
    InvertOOMAsWrittenShift(x);
    ComparePow10(inv, 1000);
    FormatSmallStep(AsWritten, eng, cfg, x, p, inv);
    NegatedSciText(AsWritten, eng, cfg, inv, p);
  }

  /** The split of the inverse as written, with the exponent's sign
      changed back. */
  lemma {:induction false} ShiftedSplit(x: real, p: nat)
    requires x > 0.0 && Pow10(Log10Floor(x)) != x
    ensures ToFixed(Fin(Mantissa(x)), p) != "10" ==>
      Inverted(Split(AsWritten, InvertOOMAsWritten(x), p)) == Sci(Mantissa(x), Log10Floor(x) + 2)
    ensures ToFixed(Fin(Mantissa(x)), p) == "10" ==>
      Inverted(Split(AsWritten, InvertOOMAsWritten(x), p)) == Sci(1.0, Log10Floor(x) + 1)
  {
    InvertOOMAsWrittenShift(x);
  }

  /** So, as written, when the mantissa does not render as "10" the text
      reads back as a hundred times the number x's own mantissa and
      exponent show. */
  lemma {:induction false} FormatSmallHundredfold(eng: Engine, cfg: Config, x: real, precision: Option<nat>)
    requires Lawful(eng) && 0.0 < x < 0.001
    requires Pow10(Log10Floor(x)) != x && Log10Floor(x) >= -1001
    requires ToFixed(Fin(Mantissa(x)), Places(cfg, precision)) != "10"
    ensures ReadScientific(FormatSmall(AsWritten, eng, cfg, Fin(x), precision)) ==
      Fin(100.0 * Shown(Sci(Mantissa(x), Log10Floor(x)), Places(cfg, precision)))
  {
    var p := Places(cfg, precision);
    var m, e := Mantissa(x), Log10Floor(x);
    FormatSmallAsWritten(eng, cfg, x, precision);
    HundredfoldText(FormatSmall(AsWritten, eng, cfg, Fin(x), precision), m, e, p);
  }

  lemma {:induction false} HundredfoldText(t: string, m: real, e: int, p: nat)
    requires t == SciText(Sci(m, e + 2), p)
    ensures ReadScientific(t) == Fin(100.0 * Shown(Sci(m, e), p))
  {
    var a, b := Shown(Sci(m, e + 2), p), Shown(Sci(m, e), p);
    SciTextReadsBack(Sci(m, e + 2), p);
    ShownHundredfold(m, e, p);
    Hundredfold(ReadScientific(t), a, b);
  }

  lemma {:induction false} Hundredfold(v: Num, a: real, b: real)
    requires v == Fin(a) && a == 100.0 * b
    ensures v == Fin(100.0 * b)
  {
  }

  lemma {:induction false} ShownHundredfold(m: real, e: int, p: nat)
    ensures Shown(Sci(m, e + 2), p) == 100.0 * Shown(Sci(m, e), p)
  {
    Pow10Step(e, e + 1);
    Pow10Step(e + 1, e + 2);
    var c, q := Rounded(m, p), Pow10(e);
    ShownOf(Sci(m, e + 2), p, c, Pow10(e + 2));
    ShownOf(Sci(m, e), p, c, q);
    assert c * (10.0 * (10.0 * q)) == 100.0 * (c * q);
  }

  /** As written, a power of ten from 1e-999 to 1e-4 is shown exactly: its
      inverse is exact and its mantissa 1 never rolls over. */
  lemma {:induction false} FormatSmallOfPower(eng: Engine, cfg: Config, k: int, precision: Option<nat>)
    requires Lawful(eng) && -999 <= k <= -4
    ensures 0.0 < Pow10(k) < 0.001
    ensures FormatSmall(AsWritten, eng, cfg, Fin(Pow10(k)), precision) == SciText(Sci(1.0, k), Places(cfg, precision))
  {
    PowerIsSmall(k);
    FormatSmallAt(AsWritten, eng, cfg, Fin(Pow10(k)), precision);
    PowerText(eng, cfg, k, Places(cfg, precision));
  }

  lemma {:induction false} PowerIsSmall(k: int)
    requires k <= -4
    ensures 0.0 < Pow10(k) < 0.001
  {
    Pow10Monotone(k, -4);
    assert Pow10(-4) == 0.0001;
  }

  lemma {:induction false} PowerText(eng: Engine, cfg: Config, k: int, p: nat)
    requires Lawful(eng) && -999 <= k <= -4 && 0.0 < Pow10(k) < 0.001
    ensures FormatAt(AsWritten, eng, cfg, Fin(Pow10(k)), p, true) == SciText(Sci(1.0, k), p)
  {
    var x := Pow10(k);
    var inv := InvertSmall(AsWritten, x, p);
    PowerSplit(k, p, inv);
    ComparePow10(inv, 1000);
    FormatSmallStep(AsWritten, eng, cfg, x, p, inv);
    PowerInverseText(eng, cfg, k, p, inv);
  }

  lemma {:induction false} PowerInverseText(eng: Engine, cfg: Config, k: int, p: nat, inv: real)
    requires Lawful(eng) && -999 <= k <= -4 && inv > 0.0 && Split(AsWritten, inv, p) == Sci(1.0, -k)
    ensures NegateExponent(ExponentialFormat(AsWritten, eng, cfg, inv, p, true)) == SciText(Sci(1.0, k), p)
  {
    NegatedSciText(AsWritten, eng, cfg, inv, p);
    assert Inverted(Sci(1.0, -k)) == Sci(1.0, k);
  }

  /** The inverse of 10^k as written is 10^-k, whose split is 1 and -k. */
  lemma {:induction false} PowerSplit(k: int, p: nat, inv: real)
    requires inv == InvertOOMAsWritten(Pow10(k))
    ensures inv == Pow10(-k) && Log10Floor(inv) == -k
    ensures Split(AsWritten, inv, p) == Sci(1.0, -k)
  {
    InvertOOMAsWrittenOfPower(k);
    InvertOOMAsWrittenOfPower(-k);
    RolloverTest(1.0, p);
    RolloverAsWritten(1.0, p);
  }

  /** Corrected: 5e-4 at 2 places shows as "5.00e-4". */
  lemma FormatSmallExample(eng: Engine, cfg: Config)
    requires Lawful(eng)
    ensures FormatSmall(Corrected, eng, cfg, Fin(0.0005), Some(2)) == "5.00e-4"
  {
    SplitOfFiveE4();
    SciTextFiveE4();
    FormatSmallShape(eng, cfg, 0.0005, Some(2));
  }

  /** As written it shows as "5.00e-2": the ceiling sends 5e-4 to 500
      (InvertOOMAsWrittenOffByTwo). */
  lemma FormatSmallOffByTwo(eng: Engine, cfg: Config)
    requires Lawful(eng)
    ensures FormatSmall(AsWritten, eng, cfg, Fin(0.0005), Some(2)) == "5.00e-2"
  {
    FiveE4Parts();
    FiveAtTwoPlaces();
    FormatSmallAsWritten(eng, cfg, 0.0005, Some(2));
    SciTextFiveE2();
  }

  lemma SciTextFiveE2()
    ensures SciText(Sci(5.0, -2), 2) == "5.00e-2"
  {
    FiveAtTwoPlaces();
    NegativeWholeText(-2);
    SciTextOf(Sci(5.0, -2), 2, "5.00", "-2");
  }

  lemma FiveE4Parts()
    ensures Log10Floor(0.0005) == -4 && Mantissa(0.0005) == 5.0
    ensures Pow10(-4) != 0.0005
  {
    assert Pow10(-4) == 0.0001 && Pow10(-3) == 0.001;
    Log10FloorUnique(0.0005, -4);
  }

  lemma FiveAtTwoPlaces()
    ensures ToFixed(Fin(5.0), 2) == "5.00"
  {
    assert Pow10(2) == 100.0;
    assert ScaledDigits(5.0, 2) == 500;
    assert NatDigits(500) == "500";
  }

  lemma SplitOfFiveE4()
    ensures SplitExponent(0.0005, 2) == Sci(5.0, -4)
  {
    FiveE4Parts();
    RoundedOfNat(5, 2);
    SplitWithoutRollover(0.0005, 2);
  }

  lemma SciTextFiveE4()
    ensures SciText(Sci(5.0, -4), 2) == "5.00e-4"
  {
    FiveAtTwoPlaces();
    NegativeWholeText(-4);
    SciTextOf(Sci(5.0, -4), 2, "5.00", "-4");
  }

  /** 9.6e-5 at 0 places rolls over to "1e-4", in either reading. */
  lemma FormatSmallRollsOver(variant: Variant, eng: Engine, cfg: Config)
    requires Lawful(eng)
    ensures FormatSmall(variant, eng, cfg, Fin(0.000096), Some(0)) == "1e-4"
  {
    if variant == Corrected {
      RollsOverCorrected(eng, cfg);
    } else {
      RollsOverAsWritten(eng, cfg);
    }
  }

  lemma RollsOverCorrected(eng: Engine, cfg: Config)
    requires Lawful(eng)
    ensures FormatSmall(Corrected, eng, cfg, Fin(0.000096), Some(0)) == "1e-4"
  {
    SciTextRollover();
    SplitOfRollover();
    FormatSmallShape(eng, cfg, 0.000096, Some(0));
  }

  lemma RollsOverAsWritten(eng: Engine, cfg: Config)
    requires Lawful(eng)
    ensures FormatSmall(AsWritten, eng, cfg, Fin(0.000096), Some(0)) == "1e-4"
  {
    SciTextRollover();
    RolloverParts();
    NinePointSixAtNoPlaces();
    FormatSmallAsWritten(eng, cfg, 0.000096, Some(0));
  }

  lemma RolloverParts()
    ensures Log10Floor(0.000096) == -5 && Mantissa(0.000096) == 9.6
    ensures Pow10(-5) != 0.000096
  {
    assert Pow10(-5) == 0.00001 && Pow10(-4) == 0.0001;
    Log10FloorUnique(0.000096, -5);
  }

  lemma NinePointSixAtNoPlaces()
    ensures ToFixed(Fin(9.6), 0) == "10"
  {
    assert ScaledDigits(9.6, 0) == 10;
    assert NatDigits(10) == "10";
  }

  lemma SplitOfRollover()
    ensures SplitExponent(0.000096, 0) == Sci(1.0, -4)
  {
    RolloverParts();
    NinePointSixAtNoPlaces();
    RoundedOfNat(10, 0);
    RolloverTest(9.6, 0);
  }

  lemma SciTextRollover()
    ensures SciText(Sci(1.0, -4), 0) == "1e-4"
  {
    WholeText(1);
    NegativeWholeText(-4);
  }

  /* ---------- format ---------- */

  /** One step of format's chain each: the branch a bracket selects. */
  lemma {:induction false} FormatNegativeStep(variant: Variant, eng: Engine, cfg: Config, v: Num, precision: Option<nat>, small: bool)
    requires Lawful(eng) && IsNeg(v)
    ensures Format(variant, eng, cfg, v, precision, small) == "-" + Format(variant, eng, cfg, Negate(v), Some(Places(cfg, precision)), false)
  {
  }

  lemma {:induction false} FormatNaNStep(variant: Variant, eng: Engine, cfg: Config, precision: Option<nat>, small: bool)
    requires Lawful(eng)
    ensures Format(variant, eng, cfg, NaN, precision, small) == "NaN"
  {
  }

  lemma {:induction false} FormatInfinityStep(variant: Variant, eng: Engine, cfg: Config, precision: Option<nat>, small: bool)
    requires Lawful(eng)
    ensures Format(variant, eng, cfg, Inf(false), precision, small) == "Infinity"
  {
  }

  lemma {:induction false} FormatExponentOnlyStep(variant: Variant, eng: Engine, cfg: Config, x: real, precision: Option<nat>, small: bool)
    requires Lawful(eng) && E100000 <= x < Tower
    ensures Format(variant, eng, cfg, Fin(x), precision, small) == ExponentialFormat(variant, eng, cfg, x, 0, false)
  {
  }

  lemma {:induction false} FormatWholeMantissaStep(variant: Variant, eng: Engine, cfg: Config, x: real, precision: Option<nat>, small: bool)
    requires Lawful(eng) && E1000 <= x < E100000
    ensures Format(variant, eng, cfg, Fin(x), precision, small) == ExponentialFormat(variant, eng, cfg, x, 0, true)
  {
  }

  lemma {:induction false} FormatFullMantissaStep(variant: Variant, eng: Engine, cfg: Config, x: real, precision: Option<nat>, small: bool)
    requires Lawful(eng) && Billion <= x < E1000
    ensures Format(variant, eng, cfg, Fin(x), precision, small) ==
      ExponentialFormat(variant, eng, cfg, x, Places(cfg, precision), true)
  {
  }

  lemma {:induction false} FormatRegularStep(variant: Variant, eng: Engine, cfg: Config, v: Num, precision: Option<nat>, small: bool)
    requires Lawful(eng) && Classify(v, small || cfg.allowSmall) == Regular
    ensures Format(variant, eng, cfg, v, precision, small) == RegularFormat(Some(v), Places(cfg, precision), cfg)
  {
  }

  lemma {:induction false} FormatCommasStep(variant: Variant, eng: Engine, cfg: Config, v: Num, precision: Option<nat>, small: bool)
    requires Lawful(eng) && v.Fin? && Thousand <= v.x < Billion
    ensures Format(variant, eng, cfg, v, precision, small) == CommaFormat(Some(v), 0)
  {
  }

  lemma {:induction false} FormatZeroStep(variant: Variant, eng: Engine, cfg: Config, precision: Option<nat>, small: bool)
    requires Lawful(eng)
    ensures Format(variant, eng, cfg, Fin(0.0), precision, small) == ZeroFixed(Places(cfg, precision))
  {
    ZeroAt(variant, eng, cfg, Places(cfg, precision), small || cfg.allowSmall);
  }

  lemma {:induction false} ZeroAt(variant: Variant, eng: Engine, cfg: Config, p: nat, small: bool)
    requires Lawful(eng)
    ensures FormatAt(variant, eng, cfg, Fin(0.0), p, small) == ZeroFixed(p)
  {
    if small {
      ZeroSmall(variant, eng, cfg, p);
    } else {
      ZeroRegular(variant, eng, cfg, p);
    }
  }

  lemma {:induction false} ZeroSmall(variant: Variant, eng: Engine, cfg: Config, p: nat)
    requires Lawful(eng)
    ensures FormatAt(variant, eng, cfg, Fin(0.0), p, true) == ZeroFixed(p)
  {
    assert Classify(Fin(0.0), true) == Zero;
  }

  lemma {:induction false} ZeroRegular(variant: Variant, eng: Engine, cfg: Config, p: nat)
    requires Lawful(eng)
    ensures FormatAt(variant, eng, cfg, Fin(0.0), p, false) == ZeroFixed(p)
  {
    assert Classify(Fin(0.0), false) == Regular;
    RegularOfZero(p, cfg);
  }

  lemma {:induction false} RegularOfZero(p: nat, cfg: Config)
    ensures RegularFormat(Some(Fin(0.0)), p, cfg) == ZeroFixed(p)
  {
    assert MagBelow(Fin(0.0), 0.0001);
  }

  lemma {:induction false} FormatTetrationStep(variant: Variant, eng: Engine, cfg: Config, x: real, p: nat, small: bool)
    requires Lawful(eng) && x >= Tower
    ensures FormatAt(variant, eng, cfg, Fin(x), p, small) == FormatTower(variant, eng, cfg, x)
  {
    assert Classify(Fin(x), small) == Tetration;
  }

  /** format of a negative number is '-' before the format of its
      magnitude, as long as `small` is not asked for beyond the configured
      setting (the negative branch passes `false` on). */
  lemma {:induction false} FormatSignSymmetry(variant: Variant, eng: Engine, cfg: Config, x: real, precision: Option<nat>, small: bool)
    requires Lawful(eng) && x > 0.0
    requires small ==> cfg.allowSmall
    ensures Format(variant, eng, cfg, Fin(-x), precision, small) == "-" + Format(variant, eng, cfg, Fin(x), precision, small)
  {
    FormatNegativeStep(variant, eng, cfg, Fin(-x), precision, small);
    assert Negate(Fin(-x)) == Fin(x);
    SameChoice(variant, eng, cfg, x, precision, small);
  }

  /** Only the precision and the or-ed small flag reach the branches. */
  lemma {:induction false} SameChoice(variant: Variant, eng: Engine, cfg: Config, x: real, precision: Option<nat>, small: bool)
    requires Lawful(eng) && x > 0.0
    requires small ==> cfg.allowSmall
    ensures Format(variant, eng, cfg, Fin(x), Some(Places(cfg, precision)), false) == Format(variant, eng, cfg, Fin(x), precision, small)
  {
    assert (small || cfg.allowSmall) == (false || cfg.allowSmall);
  }

  /** The quirk of the negative branch: with allowSmall off, formatSmall of
      a small negative number shows its magnitude in regular notation,
      where formatSmall of the magnitude itself would take the small path. */
  lemma {:induction false} NegativeDropsSmall(variant: Variant, eng: Engine, cfg: Config, x: real, p: nat)
    requires Lawful(eng) && 0.0 < x < 0.001 && !cfg.allowSmall
    ensures FormatSmall(variant, eng, cfg, Fin(-x), Some(p)) == "-" + RegularFormat(Some(Fin(x)), p, cfg)
    ensures Classify(Fin(x), true) == Small
  {
    FormatNegativeStep(variant, eng, cfg, Fin(-x), Some(p), true);
    assert Negate(Fin(-x)) == Fin(x);
    FormatRegularStep(variant, eng, cfg, Fin(x), Some(p), false);
  }

  /** From 1000 up to 10^9 format shows the grouped numeral of x rounded
      to a whole number, whatever the precision. */
  lemma {:induction false} FormatCommas(variant: Variant, eng: Engine, cfg: Config, x: real, precision: Option<nat>, small: bool)
    requires Lawful(eng) && Thousand <= x < Billion
    ensures Format(variant, eng, cfg, Fin(x), precision, small) == RefGroup(NatDigits(ScaledDigits(x, 0)))
  {
    FormatCommasStep(variant, eng, cfg, Fin(x), precision, small);
    CommaFormatRounded(x);
  }

  lemma {:induction false} FormatTowerStep(variant: Variant, eng: Engine, cfg: Config, x: real)
    requires Lawful(eng) && x >= Tower && eng.slog(x) < 1000000.0
    ensures FormatTower(variant, eng, cfg, x) == TowerText(eng, eng.slog(x))
  {
  }

  /** From a super-logarithm of 10^6 up, "F" and the format of its whole
      part at the default precision. */
  lemma {:induction false} FormatTowerHigh(variant: Variant, eng: Engine, cfg: Config, x: real)
    requires Lawful(eng) && x >= Tower && eng.slog(x) >= 1000000.0
    ensures FormatTower(variant, eng, cfg, x) == "F" + Format(variant, eng, cfg, Fin(eng.slog(x).Floor as real), None, false)
  {
  }

  /** The "F" text of a non-negative super-logarithm: 10 to its fractional
      part, 'F', and the reference grouping of its whole part. */
  lemma {:induction false} TowerTextGrouped(eng: Engine, s: real)
    requires s >= 0.0
    ensures 0 <= s.Floor
    ensures TowerText(eng, s) == ToFixed(Fin(eng.pow10(s - s.Floor as real)), 3) + "F" + RefGroup(NatDigits(s.Floor))
  {
    var n: nat := s.Floor;
    CommaFormatWhole(n);
  }

  /** From eeee1000 up, while the super-logarithm is below 10^6, format
      shows its "F" text (TowerTextGrouped: 10 to its fractional part at 3
      places, 'F', and its whole part grouped), whatever the precision. */
  lemma {:induction false} FormatTetration(variant: Variant, eng: Engine, cfg: Config, x: real, precision: Option<nat>, small: bool)
    requires Lawful(eng) && x >= Tower && eng.slog(x) < 1000000.0
    ensures eng.slog(x) >= 0.0
    ensures Format(variant, eng, cfg, Fin(x), precision, small) == TowerText(eng, eng.slog(x))
  {
    TowerAboveOne();
    SlogDecreases(eng, x);
    FormatTetrationStep(variant, eng, cfg, x, Places(cfg, precision), small || cfg.allowSmall);
    FormatTowerStep(variant, eng, cfg, x);
  }

  /* ---------- formatWhole ---------- */

  lemma {:induction false} FormatWholeNegativeStep(variant: Variant, eng: Engine, cfg: Config, v: Num)
    requires Lawful(eng) && IsNeg(v)
    ensures FormatWhole(variant, eng, cfg, v) == "-" + FormatWhole(variant, eng, cfg, Negate(v))
  {
  }

  lemma {:induction false} FormatWholeLargeStep(variant: Variant, eng: Engine, cfg: Config, v: Num)
    requires Lawful(eng) && !IsNeg(v) && Gte(v, Billion)
    ensures FormatWhole(variant, eng, cfg, v) == Format(variant, eng, cfg, v, None, false)
  {
  }

  lemma {:induction false} FormatWholeFractionStep(variant: Variant, eng: Engine, cfg: Config, v: Num)
    requires Lawful(eng) && !IsNeg(v) && Lte(v, 0.98) && v != Fin(0.0)
    ensures FormatWhole(variant, eng, cfg, v) == Format(variant, eng, cfg, v, None, false)
  {
  }

  lemma {:induction false} FormatWholeStep(variant: Variant, eng: Engine, cfg: Config, x: real)
    requires Lawful(eng) && 0.0 <= x < Billion && (x == 0.0 || x > 0.98)
    ensures FormatWhole(variant, eng, cfg, Fin(x)) == Format(variant, eng, cfg, Fin(x), Some(0), false)
  {
    assert !IsNeg(Fin(x)) && !Gte(Fin(x), Billion);
    assert !(Lte(Fin(x), 0.98) && Fin(x) != Fin(0.0));
  }

  lemma {:induction false} FormatWholeBelowThousand(variant: Variant, eng: Engine, cfg: Config, n: nat)
    requires Lawful(eng) && n < 1000
    ensures FormatWhole(variant, eng, cfg, Fin(n as real)) == NatDigits(n)
  {
    var v := Fin(n as real);
    FormatWholeStep(variant, eng, cfg, n as real);
    if n == 0 {
      FormatZeroStep(variant, eng, cfg, Some(0), false);
    } else {
      FormatRegularStep(variant, eng, cfg, v, Some(0), false);
      RegularOfWhole(n, cfg);
    }
  }

  lemma {:induction false} RegularOfWhole(n: nat, cfg: Config)
    requires 0 < n < 1000
    ensures RegularFormat(Some(Fin(n as real)), 0, cfg) == NatDigits(n)
  {
    assert RegularFormat(Some(Fin(n as real)), 0, cfg) == ToFixed(Fin(n as real), 0);
    ScaledWhole(n);
    ToFixedWhole(n as real);
  }

  lemma {:induction false} FormatWholeCommas(variant: Variant, eng: Engine, cfg: Config, n: nat)
    requires Lawful(eng) && 1000 <= n < 1000000000
    ensures FormatWhole(variant, eng, cfg, Fin(n as real)) == RefGroup(NatDigits(n))
  {
    FormatWholeStep(variant, eng, cfg, n as real);
    FormatCommasStep(variant, eng, cfg, Fin(n as real), Some(0), false);
    CommaFormatWhole(n);
  }

  /** formatWhole of a whole number below 10^9 is its numeral grouped by
      threes, and deleting the separators gives the plain numeral. */
  lemma {:induction false} FormatWholeOfNat(variant: Variant, eng: Engine, cfg: Config, n: nat)
    requires Lawful(eng) && n < 1000000000
    ensures FormatWhole(variant, eng, cfg, Fin(n as real)) == RefGroup(NatDigits(n))
    ensures RemoveCommas(FormatWhole(variant, eng, cfg, Fin(n as real))) == NatDigits(n)
  {
    RefGroupWellFormed(NatDigits(n));
    if n < 1000 {
      FormatWholeBelowThousand(variant, eng, cfg, n);
      assert Pow10Nat(3) == 1000;
      NatDigitsAtMost(n, 3);
    } else {
      FormatWholeCommas(variant, eng, cfg, n);
    }
  }

  /** formatWhole of a negative whole number above -10^9 is '-' and the
      grouped numeral of its magnitude. */
  lemma {:induction false} FormatWholeOfNeg(variant: Variant, eng: Engine, cfg: Config, n: nat)
    requires Lawful(eng) && 0 < n < 1000000000
    ensures FormatWhole(variant, eng, cfg, Fin(-(n as real))) == "-" + RefGroup(NatDigits(n))
  {
    assert Negate(Fin(-(n as real))) == Fin(n as real);
    FormatWholeOfNat(variant, eng, cfg, n);
  }

  /* ---------- toPlaces ---------- */

  lemma {:induction false} BelowByHalf(m: real, u: real, y: real, r: real, q: real)
    requires u > 0.0 && q > 0.0 && u * q == 1.0 && y == m - u && r <= y + 0.5 / q
    ensures r < m
  {
    assert 0.5 / q == 0.5 * u;
  }

  /** One unit of the last place below m still rounds below m. */
  lemma {:induction false} ClampedBelow(p: nat, m: real, y: real)
    requires y == m - Pow10(-(p as int))
    ensures Rounded(y, p) < m
  {
    RoundedNear(y, p);
    Pow10Reciprocal(p);
    BelowByHalf(m, Pow10(-(p as int)), y, Rounded(y, p), Pow10(p));
  }

  /** toPlaces keeps the rendering when it reads back below maxAccepted. */
  lemma {:induction false} ToPlacesBelow(x: real, p: nat, maxAccepted: real)
    requires Rounded(x, p) < maxAccepted
    ensures ToPlaces(Fin(x), p, Fin(maxAccepted)) == ToFixed(Fin(x), p)
  {
    ParseToFixed(x, p);
  }

  /** Otherwise it renders y = maxAccepted less one unit of the last
      place. */
  lemma {:induction false} ToPlacesAtOrAbove(x: real, p: nat, maxAccepted: real, y: real)
    requires y == maxAccepted - Pow10(-(p as int)) && Rounded(x, p) >= maxAccepted
    ensures ToPlaces(Fin(x), p, Fin(maxAccepted)) == ToFixed(Fin(y), p)
  {
    ParseToFixed(x, p);
    assert SubReal(Fin(maxAccepted), Pow10(-(p as int))) == Fin(y);
  }

  /** Either way the text toPlaces returns reads back strictly below
      maxAccepted. */
  lemma {:induction false} ToPlacesClamp(x: real, p: nat, maxAccepted: real)
    ensures ParseFixed(ToPlaces(Fin(x), p, Fin(maxAccepted))).Fin?
    ensures ParseFixed(ToPlaces(Fin(x), p, Fin(maxAccepted))).x < maxAccepted
  {
    var u := Pow10(-(p as int));
    var y := maxAccepted - u;
    if Rounded(x, p) >= maxAccepted {
      ToPlacesAtOrAbove(x, p, maxAccepted, y);
      ParseToFixed(y, p);
      ClampedBelow(p, maxAccepted, y);
    } else {
      ToPlacesBelow(x, p, maxAccepted);
      ParseToFixed(x, p);
    }
  }

  /** 99.999 at 2 places would read "100.00", which reaches 100, so
      "99.99" is shown. */
  lemma ToPlacesExample()
    ensures ToPlaces(Fin(99.999), 2, Fin(100.0)) == "99.99"
  {
    assert Pow10(2) == 100.0 && Pow10(-2) == 0.01;
    RoundedOfTwoPlaces();
    ToPlacesAtOrAbove(99.999, 2, 100.0, 99.99);
    TextOfTwoPlaces();
  }

  lemma RoundedOfTwoPlaces()
    ensures Rounded(99.999, 2) == 100.0
  {
    assert Pow10(2) == 100.0;
    assert ScaledDigits(99.999, 2) == 10000;
  }

  lemma TextOfTwoPlaces()
    ensures ToFixed(Fin(99.99), 2) == "99.99"
  {
    assert Pow10(2) == 100.0;
    assert ScaledDigits(99.99, 2) == 9999;
    assert NatDigits(9999) == "9999";
  }

  /** With no usable bound (NaN or +Infinity) toPlaces is the plain
      rendering. */
  lemma {:induction false} ToPlacesUnbounded(x: Num, p: nat, maxAccepted: Num)
    requires x.Fin? && (maxAccepted == NaN || maxAccepted == Inf(false))
    ensures ToPlaces(x, p, maxAccepted) == ToFixed(x, p)
  {
    ParseToFixed(x.x, p);
  }
}
