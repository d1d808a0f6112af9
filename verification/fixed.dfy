/** Fixed-point text: the engine's `toStringWithDecimalPlaces`, JavaScript's
    `(0).toFixed(p)`, and the engine's reading of such text back into a
    number (`new Decimal(text)`), restricted to the grammar that rendering
    produces. */
module Fixed {
  import opened Digits
  import opened Decimal

  /** Round to the nearest natural, ties upwards: what `toFixed` does to the
      scaled magnitude (the sign is written separately). */
  function RoundHalfUp(y: real): (n: nat)
    requires y >= 0.0
    ensures n as real - 0.5 <= y < n as real + 0.5
  {
    (y + 0.5).Floor
  }

  /** |x| * 10^p rounded: the digits the rendering of x at p places shows. */
  function ScaledDigits(x: real, p: nat): nat {
    RoundHalfUp(Abs(x) * Pow10(p))
  }

  /** n / 10^p: the number a p-place numeral with digits n denotes. */
  function Shifted(n: nat, p: nat): real {
    n as real / Pow10(p)
  }

  /** The number the rendering of x at p places denotes. */
  function Rounded(x: real, p: nat): real {
    var v := Shifted(ScaledDigits(x, p), p);
    if x < 0.0 then -v else v
  }

  /** Text of an unsigned fixed-point numeral with p places: a digit run,
      then, when p > 0, a '.' and exactly p digits. */
  predicate IsUnsignedFixed(s: string, p: nat) {
    if p == 0 then |s| > 0 && AllDigits(s)
    else |s| >= p + 2 && AllDigits(s[..|s| - p - 1]) && s[|s| - p - 1] == '.' && AllDigits(s[|s| - p..])
  }

  /** An optional '-' followed by an unsigned fixed-point numeral. */
  predicate IsFixedText(s: string, p: nat) {
    IsUnsignedFixed(s, p) || (|s| > 0 && s[0] == '-' && IsUnsignedFixed(s[1..], p))
  }

  /** Left-pad the digits d to at least p + 1 digits. */
  function Padded(d: string, p: nat): (t: string)
    requires AllDigits(d) && |d| > 0
    ensures AllDigits(t) && |t| >= p + 1 && |t| >= |d|
    ensures DigitsValue(t) == DigitsValue(d)
  {
    if |d| <= p then PaddedValue(p + 1 - |d|, d); Zeros(p + 1 - |d|) + d else d
  }

  /** The digits d of the scaled value with a '.' placed p digits from the
      right. */
  function PlaceDot(d: string, p: nat): (s: string)
    requires AllDigits(d) && |d| > 0
    ensures IsUnsignedFixed(s, p)
  {
    if p == 0 then d else DotAt(Padded(d, p), p)
  }

  /** The digit string t with a '.' inserted p digits from the right. */
  function DotAt(t: string, p: nat): (s: string)
    requires AllDigits(t) && |t| > p > 0
    ensures IsUnsignedFixed(s, p)
  {
    var k := |t| - p;
    var s := t[..k] + "." + t[k..];
    assert s[..|s| - p - 1] == t[..k];
    assert s[|s| - p..] == t[k..];
    s
  }

  /** `toStringWithDecimalPlaces(p)`: exact decimal rendering rounded half
      away from zero; NaN and the infinities render as words. */
  function ToFixed(v: Num, p: nat): (s: string)
    ensures |s| > 0
    ensures v.Fin? ==> IsFixedText(s, p)
    ensures v.Fin? ==> (s[0] == '-' <==> v.x < 0.0)
  {
    match v
    case NaN => "NaN"
    case Inf(neg) => if neg then "-Infinity" else "Infinity"
    case Fin(x) =>
      var u := PlaceDot(NatDigits(ScaledDigits(x, p)), p);
      assert IsDigit(u[0]);
      if x < 0.0 then assert ("-" + u)[1..] == u; "-" + u else u
  }

  /** `(0).toFixed(p)`: "0", or "0." followed by p zeros. */
  function ZeroFixed(p: nat): (s: string)
    ensures s == ToFixed(Fin(0.0), p)
    ensures IsUnsignedFixed(s, p)
  {
    ZeroDigits(p);
    if p == 0 then "0"
    else
      ZeroPlaces(p);
      "0." + Zeros(p)
  }

  lemma {:induction false} ZeroDigits(p: nat)
    ensures ToFixed(Fin(0.0), p) == PlaceDot("0", p)
  {
    assert ScaledDigits(0.0, p) == 0;
    ToFixedFin(0.0, p);
    assert "" + PlaceDot("0", p) == PlaceDot("0", p);
  }

  lemma {:induction false} ZeroPlaces(p: nat)
    requires p > 0
    ensures PlaceDot("0", p) == "0." + Zeros(p)
  {
    var t := Zeros(p) + "0";
    assert Padded("0", p) == t;
    assert t[..1] == "0" && t[1..] == Zeros(p);
  }

  /* ---------- reading rendered text back ---------- */

  /** The value of an unsigned numeral "a" or "a.b"; anything else is NaN. */
  function ParseUnsigned(t: string): Num {
    if '.' in t then
      var i := IndexOf(t, '.');
      var a, b := t[..i], t[i + 1..];
      if |a| > 0 && |b| > 0 && AllDigits(a) && AllDigits(b) then
        Fin(Shifted(DigitsValue(a) * Pow10Nat(|b|) + DigitsValue(b), |b|))
      else NaN
    else if |t| > 0 && AllDigits(t) then Fin(DigitsValue(t) as real)
    else NaN
  }

  /** `new Decimal(text)` on the texts the renderings above produce. */
  function ParseFixed(s: string): Num {
    if s == "NaN" then NaN
    else if s == "Infinity" then Inf(false)
    else if s == "-Infinity" then Inf(true)
    else if |s| > 0 && s[0] == '-' then Negate(ParseUnsigned(s[1..]))
    else ParseUnsigned(s)
  }

  lemma {:induction false} NoDotInDigits(a: string)
    requires AllDigits(a)
    ensures '.' !in a
  {
    forall i | 0 <= i < |a| ensures a[i] != '.' {
      assert IsDigit(a[i]);
    }
  }

  lemma {:induction false} ParseDotted(a: string, b: string)
    requires |a| > 0 && |b| > 0 && AllDigits(a) && AllDigits(b)
    ensures AllDigits(a + b)
    ensures ParseUnsigned(a + ['.'] + b) == Fin(Shifted(DigitsValue(a + b), |b|))
  {
    var t := a + ['.'] + b;
    NoDotInDigits(a);
    IndexOfAfter(a, '.', b);
    assert t[..|a|] == a;
    assert t[|a| + 1..] == b;
    DigitsValueAppend(a, b);
  }

  lemma {:induction false} ParseWhole(d: string)
    requires |d| > 0 && AllDigits(d)
    ensures ParseUnsigned(d) == Fin(Shifted(DigitsValue(d), 0))
  {
    NoDotInDigits(d);
    assert Pow10(0) == 1.0;
  }

  lemma {:induction false} ParsePadded(d: string, p: nat)
    requires |d| > 0 && AllDigits(d) && p > 0
    ensures ParseUnsigned(PlaceDot(d, p)) == Fin(Shifted(DigitsValue(d), p))
  {
    var t := Padded(d, p);
    ParseDotAt(t, p);
  }

  /** A digit string with a '.' placed p digits from the right reads back
      as its value shifted by p places. */
  lemma {:induction false} ParseDotAt(t: string, p: nat)
    requires AllDigits(t) && |t| > p > 0
    ensures ParseUnsigned(DotAt(t, p)) == Fin(Shifted(DigitsValue(t), p))
  {
    var a, b := t[..|t| - p], t[|t| - p..];
    assert a + b == t;
    ParseDotted(a, b);
  }

  lemma {:induction false} ParsePlaceDot(n: nat, p: nat)
    ensures ParseUnsigned(PlaceDot(NatDigits(n), p)) == Fin(Shifted(n, p))
  {
    var d := NatDigits(n);
    NatDigitsValue(n);
    if p == 0 {
      ParseWhole(d);
    } else {
      ParsePadded(d, p);
    }
  }

  lemma {:induction false} ParseFixedOfNumeral(u: string)
    requires |u| > 0 && IsDigit(u[0])
    ensures ParseFixed(u) == ParseUnsigned(u)
    ensures ParseFixed("-" + u) == Negate(ParseUnsigned(u))
  {
    var s := "-" + u;
    assert s[1..] == u;
    assert s[1] == u[0];
  }

  /** The signed form of the numeral of n at p places reads back as +-n/10^p. */
  lemma {:induction false} ParseSignedNumeral(neg: bool, n: nat, p: nat)
    ensures ParseFixed((if neg then "-" else "") + PlaceDot(NatDigits(n), p))
         == Fin(if neg then -Shifted(n, p) else Shifted(n, p))
  {
    if neg {
      ParseNegativeNumeral(n, p);
    } else {
      ParsePositiveNumeral(n, p);
      assert "" + PlaceDot(NatDigits(n), p) == PlaceDot(NatDigits(n), p);
    }
  }

  lemma {:induction false} ParsePositiveNumeral(n: nat, p: nat)
    ensures ParseFixed(PlaceDot(NatDigits(n), p)) == Fin(Shifted(n, p))
  {
    ParsePlaceDot(n, p);
    PlaceDotFirstDigit(NatDigits(n), p);
    ParseFixedOfNumeral(PlaceDot(NatDigits(n), p));
  }

  lemma {:induction false} ParseNegativeNumeral(n: nat, p: nat)
    ensures ParseFixed("-" + PlaceDot(NatDigits(n), p)) == Fin(-Shifted(n, p))
  {
    ParsePlaceDot(n, p);
    PlaceDotFirstDigit(NatDigits(n), p);
    ParseFixedOfNumeral(PlaceDot(NatDigits(n), p));
  }

  lemma {:induction false} PlaceDotFirstDigit(d: string, p: nat)
    requires AllDigits(d) && |d| > 0
    ensures |PlaceDot(d, p)| > 0 && IsDigit(PlaceDot(d, p)[0])
  {
    UnsignedFirstDigit(PlaceDot(d, p), p);
  }

  /** An unsigned numeral starts with a digit. */
  lemma {:induction false} UnsignedFirstDigit(u: string, p: nat)
    requires IsUnsignedFixed(u, p)
    ensures |u| > 0 && IsDigit(u[0])
  {
    if p > 0 {
      var a := u[..|u| - p - 1];
      assert IsDigit(a[0]);
    }
  }

  /** Reading the rendering of x back gives x rounded to p places. */
  lemma {:induction false} ParseToFixed(x: real, p: nat)
    ensures ParseFixed(ToFixed(Fin(x), p)) == Fin(Rounded(x, p))
  {
    if x < 0.0 {
      ParseToFixedSigned(x, p, true);
    } else {
      ParseToFixedSigned(x, p, false);
    }
  }

  lemma {:induction false} ParseToFixedSigned(x: real, p: nat, neg: bool)
    requires neg == (x < 0.0)
    ensures ParseFixed(ToFixed(Fin(x), p)) == Fin(Rounded(x, p))
  {
    ToFixedFin(x, p);
    RoundedSigned(x, p);
    ParseSignedNumeral(neg, ScaledDigits(x, p), p);
  }

  lemma {:induction false} RoundedSigned(x: real, p: nat)
    ensures Rounded(x, p) == if x < 0.0 then -Shifted(ScaledDigits(x, p), p) else Shifted(ScaledDigits(x, p), p)
  {
  }

  lemma {:induction false} ToFixedFin(x: real, p: nat)
    ensures ToFixed(Fin(x), p) == (if x < 0.0 then "-" else "") + PlaceDot(NatDigits(ScaledDigits(x, p)), p)
  {
    var u := PlaceDot(NatDigits(ScaledDigits(x, p)), p);
    if x >= 0.0 {
      assert "" + u == u;
    }
  }

  lemma {:induction false} NearStep(y: real, n: real, q: real)
    requires q > 0.0 && n - 0.5 <= y * q < n + 0.5
    ensures y - 0.5 / q < n / q <= y + 0.5 / q
  {
    assert (n - 0.5) / q <= (y * q) / q;
    assert (y * q) / q < (n + 0.5) / q;
  }

  /** The rendering at p places is within half a unit of the last place. */
  lemma {:induction false} RoundedNear(x: real, p: nat)
    ensures x - 0.5 / Pow10(p) <= Rounded(x, p) <= x + 0.5 / Pow10(p)
  {
    var q := Pow10(p);
    var n := ScaledDigits(x, p);
    NearStep(Abs(x), n as real, q);
    assert Shifted(n, p) == n as real / q;
  }

  /* ---------- rounding facts used by the formatters ---------- */

  lemma {:induction false} RoundWhole(k: nat)
    ensures RoundHalfUp(k as real) == k
  {
  }

  /** At 0 places the digits of a whole number are the number itself. */
  lemma {:induction false} ScaledWhole(n: nat)
    ensures ScaledDigits(n as real, 0) == n
  {
    assert Pow10(0) == 1.0;
    assert Abs(n as real) * Pow10(0) == n as real;
    RoundWhole(n);
  }

  /** A whole number is its own rendering at any number of places. */
  lemma {:induction false} RoundedOfNat(n: nat, p: nat)
    ensures Rounded(n as real, p) == n as real
  {
    var q := Pow10Nat(p);
    Pow10OfNat(p);
    var k := n * q;
    ProductCast(n, q, k);
    RoundWhole(k);
    assert Abs(n as real) * Pow10(p) == k as real;
    assert ScaledDigits(n as real, p) == k;
    Cancel(q as real, n as real);
  }

  lemma {:induction false} ProductCast(n: nat, q: nat, k: nat)
    requires k == n * q
    ensures (n as real) * (q as real) == k as real
  {
  }

  /** A whole number, of either sign, is its own rendering. */
  lemma {:induction false} RoundedOfInt(k: int, p: nat)
    ensures Rounded(k as real, p) == k as real
  {
    if k >= 0 {
      RoundedOfNat(k, p);
    } else {
      var n: nat := -k;
      RoundedOfNat(n, p);
      assert Abs(k as real) == n as real;
      assert ScaledDigits(k as real, p) == ScaledDigits(n as real, p);
    }
  }

  lemma {:induction false} RoundBetween(z: real, q: nat, qr: real)
    requires q > 0 && qr == q as real && qr <= z < 10.0 * qr
    ensures q <= RoundHalfUp(z) <= 10 * q
  {
    var n := RoundHalfUp(z);
    assert q as real < n as real + 0.5;
    assert n as real - 0.5 < (10 * q) as real;
  }

  lemma {:induction false} QuotientBetween(n: int, q: int)
    requires q > 0 && q <= n <= 10 * q
    ensures 1.0 <= n as real / q as real <= 10.0
  {
    var nr, qr := n as real, q as real;
    var r := nr / qr;
    assert r * qr == nr;
    assert nr <= 10.0 * qr;
    if r < 1.0 {
      MulStrictMonotone(r, 1.0, qr);
      assert false;
    }
    if r > 10.0 {
      MulStrictMonotone(10.0, r, qr);
      assert false;
    }
  }

  lemma {:induction false} ScaleDecade(m: real, q: real, z: real)
    requires q > 0.0 && 1.0 <= m < 10.0 && z == m * q
    ensures q <= z && z < 10.0 * q
  {
    MulMonotone(1.0, m, q);
    MulStrictMonotone(m, 10.0, q);
  }

  /** The scaled digits of a mantissa in [1, 10) lie between 10^p and
      10^(p+1). */
  lemma {:induction false} ScaledMantissa(m: real, p: nat)
    requires 1.0 <= m < 10.0
    ensures Pow10Nat(p) <= ScaledDigits(m, p) <= 10 * Pow10Nat(p)
  {
    var q := Pow10Nat(p);
    Pow10OfNat(p);
    var qr := q as real;
    var z := m * qr;
    ScaleDecade(m, qr, z);
    RoundBetween(z, q, qr);
    assert Abs(m) * Pow10(p) == z;
  }

  /** A mantissa in [1, 10) renders as a number in [1, 10]. */
  lemma {:induction false} MantissaRounding(m: real, p: nat)
    requires 1.0 <= m < 10.0
    ensures 1.0 <= Rounded(m, p) <= 10.0
  {
    ScaledMantissa(m, p);
    Pow10OfNat(p);
    QuotientBetween(ScaledDigits(m, p), Pow10Nat(p));
  }

  lemma {:induction false} ShiftedInjective(a: nat, b: nat, p: nat)
    requires Shifted(a, p) == Shifted(b, p)
    ensures a == b
  {
    var q := Pow10(p);
    assert a as real == Shifted(a, p) * q;
    assert b as real == Shifted(b, p) * q;
  }

  /** Two non-negative numbers render to the same text exactly when they
      round to the same value. */
  lemma {:induction false} SameText(a: real, b: real, p: nat)
    requires a >= 0.0 && b >= 0.0
    ensures ToFixed(Fin(a), p) == ToFixed(Fin(b), p) <==> Rounded(a, p) == Rounded(b, p)
  {
    ParseToFixed(a, p);
    ParseToFixed(b, p);
    if Rounded(a, p) == Rounded(b, p) {
      ShiftedInjective(ScaledDigits(a, p), ScaledDigits(b, p), p);
      ToFixedFin(a, p);
      ToFixedFin(b, p);
    }
  }

  /* ---------- the characters of a rendering ---------- */

  /** The characters a finite rendering is made of. */
  predicate IsNumeralChar(c: char) {
    IsDigit(c) || c == '.' || c == '-'
  }

  /** At most one '.' in s. */
  predicate AtMostOneDot(s: string) {
    forall i, j :: 0 <= i < j < |s| && s[i] == '.' ==> s[j] != '.'
  }

  lemma {:induction false} UnsignedShape(s: string, p: nat)
    requires IsUnsignedFixed(s, p)
    ensures forall k :: 0 <= k < |s| ==> IsDigit(s[k]) || (p > 0 && k == |s| - p - 1)
  {
    if p > 0 {
      var d := |s| - p - 1;
      forall k | 0 <= k < |s| && k != d ensures IsDigit(s[k]) {
        if k < d {
          assert s[k] == s[..d][k];
        } else {
          assert s[k] == s[d + 1..][k - d - 1];
        }
      }
    }
  }

  /** A finite rendering has only digits, '.' and '-', and one '.' at most. */
  lemma {:induction false} FixedTextShape(s: string, p: nat)
    requires IsFixedText(s, p)
    ensures forall k :: 0 <= k < |s| ==> IsNumeralChar(s[k])
    ensures AtMostOneDot(s)
  {
    if IsUnsignedFixed(s, p) {
      UnsignedShape(s, p);
    } else {
      var u := s[1..];
      UnsignedShape(u, p);
      forall k | 1 <= k < |s| ensures IsDigit(s[k]) || (p > 0 && k == |s| - p - 1) {
        assert s[k] == u[k - 1];
      }
    }
  }
}
