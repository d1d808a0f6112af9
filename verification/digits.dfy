/** Decimal digit strings and exact powers of ten: the textual and numeric
    vocabulary every formatter of the model is built from. */
module Digits {

  predicate IsDigit(c: char) {
    '0' <= c <= '9'
  }

  predicate AllDigits(s: string) {
    forall i :: 0 <= i < |s| ==> IsDigit(s[i])
  }

  /** 10^k on naturals. */
  function Pow10Nat(k: nat): (r: nat)
    ensures r > 0
  {
    if k == 0 then 1 else 10 * Pow10Nat(k - 1)
  }

  /** 10^k for any integer k, as an exact real. */
  function Pow10(k: int): (r: real)
    ensures r > 0.0
    decreases if k >= 0 then 0 else -k
  {
    if k >= 0 then Pow10Nat(k) as real else Pow10(k + 1) / 10.0
  }

  function DigitChar(d: nat): (c: char)
    requires d < 10
    ensures IsDigit(c)
  {
    ('0' as int + d) as char
  }

  function DigitValue(c: char): (d: nat)
    requires IsDigit(c)
    ensures d < 10 && DigitChar(d) == c
  {
    c as int - '0' as int
  }

  /** The shortest decimal numeral of n, most significant digit first. */
  function NatDigits(n: nat): (s: string)
    ensures |s| > 0 && AllDigits(s)
    ensures |s| > 1 ==> s[0] != '0'
  {
    if n < 10 then [DigitChar(n)] else NatDigits(n / 10) + [DigitChar(n % 10)]
  }

  /** The number a digit string denotes (leading zeros allowed). */
  function DigitsValue(s: string): nat
    requires AllDigits(s)
  {
    if |s| == 0 then 0 else 10 * DigitsValue(s[..|s| - 1]) + DigitValue(s[|s| - 1])
  }

  /** k zero digits. */
  function Zeros(k: nat): (z: string)
    ensures |z| == k && AllDigits(z)
    ensures forall i :: 0 <= i < k ==> z[i] == '0'
  {
    seq(k, _ => '0')
  }

  /** Reading back the numeral of n gives n. */
  lemma {:induction false} NatDigitsValue(n: nat)
    ensures DigitsValue(NatDigits(n)) == n
  {
    if n >= 10 {
      NatDigitsValue(n / 10);
      var s := NatDigits(n);
      assert s[..|s| - 1] == NatDigits(n / 10);
    }
  }

  lemma {:induction false} DigitsValueAppend(a: string, b: string)
    requires AllDigits(a) && AllDigits(b)
    ensures AllDigits(a + b)
    ensures DigitsValue(a + b) == DigitsValue(a) * Pow10Nat(|b|) + DigitsValue(b)
  {
    if |b| == 0 {
      assert a + b == a;
    } else {
      var b' := b[..|b| - 1];
      var last := DigitValue(b[|b| - 1]);
      assert (a + b)[..|a + b| - 1] == a + b';
      assert (a + b)[|a + b| - 1] == b[|b| - 1];
      DigitsValueAppend(a, b');
      assert DigitsValue(a + b) == 10 * DigitsValue(a + b') + last;
      assert DigitsValue(b) == 10 * DigitsValue(b') + last;
      ShiftDigit(DigitsValue(a), Pow10Nat(|b'|), DigitsValue(b'), last);
    }
  }

  lemma {:induction false} ShiftDigit(hi: nat, q: nat, lo: nat, d: nat)
    ensures 10 * (hi * q + lo) + d == hi * (10 * q) + (10 * lo + d)
  {
  }

  lemma {:induction false} ZerosValue(k: nat)
    ensures DigitsValue(Zeros(k)) == 0
  {
    if k > 0 {
      assert Zeros(k)[..k - 1] == Zeros(k - 1);
      ZerosValue(k - 1);
    }
  }

  /** A numeral padded on the left with zeros still denotes the same number. */
  lemma PaddedValue(k: nat, s: string)
    requires AllDigits(s)
    ensures AllDigits(Zeros(k) + s)
    ensures DigitsValue(Zeros(k) + s) == DigitsValue(s)
  {
    DigitsValueAppend(Zeros(k), s);
    ZerosValue(k);
  }

  /** A natural in [10^k, 10^(k+1)) has exactly k+1 digits. */
  lemma {:induction false} NatDigitsLength(n: nat, k: nat)
    requires Pow10Nat(k) <= n < Pow10Nat(k + 1)
    ensures |NatDigits(n)| == k + 1
  {
    if k > 0 {
      NatDigitsLength(n / 10, k - 1);
    }
  }

  /** A natural below 10^k (k >= 1) has at most k digits. */
  lemma {:induction false} NatDigitsAtMost(n: nat, k: nat)
    requires 1 <= k && n < Pow10Nat(k)
    ensures |NatDigits(n)| <= k
  {
    if n >= 10 {
      NatDigitsAtMost(n / 10, k - 1);
    }
  }

  lemma {:induction false} Pow10NatAbove(k: nat)
    ensures k < Pow10Nat(k)
  {
    if k > 0 {
      Pow10NatAbove(k - 1);
    }
  }

  lemma {:induction false} Pow10NatMonotone(a: nat, b: nat)
    requires a <= b
    ensures Pow10Nat(a) <= Pow10Nat(b)
  {
    if a < b {
      Pow10NatMonotone(a, b - 1);
    }
  }

  /** 10^(k+1) = 10 * 10^k, stated on two exponents so that callers' terms
      match syntactically. */
  lemma {:induction false} Pow10Step(k: int, k1: int)
    requires k1 == k + 1
    ensures Pow10(k1) == 10.0 * Pow10(k)
  {
  }

  lemma {:induction false} ReciprocalStep(a: real, b: real, a1: real, b1: real)
    requires a * b == 1.0 && a == 10.0 * a1 && b1 == 10.0 * b
    ensures a1 * b1 == 1.0
  {
  }

  /** 10^(-k) * 10^k = 1. */
  lemma {:induction false} Pow10Reciprocal(k: nat)
    ensures Pow10(-(k as int)) * Pow10(k) == 1.0
  {
    if k == 0 {
      assert Pow10(0) == 1.0;
    } else {
      var j: int := k;
      Pow10Reciprocal(k - 1);
      var a, b, a1, b1 := Pow10(-(j - 1)), Pow10(j - 1), Pow10(-j), Pow10(j);
      assert a * b == 1.0;
      Pow10Step(-j, -(j - 1));
      Pow10Step(j - 1, j);
      ReciprocalStep(a, b, a1, b1);
    }
  }

  /** Powers of ten increase strictly with the exponent. */
  lemma {:induction false} Pow10StrictMonotone(a: int, b: int)
    requires a < b
    ensures Pow10(a) < Pow10(b)
    decreases b - a
  {
    Pow10Step(b - 1, b);
    if a < b - 1 {
      Pow10StrictMonotone(a, b - 1);
    }
  }

  lemma {:induction false} Pow10Monotone(a: int, b: int)
    requires a <= b
    ensures Pow10(a) <= Pow10(b)
  {
    if a < b {
      Pow10StrictMonotone(a, b);
    }
  }

  lemma {:induction false} Pow10OfNat(k: nat)
    ensures Pow10(k) == Pow10Nat(k) as real && Pow10(k) >= 1.0
  {
  }

  /** Position of the first occurrence of c in s. */
  function IndexOf(s: string, c: char): (i: nat)
    requires c in s
    ensures i < |s| && s[i] == c && c !in s[..i]
  {
    if s[0] == c then 0 else
      var j := IndexOf(s[1..], c);
      assert s[..j + 1] == [s[0]] + s[1..][..j];
      j + 1
  }

  /** In a + [c] + b with c not in a, the first c is the one after a. */
  lemma {:induction false} IndexOfAfter(a: string, c: char, b: string)
    requires c !in a
    ensures c in a + [c] + b && IndexOf(a + [c] + b, c) == |a|
  {
    var s := a + [c] + b;
    assert s[|a|] == c;
  }
}
