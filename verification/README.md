# Display formatting of break_eternity numbers

A Dafny model of the number formatters in `src/util/break_eternity.ts`, the
helper module a prestige-tree game uses to turn its huge `Decimal` values
into text. The model covers:

- `commaFormat`, which groups the integer part by threes;
- `regularFormat`, which shows small values at a raised precision;
- `exponentialFormat`, which shows a mantissa and an exponent, rolls a
  rounded "10" over, and groups or formats a large exponent;
- `format` and its whole if-chain: NaN, the sign, Infinity, the "F"
  notation from eeee1000, the three exponential ranges, commas, regular,
  zero and the "small" path through `invertOOM`;
- `formatWhole`, `formatSmall`, `toPlaces` and `invertOOM`.

A number is `NaN`, a signed infinity or an exact real
(`Decimal.Num`). Two things are passed in as parameters:

- the two `modInfo` settings the formatters read (`defaultDecimalsShown`,
  `allowSmall`), as a `BreakEternity.Config`;
- the only engine operations the formatters cannot compute exactly, as a
  `Decimal.Engine`. These are the super-logarithm and 10 raised to a
  fractional power. Its one assumption (`Decimal.Lawful`) is that, at or
  above 1, the super-logarithm is non-negative and at least 1 below its
  argument.

The engine's `toStringWithDecimalPlaces(p)` is modelled as exact
rounding to p places with halves going away from zero (`Fixed.ToFixed`:
the magnitude is rounded half up and the sign put back, so -2.5 at 0
places is "-3"). `new Decimal(text)` on such
text is modelled as `Fixed.ParseFixed`. Thousands grouping is the
position-by-position meaning of the regular expression
`(\d)(?=(\d\d\d)+(?!\d))` (`Grouping.Group`).

Modules:

- `Digits`: numerals and powers of ten;
- `Decimal`: numbers, decimal exponents, `invertOOM`, the engine;
- `Fixed`: fixed-point rendering and reading back;
- `Grouping`: separators, `split(".")` and `join`;
- `BreakEternity`: the formatters;
- `Properties`: what the formatters promise.

Two places in the source do not do what they evidently mean to do (see
"## Findings"). The recursive chain of formatters (`ExponentialFormat`,
`Format`, `FormatAt`, `FormatInverse`, `FormatTower`, `FormatWhole`,
`FormatSmall`) therefore takes a `BreakEternity.Variant`:

- `AsWritten` follows break_eternity.ts as written: exponentialFormat's
  rollover test compares the rendered mantissa with "10"
  (`BreakEternity.SplitExponentAsWritten`), and the small path inverts x
  itself with the ceiling-based invertOOM (`Decimal.InvertOOMAsWritten`);
- `Corrected` rolls the mantissa over whenever it rounds to 10
  (`BreakEternity.SplitExponent`) and inverts with the exponent of the
  leading digit (`Decimal.InvertOOM` of `BreakEternity.RolledOver`).

The two differ only in `BreakEternity.Split` and
`BreakEternity.InvertSmall`. A lemma with a `variant` parameter holds for
both. In the table, "as written" and "corrected" mark the lemmas that hold
for one of them only.

## Model

| member | source | states |
|---|---|---|
| Decimal.Negate | src/util/break_eternity.ts:63-64 | `neg()` turns a positive finite number into a negative one and a negative one into a non-negative number other than NaN |
| Decimal.NegateInvolution | src/util/break_eternity.ts:63-64 | negating twice gives the number back, for NaN and the infinities too |
| Decimal.IsNeg | src/util/break_eternity.ts:63 | `sign < 0` holds exactly for a number other than NaN that is not at or above zero; also used at line 105 |
| Decimal.Gte | src/util/break_eternity.ts:108 | `gte(t)` against a plain bound is the general comparison with t as a number, and is false for NaN; also used for the thresholds at lines 69-88 |
| Decimal.Lte | src/util/break_eternity.ts:111 | `lte(t)` holds exactly when t is at or above v, and is false for NaN |
| Decimal.NumGte | src/util/break_eternity.ts:166 | `gte` between two numbers is false when either is NaN, orders finite numbers as the reals, and puts -Infinity below and +Infinity above every other number |
| Decimal.NumGteOrder | src/util/break_eternity.ts:166 | apart from NaN, `gte` is a total order: any two numbers compare, both ways only when equal, and it is transitive |
| Decimal.GteLteTotal | src/util/break_eternity.ts:108-111 | a number other than NaN is at or above a bound or at or below it, and both only when it equals the bound |
| Decimal.MagBelow | src/util/break_eternity.ts:32 | `mag < t` holds exactly for a finite number strictly between -t and t; also used at lines 47 and 50 |
| Decimal.SubReal | src/util/break_eternity.ts:167 | `Decimal.sub` of a plain number is finite exactly when its argument is, and adding the number back restores it |
| Decimal.Abs | src/util/break_eternity.ts:32 | the magnitude compared against 0.001 is non-negative and equals x or -x |
| Decimal.Log10Floor | src/util/break_eternity.ts:9 | `log10(num).floor()` is the k with 10^k <= x < 10^(k+1) |
| Decimal.Log10FloorUnique | src/util/break_eternity.ts:9 | any k with 10^k <= x < 10^(k+1) is that floor exponent |
| Decimal.Mantissa | src/util/break_eternity.ts:10 | x divided by 10 to its floor exponent lies in [1, 10) |
| Decimal.MantissaScale | src/util/break_eternity.ts:9-10 | that mantissa times 10 to the floor exponent is x again |
| Decimal.ScalesMantissa | src/util/break_eternity.ts:9-10 | conversely, m in [1, 10) times 10^e has floor exponent e and mantissa m |
| Decimal.MantissaDetermines | src/util/break_eternity.ts:9-10 | two positive numbers with the same floor exponent and mantissa are equal |
| Decimal.Log10Ceil | src/util/break_eternity.ts:180 | `log10(x).ceil()` is the k with 10^(k-1) < x <= 10^k |
| Decimal.InvertOOMAsWritten | src/util/break_eternity.ts:179-186 | invertOOM as written: positive, with the ceiling exponent negated and the ceiling mantissa (in (0.1, 1]) kept |
| Decimal.InvertOOMAsWrittenInvolution | src/util/break_eternity.ts:179-186 | as written, invertOOM undoes itself |
| Decimal.InvertOOMAsWrittenOffByTwo | src/util/break_eternity.ts:180-183 | 0.0005 has floor exponent -4, but invertOOM as written gives 500, whose floor exponent is 2 rather than 4 |
| Decimal.InvertOOMAsWrittenOfSmall | src/util/break_eternity.ts:94 | as written, a positive number below 0.001 has ceiling exponent at most -3, so line 94 sends it above 100 |
| Decimal.CeilAboveFloor | src/util/break_eternity.ts:180 | the ceiling exponent is the floor exponent or one above it, and one above exactly when x is not a power of ten |
| Decimal.InvertOOMAsWrittenShift | src/util/break_eternity.ts:179-186 | as written, for x not a power of ten, invertOOM keeps the mantissa but gives the leading digit exponent -e-2, two below the intended -e |
| Decimal.InvertOOMAsWrittenOfPower | src/util/break_eternity.ts:179-186 | as written, invertOOM of 10^k is exactly 10^-k |
| Decimal.InvertOOM | src/util/break_eternity.ts:179-186 | corrected: invertOOM with the floor exponent, positive, with the floor exponent negated and the mantissa in [1, 10) kept |
| Decimal.InvertOOMInvolution | src/util/break_eternity.ts:179-186 | corrected: the floor-based invertOOM undoes itself |
| Decimal.InvertOOMExample | src/util/break_eternity.ts:179-186 | corrected: the floor-based invertOOM sends 0.0005 to 50000 |
| Decimal.SmallExponent | src/util/break_eternity.ts:88-94 | a positive number below 0.001, the only kind the small path sees, has floor exponent at most -4 |
| Decimal.InvertOOMOfSmall | src/util/break_eternity.ts:94-95 | corrected: with the floor-based inverse, a number of floor exponent at most -3 inverts to at least 1000, with floor exponent at least 3 |
| Fixed.RoundHalfUp | src/util/break_eternity.ts:53 | the whole number the engine rounds a magnitude to is within half a unit of it, halves going up; with the sign put back (Fixed.Rounded) halves go away from zero |
| Fixed.ToFixed | src/util/break_eternity.ts:165 | `toStringWithDecimalPlaces(p)` of a finite number is a numeral: an optional '-', digits and, when p > 0, '.' and exactly p digits; the '-' is there exactly when the number is negative |
| Fixed.ZeroFixed | src/util/break_eternity.ts:33 | `(0).toFixed(p)` is the rendering of zero at p places, with no sign |
| Fixed.ParseToFixed | src/util/break_eternity.ts:165-166 | reading a rendering back gives the number rounded to p places, halves away from zero |
| Fixed.RoundedNear | src/util/break_eternity.ts:165 | the rounded number is within half a unit in the last place of x |
| Fixed.RoundedOfInt | src/util/break_eternity.ts:19 | rounding an integer gives it back at any precision |
| Fixed.SameText | src/util/break_eternity.ts:11 | two non-negative numbers render alike at p places exactly when they round alike |
| Fixed.MantissaRounding | src/util/break_eternity.ts:11 | a mantissa in [1, 10) rounds into [1, 10] |
| Fixed.FixedTextShape | src/util/break_eternity.ts:35-36 | a rendering holds only digits, '.' and '-', and at most one '.' |
| Grouping.SplitDots | src/util/break_eternity.ts:36 | `split(".")` gives at least one piece and no piece contains a '.' |
| Grouping.JoinSplit | src/util/break_eternity.ts:36-39 | joining the pieces with '.' gives the text back |
| Grouping.SplitOneDot | src/util/break_eternity.ts:36 | a numeral with one '.' splits into exactly its two sides |
| Grouping.Group | src/util/break_eternity.ts:37 | the replacement never shortens the text |
| Grouping.UngroupRoundTrip | src/util/break_eternity.ts:37 | deleting the commas undoes the replacement on any comma-free text |
| Grouping.GroupShort | src/util/break_eternity.ts:37 | up to three digits are left alone |
| Grouping.GroupAppendTriple | src/util/break_eternity.ts:37 | three more digits add one comma before them and change nothing earlier |
| Grouping.GroupIsRefGroup | src/util/break_eternity.ts:37 | on a run of digits the regular expression agrees with the independent rule "split off the last three digits, group the rest" |
| Grouping.RefGroupWellFormed | src/util/break_eternity.ts:37 | that grouping has 1 to 3 leading digits, then comma-and-three-digit groups, loses no digit, and adds (n-1)/3 commas to n digits |
| BreakEternity.Max | src/util/break_eternity.ts:16 | `Math.max` is one of its arguments and at least both |
| BreakEternity.ThresholdOrder | src/util/break_eternity.ts:69-88 | format's thresholds increase: 0.001 < 1e3 < 1e9 < 1e1000 < 1e100000 < eeee1000 |
| BreakEternity.FourLevels | src/util/break_eternity.ts:69 | a tower of four powers of ten over any n >= 5 (eeee1000 is one) exceeds 10^k for every k up to 10^5 |
| BreakEternity.CommaFormat | src/util/break_eternity.ts:27-40 | commaFormat always returns some text; what that text is, is stated by the Properties rows |
| BreakEternity.GroupIntegerPart | src/util/break_eternity.ts:36-39 | the split, group and join of a non-empty rendering is non-empty |
| BreakEternity.RegularPlaces | src/util/break_eternity.ts:50-52 | below a magnitude of 0.1 and at a precision other than 0 the precision becomes the largest of p, 4 and defaultDecimalsShown; otherwise it stays p |
| BreakEternity.RegularFormat | src/util/break_eternity.ts:42-54 | regularFormat always returns some text; see the Properties rows |
| BreakEternity.SplitExponentAsWritten | src/util/break_eternity.ts:9-14 | as written: the split is 1 at one above the floor exponent exactly when the mantissa renders as "10", and otherwise x's own mantissa and floor exponent |
| BreakEternity.SplitExponent | src/util/break_eternity.ts:9-14 | corrected split: a mantissa in [1, 10) that also rounds below 10 at p places, so the shown mantissa is never "10.0…"; the exponent is the floor exponent or one above it |
| BreakEternity.RolloverTest | src/util/break_eternity.ts:11 | the mantissa renders as the rendering of 10 exactly when it rounds to 10; mantissas round into [1, 10] and 1 rounds to 1 |
| BreakEternity.RolloverAsWritten | src/util/break_eternity.ts:11 | as written, the rendered mantissa equals "10" exactly when p is 0 and the mantissa rounds to 10: with places, a rendering is longer |
| BreakEternity.TenAtNoPlaces | src/util/break_eternity.ts:11 | 10 renders as "10" at 0 places |
| BreakEternity.Split | src/util/break_eternity.ts:9-14 | in either reading, the split is a mantissa in [1, 10) with the floor exponent or one above it |
| BreakEternity.SplitsAgree | src/util/break_eternity.ts:9-14 | the two readings split alike at 0 places; at p > 0 the split as written never rolls over |
| BreakEternity.SplitWithoutRollover | src/util/break_eternity.ts:9-14 | when the mantissa does not round to 10, the split is x's own mantissa and floor exponent |
| BreakEternity.RolloverKeepsValue | src/util/break_eternity.ts:11-14 | in either reading, rolling over shows the same number as the unrolled split |
| BreakEternity.RolloverShown | src/util/break_eternity.ts:11-14 | 1 at exponent e+1 shows the same number as a mantissa rounding to 10 at exponent e |
| BreakEternity.SciValue | src/util/break_eternity.ts:183 | 10^e times a mantissa m in [1, 10) has floor exponent e and mantissa m |
| BreakEternity.RolledOver | src/util/break_eternity.ts:94 | corrected: the number the small path inverts has exactly the mantissa and exponent that exponentialFormat would display for x |
| BreakEternity.InvertSmall | src/util/break_eternity.ts:94 | the number the small path inverts x to, as written invertOOM of x and corrected the floor inverse of the rolled-over x, is above 100, so the recursion leaves the small path |
| BreakEternity.ExponentDecreases | src/util/break_eternity.ts:15-16 | an exponent of at least 10^9 is smaller than the number it came from, so formatting it recursively ends |
| BreakEternity.ExponentialFormat | src/util/break_eternity.ts:8-25 | exponentialFormat always returns some text; with AsWritten it splits as lines 9-14 do; see the Properties rows |
| BreakEternity.Classify | src/util/break_eternity.ts:60-92 | which branch format takes, one "if and only if" per branch: NaN; negative; +Infinity; at least eeee1000; [1e100000, eeee1000); [1e1000, 1e100000); [1e9, 1e1000); [1e3, 1e9); [0, 1e3) when at least 0.001 or not small; exactly 0 when small; in (0, 0.001) when small |
| BreakEternity.SlogDecreases | src/util/break_eternity.ts:70-72 | the whole part of the super-logarithm is non-negative and smaller than the number, so `format(slog.floor())` ends |
| BreakEternity.MarkEnd | src/util/break_eternity.ts:97 | the position after the last character of the class `[(?:e|F)]`, with none of them after it |
| BreakEternity.NegateExponent | src/util/break_eternity.ts:97 | the replacement inserts exactly one character |
| BreakEternity.Places | src/util/break_eternity.ts:57 | the precision is the one given, or `defaultDecimalsShown` when none is |
| BreakEternity.Format | src/util/break_eternity.ts:56-101 | format always returns some text; with AsWritten it is format as written; see the Properties rows |
| BreakEternity.FormatAt | src/util/break_eternity.ts:58-101 | format's chain at a resolved precision always returns some text |
| BreakEternity.FormatInverse | src/util/break_eternity.ts:94-100 | the small branch (a positive value below 0.001 shown through its inverse) always returns some text; with AsWritten it inverts x itself as line 94 does |
| BreakEternity.FormatTower | src/util/break_eternity.ts:69-79 | the "F" notation always returns some text |
| BreakEternity.TowerText | src/util/break_eternity.ts:74-78 | the "F" text below a super-logarithm of 10^6 is non-empty |
| BreakEternity.FormatWhole | src/util/break_eternity.ts:103-115 | formatWhole always returns some text; see the Properties rows |
| BreakEternity.FormatSmall | src/util/break_eternity.ts:175-177 | formatSmall always returns some text; see the Properties rows |
| BreakEternity.ToPlaces | src/util/break_eternity.ts:163-172 | toPlaces always returns some text; see the Properties rows |
| Properties.GroupIntegerPartRoundTrip | src/util/break_eternity.ts:36-39 | on comma-free text with at most one '.', deleting the commas undoes split, group and join |
| Properties.GroupAroundDot | src/util/break_eternity.ts:36-39 | the same for a text of the form a "." b |
| Properties.GroupDotted | src/util/break_eternity.ts:36-39 | the split, group and join of a text a "." b is the grouped a, ".", and b unchanged |
| Properties.CommaFormatReadsBack | src/util/break_eternity.ts:32-39 | from a magnitude of 0.001 up, commaFormat without its commas is the rendering at p places, and it reads back as x rounded to p places |
| Properties.CommaFormatRounded | src/util/break_eternity.ts:35-38 | commaFormat at 0 places of x >= 0.001 is the reference grouping of x rounded to a whole number |
| Properties.CommaFormatWhole | src/util/break_eternity.ts:35-38 | commaFormat at 0 places of a natural n is the reference grouping of n's numeral |
| Properties.CommaFormatNaN | src/util/break_eternity.ts:28-30 | commaFormat gives "NaN" exactly for null/undefined or NaN; lines 28-30 give the null/undefined case, and the NaN case rests on the rendering of NaN as "NaN" stated under "## Left out" |
| Properties.CommaFormatBelowThousandth | src/util/break_eternity.ts:32-34 | below a magnitude of 0.001 commaFormat is `(0).toFixed(p)`, which reads back as zero |
| Properties.RegularFormatReadsBack | src/util/break_eternity.ts:47-53 | below a magnitude of 0.0001 regularFormat is `(0).toFixed(p)`, which reads back as zero; otherwise it reads back as x rounded to the precision RegularPlaces chooses |
| Properties.RegularFormatNaN | src/util/break_eternity.ts:43-45 | regularFormat gives "NaN" exactly for null/undefined or NaN; lines 43-45 give the null/undefined case, and the NaN case rests on the rendering of NaN as "NaN" stated under "## Left out" |
| Properties.RegularFormatNotZero | src/util/break_eternity.ts:50-52 | raising the precision means no value with magnitude 0.0001 or more, at a non-zero precision, is shown as zero |
| Properties.ReadScientificOf | src/util/break_eternity.ts:21 | a rendered mantissa, "e" and a rendered exponent read back as the number they show |
| Properties.NoMarkInFixed | src/util/break_eternity.ts:21 | a rendering contains no 'e' and no character of the class `[(?:e|F)]` |
| Properties.SciTextReadsBack | src/util/break_eternity.ts:19-21 | the mantissa at p places, "e" and the exponent at 0 places read back as the displayed mantissa times 10 to the exponent |
| Properties.ExponentialReadsBack | src/util/break_eternity.ts:8-21 | in either reading, below an exponent of 10000, exponentialFormat reads back as the shown mantissa times 10 to the exponent |
| Properties.ExponentFormatted | src/util/break_eternity.ts:15-16 | in either reading, from an exponent of 10^9 up, the exponent is formatted at max(p, 3, defaultDecimalsShown) places, with or without the mantissa in front |
| Properties.ExponentGrouped | src/util/break_eternity.ts:17-24 | in either reading, from an exponent of 10000 to below 10^9, the exponent is grouped by threes, with or without the mantissa in front |
| Properties.ShownBound | src/util/break_eternity.ts:10-21 | a mantissa and exponent of x, shown at p places, are within half a unit in the last place of x |
| Properties.ExponentialAccurate | src/util/break_eternity.ts:8-21 | in either reading, exponentialFormat's split shows x to within half a unit in the last mantissa place, rollover or not |
| Properties.RolloverMissedAtOnePlace | src/util/break_eternity.ts:11-14 | as written, 99.999 at one place splits into 9.9999 and 1, whose mantissa renders "10.0"; the corrected split gives 1 and 2 |
| Properties.ExponentialRolloverExample | src/util/break_eternity.ts:8-21 | as written, exponentialFormat(99.999, 1) is "10.0e1", which reads back as 100; corrected it is "1.0e2" |
| Properties.MarkEndSkip | src/util/break_eternity.ts:97 | characters outside the class after the text do not move the insertion point |
| Properties.NegateAfterMark | src/util/break_eternity.ts:97 | after an "e" followed by no class character, the replacement puts '-' right after that "e" |
| Properties.NegateDigits | src/util/break_eternity.ts:97 | an exponent of digits becomes "-" and those digits |
| Properties.NegatedSciText | src/util/break_eternity.ts:96-97 | in either reading, putting '-' into exponentialFormat of a number whose exponent is in (0, 10000) gives the mantissa text, "e" and the negated exponent |
| Properties.WholeText | src/util/break_eternity.ts:19 | an exponent rendered at 0 places is its numeral |
| Properties.NegativeWholeText | src/util/break_eternity.ts:19 | a negative exponent rendered at 0 places is "-" and the numeral of its magnitude |
| Properties.RolledOverStable | src/util/break_eternity.ts:9-14 | corrected: splitting the rolled-over number again gives the same split |
| Properties.SmallInverse | src/util/break_eternity.ts:94 | corrected: inverting the rolled-over number gives the displayed mantissa with the exponent negated, and that is how it splits |
| Properties.ComparePow10 | src/util/break_eternity.ts:95 | a positive y is below 10^n exactly when its floor exponent is below n |
| Properties.FormatSmallStep | src/util/break_eternity.ts:94-100 | in either reading, the small path puts '-' into the exponent of the exponential form of the variant's inverse while that inverse is below 1e1000, and from 1e1000 up formats the inverse and appends "⁻¹" |
| Properties.FormatSmallShape | src/util/break_eternity.ts:94-97 | corrected: formatSmall of x in (0, 0.001) is x's own displayed mantissa, "e" and its negative exponent, whenever that exponent is above -1000 |
| Properties.SmallSplit | src/util/break_eternity.ts:88-94 | corrected: the displayed exponent of a number below 0.001 is at most -3 |
| Properties.SmallText | src/util/break_eternity.ts:94-97 | corrected: the same as FormatSmallShape, for format's chain at a resolved precision |
| Properties.SmallSciText | src/util/break_eternity.ts:96-97 | corrected: negating the exponent of the inverse's exponential form gives x's own mantissa and exponent |
| Properties.FormatSmallAccurate | src/util/break_eternity.ts:94-97 | corrected: formatSmall of x in (0, 0.001) reads back within half a unit in the last mantissa place of x |
| Properties.FormatSmallReciprocal | src/util/break_eternity.ts:98-99 | corrected: when the displayed exponent is -1000 or below, formatSmall formats the inverse (mantissa kept, exponent negated) and appends "⁻¹" |
| Properties.SmallReciprocal | src/util/break_eternity.ts:98-99 | corrected: the same for format's chain at a resolved precision |
| Properties.FormatSmallExample | src/util/break_eternity.ts:175-177 | corrected: formatSmall(0.0005, 2) is "5.00e-4" |
| Properties.FormatSmallRollsOver | src/util/break_eternity.ts:175-177 | in either reading, formatSmall(0.000096, 0) is "1e-4": the mantissa rolls over before the exponent is negated |
| Properties.FormatSmallAsWritten | src/util/break_eternity.ts:94-97 | as written, for x in (0, 0.001) not a power of ten with floor exponent e >= -1001, formatSmall is x's mantissa with exponent e+2, or 1 with exponent e+1 when the mantissa renders as "10" |
| Properties.SmallTextAsWritten | src/util/break_eternity.ts:94-97 | as written, the small path's text is the split of invertOOM(x) with its exponent negated |
| Properties.ShiftedSplit | src/util/break_eternity.ts:9-14 | as written, that split with its exponent negated is x's mantissa at e+2, or 1 at e+1 when the mantissa renders as "10" |
| Properties.FormatSmallHundredfold | src/util/break_eternity.ts:94-97 | as written, when the mantissa does not render as "10", formatSmall of such x reads back as exactly 100 times the number x's own mantissa and exponent show |
| Properties.ShownHundredfold | src/util/break_eternity.ts:19-21 | a mantissa shown at exponent e+2 is 100 times the same mantissa at e |
| Properties.FormatSmallOfPower | src/util/break_eternity.ts:94-97 | as written, formatSmall of 10^k for -999 <= k <= -4 is "1", "e" and k: exact for powers of ten |
| Properties.PowerSplit | src/util/break_eternity.ts:9-14 | as written, invertOOM of 10^k is 10^-k, which splits as 1 and -k |
| Properties.FormatSmallOffByTwo | src/util/break_eternity.ts:175-177 | as written, formatSmall(0.0005, 2) is "5.00e-2" |
| Properties.FormatNegativeStep | src/util/break_eternity.ts:63-65 | a negative number (or -Infinity) is "-" followed by the format of its negation at the same precision, with `small` dropped |
| Properties.FormatNaNStep | src/util/break_eternity.ts:60-62 | format of NaN is "NaN" |
| Properties.FormatInfinityStep | src/util/break_eternity.ts:66-68 | format of +Infinity is "Infinity" |
| Properties.FormatExponentOnlyStep | src/util/break_eternity.ts:80-81 | from 1e100000 up to eeee1000, format is exponentialFormat at 0 places without the mantissa |
| Properties.FormatWholeMantissaStep | src/util/break_eternity.ts:82-83 | from 1e1000 up to 1e100000, format is exponentialFormat at 0 places with the mantissa |
| Properties.FormatFullMantissaStep | src/util/break_eternity.ts:84-85 | from 1e9 up to 1e1000, format is exponentialFormat at the resolved precision |
| Properties.FormatRegularStep | src/util/break_eternity.ts:88-89 | in the regular branch, format is regularFormat at the resolved precision |
| Properties.FormatCommasStep | src/util/break_eternity.ts:86-87 | from 1e3 to below 1e9, format is commaFormat at 0 places |
| Properties.FormatCommas | src/util/break_eternity.ts:86-87 | there the text is the reference grouping of the number rounded to a whole |
| Properties.FormatZeroStep | src/util/break_eternity.ts:88-91 | zero is formatted as the zero of the resolved precision: by regularFormat when not small, by the zero branch when small |
| Properties.FormatTetrationStep | src/util/break_eternity.ts:69 | from eeee1000 up, format is the "F" notation |
| Properties.FormatTowerHigh | src/util/break_eternity.ts:71-72 | from a super-logarithm of 10^6 up, "F" and the format of its whole part at the default precision |
| Properties.FormatTowerStep | src/util/break_eternity.ts:73-78 | below that, 10 to the fractional part at 3 places, "F" and the grouped whole part |
| Properties.TowerTextGrouped | src/util/break_eternity.ts:74-78 | that whole part is non-negative and shown with the reference grouping |
| Properties.FormatTetration | src/util/break_eternity.ts:69-78 | format from eeee1000 up with a super-logarithm below 10^6 is exactly that text |
| Properties.FormatSignSymmetry | src/util/break_eternity.ts:63-65 | formatting -x gives "-" followed by the format of x, when `small` asks for nothing that `allowSmall` does not already give |
| Properties.SameChoice | src/util/break_eternity.ts:57-58 | for a positive x with `small` implied by `allowSmall`, an explicit precision and no `small` give the same text |
| Properties.NegativeDropsSmall | src/util/break_eternity.ts:63-65 | quirk: formatSmall of -x for small x is "-" and regularFormat of x, not the small notation, unless allowSmall is set |
| Properties.FormatWholeStep | src/util/break_eternity.ts:103-115 | below 1e9, for 0 or values above 0.98, formatWhole is format at 0 places |
| Properties.FormatWholeNegativeStep | src/util/break_eternity.ts:105-106 | formatWhole of a negative number is "-" and formatWhole of its negation |
| Properties.FormatWholeLargeStep | src/util/break_eternity.ts:108-109 | formatWhole of a non-negative number of at least 1e9 is format at the default precision |
| Properties.FormatWholeFractionStep | src/util/break_eternity.ts:111-112 | formatWhole of a non-zero non-negative number up to 0.98 is format at the default precision |
| Properties.FormatWholeBelowThousand | src/util/break_eternity.ts:111-114 | formatWhole of a natural below 1000 is its numeral |
| Properties.FormatWholeCommas | src/util/break_eternity.ts:108-114 | formatWhole of a natural in [1000, 10^9) is its numeral grouped by threes |
| Properties.FormatWholeOfNat | src/util/break_eternity.ts:103-115 | below 10^9, formatWhole of a natural is its grouped numeral, and deleting the commas gives the numeral |
| Properties.FormatWholeOfNeg | src/util/break_eternity.ts:105-106 | formatWhole of a negative whole number above -10^9 is "-" and the grouped numeral of its magnitude |
| Properties.ClampedBelow | src/util/break_eternity.ts:166-169 | maxAccepted minus one unit in the last place rounds below maxAccepted |
| Properties.ToPlacesBelow | src/util/break_eternity.ts:165-171 | when the rendering stays below maxAccepted, toPlaces is the rendering |
| Properties.ToPlacesAtOrAbove | src/util/break_eternity.ts:166-170 | when it reaches maxAccepted, toPlaces is the rendering of maxAccepted minus one unit in the last place |
| Properties.ToPlacesClamp | src/util/break_eternity.ts:163-172 | for finite x and bound, toPlaces always reads back as a number strictly below maxAccepted |
| Properties.ToPlacesExample | src/util/break_eternity.ts:163-172 | toPlaces(99.999, 2, 100) is "99.99" |
| Properties.ToPlacesUnbounded | src/util/break_eternity.ts:166 | against +Infinity, and against NaN under the comparison convention stated under "## Left out", no rendering is at or above the bound, so toPlaces is the plain rendering |

## Left out

- `formatTime` (src/util/break_eternity.ts:117-161) is not part of this model. It converts to a JavaScript double (`toNumber`) and works with `Math.floor` and `%` on doubles, which this exact-real model does not represent. Two defects in it stay unmodelled: `2 ^ 51` at line 118 is a bitwise XOR (49), not 2 to the 51st; and lines 138 and 151 divide by 84600 where line 127 uses 86400 seconds per day.
- `src/data/layers/prestige.tsx` and `src/data/projEntry.tsx` define the game's layer, resources and entry point; they are not part of this model, which covers the formatting helpers only.
- Floating point: numbers are exact reals, so the engine's double-precision rounding, its `(sign, layer, mag)` encoding and values it cannot represent exactly are not modelled. A `mag` test against a small threshold is modelled as a test of the magnitude |x|. At layer 0 `mag` is |x|, and at higher layers both tests give the same answer against these thresholds.
- `isNaN(sign) || isNaN(layer) || isNaN(mag)` is modelled as the single `NaN` value.
- `toStringWithDecimalPlaces` is modelled as exact rounding at p places with halves going away from zero. The engine switches to its own exponent notation for very large magnitudes and, at layer 0, for non-zero magnitudes at or below 1e-7; `Fixed.ToFixed` renders the latter as "0.00…" instead. Neither is modelled. The small case reaches only toPlaces (lines 165 and 167), since format's chain never renders such a number directly.
- Fixed.ToFixed renders NaN and the two infinities as the words "NaN", "Infinity" and "-Infinity"; the engine's own rendering of them is not modelled. A NaN or infinite number passes the `mag` tests at lines 32, 47 and 50 and reaches `toStringWithDecimalPlaces`, so the NaN case of Properties.CommaFormatNaN and RegularFormatNaN rests on this, as do commaFormat and regularFormat of an infinity and toPlaces of a NaN or infinite x.
- `new Decimal(text)` (`Fixed.ParseFixed`) reads only the texts the renderings produce, plus "NaN" and the two infinities.
- `Math.pow(0.1, precision)` in toPlaces is taken as exactly 10^-p.
- Precision is a natural number of any size, for every rendering. In JavaScript `toFixed` throws a RangeError for a precision above 100: directly at lines 33, 48 and 91, and through the engine's `toStringWithDecimalPlaces` at lines 11, 21, 35, 53 and 165. The model renders at any precision and has no such error. Fractional or negative precisions are not modelled.
- `DecimalSource` conversions from strings and JavaScript numbers are not modelled: inputs are already numbers. For commaFormat and regularFormat, `null` and `undefined` are modelled as `None`.
- Comparisons with NaN: the engine's `Decimal` class, which defines `gte`, `lte`, `mag` and `sign`, is not part of this model, and the model assumes each is false when either side is NaN (Decimal.NumGte, Gte, Lte, MagBelow, IsNeg). If the engine's `gte` were written as the negation of `lt`, it would be true against NaN. `toPlaces(x, p, NaN)` would then take the clamp branch at line 167 instead of returning the plain rendering, so Properties.ToPlacesUnbounded's NaN case rests on this assumption.
- The engine's super-logarithm and its fractional power of ten (`Decimal.Engine`) are abstract parameters. Only the property `Decimal.Lawful` is assumed of them.
- BreakEternity.CommaFormat: its own contract states only that the text is non-empty. What it renders is stated by Properties.CommaFormatReadsBack, CommaFormatRounded, CommaFormatNaN and CommaFormatBelowThousandth.
- BreakEternity.RegularFormat: its own contract states only that the text is non-empty. See Properties.RegularFormatReadsBack, RegularFormatNaN and RegularFormatNotZero.
- BreakEternity.ExponentialFormat: its own contract states only that the text is non-empty. See Properties.ExponentialReadsBack, ExponentGrouped, ExponentFormatted, ExponentialAccurate and ExponentialRolloverExample.
- BreakEternity.Format: its own contract states only that the text is non-empty. Each branch is stated by BreakEternity.Classify and the Properties lemmas named Format…Step, FormatSmall… and FormatTetration.
- BreakEternity.FormatAt: as for BreakEternity.Format.
- BreakEternity.FormatInverse: its own contract states only that the text is non-empty. See Properties.FormatSmallStep and, as written, FormatSmallAsWritten, FormatSmallHundredfold and FormatSmallOfPower; corrected, FormatSmallShape and FormatSmallReciprocal.
- BreakEternity.FormatTower: its own contract states only that the text is non-empty. See Properties.FormatTowerStep and FormatTowerHigh.
- BreakEternity.TowerText: its own contract states only that the text is non-empty. See Properties.TowerTextGrouped.
- BreakEternity.GroupIntegerPart: its own contract states only that the text is non-empty. See Properties.GroupIntegerPartRoundTrip.
- BreakEternity.FormatWhole: its own contract states only that the text is non-empty. See the Properties.FormatWhole… lemmas.
- BreakEternity.FormatSmall: its own contract states only that the text is non-empty. See the Properties.FormatSmall… lemmas.
- BreakEternity.ToPlaces: its own contract states only that the text is non-empty. See the Properties.ToPlaces… lemmas.
- BreakEternity.NegateExponent: its own contract states only the length. Where the '-' goes is stated by Properties.NegateAfterMark and NegateDigits.
- Properties.FormatSmallShape: covers displayed exponents above -1000. The reciprocal branch is stated separately by Properties.FormatSmallReciprocal.
- Properties.FormatTetration: covers super-logarithms below 10^6. The recursive branch above that is stated by Properties.FormatTowerHigh.
- Properties.FormatWholeStep: covers values from 0 up to below 10^9 other than those in (0, 0.98]. The other branches are stated by Properties.FormatWholeNegativeStep, FormatWholeLargeStep and FormatWholeFractionStep.
- Properties.FormatSmallAsWritten: covers numbers that are not powers of ten, with floor exponent -1001 or above. Powers of ten are stated by Properties.FormatSmallOfPower. Below that range the inverse reaches 1e1000, and the reciprocal branch as written is stated only through Properties.FormatSmallStep.

## Findings

| source | as written | input that shows it | evidently intended | confidence | as-written member | corrected member |
|---|---|---|---|---|---|---|
| src/util/break_eternity.ts:11 | The rollover test compares the rendered mantissa with "10", which only matches at 0 places. | 99.999 at precision 1: the mantissa 9.9999 renders "10.0", so the text is "10.0e1". | Roll over whenever the mantissa rounds to 10 at the precision shown, giving "1.0e2". | not executed | BreakEternity.SplitExponentAsWritten, BreakEternity.RolloverAsWritten, Properties.RolloverMissedAtOnePlace, Properties.ExponentialRolloverExample | BreakEternity.SplitExponent, BreakEternity.RolloverTest, BreakEternity.RolloverKeepsValue, Properties.ExponentialRolloverExample |
| src/util/break_eternity.ts:180-183 | invertOOM negates the ceiling of the base-10 logarithm, so the floor exponent that exponentialFormat shows comes out wrong by two for every number that is not an exact power of ten, whenever its mantissa does not render as "10". | formatSmall(0.0005, 2): invertOOM gives 500, so the text is "5.00e-2". | Show x's own mantissa and negated exponent: "5.00e-4". The inversion uses the floor exponent, after the mantissa has rolled over (9.6e-5 at 0 places shows "1e-4" either way). | not executed | Decimal.InvertOOMAsWritten, Decimal.InvertOOMAsWrittenShift, Decimal.InvertOOMAsWrittenOffByTwo, Properties.FormatSmallAsWritten, Properties.FormatSmallHundredfold, Properties.FormatSmallOffByTwo | Decimal.InvertOOM, Decimal.InvertOOMInvolution, Decimal.InvertOOMOfSmall, BreakEternity.RolledOver, Properties.SmallInverse, Properties.SmallSciText, Properties.FormatSmallShape, Properties.FormatSmallAccurate, Properties.FormatSmallReciprocal, Properties.SmallReciprocal, Properties.FormatSmallExample |
