# Compacting ephemeris series coefficients

This project models the compaction core of the `ephemeris` repository. That core rewrites the coefficients of two analytical ephemeris series so that they take less room in their JSON files:

- VSOP87A for the planets;
- ELP/MPP02 for the Moon.

Each term may change only by an error limit derived from the series' time span `T_MAX`. Terms that become zero are dropped. The core has five parts, one Dafny module each, plus three shared modules.

- `RoundCompact` (`tools/round_compact.py`).
  - It rounds a number to a given count of significant figures, half to even, using the number's exact decimal expansion.
  - It writes the result as the shorter of a standard form (`d.ddde±E`) and an exponent-free form.
  - `round_compact_in_interval` starts from `str(x)` and tries 17, 16, …, 0 significant figures. An attempt in `[a, b]` replaces the text kept so far only when it is strictly shorter.
  - `FormattedFloat` is a value that carries its chosen text.
- `FloatEncoder` (the `FormattedFloatEncoder` of the same file).
  - The JSON encoder writes a `FormattedFloat` as the quoted string `"FormattedFloat(<text>)"`.
  - `apply_formatting` then removes that wrapper with a regular expression.
  - The model proves that this puts each chosen text verbatim into the JSON output.
- `Tools` (`tools.py`).
  - `simplest_float_in` is the magnitude-scan interval simplifier. It tries the multiples of `10^floor(log10(b - a))`, and ten times that, next to `x`.
  - `convert_integer_floats` turns an integral float into an int.
- `Vsop87aTruncate` (`vsop87a_truncate.py`).
  - Each planetary term `t^alpha a cos(b + c t)` gets the shortest literals for `a`, `b` and `c` within per-body leeways.
  - A term is dropped when its simplified amplitude reads as 0.
  - Group and body structure are kept, and `term_count` counts the kept terms per body.
  - The EARTH entry is skipped.
- `Mpp02Truncate` (`mpp02_truncate.py`).
  - Each lunar term `c0 t^alpha sin(c1 + c2 t + … + c5 t^4)` gets, coefficient by coefficient, the simplest number within its leeway. The new coefficients are ints and floats from `simplest_float_in` and `convert_integer_floats`, not formatted literals.
  - A term whose simplified amplitude is 0 is dropped, and so is a group left empty.
  - `count_coeffs` counts terms per `(coord, alpha)` key.
- `FixedLengthFormat` (`fixed_length_reader.py`).
  - `FixedLengthReader` compiles a format string such as `3,i1,i1,10,12i3,x1,2f18,2f14,f20` into `(start, type, length)` entries.
  - It then cuts a fixed-width line into fields and converts each one.
- Shared modules:
  - `Outcomes`: the `Option` and `Result` types and Python's `ValueError`, `KeyError` and `ZeroDivisionError`.
  - `DecimalText`: exact decimal arithmetic, the decimal spelling of integers, and an exact reader for decimal literals. The reader is `float()` without the rounding to binary.
  - `PyText`: the Python string operations the reader uses: `isdigit`, `isalpha`, `lower`, `strip`, `split(',')`, slicing and `replace`.

Floats are modelled by their exact values.

- A double is its exact decimal expansion, which is what `Decimal(x).as_tuple()` returns.
- `float(text)` is the exact value of the literal (`DecimalText.ParseLiteral`).
- The NumPy arithmetic of `simplest_float_in` and of the leeways is carried out on reals.

Every loop of the source is a Dafny method. Each is proved equal to a specification function, and the properties are proved as lemmas about those functions.

## Model

| member | source | states |
|---|---|---|
| `RoundCompact.ZeroIff` | tools/round_compact.py:80-81 | a number counts as zero exactly when its value is 0 |
| `RoundCompact.RoundStandardFormComponents` | tools/round_compact.py:70-116 | the digit loop, the half-to-even rules and the renormalisation compute the components of the standard form |
| `RoundCompact.LeadingValue` | tools/round_compact.py:91-93 | the loop builds the integer spelled by the first sig_figs digits |
| `RoundCompact.AllZeroFrom` | tools/round_compact.py:99-102 | is_halfway holds exactly when every digit after the rounding digit is 0 |
| `RoundCompact.KeepSigFigs` | tools/round_compact.py:109-113 | str(mantissa) is longer than sig_figs exactly when the mantissa has more than sig_figs digits, and cutting it back to sig_figs characters gives mantissa / 10 |
| `RoundCompact.MantissaAtMostPow10` | tools/round_compact.py:95-115 | the rounded head is at most 10^sig_figs and has at most sig_figs + 1 digits, so the assertion `len(mantissa) == sig_figs` holds |
| `RoundCompact.PaddedValue` | tools/round_compact.py:84-89 | padding with zeros and moving the exponent keeps the value and the position of the leading digit |
| `RoundCompact.RoundsUpIff` | tools/round_compact.py:95-107 | the digit rules (next digit > 5; 5 with a non-zero rest; exact tie with an odd last digit) round up exactly when the dropped tail exceeds half a unit, or equals half and the head is odd |
| `RoundCompact.RoundedHeadNearestEven` | tools/round_compact.py:95-107 | the rounded head times its unit is a nearest multiple of the unit, the even one on a tie |
| `RoundCompact.StandardFormShape` | tools/round_compact.py:72-77 | zero gives (0, 0, 0); otherwise the sign is that of x and the mantissa has exactly sig_figs digits, with a leading digit from 1 to 9 |
| `RoundCompact.StandardFormCarry` | tools/round_compact.py:110-113 | a carry such as 999 to 1000 gives mantissa 10^(sig_figs-1) and an exponent one higher |
| `RoundCompact.StandardFormValue` | tools/round_compact.py:95-116 | the components denote the half-to-even rounding of x at the unit of its sig_figs-th significant digit, with the sign of x |
| `RoundCompact.StandardFormExact` | tools/round_compact.py:84-116 | a number with no more digits than are kept is reproduced exactly |
| `RoundCompact.TiesToEven` | tools/round_compact.py:105-107 | 2.5 and 3.5 at one significant figure give 2 and 4 |
| `RoundCompact.CarryExample` | tools/round_compact.py:110-113 | 999 at two significant figures gives mantissa 10 and exponent 3, written "1000" |
| `RoundCompact.ComposeValue` | tools/round_compact.py:118-126 | the composed text reads back as the sign, the integer of the mantissa digits, and the exponent less the digits after the point |
| `RoundCompact.ComposeMarkers` | tools/round_compact.py:120-126 | the text has an `e` exactly when the exponent is not 0, and starts with `-` exactly when the sign is -1 |
| `RoundCompact.DropExponent` | tools/round_compact.py:153-166 | the three exponent-removal branches compute the exponent-free layout |
| `RoundCompact.PlainLayoutExponent` | tools/round_compact.py:153-166 | the exponent becomes 0 exactly when e = 0, 0 < e < n, n <= e <= n + len(str(e)) + 6 or -6 - len(str(e)) <= e < 0; otherwise the layout is the standard one |
| `RoundCompact.PlainLayoutValue` | tools/round_compact.py:153-166 | every layout, whether the point moved or zeros were padded on the right or left, denotes the same value as the standard form |
| `RoundCompact.PaddedRightKeeps` | tools/round_compact.py:158-162 | padding e - n + 1 zeros on the right and moving the point keeps the value |
| `RoundCompact.PaddedLeftKeeps` | tools/round_compact.py:163-166 | padding -e zeros on the left keeps the value |
| `RoundCompact.ZeroFloatIsParsed` | tools/round_compact.py:41 | `FormattedFloat.ZERO` is what the constructor makes of "0" |
| `RoundCompact.ZeroLiteralValue` | tools/round_compact.py:140-142 | the zero text reads as 0, has no exponent and has length 1 or sig_figs + 1 |
| `RoundCompact.StandardTextValue` | tools/round_compact.py:150-151 | the first attempt reads back as the value of the components |
| `RoundCompact.PlainTextValue` | tools/round_compact.py:168-169 | the second attempt reads back as the value of the components |
| `RoundCompact.FormsValue` | tools/round_compact.py:175 | both attempts parse and read as the same number |
| `RoundCompact.CompactChoice` | tools/round_compact.py:171-172 | the chosen text is no longer than either attempt; the standard form is chosen only when strictly shorter |
| `RoundCompact.CompactText` | tools/round_compact.py:144-172 | the method computes the text round_compact picks |
| `RoundCompact.RoundCompact` | tools/round_compact.py:128-178 | the method computes round_compact: ValueError for a negative sig_figs, ZERO for 0, a clamp to 17, then the compact literal |
| `RoundCompact.CompactLiteralValue` | tools/round_compact.py:144-176 | the picked text parses, and reads as the value of the rounded components |
| `RoundCompact.RoundCompactResult` | tools/round_compact.py:135-142 | it fails exactly for a negative sig_figs; 0 gives ZERO; otherwise the FormattedFloat holds the compact text and its value |
| `RoundCompact.RoundCompactNearest` | tools/round_compact.py:176 | the result's value is the half-to-even rounding of x to min(sig_figs, 17) significant figures |
| `RoundCompact.RoundCompactExact` | tools/round_compact.py:133 | when x has at most min(sig_figs, 17) significant digits, rounding does not change it |
| `RoundCompact.KeepShorter` | tools/round_compact.py:192-193 | one step of the loop: an attempt replaces the best so far when it lies in [a, b] and is strictly shorter |
| `RoundCompact.RoundAttempt` | tools/round_compact.py:191 | round_compact never fails for the sig_figs the loop visits |
| `RoundCompact.ShortestWithin` | tools/round_compact.py:190-193 | the loop over sig_figs = 17 … 0 computes the fold of the attempts |
| `RoundCompact.RoundCompactInInterval` | tools/round_compact.py:180-194 | the method computes round_compact_in_interval, including its ValueError for x outside [a, b] |
| `RoundCompact.BestOfNoLonger` | tools/round_compact.py:189-193 | the result is never longer than the starting text |
| `RoundCompact.BestOfWithin` | tools/round_compact.py:192-193 | starting from a value in [a, b], the result stays in [a, b] |
| `RoundCompact.BestOfShortest` | tools/round_compact.py:182-184 | no attempt in [a, b] is shorter than the result |
| `RoundCompact.BestOfFirstShortest` | tools/round_compact.py:190-193 | the result is the start, or the first attempt in [a, b] of minimal length, and strictly shorter than the start |
| `RoundCompact.RoundCompactInIntervalResult` | tools/round_compact.py:180-194 | it errs exactly when x is outside [a, b] or str(x) is not a literal; otherwise the result is no longer than str(x) or any attempt in [a, b], and it lies in [a, b] |
| `RoundCompact.IntervalResultWithin` | tools/round_compact.py:226-228 | for a <= x <= b the result lies in [a, b] |
| `RoundCompact.RoundCompactInIntervalChoice` | tools/round_compact.py:189-194 | the result is str(x) or the first shortest attempt in [a, b] |
| `FloatEncoder.MatchLengthIff` | tools/round_compact.py:67 | the matcher finds a match of length n exactly when the pattern `"FormattedFloat\(([^)]+)\)"` matches the first n characters |
| `FloatEncoder.ApplyAtMatch` | tools/round_compact.py:67-68 | at a match, re.sub emits the group and resumes after the match |
| `FloatEncoder.ConstructedIsWellFormed` | tools/round_compact.py:18-22 | the text of a FormattedFloat built from a string that float() accepts is non-empty and holds only literal characters |
| `FloatEncoder.EncodedFloat` | tools/round_compact.py:56-59 | default() writes a FormattedFloat as the JSON string of its repr |
| `FloatEncoder.CopyText` | tools/round_compact.py:67-68 | text without `(` is copied unchanged |
| `FloatEncoder.Unquote` | tools/round_compact.py:61-68 | an encoded FormattedFloat becomes its own text |
| `FloatEncoder.FormattingRoundTrip` | tools/round_compact.py:61-68 | apply_formatting turns the encoded JSON text into the text with each FormattedFloat written verbatim |
| `FloatEncoder.UnchangedWithoutParen` | tools/round_compact.py:61-68 | JSON text without `(` passes through unchanged |
| `FloatEncoder.ExampleEncoded` | tools/round_compact.py:50-51 | the documented data encodes as `[8100000.0, "FormattedFloat(8.1e6)"]` |
| `FloatEncoder.DocumentedExample` | tools/round_compact.py:48-54 | the documented example formats to `[8100000.0, 8.1e6]` |
| `Tools.Scale` | tools.py:26-29 | the scale is a power of ten s with s <= b - a < 10 s |
| `Tools.ScalePower` | tools.py:27 | the scale is 10^k for an integer k |
| `Tools.Bracket` | tools.py:31-34 | floor and ceiling multiples bracket x: the floor is at most x, x is below floor + s, and the ceiling is the next multiple unless x is one |
| `Tools.SimplestEarlyExits` | tools.py:17-21 | zero when x is 0 or the interval holds 0; otherwise x itself when the interval has width zero or its width relative to \|x\| is below 1e-10 |
| `Tools.SimplestOdd` | tools.py:22-23 | negating x and the interval negates the result |
| `Tools.CandidatesWithin` | tools.py:35-43 | for x in [a, b] and a scale no larger than b - a, the picked candidate lies in [a, b] |
| `Tools.SimplestWithinPositive` | tools.py:24-43 | for positive x in [a, b] the result lies in [a, b] |
| `Tools.SimplestWithin` | tools.py:11-43 | for every x in [a, b] the result lies in [a, b] |
| `Tools.CandidatesCoarsest` | tools.py:35-38 | when a multiple of 10 * scale lies in [a, b], it is the result |
| `Tools.CandidatesNearest` | tools.py:39-40 | when no multiple of 10 * scale qualifies, the result is at least as close to x as every multiple of scale in [a, b]; when both neighbouring multiples of scale lie in [a, b] at the same distance, the lower one is taken |
| `Tools.DocumentedLimitation` | tools.py:15 | the documented case (x, a, b) = (1, 0.5, 10000) gives 10000 |
| `Tools.TwoDigitExample` | tools.py:31-40 | x = 0.1313 in [0.12, 0.14] gives 0.13 |
| `Tools.ConvertIntegerFloats` | tools.py:71-77 | a float with an integral value becomes the int of that value; any other value comes back unchanged |
| `Tools.ConvertIntegerFloatsIdempotent` | tools.py:71-77 | converting twice is converting once |
| `Vsop87aTruncate.ThresholdWeights` | vsop87a_truncate.py:17-30 | every listed body has a positive weight; EARTH-MOON has 1.0, MERCURY 0.39, VENUS 0.28, MARS 0.52 and NEPTUNE 29.06; EARTH has none |
| `Vsop87aTruncate.PerturbationBudget` | vsop87a_truncate.py:44-60 | delta_a T_MAX^alpha, delta_b \|a\| T_MAX^alpha and delta_c \|a\| T_MAX^(alpha+1) each equal the limit |
| `Vsop87aTruncate.AroundWithin` | vsop87a_truncate.py:61-63 | round_compact_in_interval(v, v - d, v + d) succeeds and lies within d of v |
| `Vsop87aTruncate.SimplifyZero` | vsop87a_truncate.py:55-57 | a zero amplitude gives three ZERO literals |
| `Vsop87aTruncate.SimplifyWithin` | vsop87a_truncate.py:58-64 | a', b' and c' lie within delta_a, delta_a / \|a\| and delta_a / \|a\| / T_MAX of a, b and c |
| `Vsop87aTruncate.SimplifyDrops` | vsop87a_truncate.py:82-84 | simplify succeeds, and a term is dropped only if \|a\| <= delta_a |
| `Vsop87aTruncate.SimplifySucceeds` | vsop87a_truncate.py:61-64 | simplify succeeds for every term of doubles whose repr reads back, at any limit >= 0 |
| `Vsop87aTruncate.ReshapeFlatten` | vsop87a_truncate.py:79 | reshape(-1, 3) succeeds exactly when the count is a multiple of 3, and the rows read back are the coefficients |
| `Vsop87aTruncate.FlattenReshape` | vsop87a_truncate.py:79 | reshaping rows read back gives the rows |
| `Vsop87aTruncate.CountTerm` | vsop87a_truncate.py:87 | term_count.get(name, 0) + 1 counts one more term of the body |
| `Vsop87aTruncate.KeptStep` | vsop87a_truncate.py:81-86 | one term: kept with its three literals unless its amplitude reads as 0 |
| `Vsop87aTruncate.KeptStepError` | vsop87a_truncate.py:81-82 | an error of simplify aborts the group with that error |
| `Vsop87aTruncate.GroupsStep` | vsop87a_truncate.py:76-91 | one group: appended when it keeps a term, with its term count added |
| `Vsop87aTruncate.GroupsStepError` | vsop87a_truncate.py:76-82 | an error in a group aborts the body with that error |
| `Vsop87aTruncate.BodiesStepSkip` | vsop87a_truncate.py:72-73 | EARTH is skipped |
| `Vsop87aTruncate.BodiesStepError` | vsop87a_truncate.py:74-82 | a body without a weight raises KeyError; a failing group aborts the series |
| `Vsop87aTruncate.BodiesStepOk` | vsop87a_truncate.py:74-91 | one body: listed only when some group keeps a term; its kept terms are added to its count |
| `Vsop87aTruncate.KeepTerms` | vsop87a_truncate.py:81-87 | the term loop computes the kept literals and adds their terms to the body's count |
| `Vsop87aTruncate.TruncateTerms` | vsop87a_truncate.py:77-88 | a group: reshape into rows, then the term loop |
| `Vsop87aTruncate.TruncateBody` | vsop87a_truncate.py:76-91 | the group loop computes the body's truncated groups and its term count |
| `Vsop87aTruncate.TruncateBodiesWith` | vsop87a_truncate.py:69-91 | the body loop computes the truncated bodies and term_count |
| `Vsop87aTruncate.TruncateSeries` | vsop87a_truncate.py:66-100 | truncate_series returns the comment, the matrix and the truncated bodies, with term_count |
| `Vsop87aTruncate.KeptCoeffsShape` | vsop87a_truncate.py:81-86 | kept literals come in threes, exactly three for each term whose amplitude does not read as 0 and none for the others, so at most three per input term |
| `Vsop87aTruncate.TruncateGroupsShape` | vsop87a_truncate.py:76-91 | the groups are the truncations of exactly the input groups that keep a term, in input order; each is non-empty and well formed, with its group's coord and alpha; the count is the number of kept terms |
| `Vsop87aTruncate.TruncateGroupsSound` | vsop87a_truncate.py:76-91 | each group is non-empty and well formed, with the coord and alpha of an input group, and the count is the number of terms they hold |
| `Vsop87aTruncate.TruncateGroupsComplete` | vsop87a_truncate.py:76-91 | the groups are, in input order, the truncation of every group that keeps a term and of no other group |
| `Vsop87aTruncate.TruncateBodiesShape` | vsop87a_truncate.py:69-91 | the bodies are exactly the non-EARTH bodies some of whose groups keep a term, in input order, each with its truncated groups; each has a weight; a body has a term count exactly when it is listed; with distinct names each count is the number of terms listed for that body |
| `Vsop87aTruncate.TruncateBodiesSound` | vsop87a_truncate.py:69-91 | EARTH is never listed; every body listed has a weight and groups; a body has a term count exactly when it is listed; every name comes from the input |
| `Vsop87aTruncate.TruncateBodiesComplete` | vsop87a_truncate.py:71-91 | the bodies are, in input order, every non-EARTH body some of whose groups keep a term, each with its truncated groups, and no other body |
| `Vsop87aTruncate.TruncateBodiesCounts` | vsop87a_truncate.py:81-91 | with distinct body names, term_count of each listed body is the number of terms in its truncated groups |
| `Vsop87aTruncate.KeptCoeffsOk` | vsop87a_truncate.py:81-86 | the term loop succeeds exactly when simplify succeeds on every term |
| `Vsop87aTruncate.TruncateGroupOk` | vsop87a_truncate.py:79-86 | a group succeeds exactly when its coefficient count is a multiple of 3 |
| `Vsop87aTruncate.TruncateGroupsOk` | vsop87a_truncate.py:76-91 | a body's groups succeed exactly when every group does |
| `Vsop87aTruncate.TruncateBodiesOk` | vsop87a_truncate.py:71-91 | the body loop succeeds exactly when every body is EARTH or has a weight and its groups succeed |
| `Vsop87aTruncate.BodyGroupsOk` | vsop87a_truncate.py:74-91 | a weighted body succeeds exactly when all its groups come in threes |
| `Vsop87aTruncate.TruncateSeriesResult` | vsop87a_truncate.py:66-100 | truncate_series succeeds exactly when every body other than EARTH has a weight and groups in threes; then the comment names T_MAX and THRESHOLD_EXP, the matrix passes through, the bodies are exactly those that keep a term, in input order, and with distinct names term_count holds the number of terms of each |
| `Vsop87aTruncate.TruncateSeriesOk` | vsop87a_truncate.py:66-91 | truncate_series succeeds exactly when every body other than EARTH has a weight and groups in threes |
| `Mpp02Truncate.Limits` | mpp02_truncate.py:61 | every coordinate has a positive limit: THRESHOLD / ARCSEC for the angles and THRESHOLD * 384399 for the distance |
| `Mpp02Truncate.LeewayBudget` | mpp02_truncate.py:27-32 | leeway0 T_MAX^alpha and leeway_k \|c0\| T_MAX^(alpha+k) each equal the limit |
| `Mpp02Truncate.LeewaysShrink` | mpp02_truncate.py:38-40 | the leeways are non-negative and shrink with the power of t |
| `Mpp02Truncate.Simplify` | mpp02_truncate.py:19-41 | the method, with its loop over k, computes simplify |
| `Mpp02Truncate.SimplifyZero` | mpp02_truncate.py:34-35 | a zero amplitude gives six int zeros |
| `Mpp02Truncate.ConvertedNumber` | mpp02_truncate.py:41 | converting an integral float keeps the number |
| `Mpp02Truncate.SimplestWithin` | mpp02_truncate.py:37 | the simplified number lies within its leeway, and is 0 exactly when \|v\| <= leeway |
| `Mpp02Truncate.SimplifyWithin` | mpp02_truncate.py:36-41 | each of the six new coefficients lies within its leeway of the old one |
| `Mpp02Truncate.SimplifyDrops` | mpp02_truncate.py:62-64 | a term is dropped exactly when \|c0\| <= leeway0 |
| `Mpp02Truncate.SimplifyIntegral` | mpp02_truncate.py:41 | every new coefficient is an int, or a float with a fractional part |
| `Mpp02Truncate.ReshapeFlatten` | mpp02_truncate.py:56 | reshape(-1, 6) succeeds exactly when the count is a multiple of 6, and the rows read back are the coefficients |
| `Mpp02Truncate.KeptStep` | mpp02_truncate.py:58-65 | one term: its six new coefficients are kept unless the amplitude is 0 |
| `Mpp02Truncate.TruncateTerms` | mpp02_truncate.py:54-65 | the term loop computes a group's kept coefficients; a bad count raises ValueError |
| `Mpp02Truncate.GroupsErrorStays` | mpp02_truncate.py:53-56 | a failing group aborts the series with its error |
| `Mpp02Truncate.TruncateSeries` | mpp02_truncate.py:51-69 | the group loop, the extended comment and W compute truncate_series |
| `Mpp02Truncate.KeptCoeffsShape` | mpp02_truncate.py:58-65 | kept coefficients come in sixes, no kept amplitude is 0, and there are six per kept term |
| `Mpp02Truncate.NumKeptAtMost` | mpp02_truncate.py:58-65 | no more terms are kept than there were |
| `Mpp02Truncate.TruncateGroupShape` | mpp02_truncate.py:56-65 | a group's kept coefficients are well formed and hold no more terms than the input group |
| `Mpp02Truncate.TruncateGroupsShape` | mpp02_truncate.py:52-67 | the groups are the truncations of exactly the input groups that keep a term, in input order; each is non-empty and well formed, with its group's coord and alpha; together they hold no more terms than the input |
| `Mpp02Truncate.TruncateGroupsSound` | mpp02_truncate.py:52-67 | each group is non-empty and well formed and is the truncation of an input group with its coord and alpha; together they hold no more terms than the input |
| `Mpp02Truncate.TruncateGroupsComplete` | mpp02_truncate.py:52-67 | the groups are, in input order, the truncation of every group that keeps a term and of no other group |
| `Mpp02Truncate.NumKeptPositive` | mpp02_truncate.py:58-65 | some term of a group is kept exactly when some term has \|c0\| > leeway0 |
| `Mpp02Truncate.GroupKeptIff` | mpp02_truncate.py:56-67 | a group whose count is a multiple of 6 reshapes, and is listed exactly when one of its terms has \|c0\| > leeway0 |
| `Mpp02Truncate.TruncateGroupsOk` | mpp02_truncate.py:53-67 | the group loop succeeds exactly when every group's count is a multiple of 6 |
| `Mpp02Truncate.TruncateSeriesResult` | mpp02_truncate.py:51-71 | truncate_series succeeds exactly when every group comes in sixes; then W passes through, the comment gets its suffix, and the groups are exactly the truncations of the groups that keep a term, in input order |
| `Mpp02Truncate.KeyText` | mpp02_truncate.py:46 | the key text is at least five characters long, opens with `(` and closes with `)` |
| `Mpp02Truncate.KeyTextInjective` | mpp02_truncate.py:46-47 | two (coord, alpha) keys spell the same text only when they are equal |
| `Mpp02Truncate.CountCoeffs` | mpp02_truncate.py:43-49 | the method computes count_coeffs: the dict, or the sum of its values |
| `Mpp02Truncate.SumAssign` | mpp02_truncate.py:47 | assigning a key adds at most its value to the sum, and exactly that for a new key |
| `Mpp02Truncate.CountsAtMost` | mpp02_truncate.py:43-49 | the total is at most the number of terms in the groups |
| `Mpp02Truncate.CountsDistinct` | mpp02_truncate.py:44-47 | with distinct (coord, alpha) keys, the dict has one entry per group, in order |
| `Mpp02Truncate.EntriesSum` | mpp02_truncate.py:48 | the entries sum to the number of terms |
| `Mpp02Truncate.TruncatedTotalAtMost` | mpp02_truncate.py:70 | with distinct keys, the truncated total printed is at most the raw total |
| `FixedLengthFormat.TypeOfLetter` | fixed_length_reader.py:35 | the letter written for a type reads back as that type, and is a single letter |
| `FixedLengthFormat.UnknownTypes` | fixed_length_reader.py:35 | every part whose letter run after the leading digits is empty or is not one of x, i, f, s raises KeyError |
| `FixedLengthFormat.UnknownTypeExamples` | fixed_length_reader.py:35 | two instances: the empty part and `ii3` raise KeyError |
| `FixedLengthFormat.FieldSpecOfParts` | fixed_length_reader.py:20-43 | a part of digits a, letters b, digits c reads as multiplicity a (1 when empty), type b and length c (None when empty) |
| `FixedLengthFormat.FieldSpecRoundTrip` | fixed_length_reader.py:20-43 | reading the text written for a field spec gives that field spec back |
| `FixedLengthFormat.FieldSpecDefaults` | fixed_length_reader.py:24-29 | a part with no multiplicity digits, a type letter and a length reads as multiplicity 1 with that length |
| `FixedLengthFormat.FixedLengthReader.ParseFieldSpec` | fixed_length_reader.py:20-43 | the three loops compute the field spec |
| `FixedLengthFormat.FixedLengthReader.DigitRun` | fixed_length_reader.py:24-28 | the digit loop stops at the first non-digit and gathers the digits before it |
| `FixedLengthFormat.FixedLengthReader.AlphaRun` | fixed_length_reader.py:30-34 | the letter loop stops at the first non-letter and gathers the letters before it |
| `FixedLengthFormat.IndexAndEmptyParts` | fixed_length_reader.py:55-57 | a digit part sets the current index to its value; an empty part raises KeyError |
| `FixedLengthFormat.ImplicitLengthFails` | fixed_length_reader.py:61-68 | a non-integer next part raises ValueError, multiplicity 0 raises ZeroDivisionError and an indivisible span raises ValueError; otherwise the span is shared equally |
| `FixedLengthFormat.ImplicitFillsToNext` | fixed_length_reader.py:61-68 | a part with an implicit length ends exactly at the index the next part names |
| `FixedLengthFormat.ExplicitPart` | fixed_length_reader.py:59-75 | a part with a length adds its m entries and moves the index by m times the length |
| `FixedLengthFormat.ExpandLayout` | fixed_length_reader.py:71-75 | the m fields of a part are consecutive, each starting where the previous one ends; skipped fields add none |
| `FixedLengthFormat.CompilePrefix` | fixed_length_reader.py:53-75 | a later part never changes the entries already compiled |
| `FixedLengthFormat.FixedLengthReader.FieldLength` | fixed_length_reader.py:61-68 | the method computes the implicit length and its errors |
| `FixedLengthFormat.FixedLengthReader.AppendFields` | fixed_length_reader.py:70-75 | the expansion loop appends the entries and advances the index |
| `FixedLengthFormat.FixedLengthReader.ParseFormatString` | fixed_length_reader.py:45-77 | the loop over the parts computes the format list |
| `FixedLengthFormat.FixedLengthReader.Create` | fixed_length_reader.py:10-18 | the reader holds the format list of the lower-cased format string, or the constructor raises its error |
| `FixedLengthFormat.CaseInsensitive` | fixed_length_reader.py:18 | lower-casing again does not change the format list |
| `FixedLengthFormat.DocSplit` | fixed_length_reader.py:6 | the documented format splits into its nine parts |
| `FixedLengthFormat.DocFormatList` | fixed_length_reader.py:6 | the documented format compiles to its 19 entries |
| `FixedLengthFormat.DocFormatShape` | fixed_length_reader.py:6-7 | the documented format has 19 fields, from an int at column 3 to a float at column 111 of length 20 |
| `FixedLengthFormat.FieldTextColumns` | fixed_length_reader.py:85 | a field is the line's characters from start, for length characters or to the end |
| `FixedLengthFormat.ConvertFields` | fixed_length_reader.py:86-92 | a str field is the text, stripped when strip_strings is set; a float field converts the stripped text with d and D replaced by e; an int field is int() (PyInt) of the stripped text, succeeding exactly when int() does, and is the number spelled when that text is all digits |
| `FixedLengthFormat.ValueOfType` | fixed_length_reader.py:84-92 | each field value has its entry's type; a conversion failure is a ValueError |
| `FixedLengthFormat.FixedLengthReader.ReadField` | fixed_length_reader.py:85-92 | the method computes one field's value |
| `FixedLengthFormat.FixedLengthReader.ConvertField` | fixed_length_reader.py:86-92 | the type dispatch computes the conversion |
| `FixedLengthFormat.FixedLengthReader.Read` | fixed_length_reader.py:79-94 | the loop over the format list computes read |
| `FixedLengthFormat.CollectOk` | fixed_length_reader.py:83-94 | collecting results succeeds exactly when every one is Ok; an error is that of a failing field |
| `FixedLengthFormat.CollectValues` | fixed_length_reader.py:83-94 | collected values are the results in order |
| `FixedLengthFormat.ReadOk` | fixed_length_reader.py:79-94 | read succeeds exactly when every field converts; otherwise it raises ValueError |
| `FixedLengthFormat.ReadValues` | fixed_length_reader.py:79-94 | read returns one value per entry, in order: each entry's value, of its type |
| `PyText.DigitRunEndSpec` | fixed_length_reader.py:26 | the digit run ends at the first non-digit |
| `PyText.AlphaRunEndSpec` | fixed_length_reader.py:32 | the letter run ends at the first non-letter |
| `PyText.LowerProperties` | fixed_length_reader.py:18 | lower keeps the length and the non-capitals, leaves no capitals, keeps letters letters and is idempotent |
| `PyText.StripAround` | fixed_length_reader.py:87 | strip removes only whitespace from the two ends |
| `PyText.StripEnds` | fixed_length_reader.py:87 | the stripped text neither starts nor ends with whitespace |
| `PyText.StripIdempotent` | fixed_length_reader.py:87 | stripping twice is stripping once |
| `PyText.PyIntOfDigits` | fixed_length_reader.py:56 | int() of a digit string is the number it spells |
| `PyText.SplitNoComma` | fixed_length_reader.py:50 | no part of split(',') contains a comma |
| `PyText.SplitJoin` | fixed_length_reader.py:50 | joining the parts with commas gives the text back |
| `PyText.JoinSplit` | fixed_length_reader.py:50 | splitting comma-free parts joined with commas gives the parts back |
| `PyText.SliceProperties` | fixed_length_reader.py:85 | a slice is a run of the text's characters; within bounds it is exactly line[start:end] |
| `DecimalText.ParseLiteralOfParts` | tools/round_compact.py:22 | float() of a literal built from sign, digits, fraction and exponent is exactly that decimal |
| `DecimalText.LiteralChars` | tools/round_compact.py:22 | a text float() accepts is non-empty and holds only digits, `.`, `e`, `E` and signs |
| `DecimalText.NatToStringValue` | tools/round_compact.py:109 | str(n) spells n, without a leading zero |
| `DecimalText.IntToStringRoundTrip` | tools/round_compact.py:146 | int(str(e)) == e for every integer exponent |

## Left out

- Binary floating point.
  - A double is its exact decimal expansion plus its repr.
  - float(text) is the exact decimal value, with no rounding to 53 bits.
  - So the remark that 17 significant figures reproduce any double, and the `float(...) == float(...)` assertions, are stated on exact values (RoundCompactExact, FormsValue, RoundCompactNearest).
- `str(x)` of a double is not computed. It is a given text that must read back as x (`Vsop87aTruncate.Double.Valid`). `round_compact_in_interval` takes it as a parameter.
- `np.log10`, `np.power` and `round_sig(., 12)` in `simplest_float_in` are exact.
  - `round_sig` is the identity.
  - The scale is the exact power of ten with s <= b - a < 10 s.
  - Precision effects of doubles near powers of ten are not modelled.
- `float()` accepts only `[sign] digits [. digits] [e [sign] digits]`. Whitespace, underscores, `inf` and `nan` are not modelled. None of them occurs in the texts the core builds.
- `int()` (PyInt) accepts surrounding whitespace, an optional sign and ASCII digits. Underscores and non-ASCII digits are not modelled.
- `str.isdigit`, `str.isalpha` and `str.lower` are the ASCII versions. `str.isspace` is Python's full set.
- read's `float(...)` conversion is a parameter (`Converters`). It is not computed, because float() of a field rounds to binary. read's `int(...)` is exact and is computed by PyInt.
- `alpha` is a nat. The series files only hold non-negative powers of t.
- The THRESHOLD in the MPP02 comment suffix is written as `1e-07`, the usual repr of that double. The exact spelling depends on NumPy's version.
- The VSOP87A and MPP02 series are given as values.
  - Loading and writing JSON, the regex rewrite in `write_data` and printing are left out.
  - So are the error reports against the raw series and the JPL ephemeris, and the random self-tests.
- A Python dict is a sequence of entries in insertion order. count_coeffs keys it by the (coord, alpha) pair, and the string `f'({coord},{alpha})'` is given by KeyText. KeyTextInjective proves that distinct pairs give distinct texts, so the counting is unchanged.
- Vsop87aTruncate.TruncateBodiesShape: states the per-body term count for distinct body names (DistinctNames). The bodies come from the dict `obj_raw['bodies']`, whose keys are distinct; the model takes them as a sequence of (name, groups) pairs, which could repeat a name.
- Vsop87aTruncate.TruncateSeriesResult: states term_count under DistinctNames, for the same reason.
- Vsop87aTruncate.SimplifyDrops: states only that a dropped term has |a| <= delta_a, not the converse. Some amplitudes with |a| <= delta_a keep a one-character literal such as `5`, which is no longer than `0`, so they are not dropped.
- Mpp02Truncate.TruncatedTotalAtMost: requires distinct (coord, alpha) keys. With repeated keys the dict keeps only the last group's count, so the raw total the source prints can be smaller than the number of terms.
- RoundCompact.RoundStandardFormComponents: requires sig_figs >= 1. With 0 the source ends in `int('')`, which raises ValueError, and round_compact never passes 0.
- FloatEncoder.FormattingRoundTrip: requires the JSON text around the encoded floats to hold no `(`, because a match of the pattern could otherwise start inside it. json.dumps of numbers and of the series' keys writes none.
- The magnitude-scan answer of `simplest_float_in` for intervals spanning several orders of magnitude is the documented limitation (DocumentedLimitation). It is kept as written.
