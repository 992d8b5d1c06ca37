# Flare number codec, modelled in Dafny

Flare labels write numbers as short, lowercase, sortable tokens. `encode_number`
turns a signed number into such a token:

- a sign flag: `n`/`s` for a latitude, `e`/`w` for a longitude, with the second
  letter of each pair exactly for negative numbers;
- the integer digits, zero-padded on the left to `len_min`;
- with `decimals > 0`, the letter `p` (the decimal point) and exactly `decimals`
  fraction digits;
- optionally, one magnitude suffix from the table `d`=10, `c`=100, `k`=1000,
  `m`=10^6, `b`=10^9.

`decode_number` reads a token back. It lowercases the token, strips a trailing
suffix (multiplier) and a leading flag (sign). It then reads the text before the
first `p` by a recursive call, truncates that to an integer, and hands
`"<integer>.<fraction>"` to `float()`.

The project models `src/flare/numflare.py`: the tables `SIGN`, `DECIMAL` and
`MAGNITUDES`, `encode_number` with its nested `fill_integer_part`, and
`decode_number`. It is organised as follows:

- `pytext.dfy` (module `PyText`): the Python text built-ins the codec calls.
  These are `str(int)`, `str.zfill`, `str.lower`, `str.split` with a
  one-character separator, and `float()` on finite decimal numerals.
- `rounding.dfy` (module `Rounding`): `round(x)` and `"{:.Nf}".format(x)`. Both
  round the exact value half to even.
- `numflare.dfy` (module `NumFlare`): the tables; `encode_number` as the method
  `EncodeNumber`, with its loop over the magnitude table; the function
  `EncodedToken` that specifies it; `decode_number` as the function
  `DecodeNumber`. Errors are the datatype `Decoded`: `Failure(EmptyToken)` where
  Python raises `IndexError`, `Failure(NotANumber)` where `float()` raises
  `ValueError`.
- `encode_props.dfy`, `decode_props.dfy`: what each direction promises.
- `roundtrip.dfy`: decoding an encoded number.
- `examples.dfy`: the tokens from the module docstring, its script section and
  its unit tests.

Numbers are Dafny `real`s, which take every float at its exact value. `decimals`
is a `nat`.

**Magnitude selection follows the code.** The comment on line 168 says that the
largest qualifying factor is chosen, and the module docstring (lines 51-54) shows
`encode_number(2500, decimals=0, len_min=2, collapse_magnitude=True)` giving
`'n25k'`. The loop on lines 164-168 does something else: it walks `MAGNITUDES` in
declared (ascending) order and breaks on the first factor `<= |x|`. That factor is
always 10, so every `|x| >= 10` is divided by 10 exactly once and gets `d`. The
model follows the code. `Examples.EncodeMagnitude` proves that 2500 becomes
`n250d`. The docstring's `n25k` matches no choice of factor: with the largest
one, 1000, the value 2.5 rounds half to even to 2 and the token would be `n02k`.
`Examples.DecodeKilo` proves that `n25k` reads back as 25000, not 2500.

## Model

All source paths are in the Flare repository.

| member | source | states |
|---|---|---|
| NumFlare.SuffixIndex | src/flare/numflare.py:98-104 | the position of a key in `MAGNITUDES` in declared order: the entry there has that key and no earlier entry does (`c in MAGNITUDES`, `MAGNITUDES[c]`) |
| NumFlare.Abs | src/flare/numflare.py:159 | `abs(number)` is non-negative and is `number` or `-number` |
| NumFlare.SignFlag | src/flare/numflare.py:146-156 | the flag is one of the four; it is `s` or `w` exactly when `number < 0`, so zero is positive; it is `n` or `s` exactly for a latitude |
| NumFlare.FirstFactorAtMost | src/flare/numflare.py:164-168 | where the `for … break` loop stops: the first entry in declared order whose factor is at most the value, with every earlier factor above it, or past the end when none qualifies |
| NumFlare.CollapseAt | src/flare/numflare.py:164-168 | when entry `i` is the first qualifying one, the value is divided by its factor once and its key becomes the suffix |
| NumFlare.CollapseNone | src/flare/numflare.py:163-168 | when no factor qualifies, the value and the empty suffix are left as they are |
| NumFlare.SplitFormatted | src/flare/numflare.py:182-187 | splitting the formatted text at `.` gives exactly two parts, the integer digits and the fraction digits |
| NumFlare.EncodeNumberPart | src/flare/numflare.py:170-193 | the digits step, as imperative code, returns `NumberPart`: rounded digits padded to `len_min`, or padded integer digits, `p`, fraction digits |
| NumFlare.EncodeNumber | src/flare/numflare.py:119-196 | `encode_number`, with the same parameter defaults, step by step (flag, absolute value, the magnitude loop with its `break`, digits, lowercasing) returns `EncodedToken`; the loop invariant says no factor passed so far is at most the value |
| NumFlare.Truncate | src/flare/numflare.py:236 | `int(x)` truncates toward zero: for `x >= 0` the largest integer not above `x`, for `x < 0` the smallest not below it |
| NumFlare.DecodeUnsigned | src/flare/numflare.py:232-241 | the decimal stage; a text starting with `p` fails with `EmptyToken`, because the recursive call on line 236 gets an empty token |
| NumFlare.DecodeNumber | src/flare/numflare.py:199-241 | `decode_number`; an empty token fails with `EmptyToken`, the `IndexError` of `[-1]` on line 213 |
| NumFlare.SplitFirst | src/flare/numflare.py:233-236 | when `p` occurs, the split has at least two parts and the first is shorter than the text, so the recursive call on it ends |
| Rounding.RoundHalfEven | src/flare/numflare.py:176 | `round(x)` is within 1/2 of `x`, is even when exactly 1/2 away, and is non-negative for `x >= 0` |
| Rounding.RoundHalfEvenUnique | src/flare/numflare.py:176 | any integer with those two properties is `round(x)` |
| Rounding.RoundWhole | src/flare/numflare.py:176 | `round` leaves whole numbers alone |
| Rounding.FixedDigits | src/flare/numflare.py:182 | the digits of `"{:.Nf}"` without the point: at least `N+1` digits, with no leading zero beyond that width, whose value is `x * 10^N` rounded half to even |
| Rounding.FixedParts | src/flare/numflare.py:182-187 | the integer part is non-empty with no leading zero unless it is a lone `0`, and the fraction has exactly `N` digits; both are digit strings, and together they denote `x * 10^N` rounded |
| Rounding.FormatFixedNoPlaces | src/flare/numflare.py:176 | with no places, the fixed-point text is `str(round(x))` |
| PyText.NatToDigits | src/flare/numflare.py:176 | `str(n)`: a non-empty digit string whose value is `n`, with no leading zero |
| PyText.ZFillLayout | src/flare/numflare.py:142 | `zfill(width)` has length `max(width, len(s))`, ends in `s` and holds only zeros before it, so nothing is cut off |
| PyText.ZFillValue | src/flare/numflare.py:139-144 | zero padding keeps a digit string a digit string with the same value |
| PyText.Lower | src/flare/numflare.py:196 | `lower()` keeps the length, turns each capital into the same letter in lowercase, leaves every other character as it is, and leaves no capital |
| PyText.LowerFixes | src/flare/numflare.py:209 | lowering is idempotent, leaves text without capitals alone, and yields no capitals |
| PyText.Split | src/flare/numflare.py:235 | `split(sep)`: no part holds `sep`, the parts joined with `sep` give the text back, and there are at least two parts exactly when `sep` occurs |
| PyText.SplitJoin | src/flare/numflare.py:185 | splitting undoes joining parts that hold no separator |
| PyText.SplitTwo | src/flare/numflare.py:185-187 | a text with one separator splits into its two sides |
| PyText.SplitThree | src/flare/numflare.py:235-237 | a text with two separators splits into its three pieces |
| PyText.IntToTextDigits | src/flare/numflare.py:236 | `str(i)` starts with `-` exactly for negative `i`, followed by the digits of `|i|` with no leading zero |
| PyText.ParseFloat | src/flare/numflare.py:241 | `float()` accepts a text only when it is non-empty and starts with a digit, a sign or `.` |
| PyText.ParseFloatDigits | src/flare/numflare.py:241 | `float()` of a digit string is its value, leading zeros allowed |
| PyText.ParseFloatFixed | src/flare/numflare.py:241 | `float()` of `[-]a.b` is the signed decimal value of `a.b` |
| EncodeProperties.TablesDisjoint | src/flare/numflare.py:85-104 | the four flags are distinct; no flag is a suffix or `p`; `p` is not a suffix; factors strictly ascend in declared order |
| EncodeProperties.MagnitudeKeys | src/flare/numflare.py:98-104 | the suffix keys are exactly `d`, `c`, `k`, `m`, `b` |
| EncodeProperties.CollapseChoosesDecimal | src/flare/numflare.py:162-168 | the magnitude step on a value of at least 10 divides by 10 once and writes `d`; on a smaller value it does nothing |
| EncodeProperties.ScalingCases | src/flare/numflare.py:158-168 | a suffix, always `d`, appears only when collapsing a number with absolute value at least 10 |
| EncodeProperties.FillIntegerPartLayout | src/flare/numflare.py:139-144 | `fill_integer_part` has length `max(len_min, len(part))` and is `part` with zeros in front, so it never truncates |
| EncodeProperties.CollapseFactor | src/flare/numflare.py:162-168 | the magnitude step either leaves the value alone with no suffix, when every factor is above it, or writes one suffix key whose factor is at most the value and divides the value exactly |
| EncodeProperties.FillIntegerPartDigits | src/flare/numflare.py:139-144 | `fill_integer_part` keeps a non-empty digit string a non-empty digit string of the same value |
| EncodeProperties.NumberPartChars | src/flare/numflare.py:170-193 | the number part is non-empty and made only of digits and `p` |
| EncodeProperties.NumberPartEndsInDigit | src/flare/numflare.py:173-193 | the number part ends in a digit |
| EncodeProperties.RawTokenLowercase | src/flare/numflare.py:196 | flag, number part and `d` hold no capital |
| EncodeProperties.EncodeIsLowercase | src/flare/numflare.py:196 | the token is exactly flag, number part and suffix, and holds no capital |
| EncodeProperties.EncodeSignFlag | src/flare/numflare.py:146-156 | the token starts with `s`/`n` (latitude) or `w`/`e` (longitude), the first of each pair exactly when `number < 0`, and no later character is a sign flag |
| EncodeProperties.EncodeIntegerLayout | src/flare/numflare.py:173-179 | with `decimals == 0` the token holds no `p`; the number part is the rounded value's digits padded on the left with zeros to `max(len_min, digits)`, so it is never truncated; its value is the rounded value |
| EncodeProperties.EncodeDecimalLayout | src/flare/numflare.py:180-193 | with `decimals > 0`: flag, integer digits, exactly one `p`, exactly `decimals` fraction digits, suffix; the integer digits are the formatted integer part (no leading zero unless a lone `0`) padded on the left with zeros to `max(len_min, its length)`; the digits around `p` denote the value rounded to `decimals` places |
| EncodeProperties.CollapsedIsTenth | src/flare/numflare.py:163-168 | collapsing a number with absolute value at least 10 writes the uncollapsed token of `number / 10` followed by `d` |
| EncodeProperties.EncodeMagnitudeSuffix | src/flare/numflare.py:162-168 | at most one suffix letter, only at the end, and only when collapsing with absolute value at least 10; then it is `d` after the token of `number / 10`; otherwise the token ends in a digit |
| DecodeProperties.StripMagnitudeCases | src/flare/numflare.py:212-215 | the suffix step removes the last character exactly when it is a suffix key, with that key's factor as multiplier, and keeps the text with multiplier 1 otherwise |
| DecodeProperties.StripSignCases | src/flare/numflare.py:217-230 | the sign step gives `-1` exactly for a leading `s` or `w` and `1` otherwise; a leading flag of either sign is removed and any other text is kept whole |
| DecodeProperties.StripAppendedKey | src/flare/numflare.py:212-215 | a suffix key appended to a text is exactly what the suffix step removes, with its factor |
| DecodeProperties.DecodeUnflagged | src/flare/numflare.py:217-241 | lowercase text that neither starts with a sign flag nor ends in a suffix key goes to the decimal stage whole, with sign and multiplier 1 |
| DecodeProperties.DecodeCaseInsensitive | src/flare/numflare.py:209 | a token and its lowercase form decode alike |
| DecodeProperties.DecodeDigits | src/flare/numflare.py:241 | a digit string, leading zeros and all, decodes to its value |
| DecodeProperties.StripKeepsUnflaggedLead | src/flare/numflare.py:212-230 | a text that does not start with a sign flag still does not after the suffix step, so the sign step keeps it whole with sign 1 |
| DecodeProperties.DecodeSignFlag | src/flare/numflare.py:217-230 | in front of any lowercase text that does not itself start with a flag, a leading `s`/`w` negates the decoded value and a leading `n`/`e` keeps it; a failure stays the same failure |
| DecodeProperties.DecodeMagnitudeSuffix | src/flare/numflare.py:212-215 | a trailing suffix after a lowercase text that does not itself end in a suffix letter multiplies the decoded value of that text (success or failure) by the suffix's factor |
| DecodeProperties.IntegerPartText | src/flare/numflare.py:236 | the recursive decode of a digit string, truncated by `int()` and turned into text, is the digits without leading zeros |
| DecodeProperties.DecodeDecimal | src/flare/numflare.py:232-241 | `a p f` with digit strings `a` (non-empty) and `f` decodes to the decimal value of `a.f` |
| DecodeProperties.DecodeSignedDecimal | src/flare/numflare.py:217-241 | a sign flag followed by `a p f` decodes to the value of `a.f` with the flag's sign |
| DecodeProperties.DecodeDecimalIgnoresRest | src/flare/numflare.py:235-237 | in `a p f p g`, whatever follows a second `p` is ignored |
| DecodeProperties.DecodeNoIntegerDigits | src/flare/numflare.py:233-236 | a `p` with nothing before it fails with `EmptyToken`: the recursive call gets an empty token |
| DecodeProperties.DecodeBareSuffix | src/flare/numflare.py:212-241 | a lone suffix letter leaves nothing for `float()` and fails with `NotANumber` |
| RoundTrip.RoundedToWithin | src/flare/numflare.py:176 | rounding to `decimals` places moves a value by at most half a unit in the last place |
| RoundTrip.RoundedToExact | src/flare/numflare.py:176 | a value with at most `decimals` places is unchanged by rounding to `decimals` places |
| RoundTrip.FactorOfTen | src/flare/numflare.py:98-99 | `d` is a suffix key with factor 10 |
| RoundTrip.DecodeSuffixTen | src/flare/numflare.py:212-215 | a trailing `d` after a digit multiplies the decoded value by 10 |
| RoundTrip.DecodeIntegerPart | src/flare/numflare.py:173-179 | with no places, the zero-filled integer digits decode to the value rounded half to even |
| RoundTrip.DecodeFixedPart | src/flare/numflare.py:180-193 | with `decimals > 0` places, the zero-filled integer digits, `p` and the fraction digits decode to the value rounded half to even to `decimals` places |
| RoundTrip.NumberPartShape | src/flare/numflare.py:170-193 | an encoded number part starts and ends with a digit and holds no capital |
| RoundTrip.DecodeNumberPart | src/flare/numflare.py:232-241 | an encoded number part starts and ends with a digit, and decodes to the value rounded half to even to `decimals` places |
| RoundTrip.DecodeSignedText | src/flare/numflare.py:217-241 | a sign flag before a digit-led, digit-ended lowercase text keeps the text's decoded value, negated for `s` and `w`, and the result is still lowercase and ends in a digit |
| RoundTrip.DecodeSuffixed | src/flare/numflare.py:212-215 | an empty suffix leaves the decoded value alone and a `d` after a final digit multiplies it by 10 |
| RoundTrip.DecodeRawToken | src/flare/numflare.py:212-241 | a token made of a sign flag, a text that decodes as a number part does, and an empty or `d` suffix decodes to that value with the flag's sign, times 10 when the suffix is `d` |
| RoundTrip.DecodeEncode | src/flare/numflare.py:119-241 | decoding an encoded number gives the value left after the magnitude step, rounded half to even to `decimals` places, with the sign of `number`, times 10 when the token ends in `d` |
| RoundTrip.RoundTripIntegers | tests/unit/test_numflare.py:60-69 | every integer, with `decimals=0` and no collapse, decodes back to itself exactly |
| RoundTrip.RoundTripDecimals | tests/unit/test_numflare.py:71-80 | every number with at most `decimals` places, written with `decimals` places and no collapse, decodes back to itself exactly |
| RoundTrip.RoundTripWithinHalfUnit | src/flare/numflare.py:119-241 | every number decodes successfully and comes back within half a unit in the last written place, or ten times that when the magnitude step divided it by 10 |
| Examples.EncodeSouthLatitude | src/flare/numflare.py:32-35 | `encode_number(-12.3, decimals=1, len_min=4, is_latitude=True)` is `s0012p3` |
| Examples.DecodeSouthLatitude | src/flare/numflare.py:42-45 | `decode_number("s0012p3")` is `-12.3` |
| Examples.EncodeMagnitude | src/flare/numflare.py:51-54 | `encode_number(2500, decimals=0, len_min=2, collapse_magnitude=True)` is `n250d`, not the `n25k` the docstring shows |
| Examples.DecodeKilo | src/flare/numflare.py:51-54 | the docstring's token `n25k` decodes to 25000 |
| Examples.EncodeScript | src/flare/numflare.py:270-274 | the script's `encode_number(100, decimals=1, len_min=3, is_latitude=True, collapse_magnitude=True)` is `n010p0d` |
| Examples.EncodeExactTie | src/flare/numflare.py:164-193 | with exact division, `encode_number(10.5, decimals=1, len_min=1, collapse_magnitude=True)` is `n1p0d`: 1.05 is a tie at one place and rounds to the even `1.0` |
| Examples.DecodeScript | src/flare/numflare.py:275-276 | that token decodes back to 100 |
| Examples.SignFlagTokens | tests/unit/test_numflare.py:82-91 | with `len_min` and `collapse_magnitude` left at their defaults, `-23` as a latitude is `s23` and `45` as a longitude is `e45` |
| Examples.HalfToEven | src/flare/numflare.py:176 | `round` sends halves to the even neighbour: 2.5 is written `n2`, 3.5 `n4` |
| Examples.KnownPairNorth | tests/unit/test_numflare.py:99 | `n002p3` decodes to 2.3 |
| Examples.KnownPairSouth | tests/unit/test_numflare.py:100 | `s023p4` decodes to -23.4 |
| Examples.KnownPairMillions | tests/unit/test_numflare.py:101 | `w05p0m` decodes to -5000000 |
| Examples.KnownPairHundreds | tests/unit/test_numflare.py:102 | `23p44c` decodes to 2344 |
| Examples.KnownPairPadded | tests/unit/test_numflare.py:103 | `00002` decodes to 2 |

Some functions are their own definition and carry no contract of their own, or
only a bound. These rows state what they mean:

- `NumFlare.FillIntegerPart` (`fill_integer_part`, lines 139-144):
  `EncodeProperties.FillIntegerPartLayout` and
  `EncodeProperties.FillIntegerPartDigits`.
- `NumFlare.Collapse`, `NumFlare.Divided` and `NumFlare.Scaling` (the magnitude
  step, lines 158-168): `NumFlare.FirstFactorAtMost`, `NumFlare.CollapseAt`,
  `NumFlare.CollapseNone`, `EncodeProperties.CollapseFactor`,
  `EncodeProperties.CollapseChoosesDecimal` and `EncodeProperties.ScalingCases`.
- `NumFlare.NumberPart` (the digits step, lines 170-193):
  `NumFlare.EncodeNumberPart`, `EncodeProperties.NumberPartChars`,
  `EncodeProperties.NumberPartEndsInDigit`, `RoundTrip.NumberPartShape` and
  `RoundTrip.DecodeNumberPart`.
- `NumFlare.RawToken` and `NumFlare.EncodedToken` (`encode_number`):
  `NumFlare.EncodeNumber`, `EncodeProperties.EncodeIsLowercase`,
  `EncodeProperties.EncodeSignFlag`, `EncodeProperties.EncodeIntegerLayout`,
  `EncodeProperties.EncodeDecimalLayout`, `EncodeProperties.EncodeMagnitudeSuffix`
  and `RoundTrip.DecodeEncode`.
- `NumFlare.StripMagnitude` (lines 212-215):
  `DecodeProperties.StripMagnitudeCases` and `DecodeProperties.StripAppendedKey`.
- `NumFlare.StripSign` (lines 217-230): `DecodeProperties.StripSignCases` and
  `DecodeProperties.StripKeepsUnflaggedLead`.
- `NumFlare.IsMagnitudeKey` and `NumFlare.FactorOf` (`MAGNITUDES`):
  `EncodeProperties.MagnitudeKeys`, `EncodeProperties.TablesDisjoint` and
  `RoundTrip.FactorOfTen`.
- `PyText.IntToText` (`str()` on line 236): `PyText.IntToTextDigits`.
- `PyText.Join`: `PyText.Split` and `PyText.SplitJoin`.
- `PyText.SplitSign`, `PyText.ParseMantissa`, `PyText.ParseExponent` and
  `PyText.ScaleByPow10` (the pieces of `float()`): `PyText.ParseFloat`,
  `PyText.ParseFloatDigits` and `PyText.ParseFloatFixed`.
- `PyText.ZFill`: `PyText.ZFillLayout`, `PyText.ZFillValue` and
  `EncodeProperties.FillIntegerPartLayout`.
- `Rounding.FormatFixed`: `Rounding.FixedParts`, `Rounding.FormatFixedNoPlaces`
  and `NumFlare.SplitFormatted`.
- `NumFlare.ParseNumeral` (`float()` with `ValueError` as `NotANumber`):
  `PyText.ParseFloat`, `PyText.ParseFloatDigits` and `PyText.ParseFloatFixed`.
- `NumFlare.Rescale`, `NumFlare.DecodeLowercase` and the helper lemma
  `DecodeProperties.DecodeStages`: `DecodeProperties.StripMagnitudeCases`,
  `DecodeProperties.StripSignCases`, `DecodeProperties.DecodeSignFlag`,
  `DecodeProperties.DecodeMagnitudeSuffix` and
  `DecodeProperties.DecodeUnflagged`.

## Left out

- Binary floating point. Numbers are exact reals. Python's `round` and `"{:.Nf}"`
  round the exact value of the float, and the model rounds the exact real the
  same way. It does not model a decimal literal such as `12.3` arriving as a
  nearby binary value, nor `float()` rounding its result to the nearest double.
  Nor does it model the rounding of the division `abs_number / factor`
  (line 166) and of the products `sign * float(...) * magnitude_multiplier`
  (line 241), which Python rounds to doubles and the model keeps exact. This
  can change a token: in Python, `encode_number(10.5, decimals=1, len_min=1,
  collapse_magnitude=True)` divides to the double just above 1.05, which
  `"{:.1f}"` writes as `1.1`, giving `n1p1d`; the model divides to exactly 1.05,
  which rounds half to even to `1.0`, giving `n1p0d`
  (`Examples.EncodeExactTie`).
- Non-finite values and overflow. `inf` and `nan` are not modelled, so neither is
  the `OverflowError`/`ValueError` of `int(round(inf))` or `int(round(nan))`.
  Neither is `float()` overflowing to `inf`.
- `float()` is modelled on `[sign] (digits [. [digits]] | . digits) [e [sign] digits]`
  only.
  Surrounding whitespace, `_` separators, `E`, `inf`/`nan` spellings and
  non-ASCII digits are not accepted by the model. The tokens the codec builds
  never contain them.
- `str.lower` is modelled on ASCII letters only. Other Unicode case mappings
  (which can change a string's length) are not modelled.
- Negative `decimals`: the parameter is a `nat`. In Python, `decimals < 0` takes
  the `"{:.Nf}"` branch and fails in the formatter.
- Dynamic typing: `number` is a number, the token is a string, `len_min` is an
  integer. Other argument types are not modelled.
- The script section's `print` calls (lines 266-277) are left out; its encode and
  decode results are stated in `Examples.EncodeScript` and `Examples.DecodeScript`.
- The documentation build (`docs/build.py`, `docs/conf.py`), the test fixtures
  and data loading (`tests/conftest.py`) and the benchmark scripts
  (`tests/bcmk/test_bcmk_numflare.py`) are not part of this model. They are I/O
  and configuration around the codec.
