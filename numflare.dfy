/** The Flare number codec: `encode_number` writes a signed number as a short
    lowercase token (sign flag, zero-padded integer digits, optional `p` and
    fraction digits, optional magnitude suffix); `decode_number` reads it back. */
module NumFlare {
  import opened PyText
  import opened Rounding

  // ---------------------------------------------------------------------------
  // Constant tables

  /** SIGN: the flag written for each axis and polarity. */
  const LatitudePositive := 'n'
  const LatitudeNegative := 's'
  const LongitudePositive := 'e'
  const LongitudeNegative := 'w'

  /** DECIMAL: the character that stands for the decimal point. */
  const Decimal := 'p'

  /** MAGNITUDES, in declared order: suffix and the factor it stands for. */
  const Magnitudes: seq<(char, nat)> :=
    [('d', 10), ('c', 100), ('k', 1000), ('m', 1_000_000), ('b', 1_000_000_000)]

  predicate IsSignFlag(c: char)
  {
    c == LatitudePositive || c == LatitudeNegative || c == LongitudePositive || c == LongitudeNegative
  }

  /** Index of the entry of `Magnitudes` whose suffix is `c`, or `|Magnitudes|`. */
  function SuffixIndex(c: char, from: nat): (k: nat)
    requires from <= |Magnitudes|
    ensures from <= k <= |Magnitudes|
    ensures k < |Magnitudes| ==> Magnitudes[k].0 == c
    ensures forall j :: from <= j < k ==> Magnitudes[j].0 != c
    decreases |Magnitudes| - from
  {
    if from == |Magnitudes| || Magnitudes[from].0 == c then from else SuffixIndex(c, from + 1)
  }

  /** `c in MAGNITUDES`. */
  predicate IsMagnitudeKey(c: char)
  {
    SuffixIndex(c, 0) < |Magnitudes|
  }

  /** `MAGNITUDES[c]`. */
  function FactorOf(c: char): nat
    requires IsMagnitudeKey(c)
  {
    Magnitudes[SuffixIndex(c, 0)].1
  }

  function Abs(x: real): (a: real)
    ensures a >= 0.0 && (a == x || a == -x)
  {
    if x < 0.0 then -x else x
  }

  // ---------------------------------------------------------------------------
  // encode_number

  /** The flag `encode_number` writes first: zero counts as positive. */
  function SignFlag(isLatitude: bool, number: real): (flag: char)
    ensures IsSignFlag(flag)
    ensures (flag == LatitudeNegative || flag == LongitudeNegative) <==> number < 0.0
    ensures (flag == LatitudePositive || flag == LatitudeNegative) <==> isLatitude
  {
    if isLatitude then
      if number < 0.0 then LatitudeNegative else LatitudePositive
    else
      if number < 0.0 then LongitudeNegative else LongitudePositive
  }

  /** Index of the first entry of `Magnitudes`, from `from` on and in declared
      order, whose factor is at most `x`; `|Magnitudes|` when there is none. */
  function FirstFactorAtMost(x: real, from: nat): (k: nat)
    requires from <= |Magnitudes|
    ensures from <= k <= |Magnitudes|
    ensures forall j :: from <= j < k ==> x < Magnitudes[j].1 as real
    ensures k < |Magnitudes| ==> Magnitudes[k].1 as real <= x
    decreases |Magnitudes| - from
  {
    if from == |Magnitudes| || Magnitudes[from].1 as real <= x then from
    else FirstFactorAtMost(x, from + 1)
  }

  /** `x / factor`. */
  function Divided(x: real, factor: nat): (y: real)
    requires factor > 0
    ensures x >= 0.0 ==> 0.0 <= y <= x
  {
    x / factor as real
  }

  /** The magnitude step of `encode_number` on `|number|`: the value divided by the
      factor of the first qualifying entry, and that entry's suffix (or none). */
  function Collapse(x: real): (r: (real, string))
    requires x >= 0.0
  {
    var k := FirstFactorAtMost(x, 0);
    if k < |Magnitudes| then (Divided(x, Magnitudes[k].1), [Magnitudes[k].0]) else (x, "")
  }

  /** `Collapse` picks entry `i` when it is the first whose factor is at most `x`. */
  lemma CollapseAt(x: real, i: nat)
    requires x >= 0.0 && i < |Magnitudes| && Magnitudes[i].1 as real <= x
    requires forall j :: 0 <= j < i ==> x < Magnitudes[j].1 as real
    ensures Collapse(x) == (Divided(x, Magnitudes[i].1), [Magnitudes[i].0])
  {
    var k := FirstFactorAtMost(x, 0);
    assert k == i;
  }

  /** `Collapse` leaves `x` alone when every factor is above it. */
  lemma CollapseNone(x: real)
    requires x >= 0.0
    requires forall j :: 0 <= j < |Magnitudes| ==> x < Magnitudes[j].1 as real
    ensures Collapse(x) == (x, "")
  {
    var k := FirstFactorAtMost(x, 0);
    assert k == |Magnitudes|;
  }

  /** `fill_integer_part`: zero-pad on the left to `lenMin`, never truncate. */
  function FillIntegerPart(part: string, lenMin: int): string
  {
    if |part| < lenMin then ZFill(part, lenMin) else part
  }

  /** The text between the sign flag and the suffix, for the value `x >= 0`: the
      rounded integer digits, or the fixed-point digits with `p` for the point; the
      integer digits zero-padded to `lenMin`. */
  function NumberPart(x: real, decimals: nat, lenMin: int): string
    requires x >= 0.0
  {
    if decimals == 0 then FillIntegerPart(NatToDigits(RoundHalfEven(x)), lenMin)
    else FillIntegerPart(FixedParts(x, decimals).0, lenMin) + [Decimal] + FixedParts(x, decimals).1
  }

  /** `format(x, ".Nf").split(".")` for `N > 0`: the digits before and after the point. */
  function SplitFormatted(x: real, decimals: nat): (parts: seq<string>)
    requires x >= 0.0 && decimals > 0
    ensures parts == [FixedParts(x, decimals).0, FixedParts(x, decimals).1]
  {
    var (whole, fraction) := FixedParts(x, decimals);
    NotInDigits(whole, '.');
    NotInDigits(fraction, '.');
    SplitTwo(whole, '.', fraction);
    Split(FormatFixed(x, decimals), '.')
  }

  /** The value left after the magnitude step, and the suffix it chose. */
  function Scaling(number: real, collapseMagnitude: bool): (r: (real, string))
    ensures r.0 >= 0.0
  {
    if collapseMagnitude then
      var (v, s) := Collapse(Abs(number));
      assert v >= 0.0;
      (v, s)
    else (Abs(number), "")
  }

  /** Sign flag, number part and suffix, before lowercasing. */
  function RawToken(flag: char, numberPart: string, suffix: string): string
  {
    [flag] + numberPart + suffix
  }

  /** The token `encode_number(number, decimals, len_min, is_latitude, collapse_magnitude)`
      returns, with the same defaults. */
  function EncodedToken(number: real, decimals: nat := 0, lenMin: int := 1, isLatitude: bool := true,
                        collapseMagnitude: bool := false): string
  {
    var scaling := Scaling(number, collapseMagnitude);
    Lower(RawToken(SignFlag(isLatitude, number), NumberPart(scaling.0, decimals, lenMin), scaling.1))
  }

  /** The digits step of `encode_number` on the value left after the magnitude
      step: rounded integer digits, or the fixed-point text split at its point and
      rejoined with `p`; the integer digits zero-padded to `lenMin`. */
  method EncodeNumberPart(absNumber: real, decimals: nat, lenMin: int) returns (encodedNumberPart: string)
    requires absNumber >= 0.0
    ensures encodedNumberPart == NumberPart(absNumber, decimals, lenMin)
  {
    if decimals == 0 {
      var integerPartStr := NatToDigits(RoundHalfEven(absNumber));
      integerPartStr := FillIntegerPart(integerPartStr, lenMin);
      encodedNumberPart := integerPartStr;
    } else {
      var formattedNumStr := FormatFixed(absNumber, decimals);
      var parts := Split(formattedNumStr, '.');
      assert parts == SplitFormatted(absNumber, decimals);
      assert parts == [FixedParts(absNumber, decimals).0, FixedParts(absNumber, decimals).1];
      var integerPartStr := parts[0];
      var fractionalPartStr := parts[1];
      integerPartStr := FillIntegerPart(integerPartStr, lenMin);
      encodedNumberPart := integerPartStr + [Decimal] + fractionalPartStr;
    }
  }

  /** `encode_number`, step by step: sign flag, absolute value, one pass over the
      magnitude table that stops at the first factor not above the value, then the
      digits. `decimals` is the number of places; `lenMin` the minimum integer width. */
  method EncodeNumber(number: real, decimals: nat := 0, lenMin: int := 1, isLatitude: bool := true,
                      collapseMagnitude: bool := false)
    returns (token: string)
    ensures token == EncodedToken(number, decimals, lenMin, isLatitude, collapseMagnitude)
  {
    var signFlag := SignFlag(isLatitude, number);

    var absNumber := Abs(number);

    var magnitudeFlag := "";
    if collapseMagnitude {
      var i := 0;
      while i < |Magnitudes|
        invariant 0 <= i <= |Magnitudes|
        invariant absNumber == Abs(number) && magnitudeFlag == ""
        invariant forall j :: 0 <= j < i ==> absNumber < Magnitudes[j].1 as real
      {
        var (flag, factor) := Magnitudes[i];
        if absNumber >= factor as real {
          CollapseAt(absNumber, i);
          absNumber := absNumber / factor as real;
          assert absNumber == Divided(Abs(number), factor);
          magnitudeFlag := [flag];
          break;
        }
        i := i + 1;
      }
    }
    if collapseMagnitude && magnitudeFlag == "" {
      CollapseNone(absNumber);
    }
    assert (absNumber, magnitudeFlag) == Scaling(number, collapseMagnitude);

    var encodedNumberPart := EncodeNumberPart(absNumber, decimals, lenMin);

    token := Lower(RawToken(signFlag, encodedNumberPart, magnitudeFlag));
  }

  // ---------------------------------------------------------------------------
  // decode_number

  /** What `decode_number` raises: `IndexError` on an empty token, `ValueError`
      when the text handed to `float()` is not a numeral. */
  datatype DecodeError = EmptyToken | NotANumber

  datatype Decoded = Success(value: real) | Failure(error: DecodeError)

  /** Removes a trailing magnitude suffix: (rest, multiplier). */
  function StripMagnitude(s: string): (r: (string, nat))
    requires s != []
  {
    var last := s[|s| - 1];
    if IsMagnitudeKey(last) then (s[..|s| - 1], FactorOf(last)) else (s, 1)
  }

  /** Removes a leading sign flag: (rest, sign); any other first character means `+1`. */
  function StripSign(s: string): (r: (string, int))
  {
    if |s| > 0 && (s[0] == LongitudeNegative || s[0] == LatitudeNegative) then (s[1..], -1)
    else if |s| > 0 && (s[0] == LongitudePositive || s[0] == LatitudePositive) then (s[1..], 1)
    else (s, 1)
  }

  /** `int(x)`: truncation toward zero. */
  function Truncate(x: real): (i: int)
    ensures x >= 0.0 ==> 0.0 <= i as real <= x < i as real + 1.0
    ensures x < 0.0 ==> i as real - 1.0 < x <= i as real <= 0.0
  {
    if x >= 0.0 then x.Floor else -((-x).Floor)
  }

  /** `float(s)`, with `ValueError` as `NotANumber`. */
  function ParseNumeral(s: string): Decoded
  {
    match ParseFloat(s)
    case None => Failure(NotANumber)
    case Some(v) => Success(v)
  }

  /** `decode_number`: an empty token fails on its last character; any other is
      lowercased and read by `DecodeLowercase`. */
  function DecodeNumber(encoded: string): (r: Decoded)
    ensures encoded == [] ==> r == Failure(EmptyToken)
    decreases |encoded|, 2
  {
    if encoded == [] then Failure(EmptyToken)
    else DecodeLowercase(Lower(encoded))
  }

  /** The steps of `decode_number` after lowercasing: strip a magnitude suffix,
      strip a sign flag, read what is left with `DecodeUnsigned`, then multiply. */
  function DecodeLowercase(lower: string): Decoded
    requires lower != []
    decreases |lower|, 1
  {
    var (unsuffixed, multiplier) := StripMagnitude(lower);
    var (unsigned, sign) := StripSign(unsuffixed);
    Rescale(DecodeUnsigned(unsigned), sign, multiplier)
  }

  /** `sign * float(...) * magnitude_multiplier`; an error passes through. */
  function Rescale(r: Decoded, sign: int, multiplier: nat): Decoded
  {
    match r
    case Failure(e) => Failure(e)
    case Success(v) => Success(sign as real * v * multiplier as real)
  }

  /** The decimal stage of `decode_number`: with a `p`, the text before the first `p`
      is decoded recursively and truncated, the text up to a second `p` becomes the
      fraction; then `float()`. */
  function DecodeUnsigned(text: string): (r: Decoded)
    ensures text != [] && text[0] == Decimal ==> r == Failure(EmptyToken)
    decreases |text|, 0
  {
    if Decimal in text then
      var parts := Split(text, Decimal);
      SplitFirst(text, Decimal);
      assert text[0] == Decimal ==> parts[0] == [] by {
        assert Join(parts, Decimal) == parts[0] + [Decimal] + Join(parts[1..], Decimal);
        if parts[0] != [] {
          assert text[0] == parts[0][0];
        }
      }
      match DecodeNumber(parts[0])
      case Failure(e) => Failure(e)
      case Success(v) => ParseNumeral(IntToText(Truncate(v)) + "." + parts[1])
    else ParseNumeral(text)
  }

  /** The first part of a split is shorter than a text holding the separator. */
  lemma SplitFirst(s: string, sep: char)
    requires sep in s
    ensures |Split(s, sep)| >= 2 && |Split(s, sep)[0]| < |s|
  {
    var parts := Split(s, sep);
    assert Join(parts, sep) == parts[0] + [sep] + Join(parts[1..], sep);
  }
}
