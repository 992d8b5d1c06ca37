/** What `encode_number` promises about the tokens it writes. */
module EncodeProperties {
  import opened PyText
  import opened Rounding
  import opened NumFlare

  /** The constant tables keep their roles apart: four distinct sign flags, none of
      them a magnitude suffix or the decimal marker, factors strictly ascending. */
  lemma TablesDisjoint()
    ensures LatitudePositive != LatitudeNegative && LongitudePositive != LongitudeNegative
    ensures LatitudePositive != LongitudePositive && LatitudeNegative != LongitudeNegative
    ensures LatitudePositive != LongitudeNegative && LatitudeNegative != LongitudePositive
    ensures forall c :: IsSignFlag(c) ==> !IsMagnitudeKey(c) && c != Decimal
    ensures !IsMagnitudeKey(Decimal)
    ensures forall i, j :: 0 <= i < j < |Magnitudes| ==> Magnitudes[i].1 < Magnitudes[j].1
  {
    forall c | IsSignFlag(c) ensures !IsMagnitudeKey(c) {
      MagnitudeKeys(c);
    }
    MagnitudeKeys(Decimal);
  }

  /** `c in MAGNITUDES` holds exactly for the five suffix letters. */
  lemma MagnitudeKeys(c: char)
    ensures IsMagnitudeKey(c) <==> c == 'd' || c == 'c' || c == 'k' || c == 'm' || c == 'b'
  {
    var k := SuffixIndex(c, 0);
    if k < |Magnitudes| {
      assert Magnitudes[k].0 == c;
    } else {
      assert forall j :: 0 <= j < |Magnitudes| ==> Magnitudes[j].0 != c;
      assert Magnitudes[0].0 == 'd' && Magnitudes[1].0 == 'c' && Magnitudes[2].0 == 'k';
      assert Magnitudes[3].0 == 'm' && Magnitudes[4].0 == 'b';
    }
  }

  /** The magnitude step takes the first factor, in declared order, that is at most
      the value; the table ascends from 10, so that is `d` whenever the value is at
      least 10, and nothing otherwise. The value is divided exactly once. */
  lemma CollapseChoosesDecimal(x: real)
    requires x >= 0.0
    ensures Collapse(x) == if x >= 10.0 then (Divided(x, 10), "d") else (x, "")
  {
    if x >= 10.0 {
      CollapseAt(x, 0);
    } else {
      CollapseNone(x);
    }
  }

  /** `Scaling` in words: a suffix, always `d`, only when collapsing a value of at least 10. */
  lemma ScalingCases(number: real, collapseMagnitude: bool)
    ensures Scaling(number, collapseMagnitude)
         == if collapseMagnitude && Abs(number) >= 10.0 then (Divided(Abs(number), 10), "d")
            else (Abs(number), "")
  {
    if collapseMagnitude {
      CollapseChoosesDecimal(Abs(number));
    }
  }

  predicate IsNumberChar(c: char) { IsDigit(c) || c == Decimal }

  /** Zero padding keeps a digit string a digit string. */
  lemma FillIntegerPartDigits(part: string, lenMin: int)
    requires AllDigits(part) && part != []
    ensures AllDigits(FillIntegerPart(part, lenMin)) && FillIntegerPart(part, lenMin) != []
    ensures DigitsValue(FillIntegerPart(part, lenMin)) == DigitsValue(part)
  {
    ZFillValue(part, lenMin);
  }

  /** `fill_integer_part` zero-pads on the left to `lenMin` characters and never
      truncates: the text is at the right, zeros fill the rest. */
  lemma FillIntegerPartLayout(part: string, lenMin: int)
    ensures var filled := FillIntegerPart(part, lenMin);
            |filled| == (if lenMin > |part| then lenMin else |part|)
            && filled == Zeros(|filled| - |part|) + part
  {
  }

  /** The magnitude step in general: with no suffix the value is left alone and
      every factor is above it; with a suffix there is one key, its factor is at
      most the value, and the new value times that factor gives the old one back. */
  lemma CollapseFactor(x: real)
    requires x >= 0.0
    ensures var (v, suffix) := Collapse(x);
            (suffix == [] ==> v == x && forall j :: 0 <= j < |Magnitudes| ==> x < Magnitudes[j].1 as real)
            && (suffix != [] ==> |suffix| == 1 && IsMagnitudeKey(suffix[0])
                                 && FactorOf(suffix[0]) as real <= x && v * FactorOf(suffix[0]) as real == x)
  {
    var k := FirstFactorAtMost(x, 0);
    if k < |Magnitudes| {
      assert k == 0;
      assert SuffixIndex(Magnitudes[0].0, 0) == 0;
    }
  }

  /** A number part is non-empty and made of digits and `p`. */
  lemma NumberPartChars(x: real, decimals: nat, lenMin: int)
    requires x >= 0.0
    ensures var np := NumberPart(x, decimals, lenMin);
            np != [] && forall i :: 0 <= i < |np| ==> IsNumberChar(np[i])
  {
    var np := NumberPart(x, decimals, lenMin);
    if decimals == 0 {
      FillIntegerPartDigits(NatToDigits(RoundHalfEven(x)), lenMin);
    } else {
      var (whole, fraction) := FixedParts(x, decimals);
      var filled := FillIntegerPart(whole, lenMin);
      FillIntegerPartDigits(whole, lenMin);
      assert np == filled + [Decimal] + fraction;
      forall i | 0 <= i < |np| ensures IsNumberChar(np[i]) {
        if i < |filled| {
          assert np[i] == filled[i];
        } else if i > |filled| {
          assert np[i] == fraction[i - |filled| - 1];
        }
      }
    }
  }

  /** The number part ends in a digit: the last integer digit, or the last of the
      `decimals > 0` fraction digits. */
  lemma NumberPartEndsInDigit(x: real, decimals: nat, lenMin: int)
    requires x >= 0.0
    ensures var np := NumberPart(x, decimals, lenMin); np != [] && IsDigit(np[|np| - 1])
  {
    if decimals == 0 {
      FillIntegerPartDigits(NatToDigits(RoundHalfEven(x)), lenMin);
    } else {
      var (whole, fraction) := FixedParts(x, decimals);
      var np := NumberPart(x, decimals, lenMin);
      assert np[|np| - 1] == fraction[|fraction| - 1];
    }
  }

  /** Sign flag, digits, `p` and a suffix letter are all lowercase already. */
  lemma RawTokenLowercase(flag: char, np: string, suffix: string)
    requires IsSignFlag(flag)
    requires forall i :: 0 <= i < |np| ==> IsNumberChar(np[i])
    requires suffix == "" || suffix == "d"
    ensures IsLowercase(RawToken(flag, np, suffix))
  {
    var raw := RawToken(flag, np, suffix);
    forall i | 0 <= i < |raw| ensures !IsUpper(raw[i]) {
      if 1 <= i < 1 + |np| {
        assert raw[i] == np[i - 1];
      }
    }
  }

  /** `encode_number` lowercases text that has no capitals, so the token is exactly
      sign flag, number part and suffix, and has no capital letter. */
  lemma EncodeIsLowercase(number: real, decimals: nat, lenMin: int, isLatitude: bool, collapseMagnitude: bool)
    ensures var scaling := Scaling(number, collapseMagnitude);
            var token := EncodedToken(number, decimals, lenMin, isLatitude, collapseMagnitude);
            token == [SignFlag(isLatitude, number)] + NumberPart(scaling.0, decimals, lenMin) + scaling.1
            && IsLowercase(token)
  {
    var scaling := Scaling(number, collapseMagnitude);
    var np := NumberPart(scaling.0, decimals, lenMin);
    var raw := RawToken(SignFlag(isLatitude, number), np, scaling.1);
    NumberPartChars(scaling.0, decimals, lenMin);
    ScalingCases(number, collapseMagnitude);
    RawTokenLowercase(SignFlag(isLatitude, number), np, scaling.1);
    LowerFixes(raw);
  }

  /** After the flag, neither a number part nor a suffix letter holds a sign flag. */
  lemma NoSignFlagAfterFirst(flag: char, np: string, suffix: string)
    requires forall i :: 0 <= i < |np| ==> IsNumberChar(np[i])
    requires suffix == "" || suffix == "d"
    ensures var token := [flag] + np + suffix;
            forall i :: 1 <= i < |token| ==> !IsSignFlag(token[i])
  {
    var token := [flag] + np + suffix;
    forall i | 1 <= i < |token| ensures !IsSignFlag(token[i]) {
      if i < 1 + |np| {
        assert token[i] == np[i - 1];
      }
    }
  }

  /** The token starts with exactly one sign flag: `s`/`n` for latitude, `w`/`e` for
      longitude, the first of each pair exactly when the number is negative (zero
      counts as positive); no later character is a sign flag. */
  lemma EncodeSignFlag(number: real, decimals: nat, lenMin: int, isLatitude: bool, collapseMagnitude: bool)
    ensures var token := EncodedToken(number, decimals, lenMin, isLatitude, collapseMagnitude);
            |token| >= 2
            && (isLatitude ==> token[0] == if number < 0.0 then 's' else 'n')
            && (!isLatitude ==> token[0] == if number < 0.0 then 'w' else 'e')
            && forall i :: 1 <= i < |token| ==> !IsSignFlag(token[i])
  {
    var scaling := Scaling(number, collapseMagnitude);
    EncodeIsLowercase(number, decimals, lenMin, isLatitude, collapseMagnitude);
    NumberPartChars(scaling.0, decimals, lenMin);
    ScalingCases(number, collapseMagnitude);
    NoSignFlagAfterFirst(SignFlag(isLatitude, number), NumberPart(scaling.0, decimals, lenMin), scaling.1);
  }

  /** The integer layout for any flag, value and suffix around a number part. */
  lemma IntegerNumberLayout(flag: char, v: real, lenMin: int, suffix: string)
    requires v >= 0.0
    requires flag != Decimal && Decimal !in suffix
    ensures var digits := NatToDigits(RoundHalfEven(v));
            var np := NumberPart(v, 0, lenMin);
            Decimal !in [flag] + np + suffix
            && AllDigits(np)
            && |np| == (if lenMin > |digits| then lenMin else |digits|)
            && np == Zeros(|np| - |digits|) + digits
            && DigitsValue(np) == RoundHalfEven(v)
  {
    var digits := NatToDigits(RoundHalfEven(v));
    var np := NumberPart(v, 0, lenMin);
    FillIntegerPartDigits(digits, lenMin);
    assert np == Zeros(|np| - |digits|) + digits;
    NotInDigits(np, Decimal);
  }

  /** With `decimals == 0` the number part is the rounded value's digits, zero-padded
      on the left to `lenMin` and never truncated, and the token holds no `p`. */
  lemma EncodeIntegerLayout(number: real, lenMin: int, isLatitude: bool, collapseMagnitude: bool)
    ensures var scaling := Scaling(number, collapseMagnitude);
            var token := EncodedToken(number, 0, lenMin, isLatitude, collapseMagnitude);
            var digits := NatToDigits(RoundHalfEven(scaling.0));
            var np := NumberPart(scaling.0, 0, lenMin);
            token == [SignFlag(isLatitude, number)] + np + scaling.1
            && Decimal !in token
            && AllDigits(np)
            && |np| == (if lenMin > |digits| then lenMin else |digits|)
            && np == Zeros(|np| - |digits|) + digits
            && DigitsValue(np) == RoundHalfEven(scaling.0)
  {
    var scaling := Scaling(number, collapseMagnitude);
    EncodeIsLowercase(number, 0, lenMin, isLatitude, collapseMagnitude);
    assert Decimal !in scaling.1 by {
      ScalingCases(number, collapseMagnitude);
    }
    IntegerNumberLayout(SignFlag(isLatitude, number), scaling.0, lenMin, scaling.1);
  }

  /** Where the one `p` of `[flag] + whole + "p" + fraction + suffix` stands, when
      only the flag and suffix letters surround digits. */
  lemma DecimalTokenLayout(flag: char, whole: string, fraction: string, suffix: string)
    requires flag != Decimal && Decimal !in suffix
    requires AllDigits(whole) && AllDigits(fraction)
    ensures var token := [flag] + whole + [Decimal] + fraction + suffix;
            var point := 1 + |whole|;
            token[point] == Decimal
            && (forall i :: 0 <= i < |token| && i != point ==> token[i] != Decimal)
            && token[1..point] == whole
            && token[point + 1..|token| - |suffix|] == fraction
  {
    var token := [flag] + whole + [Decimal] + fraction + suffix;
    var point := 1 + |whole|;
    forall i | 0 <= i < |token| && i != point ensures token[i] != Decimal {
      if 1 <= i < point {
        assert token[i] == whole[i - 1];
      } else if point < i < point + 1 + |fraction| {
        assert token[i] == fraction[i - point - 1];
      } else if i >= point + 1 + |fraction| {
        assert token[i] == suffix[i - point - 1 - |fraction|];
      }
    }
    assert token[1..point] == whole;
    assert token[point + 1..|token| - |suffix|] == fraction;
  }

  /** The decimal layout for any flag, value and suffix around a number part. */
  lemma DecimalNumberLayout(flag: char, v: real, decimals: nat, lenMin: int, suffix: string)
    requires v >= 0.0 && decimals > 0
    requires flag != Decimal && Decimal !in suffix
    ensures var whole := FillIntegerPart(FixedParts(v, decimals).0, lenMin);
            var fraction := FixedParts(v, decimals).1;
            var token := [flag] + NumberPart(v, decimals, lenMin) + suffix;
            token == [flag] + whole + [Decimal] + fraction + suffix
            && (forall i :: 0 <= i < |token| && i != 1 + |whole| ==> token[i] != Decimal)
            && AllDigits(whole) && AllDigits(fraction) && |fraction| == decimals
            && Shift(DigitsValue(whole), decimals) + DigitsValue(fraction)
               == RoundHalfEven(Scaled(v, decimals))
  {
    var (whole, fraction) := FixedParts(v, decimals);
    var filled := FillIntegerPart(whole, lenMin);
    FillIntegerPartDigits(whole, lenMin);
    var np := NumberPart(v, decimals, lenMin);
    assert np == filled + [Decimal] + fraction;
    assert [flag] + np + suffix == [flag] + filled + [Decimal] + fraction + suffix;
    DecimalTokenLayout(flag, filled, fraction, suffix);
  }

  /** With `decimals > 0` the token is sign flag, the integer digits of the
      fixed-point text zero-padded on the left to `lenMin` (never truncated, and
      with no other leading zero), exactly one `p`, exactly `decimals` fraction
      digits, then the suffix; the digits on both sides of `p` together denote the
      value rounded to `decimals` places. */
  lemma EncodeDecimalLayout(number: real, decimals: nat, lenMin: int, isLatitude: bool, collapseMagnitude: bool)
    requires decimals > 0
    ensures var scaling := Scaling(number, collapseMagnitude);
            var token := EncodedToken(number, decimals, lenMin, isLatitude, collapseMagnitude);
            var integer := FixedParts(scaling.0, decimals).0;
            var whole := FillIntegerPart(integer, lenMin);
            var fraction := FixedParts(scaling.0, decimals).1;
            token == [SignFlag(isLatitude, number)] + whole + [Decimal] + fraction + scaling.1
            && (forall i :: 0 <= i < |token| && i != 1 + |whole| ==> token[i] != Decimal)
            && AllDigits(whole) && AllDigits(fraction) && |fraction| == decimals
            && Shift(DigitsValue(whole), decimals) + DigitsValue(fraction)
               == RoundHalfEven(Scaled(scaling.0, decimals))
            && |whole| == (if lenMin > |integer| then lenMin else |integer|)
            && whole == Zeros(|whole| - |integer|) + integer
            && (|integer| == 1 || integer[0] != '0')
  {
    var scaling := Scaling(number, collapseMagnitude);
    EncodeIsLowercase(number, decimals, lenMin, isLatitude, collapseMagnitude);
    assert Decimal !in scaling.1 by {
      ScalingCases(number, collapseMagnitude);
    }
    DecimalNumberLayout(SignFlag(isLatitude, number), scaling.0, decimals, lenMin, scaling.1);
    FillIntegerPartLayout(FixedParts(scaling.0, decimals).0, lenMin);
  }

  /** No sign flag, digit or `p` is a magnitude suffix. */
  lemma NoSuffixLetterBefore(flag: char, np: string, suffix: string)
    requires IsSignFlag(flag)
    requires forall i :: 0 <= i < |np| ==> IsNumberChar(np[i])
    ensures var raw := [flag] + np + suffix;
            forall i :: 0 <= i < 1 + |np| ==> !IsMagnitudeKey(raw[i])
  {
    var raw := [flag] + np + suffix;
    forall i | 0 <= i < 1 + |np| ensures !IsMagnitudeKey(raw[i]) {
      MagnitudeKeys(raw[i]);
      if i >= 1 {
        assert raw[i] == np[i - 1];
      }
    }
  }

  /** Dividing by ten keeps the sign and divides the absolute value. */
  lemma TenthKeepsSign(number: real, isLatitude: bool)
    ensures SignFlag(isLatitude, Divided(number, 10)) == SignFlag(isLatitude, number)
    ensures Abs(Divided(number, 10)) == Divided(Abs(number), 10)
  {
  }

  /** Collapsing `|number| >= 10` writes the token of `number / 10` followed by `d`. */
  lemma CollapsedIsTenth(number: real, decimals: nat, lenMin: int, isLatitude: bool)
    requires Abs(number) >= 10.0
    ensures EncodedToken(number, decimals, lenMin, isLatitude, true)
         == EncodedToken(Divided(number, 10), decimals, lenMin, isLatitude, false) + "d"
  {
    var flag := SignFlag(isLatitude, number);
    var np := NumberPart(Divided(Abs(number), 10), decimals, lenMin);
    assert EncodedToken(number, decimals, lenMin, isLatitude, true) == [flag] + np + "d" by {
      ScalingCases(number, true);
      EncodeIsLowercase(number, decimals, lenMin, isLatitude, true);
    }
    assert EncodedToken(Divided(number, 10), decimals, lenMin, isLatitude, false) == [flag] + np by {
      TenthKeepsSign(number, isLatitude);
      EncodeIsLowercase(Divided(number, 10), decimals, lenMin, isLatitude, false);
      assert [flag] + np + "" == [flag] + np;
    }
  }

  /** At most one magnitude suffix, and only when collapsing a value with
      `|number| >= 10`: then the token ends in `d` and, without it, is the token of
      `number / 10` written without collapsing. Otherwise it ends in a digit. */
  lemma EncodeMagnitudeSuffix(number: real, decimals: nat, lenMin: int, isLatitude: bool, collapseMagnitude: bool)
    ensures var token := EncodedToken(number, decimals, lenMin, isLatitude, collapseMagnitude);
            |token| >= 2
            && (forall i :: 0 <= i < |token| - 1 ==> !IsMagnitudeKey(token[i]))
            && if collapseMagnitude && Abs(number) >= 10.0 then
                 token[|token| - 1] == 'd'
                 && token[..|token| - 1] == EncodedToken(Divided(number, 10), decimals, lenMin, isLatitude, false)
               else IsDigit(token[|token| - 1])
  {
    var scaling := Scaling(number, collapseMagnitude);
    var np := NumberPart(scaling.0, decimals, lenMin);
    var flag := SignFlag(isLatitude, number);
    EncodeIsLowercase(number, decimals, lenMin, isLatitude, collapseMagnitude);
    ScalingCases(number, collapseMagnitude);
    NumberPartChars(scaling.0, decimals, lenMin);
    NumberPartEndsInDigit(scaling.0, decimals, lenMin);
    NoSuffixLetterBefore(flag, np, scaling.1);
    if collapseMagnitude && Abs(number) >= 10.0 {
      CollapsedIsTenth(number, decimals, lenMin, isLatitude);
    } else {
      assert ([flag] + np)[|np|] == np[|np| - 1];
    }
  }
}
