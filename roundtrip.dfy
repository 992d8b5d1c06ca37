/** `decode_number(encode_number(x, ...))`: the number comes back rounded to the
    places that were written, and multiplied by the magnitude factor that was
    divided out. */
module RoundTrip {
  import opened PyText
  import opened Rounding
  import opened NumFlare
  import opened EncodeProperties
  import opened DecodeProperties

  /** `v` rounded half to even to `decimals` places. */
  function RoundedTo(v: real, decimals: nat): real
  {
    ScaleDown(RoundHalfEven(Scaled(v, decimals)) as real, decimals)
  }

  /** Rounding to `decimals` places moves a value by at most half a unit in the
      last place. */
  lemma RoundedToWithin(v: real, decimals: nat)
    ensures -ScaleDown(0.5, decimals) <= RoundedTo(v, decimals) - v <= ScaleDown(0.5, decimals)
  {
    var scaled := Scaled(v, decimals);
    var units := RoundHalfEven(scaled);
    var error := units as real - scaled;
    ScaleDownBound(error, 0.5, decimals);
    assert scaled + error == units as real;
    ScaleDownAdd(scaled, error, decimals);
    ScaleDownUp(v, decimals);
  }

  /** A value that already has at most `decimals` places is left as it is. */
  lemma RoundedToExact(units: nat, decimals: nat)
    ensures RoundedTo(ScaleDown(units as real, decimals), decimals) == ScaleDown(units as real, decimals)
  {
    ScaleUpDown(units as real, decimals);
    RoundWhole(units);
  }

  /** The suffix `d` stands for the factor 10. */
  lemma FactorOfTen()
    ensures IsMagnitudeKey('d') && FactorOf('d') == 10
  {
    assert SuffixIndex('d', 0) == 0;
  }

  /** A trailing `d` after a digit multiplies the decoded value by 10. */
  lemma DecodeSuffixTen(b: string)
    requires b != [] && IsDigit(b[|b| - 1]) && IsLowercase(b)
    ensures DecodeNumber(b + ['d']) == Times(DecodeNumber(b), 10.0)
  {
    FactorOfTen();
    MagnitudeKeys(b[|b| - 1]);
    DecodeMagnitudeSuffix(b, 'd');
    assert FactorOf('d') as real == 10.0;
  }

  /** With no places, the number part decodes to the rounded value. */
  lemma DecodeIntegerPart(v: real, lenMin: int)
    requires v >= 0.0
    ensures DecodeNumber(NumberPart(v, 0, lenMin)) == Success(RoundedTo(v, 0))
  {
    var np := NumberPart(v, 0, lenMin);
    var digits := NatToDigits(RoundHalfEven(v));
    assert np != [] && AllDigits(np) && DigitsValue(np) == RoundHalfEven(v) by {
      FillIntegerPartDigits(digits, lenMin);
    }
    assert DecodeNumber(np) == Success(DigitsValue(np) as real) by {
      DecodeDigits(np);
    }
    assert Scaled(v, 0) == v;
  }

  /** With `decimals > 0` places, the number part decodes to the value rounded to
      that many places. */
  lemma DecodeFixedPart(v: real, decimals: nat, lenMin: int)
    requires v >= 0.0 && decimals > 0
    ensures DecodeNumber(NumberPart(v, decimals, lenMin)) == Success(RoundedTo(v, decimals))
  {
    var np := NumberPart(v, decimals, lenMin);
    var (whole, fraction) := FixedParts(v, decimals);
    var filled := FillIntegerPart(whole, lenMin);
    assert AllDigits(filled) && filled != [] && DigitsValue(filled) == DigitsValue(whole) by {
      FillIntegerPartDigits(whole, lenMin);
    }
    assert np == filled + [Decimal] + fraction;
    assert DecodeNumber(np) == Success(DecimalValue(filled, fraction)) by {
      DecodeDecimal(filled, fraction);
    }
    assert DecimalValue(filled, fraction) == RoundedTo(v, decimals) by {
      var shifted := Shift(DigitsValue(whole), decimals);
      ScaleDownShift(DigitsValue(whole), decimals);
      ScaleDownAdd(shifted as real, DigitsValue(fraction) as real, decimals);
      assert (shifted + DigitsValue(fraction)) as real == shifted as real + DigitsValue(fraction) as real;
    }
  }

  /** The number part starts and ends with a digit and has no capital. */
  lemma NumberPartShape(v: real, decimals: nat, lenMin: int)
    requires v >= 0.0
    ensures var np := NumberPart(v, decimals, lenMin);
            np != [] && IsDigit(np[0]) && IsDigit(np[|np| - 1]) && IsLowercase(np)
  {
    var np := NumberPart(v, decimals, lenMin);
    assert np != [] && forall i :: 0 <= i < |np| ==> IsNumberChar(np[i]) by {
      NumberPartChars(v, decimals, lenMin);
    }
    assert IsDigit(np[|np| - 1]) by {
      NumberPartEndsInDigit(v, decimals, lenMin);
    }
    assert IsDigit(np[0]) by {
      if decimals > 0 {
        var whole := FixedParts(v, decimals).0;
        FillIntegerPartDigits(whole, lenMin);
        assert np[0] == FillIntegerPart(whole, lenMin)[0];
      }
    }
  }

  /** The number part starts and ends with a digit, has no capital, and decodes, on
      its own, to the value rounded to `decimals` places. */
  lemma DecodeNumberPart(v: real, decimals: nat, lenMin: int)
    requires v >= 0.0
    ensures var np := NumberPart(v, decimals, lenMin);
            np != [] && IsDigit(np[0]) && IsDigit(np[|np| - 1]) && IsLowercase(np)
            && DecodeNumber(np) == Success(RoundedTo(v, decimals))
  {
    NumberPartShape(v, decimals, lenMin);
    if decimals == 0 {
      DecodeIntegerPart(v, lenMin);
    } else {
      DecodeFixedPart(v, decimals, lenMin);
    }
  }

  /** A sign flag before a digit-led, digit-ended lowercase text that decodes to
      `value` gives `value` with the flag's sign. */
  lemma DecodeSignedText(flag: char, np: string, value: real)
    requires IsSignFlag(flag)
    requires np != [] && IsDigit(np[0]) && IsDigit(np[|np| - 1]) && IsLowercase(np)
    requires DecodeNumber(np) == Success(value)
    ensures var signed := [flag] + np;
            IsLowercase(signed) && IsDigit(signed[|signed| - 1])
            && DecodeNumber(signed) == Success(Signed(flag == LatitudeNegative || flag == LongitudeNegative, value))
  {
    var signed := [flag] + np;
    var negative := flag == LatitudeNegative || flag == LongitudeNegative;
    assert DecodeNumber(signed) == Times(Success(value), if negative then -1.0 else 1.0) by {
      DecodeSignFlag(flag, np);
    }
    TimesSign(value, negative);
    assert IsLowercase(signed) by {
      assert forall i :: 1 <= i < |signed| ==> signed[i] == np[i - 1];
    }
    assert signed[|signed| - 1] == np[|np| - 1];
  }

  /** An empty suffix leaves the decoded value alone; a `d` after a final digit
      multiplies it by 10. */
  lemma DecodeSuffixed(signed: string, w: real, suffix: string)
    requires signed != [] && IsDigit(signed[|signed| - 1]) && IsLowercase(signed)
    requires DecodeNumber(signed) == Success(w)
    requires suffix == "" || suffix == "d"
    ensures DecodeNumber(signed + suffix) == Success(if suffix == "" then w else 10.0 * w)
  {
    if suffix == "d" {
      DecodeSuffixTen(signed);
      assert signed + suffix == signed + ['d'];
    } else {
      assert signed + suffix == signed;
    }
  }

  /** A token made of a sign flag, a text that decodes to `value` as the number
      part does, and an empty or `d` suffix decodes to `value`, negated when the
      flag is `s` or `w`, times 10 when the suffix is `d`. */
  lemma DecodeRawToken(token: string, flag: char, negative: bool, np: string, value: real, suffix: string)
    requires token == [flag] + np + suffix && IsSignFlag(flag)
    requires negative == (flag == LatitudeNegative || flag == LongitudeNegative)
    requires np != [] && IsDigit(np[0]) && IsDigit(np[|np| - 1]) && IsLowercase(np)
    requires DecodeNumber(np) == Success(value)
    requires suffix == "" || suffix == "d"
    ensures var w := Signed(negative, value);
            DecodeNumber(token) == Success(if suffix == "" then w else 10.0 * w)
  {
    DecodeSignedText(flag, np, value);
    DecodeSuffixed([flag] + np, Signed(negative, value), suffix);
  }

  /** What decoding an encoded number returns: the absolute value left after the
      magnitude step, rounded half to even to `decimals` places, with the sign of
      `number`, times 10 when the token ends in `d`. */
  lemma DecodeEncode(number: real, decimals: nat, lenMin: int, isLatitude: bool, collapseMagnitude: bool)
    ensures var scaling := Scaling(number, collapseMagnitude);
            var w := Signed(number < 0.0, RoundedTo(scaling.0, decimals));
            DecodeNumber(EncodedToken(number, decimals, lenMin, isLatitude, collapseMagnitude))
            == Success(if scaling.1 == "" then w else 10.0 * w)
  {
    var scaling := Scaling(number, collapseMagnitude);
    EncodeIsLowercase(number, decimals, lenMin, isLatitude, collapseMagnitude);
    ScalingCases(number, collapseMagnitude);
    DecodeNumberPart(scaling.0, decimals, lenMin);
    DecodeRawToken(EncodedToken(number, decimals, lenMin, isLatitude, collapseMagnitude), SignFlag(isLatitude, number),
                   number < 0.0, NumberPart(scaling.0, decimals, lenMin), RoundedTo(scaling.0, decimals), scaling.1);
  }

  /** Integers written with no places and no magnitude step come back exactly. */
  lemma RoundTripIntegers(n: int, lenMin: int, isLatitude: bool)
    ensures DecodeNumber(EncodedToken(n as real, 0, lenMin, isLatitude, false)) == Success(n as real)
  {
    DecodeEncode(n as real, 0, lenMin, isLatitude, false);
    var size: nat := if n < 0 then -n else n;
    assert Abs(n as real) == size as real;
    RoundedToExact(size, 0);
  }

  /** A number with at most `decimals` places, written with `decimals` places and
      no magnitude step, comes back exactly. */
  lemma RoundTripDecimals(units: int, decimals: nat, lenMin: int, isLatitude: bool)
    ensures var x := ScaleDown(units as real, decimals);
            DecodeNumber(EncodedToken(x, decimals, lenMin, isLatitude, false)) == Success(x)
  {
    var x := ScaleDown(units as real, decimals);
    var size: nat := if units < 0 then -units else units;
    var magnitude := ScaleDown(size as real, decimals);
    assert x == if units < 0 then -magnitude else magnitude by {
      if units < 0 {
        ScaleDownNeg(size as real, decimals);
      }
    }
    assert Abs(x) == magnitude;
    DecodeEncode(x, decimals, lenMin, isLatitude, false);
    RoundedToExact(size, decimals);
  }

  /** Any number comes back within half a unit in the last written place, and
      within ten times that when the magnitude step divided it by 10. */
  lemma RoundTripWithinHalfUnit(number: real, decimals: nat, lenMin: int, isLatitude: bool, collapseMagnitude: bool)
    ensures var half := ScaleDown(0.5, decimals);
            var bound := if collapseMagnitude && Abs(number) >= 10.0 then 10.0 * half else half;
            var r := DecodeNumber(EncodedToken(number, decimals, lenMin, isLatitude, collapseMagnitude));
            r.Success? && -bound <= r.value - number <= bound
  {
    var scaling := Scaling(number, collapseMagnitude);
    DecodeEncode(number, decimals, lenMin, isLatitude, collapseMagnitude);
    ScalingCases(number, collapseMagnitude);
    RoundedToWithin(scaling.0, decimals);
  }
}
