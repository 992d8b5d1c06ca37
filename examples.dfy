/** Worked tokens: the ones in the module's documentation, its script section and
    its unit tests, derived from the model. Each example names its token or its
    input through a parameter fixed by its precondition, so that the solver
    reasons from the general lemmas instead of evaluating the whole codec on a
    literal. */
module Examples {
  import opened PyText
  import opened Rounding
  import opened NumFlare
  import opened EncodeProperties
  import opened DecodeProperties
  import opened RoundTrip

  /** The token of `number`, given the value and suffix of its magnitude step, its
      number part, and a lowercase assembly of the three. */
  lemma TokenFrom(number: real, decimals: nat, lenMin: int, isLatitude: bool, collapseMagnitude: bool,
                  v: real, suffix: string, np: string, token: string)
    requires Scaling(number, collapseMagnitude) == (v, suffix)
    requires NumberPart(v, decimals, lenMin) == np
    requires token == RawToken(SignFlag(isLatitude, number), np, suffix) && IsLowercase(token)
    ensures EncodedToken(number, decimals, lenMin, isLatitude, collapseMagnitude) == token
  {
    LowerFixes(token);
  }

  /** When `x` is a whole number of units of `10^-decimals`, the fixed-point parts
      are the digits of that count, cut `decimals` from the right. */
  lemma FixedPartsOfUnits(x: real, decimals: nat, units: nat)
    requires x >= 0.0 && Scaled(x, decimals) == units as real
    requires |NatToDigits(units)| > decimals
    ensures var s := NatToDigits(units);
            FixedParts(x, decimals) == (s[..|s| - decimals], s[|s| - decimals..])
  {
    RoundWhole(units);
  }

  /** The number part of 12.3 with one place and width 4. */
  lemma SouthLatitudeNumberPart(v: real)
    requires v == 12.3
    ensures NumberPart(v, 1, 4) == "0012p3"
  {
    assert Scaled(v, 1) == 123.0;
    assert NatToDigits(123) == "123" by {
      assert NatToDigits(1) == "1";
      assert NatToDigits(12) == "12";
    }
    FixedPartsOfUnits(v, 1, 123);
    assert "123"[..2] == "12" && "123"[2..] == "3";
    assert FillIntegerPart("12", 4) == "0012";
  }

  /** `-12.3` with one place and an integer part of width 4, as a latitude. */
  lemma EncodeSouthLatitude(number: real)
    requires number == -12.3
    ensures EncodedToken(number, 1, 4, true, false) == "s0012p3"
  {
    var v := Abs(number);
    SouthLatitudeNumberPart(v);
    TokenFrom(number, 1, 4, true, false, v, "", "0012p3", "s0012p3");
  }

  /** ... and that token read back. */
  lemma DecodeSouthLatitude(token: string)
    requires token == "s0012p3"
    ensures DecodeNumber(token) == Success(-12.3)
  {
    var a, f := "0012", "3";
    assert token == ['s'] + (a + [Decimal] + f);
    DecodeSignedDecimal('s', a, f);
    assert DecimalValue(a, f) == 12.3 by {
      assert a == ZFill("12", 4);
      ZFillValue("12", 4);
      assert DigitsValue("12") == 12;
      assert ScaleDown(3.0, 1) == 0.3;
    }
  }

  /** 2500 with magnitudes on: the first factor in the table not above it is 10,
      so the token is `n250d`. */
  lemma EncodeMagnitude(number: real)
    requires number == 2500.0
    ensures EncodedToken(number, 0, 2, true, true) == "n250d"
  {
    assert Scaling(number, true) == (250.0, "d") by {
      CollapseAt(2500.0, 0);
    }
    assert SignFlag(true, number) == 'n';
    assert NatToDigits(250) == "250" by {
      assert NatToDigits(2) == "2";
      assert NatToDigits(25) == "25";
    }
    RoundWhole(250);
    assert NumberPart(250.0, 0, 2) == "250";
    TokenFrom(number, 0, 2, true, true, 250.0, "d", "250", "n250d");
  }

  /** The token `n25k` stands for 25000, not for 2500. */
  lemma DecodeKilo(token: string)
    requires token == "n25k"
    ensures DecodeNumber(token) == Success(25000.0)
  {
    var b := ['n'] + "25";
    assert DecodeNumber(b) == Success(25.0) by {
      assert DecodeNumber("25") == Success(25.0) by {
        DecodeDigits("25");
      }
      DecodeSignFlag('n', "25");
    }
    assert token == b + ['k'];
    assert IsLowercase(b);
    DecodeMagnitudeSuffix(b, 'k');
    assert SuffixIndex('k', 0) == 2;
  }

  /** The number part of 10 with one place and width 3. */
  lemma ScriptNumberPart(v: real)
    requires v == 10.0
    ensures NumberPart(v, 1, 3) == "010p0"
  {
    assert Scaled(v, 1) == 100.0;
    assert NatToDigits(100) == "100" by {
      assert NatToDigits(1) == "1";
      assert NatToDigits(10) == "10";
    }
    FixedPartsOfUnits(v, 1, 100);
    assert "100"[..2] == "10" && "100"[2..] == "0";
    assert FillIntegerPart("10", 3) == "010";
  }

  /** The script section: 100 with one place, width 3 and magnitudes on. */
  lemma EncodeScript(number: real)
    requires number == 100.0
    ensures EncodedToken(number, 1, 3, true, true) == "n010p0d"
  {
    var v := Divided(Abs(number), 10);
    assert Scaling(number, true) == (v, "d") by {
      CollapseChoosesDecimal(Abs(number));
    }
    assert NumberPart(v, 1, 3) == "010p0" by {
      ScriptNumberPart(v);
    }
    TokenFrom(number, 1, 3, true, true, v, "d", "010p0", "n010p0d");
  }

  /** 10.5 collapsed is exactly 1.05, a tie between 1.0 and 1.1 at one place. */
  lemma TieNumberPart(v: real)
    requires v == 1.05
    ensures NumberPart(v, 1, 1) == "1p0"
  {
    assert Scaled(v, 1) == 10.5;
    RoundHalfEvenUnique(10.5, 10);
    assert NatToDigits(10) == "10" by {
      assert NatToDigits(1) == "1";
    }
    assert FixedDigits(v, 1) == "10";
    assert "10"[..1] == "1" && "10"[1..] == "0";
    assert FillIntegerPart("1", 1) == "1";
  }

  /** 10.5 with one place, width 1 and magnitudes on: the exact quotient 1.05 is a
      tie, which rounds to the even `1.0`. */
  lemma EncodeExactTie(number: real)
    requires number == 10.5
    ensures EncodedToken(number, 1, 1, true, true) == "n1p0d"
  {
    var v := Divided(Abs(number), 10);
    assert Scaling(number, true) == (v, "d") by {
      CollapseChoosesDecimal(Abs(number));
    }
    assert NumberPart(v, 1, 1) == "1p0" by {
      TieNumberPart(v);
    }
    TokenFrom(number, 1, 1, true, true, v, "d", "1p0", "n1p0d");
  }

  /** The script's token read back: 100 again. */
  lemma DecodeScript(number: real)
    requires number == 100.0
    ensures DecodeNumber(EncodedToken(number, 1, 3, true, true)) == Success(100.0)
  {
    var v := Divided(Abs(number), 10);
    assert Scaling(number, true) == (v, "d") by {
      CollapseChoosesDecimal(Abs(number));
    }
    DecodeEncode(number, 1, 3, true, true);
    assert RoundedTo(v, 1) == 10.0 by {
      assert ScaleDown(100.0, 1) == 10.0;
      RoundedToExact(100, 1);
    }
  }

  /** Negative latitudes start with `s`, positive longitudes with `e`; `len_min` and
      `collapse_magnitude` keep their defaults. */
  lemma SignFlagTokens(south: real, east: real)
    requires south == -23.0 && east == 45.0
    ensures EncodedToken(south, decimals := 0, isLatitude := true) == "s23"
    ensures EncodedToken(east, decimals := 0, isLatitude := false) == "e45"
  {
    assert Scaling(south, false) == (23.0, "");
    assert Scaling(east, false) == (45.0, "");
    RoundWhole(23);
    RoundWhole(45);
    assert NatToDigits(23) == "23" by {
      assert NatToDigits(2) == "2";
    }
    assert NatToDigits(45) == "45" by {
      assert NatToDigits(4) == "4";
    }
    TokenFrom(south, 0, 1, true, false, 23.0, "", "23", "s23");
    TokenFrom(east, 0, 1, false, false, 45.0, "", "45", "e45");
  }

  /** `round` sends a half to the even neighbour: 2.5 is written `2`, 3.5 `4`. */
  lemma HalfToEven(low: real, high: real)
    requires low == 2.5 && high == 3.5
    ensures EncodedToken(low, 0, 1, true, false) == "n2"
    ensures EncodedToken(high, 0, 1, true, false) == "n4"
  {
    assert Scaling(low, false) == (2.5, "");
    assert Scaling(high, false) == (3.5, "");
    assert RoundHalfEven(2.5) == 2;
    assert RoundHalfEven(3.5) == 4;
    TokenFrom(low, 0, 1, true, false, 2.5, "", "2", "n2");
    TokenFrom(high, 0, 1, true, false, 3.5, "", "4", "n4");
  }

  /** The known pairs of the unit tests. */
  lemma KnownPairNorth(token: string)
    requires token == "n002p3"
    ensures DecodeNumber(token) == Success(2.3)
  {
    var a, f := "002", "3";
    assert token == ['n'] + (a + [Decimal] + f);
    DecodeSignedDecimal('n', a, f);
    assert DecimalValue(a, f) == 2.3 by {
      assert a == ZFill("2", 3);
      ZFillValue("2", 3);
      assert ScaleDown(3.0, 1) == 0.3;
    }
  }

  lemma KnownPairSouth(token: string)
    requires token == "s023p4"
    ensures DecodeNumber(token) == Success(-23.4)
  {
    var a, f := "023", "4";
    assert token == ['s'] + (a + [Decimal] + f);
    DecodeSignedDecimal('s', a, f);
    assert DecimalValue(a, f) == 23.4 by {
      assert a == ZFill("23", 3);
      ZFillValue("23", 3);
      assert DigitsValue("23") == 23;
      assert ScaleDown(4.0, 1) == 0.4;
    }
  }

  /** The mantissa of `w05p0m`. */
  lemma MillionsMantissa(b: string)
    requires b == "w05p0"
    ensures DecodeNumber(b) == Success(-5.0)
  {
    var a, f := "05", "0";
    assert b == ['w'] + (a + [Decimal] + f);
    DecodeSignedDecimal('w', a, f);
    assert DecimalValue(a, f) == 5.0 by {
      assert Zeros(1) == "0";
      assert a == ZFill("5", 2);
      ZFillValue("5", 2);
      assert DigitsValue("0") == 0;
      ScaleDownShift(0, 1);
    }
  }

  lemma KnownPairMillions(token: string)
    requires token == "w05p0m"
    ensures DecodeNumber(token) == Success(-5000000.0)
  {
    var b := token[..|token| - 1];
    assert token == b + ['m'];
    MillionsMantissa(b);
    DecodeMagnitudeSuffix(b, 'm');
    assert SuffixIndex('m', 0) == 3;
  }

  lemma KnownPairHundreds(token: string)
    requires token == "23p44c"
    ensures DecodeNumber(token) == Success(2344.0)
  {
    var a, f := "23", "44";
    var b := a + [Decimal] + f;
    assert DecodeNumber(b) == Success(23.44) by {
      DecodeDecimal(a, f);
      assert DigitsValue("23") == 23;
      assert DigitsValue("44") == 44;
      assert ScaleDown(44.0, 2) == 0.44;
    }
    assert token == b + ['c'];
    assert IsLowercase(b) by {
      assert forall i :: 0 <= i < |b| ==> IsNumberChar(b[i]);
    }
    DecodeMagnitudeSuffix(b, 'c');
    assert SuffixIndex('c', 0) == 1;
  }

  lemma KnownPairPadded(token: string)
    requires token == "00002"
    ensures DecodeNumber(token) == Success(2.0)
  {
    assert token == ZFill("2", 5);
    ZFillValue("2", 5);
    DecodeDigits(token);
  }
}
