/** What `decode_number` does with the pieces of a token. */
module DecodeProperties {
  import opened PyText
  import opened NumFlare
  import opened EncodeProperties

  /** The outcome with its value multiplied by `k`; a failure passes through.
      This is `Rescale` with one real factor in place of a sign and an integer
      multiplier: `RescaleSign`, `RescaleFactor` and `RescaleUnit` take those apart. */
  function Times(r: Decoded, k: real): (t: Decoded)
    ensures t.Failure? <==> r.Failure?
    ensures r.Failure? ==> t == r
  {
    match r
    case Failure(e) => Failure(e)
    case Success(v) => Success(v * k)
  }

  /** A digit string holds no capital letter. */
  lemma DigitsAreLowercase(a: string)
    requires AllDigits(a)
    ensures IsLowercase(a) && Lower(a) == a
  {
    LowerFixes(a);
  }

  /** `decode_number` lowercases first: the case of the letters never matters. */
  lemma DecodeCaseInsensitive(t: string)
    ensures DecodeNumber(t) == DecodeNumber(Lower(t))
  {
    LowerFixes(t);
  }

  /** A plain digit string, leading zeros and all, decodes to its value. */
  lemma DecodeDigits(a: string)
    requires a != [] && AllDigits(a)
    ensures DecodeNumber(a) == Success(DigitsValue(a) as real)
  {
    assert DecodeNumber(a) == Rescale(DecodeUnsigned(a), 1, 1) by {
      DigitsAreLowercase(a);
      DecodeLowercaseText(a);
      MagnitudeKeys(a[|a| - 1]);
      assert IsDigit(a[0]);
      DecodeStages(a, a, 1, a, 1);
    }
    assert DecodeUnsigned(a) == Success(DigitsValue(a) as real) by {
      NotInDigits(a, Decimal);
      ParseFloatDigits(a);
    }
  }

  /** Lowercase text skips the lowercasing step. */
  lemma DecodeLowercaseText(t: string)
    requires t != [] && IsLowercase(t)
    ensures DecodeNumber(t) == DecodeLowercase(t)
  {
    LowerFixes(t);
  }

  /** The suffix step: a trailing key is removed and gives its factor; any other
      last character stays, with multiplier 1. */
  lemma StripMagnitudeCases(s: string)
    requires s != []
    ensures var (rest, multiplier) := StripMagnitude(s);
            |s| - 1 <= |rest| <= |s| && rest == s[..|rest|]
            && (|rest| < |s| <==> IsMagnitudeKey(s[|s| - 1]))
            && multiplier == if |rest| < |s| then FactorOf(s[|s| - 1]) else 1
  {
    assert s[..|s|] == s;
  }

  /** The sign step: `-1` exactly for a leading `s` or `w`; a leading flag of
      either sign is removed, any other first character stays. */
  lemma StripSignCases(s: string)
    ensures var (rest, sign) := StripSign(s);
            (sign == 1 || sign == -1)
            && (sign == -1 <==> s != [] && (s[0] == LatitudeNegative || s[0] == LongitudeNegative))
            && rest == if s != [] && IsSignFlag(s[0]) then s[1..] else s
  {
  }

  /** The stages of `DecodeLowercase`, given what the two strip steps return. */
  lemma DecodeStages(t: string, unsuffixed: string, multiplier: nat, unsigned: string, sign: int)
    requires t != []
    requires StripMagnitude(t) == (unsuffixed, multiplier)
    requires StripSign(unsuffixed) == (unsigned, sign)
    ensures DecodeLowercase(t) == Rescale(DecodeUnsigned(unsigned), sign, multiplier)
  {
  }

  /** A negative sign in `Rescale` is a negation afterwards. */
  lemma RescaleSign(r: Decoded, multiplier: nat, negative: bool)
    ensures Rescale(r, if negative then -1 else 1, multiplier)
         == Times(Rescale(r, 1, multiplier), if negative then -1.0 else 1.0)
  {
  }

  /** Sign 1 and multiplier 1 leave an outcome as it is. */
  lemma RescaleUnit(r: Decoded)
    ensures Rescale(r, 1, 1) == r
  {
  }

  /** A factor in `Rescale` is a multiplication afterwards. */
  lemma RescaleFactor(r: Decoded, sign: int, factor: nat)
    ensures Rescale(r, sign, factor) == Times(Rescale(r, sign, 1), factor as real)
  {
  }

  /** A text that does not start with a sign flag still does not once a trailing
      suffix is gone, so the sign step keeps it whole. */
  lemma StripKeepsUnflaggedLead(b: string)
    requires b != [] && !IsSignFlag(b[0])
    ensures var (rest, _) := StripMagnitude(b);
            (rest == [] || rest[0] == b[0]) && StripSign(rest) == (rest, 1)
  {
    StripMagnitudeCases(b);
  }

  /** A flag in front of a text does not change which suffix is stripped. */
  lemma StripMagnitudeAfterFlag(c: char, b: string)
    requires b != []
    ensures StripMagnitude([c] + b) == ([c] + StripMagnitude(b).0, StripMagnitude(b).1)
  {
    var t := [c] + b;
    assert t[|t| - 1] == b[|b| - 1];
    assert t[..|t| - 1] == [c] + b[..|b| - 1];
  }

  /** A leading sign flag negates (`s`, `w`) or keeps (`n`, `e`) the decoded value,
      success or failure, of the lowercase text after it, unless that text starts
      with a flag itself. */
  lemma DecodeSignFlag(c: char, b: string)
    requires IsSignFlag(c)
    requires b != [] && !IsSignFlag(b[0]) && IsLowercase(b)
    ensures DecodeNumber([c] + b)
         == Times(DecodeNumber(b), if c == LatitudeNegative || c == LongitudeNegative then -1.0 else 1.0)
  {
    var t := [c] + b;
    var negative := c == LatitudeNegative || c == LongitudeNegative;
    var sign := if negative then -1 else 1;
    assert IsLowercase(t) by {
      assert forall i :: 1 <= i < |t| ==> t[i] == b[i - 1];
    }
    DecodeLowercaseText(t);
    DecodeLowercaseText(b);
    var (rest, multiplier) := StripMagnitude(b);
    StripKeepsUnflaggedLead(b);
    StripMagnitudeAfterFlag(c, b);
    assert StripSign([c] + rest) == (rest, sign) by {
      assert ([c] + rest)[1..] == rest;
    }
    DecodeStages(t, [c] + rest, multiplier, rest, sign);
    DecodeStages(b, rest, multiplier, rest, 1);
    RescaleSign(DecodeUnsigned(rest), multiplier, negative);
  }

  /** A suffix letter appended to a text is exactly what the suffix step removes. */
  lemma StripAppendedKey(b: string, k: char)
    requires IsMagnitudeKey(k)
    ensures StripMagnitude(b + [k]) == (b, FactorOf(k))
  {
    assert (b + [k])[..|b|] == b;
  }

  /** A lowercase text stays lowercase with a suffix letter appended. */
  lemma AppendKeyLowercase(b: string, k: char)
    requires IsLowercase(b) && IsMagnitudeKey(k)
    ensures IsLowercase(b + [k])
  {
    MagnitudeKeys(k);
    assert forall i :: 0 <= i < |b| ==> (b + [k])[i] == b[i];
  }

  /** A trailing magnitude suffix after a text that does not itself end in one
      multiplies the value of that text by its factor. */
  lemma DecodeMagnitudeSuffix(b: string, k: char)
    requires b != [] && !IsMagnitudeKey(b[|b| - 1]) && IsLowercase(b)
    requires IsMagnitudeKey(k)
    ensures DecodeNumber(b + [k]) == Times(DecodeNumber(b), FactorOf(k) as real)
  {
    var (unsigned, sign) := StripSign(b);
    AppendKeyLowercase(b, k);
    DecodeLowercaseText(b + [k]);
    StripAppendedKey(b, k);
    DecodeStages(b + [k], b, FactorOf(k), unsigned, sign);
    DecodeLowercaseText(b);
    StripMagnitudeCases(b);
    DecodeStages(b, b, 1, unsigned, sign);
    RescaleFactor(DecodeUnsigned(unsigned), sign, FactorOf(k));
  }

  /** Lowercase text that neither starts with a sign flag nor ends in a suffix
      letter is positive and goes to the decimal stage whole. */
  lemma DecodeUnflagged(t: string)
    requires t != [] && IsLowercase(t)
    requires !IsSignFlag(t[0]) && !IsMagnitudeKey(t[|t| - 1])
    ensures DecodeNumber(t) == DecodeUnsigned(t)
  {
    DecodeLowercaseText(t);
    StripMagnitudeCases(t);
    assert t[..|t|] == t;
    StripSignCases(t);
    DecodeStages(t, t, 1, t, 1);
    RescaleUnit(DecodeUnsigned(t));
  }

  /** The text before the first `p` is read on its own and truncated, so an
      unsigned digit string there keeps its value. */
  lemma IntegerPartText(a: string)
    requires a != [] && AllDigits(a)
    ensures match DecodeNumber(a)
            case Success(v) => IntToText(Truncate(v)) == NatToDigits(DigitsValue(a))
            case Failure(_) => false
  {
    DecodeDigits(a);
    var n := DigitsValue(a);
    assert (n as real).Floor == n;
  }

  /** `a p f`, with digit strings `a` (non-empty) and `f`, is the decimal number `a.f`. */
  lemma DecodeDecimal(a: string, f: string)
    requires a != [] && AllDigits(a) && AllDigits(f)
    ensures DecodeNumber(a + [Decimal] + f) == Success(DecimalValue(a, f))
  {
    var t := a + [Decimal] + f;
    NotInDigits(a, Decimal);
    NotInDigits(f, Decimal);
    SplitTwo(a, Decimal, f);
    DecodeFraction(t, a, f);
  }

  /** Multiplying by the sign factor is `Signed`. */
  lemma TimesSign(r: real, negative: bool)
    ensures Times(Success(r), if negative then -1.0 else 1.0) == Success(Signed(negative, r))
  {
  }

  /** A sign flag followed by `a p f` is the decimal number `a.f` with the flag's sign. */
  lemma DecodeSignedDecimal(c: char, a: string, f: string)
    requires IsSignFlag(c) && a != [] && AllDigits(a) && AllDigits(f)
    ensures DecodeNumber([c] + (a + [Decimal] + f))
         == Success(Signed(c == LatitudeNegative || c == LongitudeNegative, DecimalValue(a, f)))
  {
    var b := a + [Decimal] + f;
    var negative := c == LatitudeNegative || c == LongitudeNegative;
    assert DecodeNumber(b) == Success(DecimalValue(a, f)) by {
      DecodeDecimal(a, f);
    }
    assert IsLowercase(b) && IsDigit(b[0]) by {
      assert forall i :: 0 <= i < |b| ==> IsNumberChar(b[i]);
    }
    assert DecodeNumber([c] + b) == Times(DecodeNumber(b), if negative then -1.0 else 1.0) by {
      DecodeSignFlag(c, b);
    }
    TimesSign(DecimalValue(a, f), negative);
  }

  /** Only the text up to a second `p` is read as the fraction; the rest is dropped. */
  lemma DecodeDecimalIgnoresRest(a: string, f: string, g: string)
    requires a != [] && AllDigits(a) && AllDigits(f) && AllDigits(g)
    ensures DecodeNumber(a + [Decimal] + f + [Decimal] + g) == Success(DecimalValue(a, f))
  {
    var t := a + [Decimal] + f + [Decimal] + g;
    NotInDigits(a, Decimal);
    NotInDigits(f, Decimal);
    NotInDigits(g, Decimal);
    SplitThree(a, Decimal, f, g);
    assert t == a + [Decimal] + (f + [Decimal] + g);
    DecodeFraction(t, a, f);
  }

  /** Text of digits and `p`s has no suffix and no sign flag to strip. */
  lemma DecodeNumberChars(t: string)
    requires t != []
    requires forall i :: 0 <= i < |t| ==> IsNumberChar(t[i])
    ensures DecodeNumber(t) == Rescale(DecodeUnsigned(t), 1, 1)
  {
    assert DecodeNumber(t) == DecodeLowercase(t) by {
      assert IsLowercase(t);
      DecodeLowercaseText(t);
    }
    assert StripMagnitude(t) == (t, 1) by {
      MagnitudeKeys(t[|t| - 1]);
    }
    assert StripSign(t) == (t, 1) by {
      assert IsNumberChar(t[0]);
    }
    DecodeStages(t, t, 1, t, 1);
  }

  /** The decimal stage when the first two parts at `p` are digit strings. */
  lemma DecodeUnsignedDecimal(t: string, a: string, f: string)
    requires a != [] && AllDigits(a) && AllDigits(f)
    requires Decimal in t
    requires |Split(t, Decimal)| >= 2 && Split(t, Decimal)[0] == a && Split(t, Decimal)[1] == f
    ensures DecodeUnsigned(t) == ParseNumeral(NatToDigits(DigitsValue(a)) + "." + f)
  {
    IntegerPartText(a);
  }

  /** The decimal stage on a digit-led text of digits and `p`s that splits into
      `a`, `f`, ...: the number `a.f`. */
  lemma DecodeFraction(t: string, a: string, f: string)
    requires a != [] && AllDigits(a) && AllDigits(f)
    requires forall i :: 0 <= i < |t| ==> IsNumberChar(t[i])
    requires |t| > |a| && t[..|a|] == a
    requires |Split(t, Decimal)| >= 2 && Split(t, Decimal)[0] == a && Split(t, Decimal)[1] == f
    ensures DecodeNumber(t) == Success(DecimalValue(a, f))
  {
    assert DecodeNumber(t) == Rescale(DecodeUnsigned(t), 1, 1) by {
      DecodeNumberChars(t);
    }
    assert Decimal in t by {
      assert Join(Split(t, Decimal), Decimal) == a + [Decimal] + Join(Split(t, Decimal)[1..], Decimal);
      assert t[|a|] == Decimal;
    }
    var n := NatToDigits(DigitsValue(a));
    assert DecodeUnsigned(t) == ParseNumeral(n + "." + f) by {
      DecodeUnsignedDecimal(t, a, f);
    }
    assert ParseNumeral(n + "." + f) == Success(DecimalValue(a, f)) by {
      ParseFloatFixed(false, n, f);
      assert "" + (n + "." + f) == n + "." + f;
      assert DecimalValue(n, f) == DecimalValue(a, f);
    }
  }

  /** A `p` with nothing before it sends `decode_number` back to an empty token. */
  lemma DecodeNoIntegerDigits(f: string)
    requires AllDigits(f)
    ensures DecodeNumber([Decimal] + f) == Failure(EmptyToken)
  {
    var t := [Decimal] + f;
    DecodeNumberChars(t);
    assert DecodeUnsigned(t) == Failure(EmptyToken) by {
      assert Split(t, Decimal) == [[], f] by {
        NotInDigits(f, Decimal);
        SplitTwo([], Decimal, f);
        assert [] + [Decimal] + f == t;
      }
      assert t[0] == Decimal;
    }
  }

  /** A magnitude suffix alone leaves nothing for `float()`. */
  lemma DecodeBareSuffix(k: char)
    requires IsMagnitudeKey(k)
    ensures DecodeNumber([k]) == Failure(NotANumber)
  {
    MagnitudeKeys(k);
    assert IsLowercase([k]);
    DecodeLowercaseText([k]);
    DecodeStages([k], [], FactorOf(k), [], 1);
  }
}
