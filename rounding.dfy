/** Python's `round(x)` and `format(x, ".Nf")`, taken on the exact value of `x`:
    both round half to even, as CPython does on the exact value of a float. */
module Rounding {
  import opened PyText

  /** `round(x)`: the integer nearest to `x`; of two equally near, the even one. */
  function RoundHalfEven(x: real): (r: int)
    ensures -0.5 <= r as real - x <= 0.5
    ensures (r as real - x == 0.5 || r as real - x == -0.5) ==> r % 2 == 0
    ensures x >= 0.0 ==> r >= 0
  {
    var f := x.Floor;
    var below := x - f as real;
    if below < 0.5 then f
    else if below > 0.5 then f + 1
    else if f % 2 == 0 then f
    else f + 1
  }

  /** The two properties of `RoundHalfEven` determine it. */
  lemma RoundHalfEvenUnique(x: real, n: int)
    requires -0.5 <= n as real - x <= 0.5
    requires (n as real - x == 0.5 || n as real - x == -0.5) ==> n % 2 == 0
    ensures n == RoundHalfEven(x)
  {
  }

  /** Rounding leaves whole numbers alone. */
  lemma RoundWhole(n: int)
    ensures RoundHalfEven(n as real) == n
  {
    RoundHalfEvenUnique(n as real, n);
  }

  /** `x` counted in units of `10^-decimals`. */
  function Scaled(x: real, decimals: nat): (y: real)
    ensures x >= 0.0 ==> y >= 0.0
  {
    ScaleUp(x, decimals)
  }

  /** The digits of `x * 10^decimals` rounded, with at least `decimals + 1` of them
      and no leading zero beyond that width. */
  function FixedDigits(x: real, decimals: nat): (s: string)
    requires x >= 0.0
    ensures |s| >= decimals + 1 && AllDigits(s)
    ensures |s| == decimals + 1 || s[0] != '0'
    ensures DigitsValue(s) == RoundHalfEven(Scaled(x, decimals))
  {
    var units := RoundHalfEven(Scaled(x, decimals));
    ZFillValue(NatToDigits(units), decimals + 1);
    ZFill(NatToDigits(units), decimals + 1)
  }

  /** The digits before and after the point of `x` written with `decimals` places;
      the integer digits have no leading zero unless they are a lone `0`. */
  function FixedParts(x: real, decimals: nat): (parts: (string, string))
    requires x >= 0.0
    ensures parts.0 != [] && AllDigits(parts.0) && AllDigits(parts.1)
    ensures |parts.0| == 1 || parts.0[0] != '0'
    ensures |parts.1| == decimals
    ensures Shift(DigitsValue(parts.0), decimals) + DigitsValue(parts.1)
         == RoundHalfEven(Scaled(x, decimals))
  {
    var digits := FixedDigits(x, decimals);
    var cut := |digits| - decimals;
    assert digits == digits[..cut] + digits[cut..];
    DigitsValueConcat(digits[..cut], digits[cut..]);
    (digits[..cut], digits[cut..])
  }

  /** `format(x, ".Nf")` for `x >= 0`: no point when `N == 0`. */
  function FormatFixed(x: real, decimals: nat): string
    requires x >= 0.0
  {
    var (whole, fraction) := FixedParts(x, decimals);
    if decimals == 0 then whole else whole + "." + fraction
  }

  /** With no places, the fixed-point text is the rounded number's digits. */
  lemma FormatFixedNoPlaces(x: real)
    requires x >= 0.0
    ensures FormatFixed(x, 0) == NatToDigits(RoundHalfEven(x))
  {
    assert Scaled(x, 0) == x;
    var units := RoundHalfEven(x);
    var digits := NatToDigits(units);
    assert ZFill(digits, 1) == digits;
    assert FixedDigits(x, 0)[..|FixedDigits(x, 0)|] == FixedDigits(x, 0);
  }
}
