/** The Python text built-ins the codec relies on, over `string` (= seq<char>):
    `str(int)`, `int()` on digit strings, `str.zfill`, `str.lower`, `str.split`
    and `float()` on decimal numerals. */
module PyText {

  datatype Option<T> = None | Some(value: T)

  predicate IsDigit(c: char) { '0' <= c <= '9' }

  predicate AllDigits(s: string) { forall i :: 0 <= i < |s| ==> IsDigit(s[i]) }

  function DigitValue(c: char): nat
    requires IsDigit(c)
  {
    c as int - '0' as int
  }

  function DigitChar(d: nat): (c: char)
    requires d < 10
    ensures IsDigit(c) && DigitValue(c) == d
  {
    ('0' as int + d) as char
  }

  /** `a * 10^n`, written as `n` shifts by one decimal place. */
  function Shift(a: int, n: nat): (r: int)
    ensures a >= 0 ==> r >= a
  {
    if n == 0 then a else 10 * Shift(a, n - 1)
  }

  /** `x * 10^n` on reals. */
  function ScaleUp(x: real, n: nat): (y: real)
    ensures x >= 0.0 ==> y >= x
  {
    if n == 0 then x else 10.0 * ScaleUp(x, n - 1)
  }

  /** `x / 10^n` on reals. */
  function ScaleDown(x: real, n: nat): (y: real)
    ensures x >= 0.0 ==> 0.0 <= y <= x
    decreases n
  {
    if n == 0 then x else ScaleDown(x / 10.0, n - 1)
  }

  /** Shifting an integer left by `n` places and scaling back down returns it. */
  lemma {:induction false} ScaleDownShift(a: int, n: nat)
    ensures ScaleDown(Shift(a, n) as real, n) == a as real
  {
    if n > 0 {
      assert Shift(a, n) as real / 10.0 == Shift(a, n - 1) as real;
      ScaleDownShift(a, n - 1);
    }
  }

  /** `ScaleDown` undoes `ScaleUp`. */
  lemma {:induction false} ScaleDownUp(x: real, n: nat)
    ensures ScaleDown(ScaleUp(x, n), n) == x
  {
    if n > 0 {
      ScaleDownUp(x, n - 1);
    }
  }

  /** `ScaleUp` undoes `ScaleDown`. */
  lemma {:induction false} ScaleUpDown(x: real, n: nat)
    ensures ScaleUp(ScaleDown(x, n), n) == x
    decreases n
  {
    if n > 0 {
      ScaleUpDown(x / 10.0, n - 1);
    }
  }

  /** `ScaleDown` distributes over a sum. */
  lemma {:induction false} ScaleDownAdd(x: real, y: real, n: nat)
    ensures ScaleDown(x + y, n) == ScaleDown(x, n) + ScaleDown(y, n)
    decreases n
  {
    if n > 0 {
      assert (x + y) / 10.0 == x / 10.0 + y / 10.0;
      ScaleDownAdd(x / 10.0, y / 10.0, n - 1);
    }
  }

  /** `ScaleDown` commutes with negation. */
  lemma {:induction false} ScaleDownNeg(x: real, n: nat)
    ensures ScaleDown(-x, n) == -ScaleDown(x, n)
    decreases n
  {
    if n > 0 {
      assert -x / 10.0 == -(x / 10.0);
      ScaleDownNeg(x / 10.0, n - 1);
    }
  }

  /** `ScaleDown` keeps a value within a symmetric bound, scaled. */
  lemma {:induction false} ScaleDownBound(x: real, bound: real, n: nat)
    requires -bound <= x <= bound
    ensures -ScaleDown(bound, n) <= ScaleDown(x, n) <= ScaleDown(bound, n)
    decreases n
  {
    if n > 0 {
      ScaleDownBound(x / 10.0, bound / 10.0, n - 1);
    }
  }

  /** The number a string of decimal digits denotes, most significant digit first. */
  function DigitsValue(s: string): nat
    requires AllDigits(s)
  {
    if s == [] then 0 else 10 * DigitsValue(s[..|s| - 1]) + DigitValue(s[|s| - 1])
  }

  /** `str(n)` for a non-negative integer: the shortest digit string denoting `n`. */
  function NatToDigits(n: nat): (s: string)
    ensures |s| >= 1 && AllDigits(s)
    ensures DigitsValue(s) == n
    ensures |s| > 1 ==> s[0] != '0'
  {
    if n < 10 then [DigitChar(n)]
    else
      var init := NatToDigits(n / 10);
      assert (init + [DigitChar(n % 10)])[..|init|] == init;
      init + [DigitChar(n % 10)]
  }

  /** `str(i)` for any integer: a minus sign in front of the digits of a negative one. */
  function IntToText(i: int): string
  {
    if i < 0 then "-" + NatToDigits(-i) else NatToDigits(i)
  }

  /** `str(i)` is a minus sign exactly for a negative `i`, followed by the shortest
      digits of `|i|`. */
  lemma IntToTextDigits(i: int)
    ensures var t := IntToText(i);
            var digits := if i < 0 then t[1..] else t;
            t != [] && (t[0] == '-' <==> i < 0)
            && AllDigits(digits) && DigitsValue(digits) == (if i < 0 then -i else i)
            && (|digits| > 1 ==> digits[0] != '0')
  {
    if i < 0 {
      assert IntToText(i)[1..] == NatToDigits(-i);
    } else {
      assert IsDigit(IntToText(i)[0]);
    }
  }

  function Zeros(k: nat): (z: string)
    ensures |z| == k && AllDigits(z)
    ensures forall i :: 0 <= i < k ==> z[i] == '0'
  {
    seq(k, _ => '0')
  }

  /** `s.zfill(width)` for an unsigned digit string: zeros on the left up to `width` characters. */
  function ZFill(s: string, width: int): string
  {
    if |s| < width then Zeros(width - |s|) + s else s
  }

  /** `zfill` pads to `max(width, len(s))`: `s` at the end, zeros before it, and
      nothing cut off. */
  lemma ZFillLayout(s: string, width: int)
    ensures var r := ZFill(s, width);
            |r| == (if width > |s| then width else |s|)
            && r[|r| - |s|..] == s
            && forall i :: 0 <= i < |r| - |s| ==> r[i] == '0'
  {
  }

  lemma {:induction false} ZerosValue(k: nat)
    ensures DigitsValue(Zeros(k)) == 0
  {
    if k > 0 {
      assert Zeros(k)[..k - 1] == Zeros(k - 1);
      ZerosValue(k - 1);
    }
  }

  /** Digits read left to right: the value of `a + b` shifts `a` by the length of `b`. */
  lemma {:induction false} DigitsValueConcat(a: string, b: string)
    requires AllDigits(a) && AllDigits(b)
    ensures AllDigits(a + b)
    ensures DigitsValue(a + b) == Shift(DigitsValue(a), |b|) + DigitsValue(b)
  {
    if b == [] {
      assert a + b == a;
    } else {
      var b' := b[..|b| - 1];
      assert (a + b)[..|a + b| - 1] == a + b';
      assert (a + b)[|a + b| - 1] == b[|b| - 1];
      DigitsValueConcat(a, b');
    }
  }

  lemma {:induction false} ShiftZero(n: nat)
    ensures Shift(0, n) == 0
  {
    if n > 0 {
      ShiftZero(n - 1);
    }
  }

  /** Zero padding on the left never changes the value of a digit string. */
  lemma ZFillValue(s: string, width: int)
    requires AllDigits(s)
    ensures AllDigits(ZFill(s, width)) && DigitsValue(ZFill(s, width)) == DigitsValue(s)
  {
    if |s| < width {
      ZerosValue(width - |s|);
      ShiftZero(|s|);
      DigitsValueConcat(Zeros(width - |s|), s);
    }
  }

  predicate IsUpper(c: char) { 'A' <= c <= 'Z' }

  function LowerChar(c: char): char
  {
    if IsUpper(c) then (c as int + 32) as char else c
  }

  /** `s.lower()` on the ASCII letters. */
  function Lower(s: string): (r: string)
    ensures |r| == |s|
    ensures IsLowercase(r)
    ensures forall i :: 0 <= i < |s| && !IsUpper(s[i]) ==> r[i] == s[i]
    ensures forall i :: 0 <= i < |s| && IsUpper(s[i]) ==> r[i] as int - 'a' as int == s[i] as int - 'A' as int
  {
    seq(|s|, i requires 0 <= i < |s| => LowerChar(s[i]))
  }

  predicate IsLowercase(s: string) { forall i :: 0 <= i < |s| ==> !IsUpper(s[i]) }

  /** Lowering is idempotent, and leaves text without capitals as it is. */
  lemma LowerFixes(s: string)
    ensures IsLowercase(Lower(s))
    ensures Lower(Lower(s)) == Lower(s)
    ensures IsLowercase(s) ==> Lower(s) == s
  {
  }

  /** Index of the first occurrence of `c` in `s`. */
  function IndexOf(s: string, c: char): (i: nat)
    requires c in s
    ensures i < |s| && s[i] == c && c !in s[..i]
  {
    if s[0] == c then 0
    else
      var j := IndexOf(s[1..], c);
      assert s[..j + 1] == [s[0]] + s[1..][..j];
      1 + j
  }

  /** Inverse of `str.split`: the parts with `sep` between consecutive ones. */
  function Join(parts: seq<string>, sep: char): string
    requires |parts| >= 1
  {
    if |parts| == 1 then parts[0] else parts[0] + [sep] + Join(parts[1..], sep)
  }

  /** `s.split(sep)` for a one-character separator. */
  function Split(s: string, sep: char): (parts: seq<string>)
    ensures |parts| >= 1
    ensures forall i :: 0 <= i < |parts| ==> sep !in parts[i]
    ensures Join(parts, sep) == s
    ensures sep in s <==> |parts| >= 2
    decreases |s|
  {
    if sep !in s then [s]
    else
      var i := IndexOf(s, sep);
      var rest := Split(s[i + 1..], sep);
      var parts := [s[..i]] + rest;
      assert parts[1..] == rest;
      assert s == s[..i] + [sep] + s[i + 1..];
      parts
  }

  /** The first separator of `a + [sep] + b` is the one after `a` when `a` holds none. */
  lemma {:induction false} IndexOfAfter(a: string, sep: char, b: string)
    requires sep !in a
    ensures sep in a + [sep] + b
    ensures IndexOf(a + [sep] + b, sep) == |a|
  {
    var s := a + [sep] + b;
    assert s[|a|] == sep;
    if a != [] {
      assert s[1..] == a[1..] + [sep] + b;
      assert s[0] == a[0];
      IndexOfAfter(a[1..], sep, b);
    }
  }

  /** Splitting undoes joining when no part holds the separator. */
  lemma {:induction false} SplitJoin(parts: seq<string>, sep: char)
    requires |parts| >= 1
    requires forall i :: 0 <= i < |parts| ==> sep !in parts[i]
    ensures Split(Join(parts, sep), sep) == parts
  {
    if |parts| > 1 {
      var tail := Join(parts[1..], sep);
      var s := parts[0] + [sep] + tail;
      IndexOfAfter(parts[0], sep, tail);
      assert s[..|parts[0]|] == parts[0];
      assert s[|parts[0]| + 1..] == tail;
      SplitJoin(parts[1..], sep);
      assert parts == [parts[0]] + parts[1..];
    }
  }

  /** A text with one separator splits into the two sides. */
  lemma SplitTwo(a: string, sep: char, b: string)
    requires sep !in a && sep !in b
    ensures Split(a + [sep] + b, sep) == [a, b]
  {
    var s := a + [sep] + b;
    IndexOfAfter(a, sep, b);
    assert s[..|a|] == a;
    assert s[|a| + 1..] == b;
  }

  /** A text with two separators splits into the three pieces. */
  lemma SplitThree(a: string, sep: char, b: string, c: string)
    requires sep !in a && sep !in b && sep !in c
    ensures Split(a + [sep] + b + [sep] + c, sep) == [a, b, c]
  {
    var rest := b + [sep] + c;
    var s := a + [sep] + rest;
    assert a + [sep] + b + [sep] + c == s;
    IndexOfAfter(a, sep, rest);
    assert s[..|a|] == a;
    assert s[|a| + 1..] == rest;
    SplitTwo(b, sep, c);
  }

  /** Splits an optional leading `+` or `-` off a numeral: (negative?, rest). */
  function SplitSign(s: string): (bool, string)
  {
    if |s| > 0 && (s[0] == '+' || s[0] == '-') then (s[0] == '-', s[1..]) else (false, s)
  }

  function Signed(negative: bool, v: real): real
  {
    if negative then -v else v
  }

  /** The number written `whole . fraction` in decimal. */
  function DecimalValue(whole: string, fraction: string): real
    requires AllDigits(whole) && AllDigits(fraction)
  {
    DigitsValue(whole) as real + ScaleDown(DigitsValue(fraction) as real, |fraction|)
  }

  /** `digits [. digits]` or `. digits`, with at least one digit. */
  function ParseMantissa(s: string): Option<real>
  {
    if '.' in s then
      var i := IndexOf(s, '.');
      var whole, fraction := s[..i], s[i + 1..];
      if AllDigits(whole) && AllDigits(fraction) && (whole != [] || fraction != []) then
        Some(DecimalValue(whole, fraction))
      else None
    else if s != [] && AllDigits(s) then Some(DigitsValue(s) as real)
    else None
  }

  /** `[sign] digits` after the exponent marker. */
  function ParseExponent(s: string): Option<int>
  {
    var (negative, digits) := SplitSign(s);
    if digits != [] && AllDigits(digits) then
      Some(if negative then -(DigitsValue(digits) as int) else DigitsValue(digits))
    else None
  }

  function ScaleByPow10(m: real, e: int): real
  {
    if e >= 0 then ScaleUp(m, e) else ScaleDown(m, -e)
  }

  /** `float(s)` on finite decimal numerals `[sign] mantissa [e [sign] digits]`;
      `None` where Python raises `ValueError`. */
  function ParseFloat(s: string): (r: Option<real>)
    ensures r.Some? ==> s != [] && (IsDigit(s[0]) || s[0] == '+' || s[0] == '-' || s[0] == '.')
  {
    var (negative, unsigned) := SplitSign(s);
    var m := if 'e' in unsigned then IndexOf(unsigned, 'e') else |unsigned|;
    match ParseMantissa(unsigned[..m])
    case None => None
    case Some(mantissa) =>
      if m == |unsigned| then Some(Signed(negative, mantissa))
      else
        match ParseExponent(unsigned[m + 1..])
        case None => None
        case Some(e) => Some(Signed(negative, ScaleByPow10(mantissa, e)))
  }

  /** A character that is not a digit does not occur in a digit string. */
  lemma NotInDigits(s: string, c: char)
    requires AllDigits(s) && !IsDigit(c)
    ensures c !in s
  {
    assert forall i :: 0 <= i < |s| ==> s[i] != c;
  }

  /** Without an exponent, `float()` is the signed mantissa. */
  lemma ParseFloatNoExponent(s: string, negative: bool, unsigned: string, m: real)
    requires SplitSign(s) == (negative, unsigned) && 'e' !in unsigned
    requires ParseMantissa(unsigned) == Some(m)
    ensures ParseFloat(s) == Some(Signed(negative, m))
  {
    assert unsigned[..|unsigned|] == unsigned;
  }

  /** `float()` of a plain digit string is its value; leading zeros are allowed. */
  lemma ParseFloatDigits(a: string)
    requires a != [] && AllDigits(a)
    ensures ParseFloat(a) == Some(DigitsValue(a) as real)
  {
    NotInDigits(a, 'e');
    NotInDigits(a, '.');
    assert IsDigit(a[0]);
    ParseFloatNoExponent(a, false, a, DigitsValue(a) as real);
  }

  lemma ParseMantissaFixed(a: string, b: string)
    requires AllDigits(a) && AllDigits(b) && a != []
    ensures ParseMantissa(a + "." + b)
         == Some(DecimalValue(a, b))
  {
    var u := a + "." + b;
    NotInDigits(a, '.');
    IndexOfAfter(a, '.', b);
    assert '.' in u;
    var i := IndexOf(u, '.');
    assert i == |a|;
    assert u[..i] == a;
    assert u[i + 1..] == b;
    assert AllDigits(u[..i]) && AllDigits(u[i + 1..]) && u[..i] != [];
  }

  /** `float()` of `[-] a . b` with digit strings `a` (non-empty) and `b`. */
  lemma ParseFloatFixed(negative: bool, a: string, b: string)
    requires a != [] && AllDigits(a) && AllDigits(b)
    ensures ParseFloat((if negative then "-" else "") + (a + "." + b))
         == Some(Signed(negative, DecimalValue(a, b)))
  {
    var unsigned := a + "." + b;
    var s := (if negative then "-" else "") + unsigned;
    SplitSignOf(negative, unsigned);
    assert 'e' !in unsigned by {
      NotInDigits(a, 'e');
      NotInDigits(b, 'e');
    }
    ParseMantissaFixed(a, b);
    ParseFloatNoExponent(s, negative, unsigned, DecimalValue(a, b));
  }

  lemma SplitSignOf(negative: bool, u: string)
    requires u != [] && IsDigit(u[0])
    ensures SplitSign((if negative then "-" else "") + u) == (negative, u)
  {
    var s := (if negative then "-" else "") + u;
    if negative {
      assert s[0] == '-' && s[1..] == u;
    } else {
      assert s == u;
    }
  }
}
