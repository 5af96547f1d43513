// The limits of dtoa.c: exactly when js_atod is correctly rounded, texts for which it is not,
// and a double that js_dtoa prints with a digit too many.
module DtoaLimits {
  import opened Powers
  import opened Scaling
  import opened Doubles
  import opened FreeFormat
  import opened DoubleBits
  import opened Midpoints
  import opened AtodText
  import opened Atod
  import opened JsAtod
  import opened DtoaOutput
  import opened DtoaRoundTrip

  // ---------------------------------------------------------------------------
  // The exact condition

  // The number of a text with all its digits.
  ghost function FullMagnitude(ds: seq<nat>, frac: nat, e: int, binary: bool, x: Radix): (y: real)
    requires RadixOk(x)
  {
    Magnitude(Num(ds, Base(x)), x, frac, e, binary)
  }

  // And with the digits js_atod takes into account.
  ghost function ReadMagnitude(ds: seq<nat>, frac: nat, e: int, binary: bool, x: Radix): (y: real)
    requires RadixOk(x)
  {
    Magnitude(ReadDigits(ds, x), x, frac, e, binary)
  }

  // r is the double nearest to the number of the text.
  ghost predicate CorrectlyRounded(text: string, x: Radix, r: Double)
    requires RadixOk(x)
  {
    match ParseText(text, x)
    case NotANumber => r == NaN
    case Infinite(neg, _) => r == Bits(INFINITE + Sign(neg))
    case Literal(neg, ds, frac, e, binary, _) =>
      exists a: nat :: RoundedBits(FullMagnitude(ds, frac, e, binary, x), a) && r == Bits(a + Sign(neg))
  }

  // The digits that are not read do not carry the number across a midpoint between two
  // doubles, and an exponent that does not fit an int is not made up for by the digits.
  ghost predicate DigitsSuffice(ds: seq<nat>, frac: nat, e: int, binary: bool, x: Radix)
    requires RadixOk(x)
  {
    var y := FullMagnitude(ds, frac, e, binary, x);
    if Significant(ds) == [] || Abs(e) < EXPN_LIMIT then !Crossed(ReadMagnitude(ds, frac, e, binary, x), y)
    else if e < 0 then y <= RPow(2, -1075)
    else y >= RPow(2, 1024) - RPow(2, 970)
  }

  ghost predicate TextSuffices(text: string, x: Radix)
    requires RadixOk(x)
  {
    match ParseText(text, x)
    case Literal(_, ds, frac, e, binary, _) => DigitsSuffice(ds, frac, e, binary, x)
    case _ => true
  }

  // js_atod returns the double nearest to the text if and only if its int arithmetic does not
  // overflow and the digits it reads suffice.
  lemma {:induction false} CorrectExactly(text: string, x: Radix, r: Double)
    requires RadixOk(x) && IsConversion(text, x, r)
    ensures CorrectlyRounded(text, x, r) <==> TextFits(text, x) && TextSuffices(text, x)
  {
    hide ParseText, TextFits, Converted, DigitsSuffice, FullMagnitude, RoundedBits;
    match ParseText(text, x)
    case Literal(neg, ds, frac, e, binary, _) =>
      if TextFits(text, x) {
        var a: nat :| Converted(ds, frac, e, binary, x, a) && r == Bits(a + Sign(neg));
        ConvertedExactly(ds, frac, e, binary, x, a);
      }
    case _ =>
  }

  lemma {:induction false} ConvertedExactly(ds: seq<nat>, frac: nat, e: int, binary: bool, x: Radix, a: nat)
    requires RadixOk(x) && Converted(ds, frac, e, binary, x, a)
    ensures RoundedBits(FullMagnitude(ds, frac, e, binary, x), a) <==> DigitsSuffice(ds, frac, e, binary, x)
  {
    hide RPow, RoundedBits, Magnitude, Significant, ReadDigits, Num, Midpoint, Crossed;
    var y := FullMagnitude(ds, frac, e, binary, x);
    if Significant(ds) == [] || Abs(e) < EXPN_LIMIT {
      ReadsLess(ds, frac, e, binary, x);
      RoundedInstead(ReadMagnitude(ds, frac, e, binary, x), y, a);
    } else {
      Thresholds();
      RoundedIffAround(y, a);
    }
  }

  // Digits that are not read are missing.
  lemma {:induction false} ReadsLess(ds: seq<nat>, frac: nat, e: int, binary: bool, x: Radix)
    requires RadixOk(x)
    ensures ReadMagnitude(ds, frac, e, binary, x) <= FullMagnitude(ds, frac, e, binary, x)
  {
    hide RPow, Pow, Num;
    var s, most := Significant(ds), ATOD_MAX_DIGITS[Base(x) - 2];
    NumSignificant(ds, Base(x));
    if x.odd == 5 && |s| > most {
      assert s == s[..most] + s[most..];
      NumConcat(s[..most], s[most..], Base(x));
    }
    var n, m := ReadDigits(ds, x), Num(ds, Base(x));
    assert n <= m;
    var w := RPow(Base(x), (if binary then 0 else e) - frac) * RPow(2, if binary then e else 0);
    ProductPositive(RPow(Base(x), (if binary then 0 else e) - frac), RPow(2, if binary then e else 0));
    RMulMono(n as real, m as real, w);
  }

  lemma {:induction false} ProductPositive(a: real, b: real)
    requires a > 0.0 && b > 0.0
    ensures a * b > 0.0
  {
  }

  // In a power of two every digit is read, and in radix 10 up to 38 of them; a huge exponent
  // decides rightly if there are not too many digits.
  lemma {:induction false} ShortTextSuffices(ds: seq<nat>, frac: nat, e: int, binary: bool, x: Radix)
    requires RadixOk(x) && DigitsOk(ds, Base(x)) && frac <= |ds| && (binary ==> x.odd == 1 && x.shift <= 4)
    requires 5 * |ds| <= INT_MAX || Abs(e) < EXPN_LIMIT
    requires x.odd == 1 || |Significant(ds)| <= 38 || AllZero(Significant(ds)[38..]) || Abs(e) >= EXPN_LIMIT
    ensures DigitsSuffice(ds, frac, e, binary, x)
  {
    hide RPow, RoundedBits, Magnitude, Significant, ReadDigits, Num, Midpoint, Below, AllZero;
    if Significant(ds) == [] || Abs(e) < EXPN_LIMIT {
      ReadDigitsExact(ds, x);
    } else {
      HugeExponent(ds, x, frac, e, binary);
      ConvertedExactly(ds, frac, e, binary, x, if e < 0 then 0 else INFINITE);
    }
  }

  // ---------------------------------------------------------------------------
  // Reading an example

  lemma {:induction false} TwoDigitNumber(a: nat, b: nat)
    ensures Num([a, b], 10) == 10 * a + b
  {
    hide Num;
    NumSnoc([], a, 10);
    NumSnoc([a], b, 10);
    assert [] + [a] == [a] && [a] + [b] == [a, b];
  }

  lemma {:induction false} FourDigitNumber(a: nat, b: nat, c: nat, d: nat)
    ensures Num([a, b, c, d], 10) == 1000 * a + 100 * b + 10 * c + d
  {
    hide Num;
    TwoDigitNumber(a, b);
    NumSnoc([a, b], c, 10);
    NumSnoc([a, b, c], d, 10);
    assert [a, b] + [c] == [a, b, c] && [a, b, c] + [d] == [a, b, c, d];
  }

  lemma {:induction false} AppendFour(ds: seq<nat>, a: nat, b: nat, c: nat, d: nat)
    ensures Num(ds + [a, b, c, d], 10) == 10_000 * Num(ds, 10) + 1000 * a + 100 * b + 10 * c + d
  {
    hide Num, Pow;
    FourDigitNumber(a, b, c, d);
    NumConcat(ds, [a, b, c, d], 10);
    ThousandIs();
    PowStep(10, 3);
  }

  // Digits, a point, digits, and an exponent with or without a minus sign.
  lemma {:induction false} ParseExample(text: string, a: seq<nat>, point: bool, b: seq<nat>, minus: bool, es: seq<nat>)
    requires DigitsOk(a, 10) && DigitsOk(b, 10) && DigitsOk(es, 10) && a != [] && es != [] && (!point ==> b == [])
    requires text == DecimalText(a, point, b) + ("e" + (if minus then "-" else "") + Text(es))
    ensures ReadsAs(text, false, a + b, |b|, if minus then -(Num(es, 10) as int) else Num(es, 10))
  {
    hide DecimalText, Text, Num, DecimalRun, ReadsAs;
    var tail := "e" + (if minus then "-" else "") + Text(es);
    var p := |text| - |tail|;
    assert text == SignText(false) + DecimalText(a, point, b) + tail;
    ParseDecimal(text, false, a, point, b, tail);
    assert text[p..] == tail;
    assert text[p + 1] == tail[1];
    if minus {
      assert text[p + 2..] == tail[2..] == Text(es);
      RunAll(text, p + 2, es);
    } else {
      assert text[p + 1..] == tail[1..] == Text(es);
      assert tail[1] == DigitChar(es[0]);
      RunAll(text, p + 1, es);
    }
  }

  lemma {:induction false} TextIs(ds: seq<nat>, s: string)
    requires DigitsOk(ds, 10) && |s| == |ds| && forall k :: 0 <= k < |ds| ==> s[k] == DigitChar(ds[k])
    ensures Text(ds) == s
  {
  }

  // The bounds of a text that is read like this.
  lemma {:induction false} ExampleFits(text: string, ds: seq<nat>, frac: nat, e: int)
    requires ReadsAs(text, false, ds, frac, e)
    ensures TextFits(text, TEN) <==> |ds| <= INT_MAX && LiteralFits(ds, frac, e, false, TEN)
  {
    hide Num, ScanNumber, ExponentText, Significant, LiteralFits;
  }

  // ---------------------------------------------------------------------------
  // A number just above a tie

  const JUST_ABOVE_TIE := "9007199254740993.00000000000000000000001"

  // 9007199254740993 lies half way between two doubles.
  const TIE: nat := 9_007_199_254_740_993
  const TIE_DIGITS: seq<nat> := [9, 0, 0, 7, 1, 9, 9, 2, 5, 4, 7, 4, 0, 9, 9, 3]

  lemma {:induction false} TieNumber()
    ensures Num(TIE_DIGITS, 10) == TIE
  {
    hide Num;
    FourDigitNumber(9, 0, 0, 7);
    AppendFour([9, 0, 0, 7], 1, 9, 9, 2);
    var a, b := [9, 0, 0, 7] + [1, 9, 9, 2], [9, 0, 0, 7] + [1, 9, 9, 2] + [5, 4, 7, 4];
    AppendFour(a, 5, 4, 7, 4);
    AppendFour(b, 0, 9, 9, 3);
    assert b + [0, 9, 9, 3] == TIE_DIGITS;
  }

  lemma {:induction false} ParseTie()
    ensures ReadsAs(JUST_ABOVE_TIE, false, TIE_DIGITS + (Zeros(22) + [1]), 23, 0) && |JUST_ABOVE_TIE| <= 1000
  {
    hide ReadsAs, DecimalText, Text, Zeros;
    var b := Zeros(22) + [1];
    TieText(b);
    assert JUST_ABOVE_TIE == SignText(false) + DecimalText(TIE_DIGITS, true, b) + "";
    ParseDecimal(JUST_ABOVE_TIE, false, TIE_DIGITS, true, b, "");
  }

  lemma {:induction false} TieText(b: seq<nat>)
    requires b == Zeros(22) + [1]
    ensures DigitsOk(TIE_DIGITS, 10) && DigitsOk(b, 10) && JUST_ABOVE_TIE == DecimalText(TIE_DIGITS, true, b)
  {
    TextIs(TIE_DIGITS, "9007199254740993");
    TextIs(b, "00000000000000000000001");
    hide Text;
    assert JUST_ABOVE_TIE == "9007199254740993" + "." + "00000000000000000000001";
  }

  // The digits read are those of the tie, the last one makes the number greater.
  lemma {:induction false} TieMagnitudes()
    ensures var ds := TIE_DIGITS + (Zeros(22) + [1]);
            && ReadMagnitude(ds, 23, 0, false, TEN) == TIE as real
            && TIE as real < FullMagnitude(ds, 23, 0, false, TEN) < TIE as real + 1.0
  {
    hide Num, Pow, RPow;
    var z := Zeros(22);
    var ds := TIE_DIGITS + (z + [1]);
    assert Significant(ds) == ds && ds[..38] == TIE_DIGITS + z;
    TieNumber();
    NumConcat(TIE_DIGITS, z, 10);
    NumZeros(z, 10);
    assert ds == TIE_DIGITS + z + [1];
    NumSnoc(TIE_DIGITS + z, 1, 10);
    PowOne(10);
    PowStep(10, 22);
    var p := Pow(10, 22);
    assert TIE * p * 10 == TIE * (10 * p);
    DecimalMagnitude(TIE, 23, TEN, 23, 0);
    RPowZero(10);
    FullIs(TIE * (10 * p) + 1, TIE, 10 * p);
  }

  // (t * 10^23 + 1) / 10^23
  lemma {:induction false} FullIs(n: nat, t: nat, p: nat)
    requires p == Pow(10, 23) && n == t * p + 1
    ensures t as real < Magnitude(n, TEN, 23, 0, false) < t as real + 1.0
  {
    hide RPow, Pow;
    RPowZero(2);
    RPowInverse(10, 23);
    RPowNat(10, 23);
    RealProduct(t, p);
    var w, q := RPow(10, -23), p as real;
    assert w * 1.0 == w;
    assert q * w == 1.0;
    assert (t as real * q + 1.0) * w == t as real + w by {
      RMulAssoc(t as real, q, w);
    }
    RPowZero(10);
    RPowStrict(10, -23, 0);
  }

  // The tie goes to the even neighbour, the number above it to the odd one.
  lemma {:induction false} TieRounds(y: real)
    ensures BitsValue(0x4340_0000_0000_0000) == 9_007_199_254_740_992.0
    ensures BitsValue(0x4340_0000_0000_0001) == 9_007_199_254_740_994.0
    ensures RoundedBits(TIE as real, 0x4340_0000_0000_0000)
    ensures TIE as real < y < TIE as real + 1.0 ==> RoundedBits(y, 0x4340_0000_0000_0001)
  {
    hide RPow, RoundedBits;
    RPowZero(2);
    RPowStep(2, 0);
    RPowStep(2, 1);
    var a := 0x4340_0000_0000_0000;
    assert Whole(a) == TWO52 && LastPlace(a) == 1 && Whole(a + 1) == TWO52 + 1 && LastPlace(a + 1) == 1;
    AboveValue(TIE as real, a);
    RoundedIffAround(TIE as real, a);
    RoundedIffAround(y, a + 1);
  }

  // 16 digits, 22 zeros and a 1: the 1 is not read, and the result is not the nearest double.
  lemma {:induction false} DigitsBeyondTheLast(r: Double)
    requires IsConversion(JUST_ABOVE_TIE, TEN, r)
    ensures r == Bits(0x4340_0000_0000_0000) && BitsValue(0x4340_0000_0000_0000) == 9_007_199_254_740_992.0
    ensures CorrectlyRounded(JUST_ABOVE_TIE, TEN, Bits(0x4340_0000_0000_0001)) && BitsValue(0x4340_0000_0000_0001) == 9_007_199_254_740_994.0
    ensures TextFits(JUST_ABOVE_TIE, TEN) && !TextSuffices(JUST_ABOVE_TIE, TEN) && !CorrectlyRounded(JUST_ABOVE_TIE, TEN, r)
  {
    hide *;
    ParseTie();
    TieConverted(JUST_ABOVE_TIE, TIE_DIGITS + (Zeros(22) + [1]), r);
    TieRounds(0.0);
  }

  lemma {:induction false} TieConverted(text: string, ds: seq<nat>, r: Double)
    requires ReadsAs(text, false, ds, 23, 0) && ds == TIE_DIGITS + (Zeros(22) + [1]) && IsConversion(text, TEN, r) && |text| <= 1000
    ensures r == Bits(0x4340_0000_0000_0000) && CorrectlyRounded(text, TEN, Bits(0x4340_0000_0000_0001))
    ensures TextFits(text, TEN) && !TextSuffices(text, TEN) && !CorrectlyRounded(text, TEN, r)
  {
    hide RoundedBits, IsConversion, TextFits, CorrectlyRounded, BitsValue, FullMagnitude, ReadMagnitude, Magnitude, ReadDigits, ReadsAs, Zeros, TextSuffices;
    TieMagnitudes();
    var y := FullMagnitude(ds, 23, 0, false, TEN);
    TieRounds(y);
    ReadsFits(text, false, ds, 23, 0);
    ReadMagnitudeIs(ds, 23, 0, false, TEN);
    ConversionIs(text, false, ds, 23, 0, TIE as real, 0x4340_0000_0000_0000, r);
    NearestIs(text, ds, 23, 0, 0x4340_0000_0000_0001, r);
    NearestIs(text, ds, 23, 0, 0x4340_0000_0000_0001, Bits(0x4340_0000_0000_0001));
    CorrectExactly(text, TEN, r);
  }

  lemma {:induction false} ReadMagnitudeIs(ds: seq<nat>, frac: nat, e: int, binary: bool, x: Radix)
    requires RadixOk(x)
    ensures ReadMagnitude(ds, frac, e, binary, x) == Magnitude(ReadDigits(ds, x), x, frac, e, binary)
  {
  }

  lemma {:induction false} NearestIs(text: string, ds: seq<nat>, frac: nat, e: int, a: nat, r: Double)
    requires ReadsAs(text, false, ds, frac, e) && RoundedBits(FullMagnitude(ds, frac, e, false, TEN), a)
    ensures CorrectlyRounded(text, TEN, r) <==> r == Bits(a)
  {
    hide ParseText, RoundedBits, FullMagnitude;
    if CorrectlyRounded(text, TEN, r) {
      var b: nat :| RoundedBits(FullMagnitude(ds, frac, e, false, TEN), b) && r == Bits(b + Sign(false));
      RoundedUnique(FullMagnitude(ds, frac, e, false, TEN), a, b);
    }
  }

  // ---------------------------------------------------------------------------
  // Exponents at the limits of int

  // 214748 followed by two pairs of digits
  lemma {:induction false} LongExponent(a: nat, b: nat, c: nat, d: nat)
    ensures Num([2, 1, 4, 7, 4, 8, a, b, c, d], 10) == 2_147_480_000 + 1000 * a + 100 * b + 10 * c + d
  {
    hide Num;
    TwoDigitNumber(2, 1);
    AppendFour([2, 1], 4, 7, 4, 8);
    AppendFour([2, 1] + [4, 7, 4, 8], a, b, c, d);
    assert [2, 1] + [4, 7, 4, 8] + [a, b, c, d] == [2, 1, 4, 7, 4, 8, a, b, c, d];
  }

  // The digits behind the point take the exponent out of int.
  const EXPONENT_OVERFLOWS := "0.00000000001e-2147483639"

  lemma {:induction false} ParseOverflow()
    ensures ReadsAs(EXPONENT_OVERFLOWS, false, [0] + Zeros(10) + [1], 11, -2147483639)
  {
    hide ReadsAs, Num, ParseText, Text, DecimalText, Zeros;
    var a, b, es: seq<nat> := [0], Zeros(10) + [1], [2, 1, 4, 7, 4, 8, 3, 6, 3, 9];
    OverflowTexts(b, es);
    ParseExample(EXPONENT_OVERFLOWS, a, true, b, true, es);
    LongExponent(3, 6, 3, 9);
    assert a + b == [0] + Zeros(10) + [1];
  }

  lemma {:induction false} OverflowTexts(b: seq<nat>, es: seq<nat>)
    requires b == Zeros(10) + [1] && es == [2, 1, 4, 7, 4, 8, 3, 6, 3, 9]
    ensures DigitsOk([0], 10) && DigitsOk(b, 10) && DigitsOk(es, 10)
    ensures EXPONENT_OVERFLOWS == DecimalText([0], true, b) + ("e" + "-" + Text(es))
  {
    hide Num;
    TextIs([0], "0");
    TextIs(b, "00000000001");
    TextIs(es, "2147483639");
    hide Text;
    OverflowText();
  }

  lemma {:induction false} OverflowText()
    ensures EXPONENT_OVERFLOWS == "0" + "." + "00000000001" + ("e" + "-" + "2147483639")
  {
  }

  lemma {:induction false} ExponentOverflows(r: Double)
    requires IsConversion(EXPONENT_OVERFLOWS, TEN, r)
    ensures !TextFits(EXPONENT_OVERFLOWS, TEN) && r == Undefined
  {
    hide ReadsAs, TextFits, IsConversion, Zeros, ParseText;
    ParseOverflow();
    OverflowNotFits(EXPONENT_OVERFLOWS, Zeros(10));
    NotConverted(EXPONENT_OVERFLOWS, TEN, r);
  }

  lemma {:induction false} OverflowNotFits(text: string, z: seq<nat>)
    requires ReadsAs(text, false, [0] + z + [1], 11, -2147483639) && |z| == 10 && AllZero(z)
    ensures !TextFits(text, TEN)
  {
    hide ReadsAs, TextFits;
    AllZeroCons(z);
    SkipsZeros([0] + z, [1]);
    ExampleFits(text, [0] + z + [1], 11, -2147483639);
  }

  lemma {:induction false} NotConverted(text: string, x: Radix, r: Double)
    requires RadixOk(x) && IsConversion(text, x, r) && !TextFits(text, x)
    ensures r == Undefined
  {
    hide TextFits;
  }

  // Without them an exponent of this size does no harm.
  function OneWithExponent(minus: bool): (text: string) {
    if minus then "1e-2147483630" else "1e2147483630"
  }

  lemma {:induction false} LongExponentsFit(minus: bool, r: Double)
    requires IsConversion(OneWithExponent(minus), TEN, r)
    ensures TextFits(OneWithExponent(minus), TEN) && r == Bits(if minus then 0 else INFINITE)
  {
    hide *;
    ParseOneWithExponent(minus);
    OneConverted(OneWithExponent(minus), minus, r);
  }

  lemma {:induction false} ParseOneWithExponent(minus: bool)
    ensures ReadsAs(OneWithExponent(minus), false, [1], 0, if minus then -2147483630 else 2147483630)
  {
    hide ReadsAs, Num, ParseText, Text, DecimalText;
    var a, es: seq<nat> := [1], [2, 1, 4, 7, 4, 8, 3, 6, 3, 0];
    OneTexts(a, es);
    OneWithExponentIs(minus, Text(es));
    ParseExample(OneWithExponent(minus), a, false, [], minus, es);
    LongExponent(3, 6, 3, 0);
    assert a + [] == a;
  }

  lemma {:induction false} OneTexts(a: seq<nat>, es: seq<nat>)
    requires a == [1] && es == [2, 1, 4, 7, 4, 8, 3, 6, 3, 0]
    ensures DigitsOk(a, 10) && DigitsOk([], 10) && DigitsOk(es, 10) && Text(es) == "2147483630" && DecimalText(a, false, []) == "1"
  {
  }

  lemma {:induction false} OneWithExponentIs(minus: bool, digits: string)
    requires digits == "2147483630"
    ensures OneWithExponent(minus) == "1" + ("e" + (if minus then "-" else "") + digits)
  {
  }

  lemma {:induction false} OneConverted(text: string, minus: bool, r: Double)
    requires ReadsAs(text, false, [1], 0, if minus then -2147483630 else 2147483630) && IsConversion(text, TEN, r)
    ensures TextFits(text, TEN) && r == Bits(if minus then 0 else INFINITE)
  {
    hide Num, ReadsAs, TextFits, IsConversion, RPow, Pow, RoundedBits, Magnitude, ReadDigits, Decimal;
    var e, a := if minus then -2147483630 else 2147483630, [1];
    ExampleFits(text, a, 0, e);
    NumSnoc([], 1, 10);
    assert [] + [1] == a;
    PowOne(10);
    ReadDigitsExact(a, TEN);
    DecimalMagnitude(1, 0, TEN, 0, e);
    DecimalIs(1, e);
    var y := Decimal(1, e);
    if minus {
      RPowStrict(10, e, -324);
      BelowDecimal(y, -324);
    } else {
      AboveDecimal(y, e);
    }
    ConversionIs(text, false, a, 0, e, y, if minus then 0 else INFINITE, r);
  }

  // ---------------------------------------------------------------------------
  // An exponent that does not fit an int, made up for by zeros

  // One tenth, with 2147483640 zeros behind the point.
  function ManyZeros(): (text: string) {
    "0." + Text(Zeros(2_147_483_640)) + "1e2147483640"
  }

  lemma {:induction false} ZerosIgnored(r: Double)
    requires IsConversion(ManyZeros(), TEN, r)
    ensures TextFits(ManyZeros(), TEN) && r == Bits(INFINITE) && !CorrectlyRounded(ManyZeros(), TEN, r)
  {
    hide *;
    var z := Zeros(2_147_483_640);
    ParseManyZeros(z);
    ZerosConverted(ManyZeros(), z, r);
  }

  lemma {:induction false} ParseManyZeros(z: seq<nat>)
    requires z == Zeros(2_147_483_640)
    ensures ReadsAs(ManyZeros(), false, [0] + z + [1], |z| + 1, 2147483640)
  {
    hide ReadsAs, Num, ParseText, Zeros, Text, DecimalText;
    var es: seq<nat> := [2, 1, 4, 7, 4, 8, 3, 6, 4, 0];
    ManyZerosText(z, es);
    ParseExample(ManyZeros(), [0], true, z + [1], false, es);
    LongExponent(3, 6, 4, 0);
    assert [0] + (z + [1]) == [0] + z + [1];
  }

  lemma {:induction false} ZerosConverted(text: string, z: seq<nat>, r: Double)
    requires ReadsAs(text, false, [0] + z + [1], |z| + 1, 2147483640) && AllZero(z) && |z| == 2_147_483_640 && IsConversion(text, TEN, r)
    ensures TextFits(text, TEN) && r == Bits(INFINITE) && !CorrectlyRounded(text, TEN, r)
  {
    hide Num, TextFits, RPow, Pow, RoundedBits, Magnitude, ReadDigits, Decimal, ParseText, CorrectlyRounded, Crossed;
    var ds := [0] + z + [1];
    AllZeroCons(z);
    SignificantIs([0] + z, [1], 10);
    hide Significant;
    ReadsIs(text, ds, |z| + 1, 2147483640);
    ExampleFits(text, ds, |z| + 1, 2147483640);
    NumSnoc([], 1, 10);
    assert [] + [1] == [1];
    PowOne(10);
    DecimalMagnitude(1, 0, TEN, |z| + 1, 2147483640);
    OneTenth();
    CorrectExactly(text, TEN, r);
  }

  lemma {:induction false} ReadsIs(text: string, ds: seq<nat>, frac: nat, e: int)
    requires ReadsAs(text, false, ds, frac, e)
    ensures ParseText(text, TEN) == Literal(false, ds, frac, e, false, |text|)
  {
    hide ParseText;
  }

  lemma {:induction false} ManyZerosText(z: seq<nat>, es: seq<nat>)
    requires DigitsOk(z, 10) && es == [2, 1, 4, 7, 4, 8, 3, 6, 4, 0]
    ensures DigitsOk(z + [1], 10) && DigitsOk(es, 10) && DigitsOk([0], 10)
    ensures "0." + Text(z) + "1e2147483640" == DecimalText([0], true, z + [1]) + ("e" + "" + Text(es))
  {
    TextConcat(z, [1]);
    assert Text([1]) == "1" && Text([0]) == "0" && Text(es) == "2147483640";
    assert "1e2147483640" == "1" + ("e" + "" + Text(es));
  }

  // The same in radix 2: one half is read as infinity.
  lemma {:induction false} ZerosIgnoredInBinary(z: seq<nat>, a: nat)
    requires z == Zeros(2_147_483_640) && Converted([0] + z + [1], |z| + 1, 2_147_483_640, true, Radix(1, 1), a)
    ensures LiteralFits([0] + z + [1], |z| + 1, 2_147_483_640, true, Radix(1, 1))
    ensures FullMagnitude([0] + z + [1], |z| + 1, 2_147_483_640, true, Radix(1, 1)) == 0.5
    ensures a == INFINITE && !RoundedBits(0.5, a)
  {
    hide Num, RPow, Pow, RoundedBits, ReadDigits, Crossed, Significant, Zeros;
    var ds, x := [0] + z + [1], Radix(1, 1);
    OneBehindZeros(z);
    PowOne(2);
    assert Base(x) == 2;
    RPowAdd(2, -|z| - 1, |z|);
    RPowZero(2);
    RPowStep(2, -1);
    ConvertedExactly(ds, |z| + 1, 2_147_483_640, true, x, a);
    RPowStrict(2, 0, 1023);
    RPowStrict(2, 970, 1023);
    HalfPower(1024);
  }

  lemma {:induction false} OneBehindZeros(z: seq<nat>)
    requires z == Zeros(2_147_483_640)
    ensures Significant([0] + z + [1]) == [1] && Num([0] + z + [1], 2) == 1 && |z| == 2_147_483_640
  {
    hide Num;
    AllZeroCons(z);
    SignificantIs([0] + z, [1], 2);
    hide Significant;
    NumSnoc([], 1, 2);
    assert [] + [1] == [1];
  }

  lemma {:induction false} OneTenth()
    ensures Decimal(1, -1) < RPow(2, 1024) - RPow(2, 970)
  {
    hide RPow;
    DecimalIs(1, -1);
    RPowZero(10);
    RPowStrict(10, -1, 0);
    RPowZero(2);
    RPowStrict(2, 0, 1023);
    RPowStrict(2, 970, 1023);
    HalfPower(1024);
  }

  // ---------------------------------------------------------------------------
  // A text that is not the shortest

  // The bits of 2^-24
  const POWER_OF_TWO := 0x3e70_0000_0000_0000

  lemma {:induction false} DigitsOfNum(ds: seq<nat>)
    requires DigitsOk(ds, 10)
    ensures DecimalDigits(Num(ds, 10), |ds|) == ds
    decreases |ds|
  {
    if ds != [] {
      var n := |ds| - 1;
      DigitsOfNum(ds[..n]);
      assert ds == ds[..n] + [ds[n]];
    }
  }

  lemma {:induction false} PrintedNumbers()
    ensures DecimalDigits(5_960_464_477_539_063, 16) == [5, 9, 6, 0, 4, 6, 4, 4, 7, 7, 5, 3, 9, 0, 6, 3]
    ensures DecimalDigits(59_604_644_775_390_625, 17) == [5, 9, 6, 0, 4, 6, 4, 4, 7, 7, 5, 3, 9, 0, 6, 2, 5]
  {
    hide Num, DecimalDigits;
    FourDigitNumber(5, 9, 6, 0);
    AppendFour([5, 9, 6, 0], 4, 6, 4, 4);
    var a, b := [5, 9, 6, 0] + [4, 6, 4, 4], [5, 9, 6, 0] + [4, 6, 4, 4] + [7, 7, 5, 3];
    AppendFour(a, 7, 7, 5, 3);
    AppendFour(b, 9, 0, 6, 3);
    AppendFour(b, 9, 0, 6, 2);
    var c, d := b + [9, 0, 6, 3], b + [9, 0, 6, 2];
    NumSnoc(d, 5, 10);
    DigitsOfNum(c);
    DigitsOfNum(d + [5]);
    assert c == [5, 9, 6, 0, 4, 6, 4, 4, 7, 7, 5, 3, 9, 0, 6, 3];
    assert d + [5] == [5, 9, 6, 0, 4, 6, 4, 4, 7, 7, 5, 3, 9, 0, 6, 2, 5];
  }

  lemma {:induction false} ShorterText(c: seq<nat>)
    requires c == [5, 9, 6, 0, 4, 6, 4, 4, 7, 7, 5, 3, 9, 0, 6, 3]
    ensures DigitsOk(c, 10) && WithPoint(Text(c), 1) == "5.960464477539063"
  {
    TextIs(c, "5960464477539063");
    ShorterPoint();
  }

  lemma {:induction false} ShorterPoint()
    ensures WithPoint("5960464477539063", 1) == "5.960464477539063"
  {
    PointIs("5960464477539063", "5.960464477539063");
  }

  lemma {:induction false} PrintedText(d: seq<nat>)
    requires d == [5, 9, 6, 0, 4, 6, 4, 4, 7, 7, 5, 3, 9, 0, 6, 2, 5]
    ensures DigitsOk(d, 10) && WithPoint(Text(d), 1) == "5.9604644775390625"
  {
    TextIs(d, "59604644775390625");
    PrintedPoint();
  }

  lemma {:induction false} PrintedPoint()
    ensures WithPoint("59604644775390625", 1) == "5.9604644775390625"
  {
    PointIs("59604644775390625", "5.9604644775390625");
  }

  lemma {:induction false} PointIs(s: string, r: string)
    requires |s| > 1 && |r| == |s| + 1 && r[0] == s[0] && r[1] == '.' && forall k :: 2 <= k < |r| ==> r[k] == s[k - 1]
    ensures WithPoint(s, 1) == r
  {
  }

  lemma {:induction false} PrintedTexts()
    ensures Layout(Auto, 59_604_644_775_390_625, 17, -7) == "5.9604644775390625e-8"
    ensures Layout(Auto, 5_960_464_477_539_063, 16, -7) == "5.960464477539063e-8"
  {
    hide DecimalDigits, WithPoint;
    PrintedNumbers();
    ShorterText(DecimalDigits(5_960_464_477_539_063, 16));
    PrintedText(DecimalDigits(59_604_644_775_390_625, 17));
    assert ExponentPart(-8) == "e-8";
    hide Text, ExponentPart;
    assert "5.960464477539063" + "e-8" == "5.960464477539063e-8";
    assert "5.9604644775390625" + "e-8" == "5.9604644775390625e-8";
  }

  // js_dtoa prints 2^-24 with 17 digits, and js_atod reads it from 16.
  lemma {:induction false} SixteenDigitsWouldDo(s: string, r: Double)
    requires IsPrinted(POWER_OF_TWO, Auto, false, s) && IsConversion("5.960464477539063e-8", TEN, r)
    ensures s == "5.9604644775390625e-8" && r == Bits(POWER_OF_TWO)
  {
    hide Pow, RPow, RoundsTo, Decimal, Layout, RoundedBits, IsConversion, FreeDigits, NoneRounds, Missed, Text, DecimalDigits, IsPrinted;
    PrintedTexts();
    var mant, p, k := PowerOfTwoPrinted(s);
    PowerOfTwoNotShortest(mant, p, k);
    RoundsToBits(Decimal(5_960_464_477_539_063, -23), TWO52, -23);
    assert Assemble(TWO52, -23) == POWER_OF_TWO;
    SixteenthPower();
    LayoutRoundTrip("5.960464477539063e-8", false, Auto, 5_960_464_477_539_063, 16, -7, POWER_OF_TWO, r);
  }

  lemma {:induction false} PowerOfTwoPrinted(s: string) returns (mant: nat, p: nat, k: int)
    requires IsPrinted(POWER_OF_TWO, Auto, false, s)
    ensures p >= 1 && FreeDigits(TWO52, -23, mant, p, k) && s == Layout(Auto, mant, p, k)
  {
    hide Pow, Layout, Attempt, NearestConverts;
    assert Decode(POWER_OF_TWO) == (TWO52, -23);
    mant, p, k :| FreeDigits(TWO52, -23, mant, p, k) && s == SignText(false) + Layout(Auto, mant, p, k);
  }
}
