// Printing a double with js_dtoa and reading the text with js_atod gives the double back.
module DtoaRoundTrip {
  import opened Powers
  import opened Rounding
  import opened Scaling
  import opened Doubles
  import opened FreeFormat
  import opened DoubleBits
  import opened AtodText
  import opened Atod
  import opened JsAtod
  import opened DtoaOutput

  const TEN := Radix(5, 1)

  // ---------------------------------------------------------------------------
  // Reading printed digits

  lemma {:induction false} ReadRun(text: string, start: nat, p0: nat, p: nat, seen: bool, done: seq<nat>, frac: int, ds: seq<nat>)
    requires DigitsOk(ds, 10) && p + |ds| <= |text| && text[p..p + |ds|] == Text(ds)
    requires Reading(text, start, 10, p0, false, p, seen, done, frac)
    ensures Reading(text, start, 10, p0, false, p + |ds|, seen, done + ds, frac + if seen then |ds| else 0)
    decreases |ds|
  {
    hide Reading;
    if ds == [] {
      assert done + ds == done;
    } else {
      assert text[p] == text[p..p + |ds|][0] == DigitChar(ds[0]);
      ReadDigit(text, start, 10, p0, false, p, seen, done, frac);
      var rest := ds[1..];
      assert text[p + 1..p + |ds|] == Text(rest);
      ReadRun(text, start, p0, p + 1, seen, done + [ds[0]], frac + if seen then 1 else 0, rest);
      assert done + [ds[0]] + rest == done + ds;
    }
  }

  function DecimalText(a: seq<nat>, point: bool, b: seq<nat>): (s: string)
    requires DigitsOk(a, 10) && DigitsOk(b, 10)
  {
    Text(a) + (if point then "." else "") + Text(b)
  }

  lemma {:induction false} DecimalTextParts(a: seq<nat>, point: bool, b: seq<nat>, s: string)
    requires DigitsOk(a, 10) && DigitsOk(b, 10) && s == DecimalText(a, point, b)
    ensures |s| == |a| + |b| + (if point then 1 else 0) && s[..|a|] == Text(a)
    ensures point ==> s[|a|] == '.' && s[|a| + 1..] == Text(b)
  {
    hide Text;
  }

  // DecimalDigits, perhaps with a point in between, and then something else.
  lemma {:induction false} ScanDecimal(text: string, start: nat, a: seq<nat>, point: bool, b: seq<nat>)
    requires DigitsOk(a, 10) && DigitsOk(b, 10) && a != [] && (!point ==> b == [])
    requires var s := DecimalText(a, point, b);
             start + |s| <= |text| && text[start..start + |s|] == s
             && ToDigit(CharAt(text, start + |s|)) >= 10 && CharAt(text, start + |s|) != '.'
    ensures ScanNumber(text, start, start, 10, false) == Number(start + |a| + |b| + (if point then 1 else 0), a + b, |b|)
  {
    hide Reading, ScanNumber;
    hide DecimalText, Text;
    var s := DecimalText(a, point, b);
    DecimalTextParts(a, point, b, s);
    var t := text[start..start + |s|];
    NothingRead(text, start, 10, start, false);
    assert text[start..start + |a|] == t[..|a|];
    ReadRun(text, start, start, start, false, [], 0, a);
    assert [] + a == a;
    var p := start + |a|;
    if point {
      assert text[p] == t[|a|] == '.';
      ReadPoint(text, start, 10, start, false, p, a, 0);
      assert text[p + 1..p + 1 + |b|] == t[|a| + 1..];
      ReadRun(text, start, start, p + 1, true, a, 0, b);
      ReadEnd(text, start, 10, start, false, p + 1 + |b|, true, a + b, |b|);
    } else {
      assert a + b == a;
      ReadEnd(text, start, 10, start, false, p, false, a, 0);
    }
  }

  // Decimal digits up to the end.
  lemma {:induction false} RunAll(text: string, p: nat, ds: seq<nat>)
    requires DigitsOk(ds, 10) && p + |ds| == |text| && text[p..] == Text(ds)
    ensures DecimalRun(text, p) == (ds, |text|)
    decreases |ds|
  {
    if ds != [] {
      assert text[p] == text[p..][0] == DigitChar(ds[0]);
      assert text[p + 1..] == Text(ds[1..]);
      RunAll(text, p + 1, ds[1..]);
      assert [ds[0]] + ds[1..] == ds;
    }
  }

  // ---------------------------------------------------------------------------
  // Reading a layout

  // What a text is read as: the digits ds, frac of them behind the point, and the exponent.
  predicate ReadsAs(text: string, neg: bool, ds: seq<nat>, frac: nat, e: int) {
    ParseText(text, TEN) == Literal(neg, ds, frac, e, false, |text|)
  }

  lemma {:induction false} NotInfinity(text: string, p: nat)
    requires p < |text| && text[p] != 'I'
    ensures !StartsWith(text, p, INFINITY_TEXT)
  {
    if p + 8 <= |text| {
      assert text[p..p + 8][0] == text[p];
    }
  }

  // Behind the sign comes a digit.
  lemma {:induction false} ParseFront(text: string, neg: bool, s: string, tail: string)
    requires text == SignText(neg) + s + tail && s != "" && '0' <= s[0] <= '9'
    ensures var start := |SignText(neg)|;
            ParseText(text, TEN) == ParseNumber(text, start, start, TEN, neg) && text[start..start + |s|] == s
  {
    hide ParseNumber;
    var start := |SignText(neg)|;
    assert text[start..start + |s|] == s;
    assert text[start] == s[0];
    NotInfinity(text, start);
  }

  // A sign, digits, perhaps a point and an exponent.
  lemma {:induction false} ParseDecimal(text: string, neg: bool, a: seq<nat>, point: bool, b: seq<nat>, tail: string)
    requires DigitsOk(a, 10) && DigitsOk(b, 10) && a != [] && (!point ==> b == [])
    requires text == SignText(neg) + DecimalText(a, point, b) + tail
    requires tail == "" || tail[0] == 'e'
    ensures var end := |text| - |tail|;
            && (tail == "" ==> ReadsAs(text, neg, a + b, |b|, 0))
            && (tail != "" ==>
                  var x := ExponentText(text, end);
                  x.1 != [] && x.2 == |text| ==> ReadsAs(text, neg, a + b, |b|, if x.0 then -(Num(x.1, 10) as int) else Num(x.1, 10)))
  {
    hide ScanNumber, ExponentText, Num, ParseText, DecimalText, Text;
    var start, s := |SignText(neg)|, DecimalText(a, point, b);
    DecimalTextParts(a, point, b, s);
    assert s[0] == s[..|a|][0] == DigitChar(a[0]);
    ParseFront(text, neg, s, tail);
    assert CharAt(text, start + |s|) == if tail == "" then '\0' else tail[0];
    ScanDecimal(text, start, a, point, b);
  }

  lemma {:induction false} ParseExponentPart(text: string, p: nat, e: int)
    requires p <= |text| && text[p..] == ExponentPart(e)
    ensures ExponentText(text, p) == (e < 0, Shortest(Abs(e)), |text|)
  {
    hide Shortest, DecimalRun;
    var ds := Shortest(Abs(e));
    var x := ExponentPart(e);
    assert text[p + 1] == x[1];
    assert text[p + 2..] == x[2..] == Text(ds);
    RunAll(text, p + 2, ds);
  }

  // ---------------------------------------------------------------------------
  // The number of a layout

  lemma {:induction false} PointedText(ds: seq<nat>, dot: nat)
    requires DigitsOk(ds, 10) && dot <= |ds|
    ensures DigitsOk(ds[..dot], 10) && DigitsOk(ds[dot..], 10) && ds[..dot] + ds[dot..] == ds
    ensures WithPoint(Text(ds), dot) == DecimalText(ds[..dot], dot < |ds|, ds[dot..])
  {
    assert ds[..dot] + ds[dot..] == ds;
    TextConcat(ds[..dot], ds[dot..]);
  }

  // DecimalDigits that stand for mant * 10^j.
  lemma {:induction false} NumberRead(ds: seq<nat>, frac: nat, e: int, mant: nat, j: nat)
    requires Num(ds, 10) == mant * Pow(10, j) && (|Significant(ds)| <= 38 || AllZero(Significant(ds)[38..]))
    ensures Magnitude(ReadDigits(ds, TEN), TEN, frac, e, false) == Decimal(mant, e - frac + j)
  {
    hide Num, Pow, RPow, Significant, AllZero;
    ReadDigitsExact(ds, TEN);
    DecimalMagnitude(mant, j, TEN, frac, e);
  }

  // No significant digit but zeros behind the first k.
  lemma {:induction false} SignificantTail(ds: seq<nat>, k: nat)
    requires k <= |ds| && AllZero(ds[k..]) && k <= 38
    ensures |Significant(ds)| <= 38 || AllZero(Significant(ds)[38..])
  {
    var zeros := LeadingZeros(ds);
    var s := Significant(ds);
    if |s| > 38 {
      forall i | 0 <= i < |s[38..]|
        ensures s[38..][i] == 0
      {
        assert s[38..][i] == ds[|zeros| + 38 + i] == ds[k..][|zeros| + 38 + i - k];
      }
    }
  }

  lemma {:induction false} SignificantShort(zeros: seq<nat>, ds: seq<nat>)
    requires AllZero(zeros)
    ensures |Significant(zeros + ds)| <= |ds|
  {
    if zeros == [] {
      assert zeros + ds == ds;
    } else {
      assert (zeros + ds)[1..] == zeros[1..] + ds;
      SignificantShort(zeros[1..], ds);
    }
  }

  lemma {:induction false} MantissaDigits(mant: nat, p: nat)
    requires mant < Pow(10, p)
    ensures Num(DecimalDigits(mant, p), 10) == mant == mant * Pow(10, 0)
  {
    hide Pow, Num;
    DigitsNum(mant, p);
    UniqueQuotient(mant, Pow(10, p), 0, mant);
    PowOne(10);
  }

  // With an exponent.
  lemma {:induction false} ReadScientific(text: string, neg: bool, mant: nat, p: nat, e: int) returns (ds: seq<nat>, frac: nat, ex: int)
    requires 1 <= p <= MAX_DIGITS && mant < Pow(10, p)
    requires text == SignText(neg) + (WithPoint(Text(DecimalDigits(mant, p)), 1) + ExponentPart(e - 1))
    ensures ReadsAs(text, neg, ds, frac, ex) && Magnitude(ReadDigits(ds, TEN), TEN, frac, ex, false) == Decimal(mant, e - p)
    ensures ex == e - 1
  {
    hide Pow, Num, DecimalDigits, Shortest, Significant, WithPoint, Text, DecimalText, ReadsAs, ExponentText, Magnitude, Decimal, ReadDigits;
    ds, frac, ex := DecimalDigits(mant, p), p - 1, e - 1;
    PointedText(ds, 1);
    var a, b, tail := ds[..1], ds[1..], ExponentPart(e - 1);
    var s := DecimalText(a, 1 < |ds|, b);
    assert text == SignText(neg) + s + tail;
    ParseDecimal(text, neg, a, 1 < |ds|, b, tail);
    assert text[|text| - |tail|..] == tail;
    ParseExponentPart(text, |text| - |tail|, e - 1);
    ShortestNum(Abs(e - 1));
    MantissaDigits(mant, p);
    NumberRead(ds, frac, ex, mant, 0);
    assert ex - frac + 0 == e - p;
  }

  // As a fraction.
  lemma {:induction false} ReadFraction(text: string, neg: bool, mant: nat, p: nat, e: int) returns (ds: seq<nat>, frac: nat, ex: int)
    requires 1 <= p <= MAX_DIGITS && mant < Pow(10, p) && e <= 0
    requires text == SignText(neg) + ("0." + Text(Zeros(-e)) + Text(DecimalDigits(mant, p)))
    ensures ReadsAs(text, neg, ds, frac, ex) && Magnitude(ReadDigits(ds, TEN), TEN, frac, ex, false) == Decimal(mant, e - p)
    ensures ex == 0
  {
    hide Pow, Num, DecimalDigits, Significant, ReadsAs, Magnitude, Decimal, ReadDigits, Text, Zeros, AllZero;
    var t, z := DecimalDigits(mant, p), Zeros(-e);
    var zeros := [0] + z;
    AllZeroCons(z);
    ds, frac, ex := zeros + t, -e + p, 0;
    TextConcat(z, t);
    OneZero();
    assert [0] + (z + t) == ds;
    assert text == SignText(neg) + DecimalText([0], true, z + t) + "" by {
      assert "0." + Text(z) + Text(t) == "0" + "." + (Text(z) + Text(t));
    }
    ParseDecimal(text, neg, [0], true, z + t, "");
    MantissaDigits(mant, p);
    NumConcat(zeros, t, 10);
    NumZeros(zeros, 10);
    SignificantShort(zeros, t);
    NumberRead(ds, frac, ex, mant, 0);
    assert ex - frac + 0 == e - p;
  }

  lemma {:induction false} AllZeroCons(z: seq<nat>)
    requires AllZero(z)
    ensures AllZero([0] + z)
  {
  }

  lemma {:induction false} OneZero()
    ensures DigitsOk([0], 10) && Text([0]) == "0"
  {
  }

  // With an integer part.
  lemma {:induction false} ReadInteger(text: string, neg: bool, mant: nat, p: nat, e: int) returns (ds: seq<nat>, frac: nat, ex: int)
    requires 1 <= p <= MAX_DIGITS && mant < Pow(10, p) && e > 0
    requires text == SignText(neg) + (WithPoint(Text(DecimalDigits(mant, p)), Min(p, e)) + Text(Zeros(Max0(e - p))))
    ensures ReadsAs(text, neg, ds, frac, ex) && Magnitude(ReadDigits(ds, TEN), TEN, frac, ex, false) == Decimal(mant, e - p)
    ensures ex == 0
  {
    hide Pow, Num, DecimalDigits, Significant, ReadsAs, Magnitude, Decimal, ReadDigits, Text, Zeros, AllZero, WithPoint, DecimalText;
    var t, dot, z := DecimalDigits(mant, p), Min(p, e), Zeros(Max0(e - p));
    PointedText(t, dot);
    MantissaDigits(mant, p);
    ex := 0;
    if e < p {
      ds, frac := t, p - e;
      assert Text(z) == "";
      assert text == SignText(neg) + DecimalText(t[..dot], true, t[dot..]) + "";
      ParseDecimal(text, neg, t[..dot], true, t[dot..], "");
      NumberRead(ds, frac, ex, mant, 0);
      assert ex - frac + 0 == e - p;
    } else {
      ds, frac := t + z, 0;
      TextConcat(t, z);
      NoPointText(t, z);
      assert text == SignText(neg) + DecimalText(ds, false, []) + "";
      assert ds + [] == ds;
      ParseDecimal(text, neg, ds, false, [], "");
      NumConcat(t, z, 10);
      NumZeros(z, 10);
      assert ds[p..] == z;
      SignificantTail(ds, p);
      NumberRead(ds, frac, ex, mant, |z|);
      assert ex - frac + |z| == e - p;
    }
  }

  lemma {:induction false} NoPointText(t: seq<nat>, z: seq<nat>)
    requires DigitsOk(t, 10) && DigitsOk(z, 10)
    ensures DigitsOk(t + z, 10) && WithPoint(Text(t), |t|) + Text(z) == DecimalText(t + z, false, [])
  {
    TextConcat(t, z);
  }

  lemma {:induction false} ReadLayout(text: string, neg: bool, mode: ExponentMode, mant: nat, p: nat, e: int)
      returns (ds: seq<nat>, frac: nat, ex: int)
    requires 1 <= p <= MAX_DIGITS && mant < Pow(10, p) && -330 < e < 330
    requires text == SignText(neg) + Layout(mode, mant, p, e)
    ensures ReadsAs(text, neg, ds, frac, ex) && Magnitude(ReadDigits(ds, TEN), TEN, frac, ex, false) == Decimal(mant, e - p)
    ensures TextFits(text, TEN) && Abs(ex) < EXPN_LIMIT
  {
    hide Pow, Num, DecimalDigits, Significant, ReadsAs, Magnitude, Decimal, ReadDigits, Text, Zeros, WithPoint, Shortest, ExponentPart,
         TextFits;
    LayoutLength(mode, mant, p, e);
    if Scientific(mode, e) {
      ds, frac, ex := ReadScientific(text, neg, mant, p, e);
    } else if e <= 0 {
      ds, frac, ex := ReadFraction(text, neg, mant, p, e);
    } else {
      ds, frac, ex := ReadInteger(text, neg, mant, p, e);
    }
    ReadsFits(text, neg, ds, frac, ex);
  }

  lemma {:induction false} ReadsFits(text: string, neg: bool, ds: seq<nat>, frac: nat, e: int)
    requires ReadsAs(text, neg, ds, frac, e) && |text| <= 1000 && -1000 < e < 1000
    ensures TextFits(text, TEN)
  {
    hide Num, ScanNumber, ExponentText, Significant;
    var start := AfterSign(text);
    ScanBounds(text, start, start, 10, false);
    assert frac <= |ds| <= 1000;
  }

  lemma {:induction false} LayoutLength(mode: ExponentMode, mant: nat, p: nat, e: int)
    requires 1 <= p <= MAX_DIGITS && -330 < e < 330
    ensures |Layout(mode, mant, p, e)| < 500
  {
    hide DecimalDigits, Shortest;
    ThousandIs();
    ShortestLength(Abs(e - 1), 3);
  }

  lemma {:induction false} ThousandIs()
    ensures Pow(10, 3) == 1000
  {
    PowOne(10);
    PowStep(10, 1);
    PowStep(10, 2);
  }

  // ---------------------------------------------------------------------------
  // The round trip

  // What reading the text of the bits a should give.
  function Expected(a: nat, minusZero: bool): (r: Double) {
    var b := a % SIGN;
    if b > INFINITE then NaN else if b == 0 && !minusZero then Bits(0) else Bits(a)
  }

  // What a text that stands for y is converted to.
  lemma {:induction false} ConversionIs(text: string, neg: bool, ds: seq<nat>, frac: nat, ex: int, y: real, b: nat, r: Double)
    requires ReadsAs(text, neg, ds, frac, ex) && Magnitude(ReadDigits(ds, TEN), TEN, frac, ex, false) == y
    requires RoundedBits(y, b) && TextFits(text, TEN) && IsConversion(text, TEN, r) && Abs(ex) < EXPN_LIMIT
    ensures r == Bits(b + Sign(neg))
  {
    hide ParseText, Magnitude, ReadDigits, RoundedBits, TextFits, Significant;
    var c: nat :| Converted(ds, frac, ex, false, TEN, c) && r == Bits(c + Sign(neg));
    RoundedUnique(y, b, c);
  }

  lemma {:induction false} LayoutRoundTrip(text: string, neg: bool, mode: ExponentMode, mant: nat, p: nat, e: int, b: nat, r: Double)
    requires 1 <= p <= MAX_DIGITS && mant < Pow(10, p) && -330 < e < 330
    requires text == SignText(neg) + Layout(mode, mant, p, e) && RoundedBits(Decimal(mant, e - p), b)
    ensures TextFits(text, TEN) && (IsConversion(text, TEN, r) ==> r == Bits(b + Sign(neg)))
  {
    hide Pow, ReadsAs, Magnitude, Decimal, ReadDigits, Layout, RoundedBits, IsConversion, TextFits;
    var ds, frac, ex := ReadLayout(text, neg, mode, mant, p, e);
    if IsConversion(text, TEN, r) {
      ConversionIs(text, neg, ds, frac, ex, Decimal(mant, e - p), b, r);
    }
  }

  // An integer that is printed as it is.
  lemma {:induction false} IntegerRoundTrip(text: string, neg: bool, m: nat, e: int, mode: ExponentMode, b: nat, r: Double)
    requires IsDouble(m, e) && FastInteger(m, e, mode) && 0 < b < INFINITE && Decode(b) == (m, e)
    requires text == SignText(neg) + Text(Shortest(IntegerOf(m, e)))
    ensures TextFits(text, TEN) && (IsConversion(text, TEN, r) ==> r == Bits(b + Sign(neg)))
  {
    hide Pow, RPow, Num, ReadsAs, Magnitude, Decimal, ReadDigits, RoundedBits, IsConversion, TextFits, Text, Shortest, DecimalText, Decode, RoundsTo;
    var v := IntegerOf(m, e);
    var ds := Shortest(v);
    IntegerValue(m, e, v);
    SixteenthPower();
    ShortestLength(v, 17);
    ShortestNum(v);
    PowOne(10);
    assert ds + [] == ds;
    NoPointText(ds, []);
    NoPoint(Text(ds));
    assert text == SignText(neg) + DecimalText(ds, false, []) + "";
    ParseDecimal(text, neg, ds, false, [], "");
    ReadsFits(text, neg, ds, 0, 0);
    NumberRead(ds, 0, 0, v, 0);
    DoubleRounds(m, e);
    DoubleBitsOf(ValueOf(m, e), b);
    if IsConversion(text, TEN, r) {
      ConversionIs(text, neg, ds, 0, 0, Decimal(v, 0), b, r);
    }
  }

  lemma {:induction false} IntegerValue(m: nat, e: int, v: nat)
    requires IsDouble(m, e) && 1 <= e <= 53 && (PowPositive(2, 53 - e); m % Pow(2, 53 - e) == 0) && v == IntegerOf(m, e)
    ensures v < 2 * TWO52 && Decimal(v, 0) == ValueOf(m, e)
  {
    hide Pow, RPow;
    PowPositive(2, 53 - e);
    var q, d := DivMod(m, Pow(2, 53 - e));
    MulMono(1, Pow(2, 53 - e), v);
    RPowZero(10);
    RPowInverse(2, 53 - e);
    RPowNat(2, 53 - e);
    RealProduct(v, Pow(2, 53 - e));
    assert -(53 - e) == e - 53;
    ValueIs(m, e);
    RMulAssoc(v as real, RPow(2, 53 - e), RPow(2, e - 53));
    DecimalIs(v, 0);
    var x, y := Decimal(v, 0), ValueOf(m, e);
    assert x == v as real == y;
  }

  // A double rounds to itself.
  lemma {:induction false} DoubleRounds(m: nat, e: int)
    requires IsDouble(m, e)
    ensures RoundsTo(ValueOf(m, e), m, e)
  {
    hide RPow, RoundsTo, ValueOf;
    ValueBounds(m, e);
    var x := ValueOf(m, e);
    assert RAbs(x - x) == 0.0;
    QuarterRoundsTo(x, m, e);
  }

  // Zero.
  lemma {:induction false} ZeroRoundTrip(text: string, neg: bool, mode: ExponentMode, r: Double)
    requires text == SignText(neg) + Layout(mode, 0, 1, 1)
    ensures TextFits(text, TEN) && (IsConversion(text, TEN, r) ==> r == Bits(Sign(neg)))
  {
    hide RPow, Layout;
    PowOne(10);
    assert Decimal(0, 0) == 0.0;
    LayoutRoundTrip(text, neg, mode, 0, 1, 1, 0, r);
  }

  lemma {:induction false} InfinityRoundTrip(text: string, neg: bool, r: Double)
    requires text == SignText(neg) + INFINITY_TEXT
    ensures TextFits(text, TEN) && (IsConversion(text, TEN, r) ==> r == Bits(INFINITE + Sign(neg)))
  {
    var start := |SignText(neg)|;
    assert text[start] == 'I';
    assert text[start..start + |INFINITY_TEXT|] == INFINITY_TEXT;
  }

  lemma {:induction false} NaNRoundTrip(r: Double)
    ensures TextFits("NaN", TEN) && (IsConversion("NaN", TEN, r) ==> r == NaN)
  {
    NotInfinity("NaN", 0);
  }

  // For every double: js_atod, reading the text js_dtoa prints, returns the same 64 bits. The
  // sign of a zero is lost unless it is asked for.
  lemma {:induction false} RoundTrip(a: nat, mode: ExponentMode, minusZero: bool, s: string, r: Double)
    requires a < 2 * SIGN && IsPrinted(a, mode, minusZero, s)
    ensures TextFits(s, TEN) && (IsConversion(s, TEN, r) ==> r == Expected(a, minusZero))
  {
    hide Pow, RPow, Decode, RoundsTo, Closest, NoneRounds, Decimal, Layout, RoundedBits, IsConversion, TextFits, Text, Shortest, IsDouble,
         FastInteger, Attempt, NearestConverts;
    var neg, b := a >= SIGN, a % SIGN;
    if b > INFINITE {
      NaNRoundTrip(r);
    } else if b == INFINITE {
      InfinityRoundTrip(s, neg, r);
    } else if b == 0 {
      ZeroRoundTrip(s, neg && minusZero, mode, r);
    } else {
      var (m, e) := Decode(b);
      DecodeIsDouble(b);
      if FastInteger(m, e, mode) {
        IntegerRoundTrip(s, neg, m, e, mode, b, r);
      } else {
        var mant: nat, p: int, k: int :| FreeDigits(m, e, mant, p, k) && s == SignText(neg) + Layout(mode, mant, p, k);
        FreeDigitsCorrect(m, e, mant, p, k);
        DoubleBitsOf(Decimal(mant, k - p), b);
        LayoutRoundTrip(s, neg, mode, mant, p, k, b, r);
      }
    }
  }
}
