// js_atod of dtoa.c as a whole: the double it returns is the number of the text, correctly
// rounded.
module JsAtod {
  import opened Powers
  import opened Limbs
  import opened Rounding
  import opened Bignum
  import opened Scaling
  import opened Doubles
  import opened DtoaRounding
  import opened RadixLog
  import opened FreeFormat
  import opened DoubleBits
  import opened AtodText
  import opened Atod

  // ---------------------------------------------------------------------------
  // Cut-offs

  lemma {:induction false} AboveBinary(y: real, k: int)
    requires y >= RPow(2, k) && k >= 1024
    ensures RoundedBits(y, INFINITE)
  {
    hide RPow;
    RPowStrict(2, -1075, 1024);
    if k > 1024 {
      RPowStrict(2, 1024, k);
    }
  }

  lemma {:induction false} BelowBinary(y: real, k: int)
    requires y < RPow(2, k) && k <= -1075
    ensures RoundedBits(y, 0)
  {
    hide RPow;
    if k < -1075 {
      RPowStrict(2, k, -1075);
    }
  }

  // 10^309 exceeds the doubles, 10^-324 is below half of the least one.
  lemma {:induction false} AboveDecimal(y: real, k: int)
    requires y >= RPow(10, k) && k >= MAX_EXPONENT10
    ensures RoundedBits(y, INFINITE)
  {
    hide RPow;
    Log10(1024, 308);
    if k > 309 {
      RPowStrict(10, 309, k);
    }
    AboveBinary(y, 1024);
  }

  lemma {:induction false} BelowDecimal(y: real, k: int)
    requires y < RPow(10, k) && k <= MIN_EXPONENT10
    ensures RoundedBits(y, 0)
  {
    hide RPow;
    Log10(-1075, -324);
    if k < -324 {
      RPowStrict(10, k, -324);
    }
    BelowBinary(y, -1075);
  }

  // ---------------------------------------------------------------------------
  // The number of the text

  // n * 2^k
  ghost function Binary(n: nat, k: int): (y: real) {
    (n as real) * RPow(2, k)
  }

  // The exponent of 2 of a number in a radix that is a power of two.
  function BinaryExponent(x: Radix, frac: nat, e: int, binary: bool): (k: int) {
    (if binary then e else e * x.shift) - frac * x.shift
  }

  lemma {:induction false} BinaryMagnitude(n: nat, x: Radix, frac: nat, e: int, binary: bool)
    requires RadixOk(x) && x.odd == 1
    ensures Magnitude(n, x, frac, e, binary) == Binary(n, BinaryExponent(x, frac, e, binary))
  {
    hide RPow, Pow;
    BaseIs(x);
    var i, j := (if binary then 0 else e) - frac, if binary then e else 0;
    RPowMul(2, x.shift, i);
    assert Base(x) == Pow(2, x.shift);
    RPowAdd(2, x.shift * i, j);
    assert x.shift * i + j == BinaryExponent(x, frac, e, binary) by {
      if !binary {
        assert x.shift * (e - frac) == e * x.shift - frac * x.shift;
      } else {
        assert x.shift * (0 - frac) == -(frac * x.shift);
      }
    }
  }

  lemma {:induction false} DecimalMagnitude(n: nat, drop: nat, x: Radix, frac: nat, e: int)
    requires RadixOk(x) && x.odd == 5
    ensures Magnitude(n * Pow(10, drop), x, frac, e, false) == Decimal(n, e - frac + drop)
  {
    hide RPow, Pow;
    RPowZero(2);
    RealProduct(n, Pow(10, drop));
    RPowNat(10, drop);
    RPowAdd(10, drop, e - frac);
    RMulAssoc(n as real, RPow(10, drop), RPow(10, e - frac));
    var y := RPow(10, e - frac);
    assert y * 1.0 == y;
    assert drop + (e - frac) == e - frac + drop;
  }

  // A number of as many digits as s has, times 2^t.
  lemma {:induction false} BinaryBounds(s: seq<nat>, x: Radix, t: int)
    requires RadixOk(x) && x.odd == 1 && s != [] && s[0] != 0 && DigitsOk(s, Base(x))
    ensures RPow(2, t + x.shift * (|s| - 1)) <= Binary(Num(s, Base(x)), t) < RPow(2, t + x.shift * |s|)
  {
    hide RPow, Pow, Num;
    BaseIs(x);
    NumAtLeast(s, Base(x));
    NumBelow(s, Base(x));
    PowMul(2, x.shift, |s| - 1);
    PowMul(2, x.shift, |s|);
    PowerBounds(2, Num(s, Base(x)), x.shift * (|s| - 1), x.shift * |s|, t);
  }

  lemma {:induction false} DecimalBounds(s: seq<nat>, t: int)
    requires s != [] && s[0] != 0 && DigitsOk(s, 10)
    ensures RPow(10, t + |s| - 1) <= Decimal(Num(s, 10), t) < RPow(10, t + |s|)
  {
    hide RPow, Pow, Num;
    NumAtLeast(s, 10);
    NumBelow(s, 10);
    PowerBounds(10, Num(s, 10), |s| - 1, |s|, t);
    assert t + |s| - 1 == t + (|s| - 1);
  }

  lemma {:induction false} PowerBounds(b: nat, n: nat, j: nat, k: nat, t: int)
    requires b > 1 && Pow(b, j) <= n < Pow(b, k)
    ensures RPow(b, t + j) <= (n as real) * RPow(b, t) < RPow(b, t + k)
  {
    hide RPow, Pow;
    RPowNat(b, j);
    RPowNat(b, k);
    RPowAdd(b, j, t);
    RPowAdd(b, k, t);
    assert j + t == t + j && k + t == t + k;
    var lo, hi, w, v := RPow(b, j), RPow(b, k), RPow(b, t), n as real;
    RMulMono(lo, v, w);
    RMulStrict(v, hi, w);
  }

  // ---------------------------------------------------------------------------
  // Powers of two: every digit matters

  // The digits s times 2^t, from the bits of the significand v.
  lemma {:induction false} BinaryRounds(s: seq<nat>, x: Radix, t: int, v: nat, count: nat, log: nat, m: nat, e: int)
    requires RadixOk(x) && x.odd == 1 && DigitsOk(s, Base(x)) && s != [] && s[0] != 0 && Significand(v, count, s, x)
    requires HighestBit(v, log) && count <= |s|
    requires var b := log + 1 + (t + x.shift * (|s| - count)); (m, e) == Normalize(Kept(v, log, Precision(b)), b)
    ensures RoundsTo(Binary(Num(s, Base(x)), t), m, e)
  {
    hide RPow, Pow, Num, Normalize, Kept, RoundsTo, HighestBit, AllZero, Binary;
    var y, expn, d := Binary(Num(s, Base(x)), t), t + x.shift * (|s| - count), Pow(2, x.shift * (|s| - count));
    var n, r := Num(s[..count], Base(x)), Num(s[count..], Base(x));
    BaseIs(x);
    SplitDigits(s, count, x);
    PowPositive(2, x.shift * (|s| - count));
    QuotientScale(n * d + r, d, x.shift * (|s| - count), t, y);
    NumZeros(s[count..], Base(x));
    if AllZero(s[count..]) {
      WholeQuotient(n, d);
      ExactRoundsTo(y, v, log, -expn, m, e);
    } else {
      DroppedDigits(s, count, x);
      ManyBits(s, count, x);
      StickyIs(n, d, r, v);
      QuotientRoundsTo(y, n * d + r, d, log, -expn, m, e);
    }
  }

  lemma {:induction false} StickyIs(n: nat, d: nat, r: nat, v: nat)
    requires 0 < r < d && v == if n % 2 == 0 then n + 1 else n
    ensures Sticky(n * d + r, d) == v
  {
    UniqueQuotient(n * d + r, d, n, r);
    StickyOf(n * d + r, d, n, r);
  }

  // Digits are dropped only after as many as there is room for.
  lemma {:induction false} DroppedDigits(s: seq<nat>, count: nat, x: Radix)
    requires RadixOk(x) && count == Min(|s|, ATOD_MAX_DIGITS[Base(x) - 2]) && !AllZero(s[count..])
    ensures count == ATOD_MAX_DIGITS[Base(x) - 2]
  {
  }

  lemma {:induction false} SplitDigits(s: seq<nat>, count: nat, x: Radix)
    requires RadixOk(x) && x.odd == 1 && DigitsOk(s, Base(x)) && count <= |s|
    ensures var d := Pow(2, x.shift * (|s| - count));
            Num(s, Base(x)) == Num(s[..count], Base(x)) * d + Num(s[count..], Base(x)) && Num(s[count..], Base(x)) < d
  {
    hide Pow, Num;
    BaseIs(x);
    assert s == s[..count] + s[count..];
    NumConcat(s[..count], s[count..], Base(x));
    NumBelow(s[count..], Base(x));
    PowMul(2, x.shift, |s| - count);
  }

  lemma {:induction false} WholeQuotient(n: nat, d: nat)
    requires d > 0
    ensures ((n * d) as real) / (d as real) == n as real
  {
    RealProduct(n, d);
    RCancel((n * d) as real, d as real);
    RMulInjective(d as real, ((n * d) as real) / (d as real), n as real);
  }

  lemma {:induction false} QuotientScale(n: nat, d: nat, j: int, t: int, y: real)
    requires j >= 0 && d == Pow(2, j) && y == Binary(n, t)
    ensures d > 0 && y * RPow(2, -(t + j)) == (n as real) / (d as real)
  {
    hide RPow, Pow;
    RPowDivide(2, j, n as real);
    RPowAdd(2, t, -(t + j));
    assert t + -(t + j) == -j;
    RMulAssoc(n as real, RPow(2, t), RPow(2, -(t + j)));
    var w, z := RPow(2, -(t + j)), (n as real) / (d as real);
    assert y * w == z;
  }

  // The digits kept are at least 56 bits.
  lemma {:induction false} ManyBits(s: seq<nat>, count: nat, x: Radix)
    requires RadixOk(x) && x.odd == 1 && s != [] && s[0] != 0 && count == ATOD_MAX_DIGITS[Base(x) - 2] && count <= |s|
    ensures Num(s[..count], Base(x)) >= Pow(2, 55)
  {
    hide Pow, Num;
    BaseIs(x);
    NumAtLeast(s[..count], Base(x));
    PowMul(2, x.shift, count - 1);
    PowMono(2, 55, x.shift * (count - 1));
  }

  // The last part of js_atod for a power of two, with the exponent of the digits kept.
  method RoundBinary(tmp: Mpb, x: Radix, expn: Int32, count: nat, ghost s: seq<nat>, ghost t: int) returns (a: nat)
    requires RadixOk(x) && x.odd == 1 && DigitsOk(s, Base(x)) && s != []
    requires tmp.Valid() && tmp.Normal() && tmp.tab.Length == BIGNUM_LEN && Significand(tmp.Val(), count, s, x)
    requires s[0] != 0 && count <= |s| && expn == t + x.shift * (|s| - count) && IsInt32(t + x.shift * |s|)
    modifies tmp, tmp.tab
    ensures RoundedBits(Binary(Num(s, Base(x)), t), a)
  {
    hide RPow, Pow, Num, Normalize, Kept, RoundsTo, HighestBit, AllZero, Significand, Assemble, RoundedBits, Value, Scale, Binary;
    ghost var y, v := Binary(Num(s, Base(x)), t), tmp.Val();
    SignificandPositive(v, count, s, x);
    TopExponent(t, x.shift, |s|, count);
    var expn1: Int32 := expn + count * x.shift;
    BinaryBounds(s, x, t);
    if expn1 >= 1024 + x.shift {
      AboveBinary(y, t + x.shift * (|s| - 1));
      a := INFINITE;
    } else if expn1 <= -1075 {
      BelowBinary(y, t + x.shift * |s|);
      a := 0;
    } else {
      var m, e;
      ghost var log;
      m, e, log := RoundToD(tmp, -(expn as int));
      BinaryRounds(s, x, t, v, count, log, m, e);
      RoundsToBits(y, m, e);
      a := Assemble(m, e);
    }
  }

  lemma {:induction false} TopExponent(t: int, shift: nat, n: nat, count: nat)
    requires count <= n
    ensures t + shift * (n - count) + count * shift == t + shift * n
    ensures t + shift * (n - 1) == t + shift * n - shift
  {
    assert shift * (n - count) == shift * n - count * shift;
  }

  lemma {:induction false} SignificandPositive(v: nat, count: nat, s: seq<nat>, x: Radix)
    requires RadixOk(x) && s != [] && s[0] != 0 && Significand(v, count, s, x)
    ensures v > 0 && 0 < count <= |s|
  {
    hide Pow, Num, AllZero;
    NumAtLeast(s[..count], Base(x));
    PowPositive(Base(x), count - 1);
  }

  // ---------------------------------------------------------------------------
  // Radix 10: the digits kept

  method RoundDecimal(tmp: Mpb, expn: Int32, count: nat, ghost s: seq<nat>) returns (a: nat)
    requires DigitsOk(s, 10) && s != [] && s[0] != 0 && count == |s| <= 38 && IsInt32(expn + |s|)
    requires tmp.Valid() && tmp.Normal() && tmp.tab.Length == BIGNUM_LEN && tmp.Val() == Num(s, 10) && tmp.len <= 8
    modifies tmp, tmp.tab
    ensures RoundedBits(Decimal(Num(s, 10), expn), a)
  {
    hide RPow, Pow, Num, RoundsTo, Assemble, RoundedBits, Value, Scale, OddPart, Exact, Decimal;
    ghost var y := Decimal(Num(s, 10), expn);
    var expn1: Int32 := expn + count;
    DecimalBounds(s, expn);
    if expn1 >= MAX_EXPONENT10 + 1 {
      AboveDecimal(y, expn + |s| - 1);
      a := INFINITE;
    } else if expn1 <= MIN_EXPONENT10 {
      BelowDecimal(y, expn + |s|);
      a := 0;
    } else {
      RoomForText(tmp.len, expn);
      NumAtLeast(s, 10);
      PowPositive(10, |s| - 1);
      ExactIsDecimal(Num(s, 10), expn);
      var m, e := MulPowRoundToD(tmp, 5, 1, expn);
      RoundsToBits(y, m, e);
      a := Assemble(m, e);
    }
  }

  lemma {:induction false} RoomForText(len: nat, f: int)
    requires len <= 8 && -361 <= f <= 308
    ensures OddPart(5) && RoomToDouble(BIGNUM_LEN, len, 5, 1, f)
  {
    FiveIsOddPart();
    hide OddPart;
    if f >= 0 {
      ChunkBound(f, 13);
    } else {
      ChunkBound(-f, 13);
    }
  }

  // ---------------------------------------------------------------------------
  // js_atod

  // The C code returns 64 bits, or a NaN for what is not a number. Arithmetic on int that
  // overflows is not defined.
  datatype Double = NaN | Bits(a: nat) | Undefined

  // The values of expn and expn1 at the end of js_atod: the exponent in digits or bits, the
  // same for the digits kept as an integer, and for the point in front of them.
  predicate ExponentFits(x: Radix, count: nat, offset: int, e: int, binary: bool) {
    var unit := if x.odd == 5 then 1 else x.shift;
    var k := if binary then e else e * unit;
    IsInt32(k) && IsInt32(offset * unit) && IsInt32(k - offset * unit) && IsInt32(k - offset * unit + count * unit)
  }

  // An exponent that exceeds an int by itself is dealt with, and zero has none.
  predicate LiteralFits(ds: seq<nat>, frac: nat, e: int, binary: bool, x: Radix)
    requires RadixOk(x)
  {
    var n := |Significant(ds)|;
    var count := Min(n, ATOD_MAX_DIGITS[Base(x) - 2]);
    n == 0 || Abs(e) >= EXPN_LIMIT || ExponentFits(x, count, frac - (n - count), e, binary)
  }

  // The number of digits that are read, which may turn out not to be those of a number.
  function DigitCount(text: string, x: Radix): (n: nat)
    requires RadixOk(x)
  {
    var start := AfterSign(text);
    var p := AfterPrefix(text, start, x);
    if StartsWith(text, start, INFINITY_TEXT) || (p > start && ToDigit(CharAt(text, p)) >= Base(x)) then 0
    else |ScanNumber(text, p, start, Base(x), false).digits|
  }

  // Everything js_atod computes in an int fits.
  predicate TextFits(text: string, x: Radix)
    requires RadixOk(x)
  {
    DigitCount(text, x) <= INT_MAX
    && match ParseText(text, x)
       case Literal(_, ds, frac, e, binary, _) => LiteralFits(ds, frac, e, binary, x)
       case _ => true
  }

  // The digits of a literal with the significand the bignum holds.
  ghost predicate Scanned(v: nat, len: nat, count: nat, offset: int, ds: seq<nat>, frac: nat, x: Radix)
    requires RadixOk(x)
  {
    && DigitsOk(ds, Base(x)) && frac <= |ds| && Significand(v, count, Significant(ds), x) && len <= 8
    && offset == if count == 0 then 0 else frac - (|Significant(ds)| - count)
  }

  // An exponent as it has been read: its sign, and its value unless that is too large.
  predicate ExponentRead(e: int, neg: bool, expn: int, overflow: bool) {
    overflow == (Abs(e) >= EXPN_LIMIT) && (if overflow then neg == (e < 0) else expn == e)
  }

  // The bits digits and an exponent are converted to, without the sign. An exponent that does
  // not fit an int decides alone.
  ghost predicate Converted(ds: seq<nat>, frac: nat, e: int, binary: bool, x: Radix, a: nat)
    requires RadixOk(x)
  {
    if Significant(ds) != [] && Abs(e) >= EXPN_LIMIT then a == (if e < 0 then 0 else INFINITE)
    else RoundedBits(Magnitude(ReadDigits(ds, x), x, frac, e, binary), a)
  }

  // From the significand and the exponent to the bits, as long as the numbers fit.
  method Convert(tmp: Mpb, x: Radix, count: nat, offset: Int32, neg: bool, expn0: Int32, overflow: bool, binary: bool,
                 ghost e: int, ghost ds: seq<nat>, ghost frac: nat)
    returns (fits: bool, a: nat)
    requires RadixOk(x) && tmp.Valid() && tmp.Normal() && tmp.tab.Length == BIGNUM_LEN
    requires Scanned(tmp.Val(), tmp.len, count, offset, ds, frac, x)
    requires ExponentRead(e, neg, expn0, overflow) && (binary ==> x.odd == 1 && x.shift <= 4)
    modifies tmp, tmp.tab
    ensures fits <==> LiteralFits(ds, frac, e, binary, x)
    ensures fits ==> Converted(ds, frac, e, binary, x, a)
  {
    hide RPow, Pow, Num, AllZero, RoundedBits, Value, Scale, Magnitude, ReadDigits, Significant, ExponentFits;
    fits, a := true, 0;
    if count == 0 {
      NoDigits(ds, x, frac, e, binary);
    } else if overflow {
      a := if neg then 0 else INFINITE;
    } else if x.odd == 1 {
      fits, a := ConvertBinary(tmp, x, count, offset, expn0, binary, ds, frac);
    } else {
      fits, a := ConvertDecimal(tmp, x, count, offset, expn0, ds, frac);
    }
  }

  method ConvertBinary(tmp: Mpb, x: Radix, count: nat, offset: Int32, expn0: Int32, binary: bool, ghost ds: seq<nat>, ghost frac: nat)
    returns (fits: bool, a: nat)
    requires RadixOk(x) && x.odd == 1 && tmp.Valid() && tmp.Normal() && tmp.tab.Length == BIGNUM_LEN && count > 0
    requires Scanned(tmp.Val(), tmp.len, count, offset, ds, frac, x)
    modifies tmp, tmp.tab
    ensures fits <==> ExponentFits(x, count, offset, expn0, binary)
    ensures fits ==> RoundedBits(Magnitude(ReadDigits(ds, x), x, frac, expn0, binary), a)
  {
    hide RPow, Pow, Num, AllZero, RoundedBits, Value, Scale, Magnitude, ReadDigits, Significant;
    ghost var s := Significant(ds);
    SignificantOk(ds, Base(x));
    BinaryMagnitude(Num(ds, Base(x)), x, frac, expn0, binary);
    BinaryInts(x, frac, |s|, count, offset, expn0, binary);
    ReadAll(ds, x);
    var k := if binary then expn0 else expn0 * x.shift;
    var expn := k - offset * x.shift;
    fits, a := IsInt32(k) && IsInt32(offset * x.shift) && IsInt32(expn) && IsInt32(expn + count * x.shift), 0;
    if fits {
      a := RoundBinary(tmp, x, expn, count, s, BinaryExponent(x, frac, expn0, binary));
    }
  }

  method ConvertDecimal(tmp: Mpb, x: Radix, count: nat, offset: Int32, expn0: Int32, ghost ds: seq<nat>, ghost frac: nat)
    returns (fits: bool, a: nat)
    requires RadixOk(x) && x.odd == 5 && tmp.Valid() && tmp.Normal() && tmp.tab.Length == BIGNUM_LEN && count > 0
    requires Scanned(tmp.Val(), tmp.len, count, offset, ds, frac, x)
    modifies tmp, tmp.tab
    ensures fits <==> ExponentFits(x, count, offset, expn0, false)
    ensures fits ==> RoundedBits(Magnitude(ReadDigits(ds, x), x, frac, expn0, false), a)
  {
    hide RPow, Pow, Num, AllZero, RoundedBits, Value, Scale, Magnitude, ReadDigits, Significant;
    ghost var s := Significant(ds);
    SignificantOk(ds, Base(x));
    ReadMost(ds, x);
    DecimalMagnitude(Num(s[..count], 10), |s| - count, x, frac, expn0);
    var expn := expn0 - offset;
    fits, a := IsInt32(expn) && IsInt32(expn + count), 0;
    if fits {
      a := RoundDecimal(tmp, expn, count, s[..count]);
    }
  }

  lemma {:induction false} SignificantOk(ds: seq<nat>, base: nat)
    requires DigitsOk(ds, base)
    ensures DigitsOk(Significant(ds), base)
  {
    if ds != [] && ds[0] == 0 {
      SignificantOk(ds[1..], base);
    }
  }

  lemma {:induction false} NoDigits(ds: seq<nat>, x: Radix, frac: nat, e: int, binary: bool)
    requires RadixOk(x) && Significant(ds) == []
    ensures RoundedBits(Magnitude(ReadDigits(ds, x), x, frac, e, binary), 0)
  {
    hide RPow;
    NumSignificant(ds, Base(x));
  }

  // All digits count in a power of two.
  lemma {:induction false} ReadAll(ds: seq<nat>, x: Radix)
    requires RadixOk(x) && x.odd == 1
    ensures ReadDigits(ds, x) == Num(ds, Base(x)) == Num(Significant(ds), Base(x))
  {
    NumSignificant(ds, Base(x));
  }

  // In radix 10 as many as are kept, followed by zeros.
  lemma {:induction false} ReadMost(ds: seq<nat>, x: Radix)
    requires RadixOk(x) && x.odd == 5
    ensures var s := Significant(ds); var count := Min(|s|, 38);
            ReadDigits(ds, x) == Num(s[..count], 10) * Pow(10, |s| - count)
  {
    hide Num;
    var s := Significant(ds);
    NumSignificant(ds, 10);
    PowOne(10);
    if |s| <= 38 {
      assert s[..|s|] == s;
    }
  }

  // The exponents of the C code in terms of the exponent of all digits.
  lemma {:induction false} BinaryInts(x: Radix, frac: nat, n: nat, count: nat, offset: int, e: int, binary: bool)
    requires RadixOk(x) && x.odd == 1 && count <= n && offset == frac - (n - count)
    ensures var k := if binary then e else e * x.shift;
            && k - offset * x.shift == BinaryExponent(x, frac, e, binary) + x.shift * (n - count)
            && k - offset * x.shift + count * x.shift == BinaryExponent(x, frac, e, binary) + x.shift * n
  {
    var h := x.shift;
    assert offset * h == frac * h - (n - count) * h;
    assert (n - count) * h == n * h - count * h;
    assert h * n == n * h && h * (n - count) == (n - count) * h;
  }

  // What js_atod returns for a text.
  ghost predicate IsConversion(text: string, x: Radix, r: Double)
    requires RadixOk(x)
  {
    if !TextFits(text, x) then r == Undefined
    else
      match ParseText(text, x)
      case NotANumber => r == NaN
      case Infinite(neg, _) => r == Bits(INFINITE + Sign(neg))
      case Literal(neg, ds, frac, e, binary, _) =>
        exists a: nat :: Converted(ds, frac, e, binary, x, a) && r == Bits(a + Sign(neg))
  }

  function Sign(neg: bool): (s: nat) {
    if neg then SIGN else 0
  }

  function EndOf(l: Literal): (p: nat)
    requires !l.NotANumber?
  {
    l.end
  }

  // js_atod without flags: the double nearest to the number of the text, for a power of two
  // of any length, for radix 10 with the digits beyond the 38th taken for zeros.
  method JsAtod(text: string, x: Radix) returns (r: Double, next: nat)
    requires RadixOk(x)
    ensures IsConversion(text, x, r)
    ensures r == Undefined <==> !TextFits(text, x)
    ensures r.Bits? ==> next == EndOf(ParseText(text, x))
  {
    hide Num, RPow, Pow, ScanNumber, RoundedBits, Magnitude, ReadDigits, ExponentText, Significant, Value, Scale, Converted, LiteralFits;
    var neg, start := false, 0;
    if CharAt(text, 0) == '+' {
      start := 1;
    } else if CharAt(text, 0) == '-' {
      neg := true;
      start := 1;
    }
    var p := start;
    if CharAt(text, p) == '0' {
      if (CharAt(text, p + 1) == 'x' || CharAt(text, p + 1) == 'X') && Base(x) == 16 {
        p := p + 2;
        if ToDigit(CharAt(text, p)) >= Base(x) {
          return NaN, p;
        }
      }
    } else if StartsWith(text, p, INFINITY_TEXT) {
      return Bits(INFINITE + Sign(neg)), p + |INFINITY_TEXT|;
    }
    r, next := ConvertNumber(text, start, p, x, neg);
  }

  method ConvertNumber(text: string, start: nat, p0: nat, x: Radix, neg: bool) returns (r: Double, next: nat)
    requires RadixOk(x) && start <= p0
    ensures |ScanNumber(text, p0, start, Base(x), false).digits| > INT_MAX ==> r == Undefined
    ensures |ScanNumber(text, p0, start, Base(x), false).digits| <= INT_MAX ==>
              match ParseNumber(text, start, p0, x, neg)
              case NotANumber => r == NaN
              case Infinite(_, _) => false
              case Literal(neg', ds, frac, e, binary, end) =>
                neg' == neg
                && if LiteralFits(ds, frac, e, binary, x)
                   then next == end && exists a: nat :: Converted(ds, frac, e, binary, x, a) && r == Bits(a + Sign(neg))
                   else r == Undefined
  {
    hide Num, RPow, Pow, ScanNumber, RoundedBits, Magnitude, ReadDigits, ExponentText, Significant, Value, Scale, Significand, Converted,
         LiteralFits;
    var tmp := new Mpb(BIGNUM_LEN);
    var fits, count, offset;
    ghost var ds, frac;
    next, fits, count, offset, ds, frac := ReadSignificand(text, start, p0, x, tmp);
    if !fits {
      return Undefined, next;
    }
    ScanBounds(text, p0, start, Base(x), false);
    var expNeg, expn, overflow, binary := false, 0, false, false;
    ghost var e := 0;
    if IsMarker(CharAt(text, next), x) && next > start {
      ghost var run := ExponentText(text, next);
      binary := IsBinaryMarker(CharAt(text, next));
      var ok;
      ok, expNeg, expn, overflow, next := ReadExponent(text, next);
      if !ok {
        return NaN, next;
      }
      if expNeg {
        expn := -(expn as int);
      }
      e := if expNeg then -(Num(run.1, 10) as int) else Num(run.1, 10);
    }
    if next == start {
      return NaN, next;
    }
    var a;
    fits, a := Convert(tmp, x, count, offset, expNeg, expn, overflow, binary, e, ds, frac);
    r := if fits then Bits(a + Sign(neg)) else Undefined;
  }

  // ---------------------------------------------------------------------------
  // An exponent that does not fit an int

  // It decides indeed, unless there are hundreds of millions of digits.
  lemma {:induction false} HugeExponent(ds: seq<nat>, x: Radix, frac: nat, e: int, binary: bool)
    requires RadixOk(x) && DigitsOk(ds, Base(x)) && frac <= |ds| && Significant(ds) != [] && 5 * |ds| <= INT_MAX
    requires Abs(e) >= EXPN_LIMIT && (binary ==> x.odd == 1 && x.shift <= 4)
    ensures RoundedBits(Magnitude(Num(ds, Base(x)), x, frac, e, binary), if e < 0 then 0 else INFINITE)
  {
    hide RPow, Pow, Num, RoundedBits, Magnitude, Significant, Decimal, Binary;
    var s := Significant(ds);
    SignificantOk(ds, Base(x));
    NumSignificant(ds, Base(x));
    if x.odd == 1 {
      var t := BinaryExponent(x, frac, e, binary);
      BinaryMagnitude(Num(ds, Base(x)), x, frac, e, binary);
      BinaryBounds(s, x, t);
      HugeBinary(x, frac, |s|, e, binary, |ds|);
      var y := Binary(Num(s, Base(x)), t);
      if e < 0 {
        BelowBinary(y, t + x.shift * |s|);
      } else {
        AboveBinary(y, t + x.shift * (|s| - 1));
      }
    } else {
      PowOne(10);
      DecimalMagnitude(Num(s, 10), 0, x, frac, e);
      var t := e - frac;
      DecimalBounds(s, t);
      var y := Decimal(Num(s, 10), t);
      if e < 0 {
        BelowDecimal(y, t + |s|);
      } else {
        AboveDecimal(y, t + |s| - 1);
      }
    }
  }

  lemma {:induction false} HugeBinary(x: Radix, frac: nat, n: nat, e: int, binary: bool, length: nat)
    requires RadixOk(x) && x.odd == 1 && 0 < n <= length && frac <= length && 5 * length <= INT_MAX
    requires Abs(e) >= EXPN_LIMIT && (binary ==> x.shift <= 4)
    ensures e >= 0 ==> BinaryExponent(x, frac, e, binary) + x.shift * (n - 1) >= 1024
    ensures e < 0 ==> BinaryExponent(x, frac, e, binary) + x.shift * n <= -1075
  {
  }
}
