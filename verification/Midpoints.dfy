// Which real numbers round to which bits: the midpoints between neighbouring doubles, the ones
// to zero and infinity included, divide the line into what rounds to each of them.
module Midpoints {
  import opened Powers
  import opened Rounding
  import opened Scaling
  import opened Doubles
  import opened DoubleBits

  // The double with the bits a is Whole(a) * 2^LastPlace(a); from here on also for zero, and
  // for the bits of infinity, which stand for 2^1024.
  function Whole(a: nat): (n: nat) {
    if a < TWO52 then a else TWO52 + a % TWO52
  }

  function LastPlace(a: nat): (k: int) {
    (if a < TWO52 then 1 else a / TWO52) - 1075
  }

  ghost function BitsValue(a: nat): (x: real) {
    (Whole(a) as real) * RPow(2, LastPlace(a))
  }

  // Half way from the bits a to the next ones.
  ghost function Midpoint(a: nat): (x: real) {
    (Whole(a) as real + 0.5) * RPow(2, LastPlace(a))
  }

  // y is on the lower side of the midpoint behind a; a tie is if a is even.
  ghost predicate Below(y: real, a: nat) {
    y < Midpoint(a) || (y == Midpoint(a) && a % 2 == 0)
  }

  // Between the midpoints before and behind a.
  ghost predicate Around(y: real, a: nat) {
    a <= INFINITE && (a < INFINITE ==> Below(y, a)) && (a > 0 ==> !Below(y, a - 1))
  }

  // ---------------------------------------------------------------------------
  // Bits and their values

  lemma {:induction false} BitsValueIs(a: nat)
    ensures BitsValue(a) == (Whole(a) as real) * RPow(2, LastPlace(a))
    ensures Midpoint(a) == BitsValue(a) + 0.5 * RPow(2, LastPlace(a))
  {
    hide RPow;
    var n, w := Whole(a) as real, RPow(2, LastPlace(a));
    assert (n + 0.5) * w == n * w + 0.5 * w;
  }

  // The bits of a finite double other than zero.
  lemma {:induction false} BitsValueOf(a: nat)
    requires 0 < a < INFINITE
    ensures BitsValue(a) == ValueOf(Decode(a).0, Decode(a).1)
  {
    hide RPow, Pow;
    if a < TWO52 {
      var l := Normalization(a);
      RPowNat(2, l);
      RealProduct(a, Pow(2, l));
      var k := -1074 - (l as int);
      RPowAdd(2, l, k);
      assert l + k == -1074;
      RMulAssoc(a as real, RPow(2, l), RPow(2, k));
    }
  }

  // The next bits are one unit in the last place higher, and the midpoint half of one.
  lemma {:induction false} NextBits(a: nat)
    ensures BitsValue(a + 1) == BitsValue(a) + RPow(2, LastPlace(a))
    ensures BitsValue(a) < Midpoint(a) < BitsValue(a + 1) && 2.0 * Midpoint(a) == BitsValue(a) + BitsValue(a + 1)
  {
    hide RPow, BitsValue, Midpoint;
    BitsValueIs(a);
    BitsValueIs(a + 1);
    NextPlace(a);
    var n, w, n', w' := Whole(a) as real, RPow(2, LastPlace(a)), Whole(a + 1) as real, RPow(2, LastPlace(a + 1));
    RPowStep(2, LastPlace(a));
    assert n' * w' == n * w + w by {
      if LastPlace(a + 1) == LastPlace(a) {
        assert (n + 1.0) * w == n * w + w;
      } else {
        assert w' == 2.0 * w && 2.0 * n' == n + 1.0;
        RMulAssoc(n', 2.0, w);
        assert n' * 2.0 == n + 1.0;
        assert (n + 1.0) * w == n * w + w;
      }
    }
  }

  lemma {:induction false} NextPlace(a: nat)
    ensures || (LastPlace(a + 1) == LastPlace(a) && Whole(a + 1) == Whole(a) + 1)
            || (LastPlace(a + 1) == LastPlace(a) + 1 && 2 * Whole(a + 1) == Whole(a) + 1)
  {
  }

  lemma {:induction false} MidpointsIncrease(a: nat, b: nat)
    requires a < b
    ensures Midpoint(a) < Midpoint(b)
    decreases b
  {
    hide Midpoint, BitsValue;
    NextBits(b - 1);
    NextBits(b);
    if a < b - 1 {
      MidpointsIncrease(a, b - 1);
    }
  }

  // What is below a midpoint is below the higher ones, and so is whatever is smaller.
  lemma {:induction false} BelowMono(t: real, y: real, a: nat, b: nat)
    requires t <= y && a <= b && Below(y, a)
    ensures Below(t, b)
  {
    hide Midpoint;
    if a < b {
      MidpointsIncrease(a, b);
    }
  }

  // The midpoint before the least double, and the one behind the greatest.
  lemma {:induction false} Thresholds()
    ensures Midpoint(0) == RPow(2, -1075)
    ensures Midpoint(INFINITE - 1) == RPow(2, 1024) - RPow(2, 970)
  {
    hide RPow, Pow;
    RPowStep(2, -1075);
    HalfPower(971);
    PowTwo52();
    RPowNat(2, 53);
    RPowAdd(2, 53, 971);
    assert Whole(INFINITE - 1) == 2 * TWO52 - 1 && LastPlace(INFINITE - 1) == 971;
    var w := RPow(2, 971);
    assert ((2 * TWO52 - 1) as real + 0.5) * w == ((2 * TWO52) as real) * w - 0.5 * w;
  }

  // ---------------------------------------------------------------------------
  // Bits by binade

  // The bits of n units in the last place of binade b.
  function BitsOf(n: nat, b: int): (a: nat) {
    (if b >= MIN_EXPONENT then (b - MIN_EXPONENT) * TWO52 else 0) + n
  }

  predicate InPlace(n: nat, b: int) {
    if b >= MIN_EXPONENT then TWO52 <= n < 2 * TWO52 else n <= TWO52
  }

  lemma {:induction false} BitsOfParts(n: nat, b: int)
    requires InPlace(n, b)
    ensures var a := BitsOf(n, b); Whole(a) == n && LastPlace(a) == b - Precision(b) && a % 2 == n % 2
  {
  }

  // Comparing y with a midpoint, in units of the binade.
  lemma {:induction false} BelowScaled(y: real, n: nat, b: int)
    requires InPlace(n, b)
    ensures Below(y, BitsOf(n, b)) <==> Scaled(y, b) < n as real + 0.5 || (Scaled(y, b) == n as real + 0.5 && n % 2 == 0)
  {
    hide RPow, Scaled, BitsOf, Whole, LastPlace, InPlace, Precision;
    BitsOfParts(n, b);
    ScaledIs(y, b);
    var k := b - Precision(b);
    RPowInverse(2, k);
    assert -k == Precision(b) - b;
    ScaledCompare(y, n as real + 0.5, RPow(2, -k), RPow(2, k));
  }

  lemma {:induction false} ScaledCompare(y: real, t: real, s: real, w: real)
    requires s > 0.0 && w > 0.0 && w * s == 1.0
    ensures y < t * w <==> y * s < t
    ensures y == t * w <==> y * s == t
  {
    RMulAssoc(t, w, s);
    assert (t * w) * s == t;
    if y < t * w {
      RMulStrict(y, t * w, s);
    } else if t * w < y {
      RMulStrict(t * w, y, s);
    }
  }

  // The powers of two.
  lemma {:induction false} BitsOfPower(b: int)
    requires b >= MIN_EXPONENT
    ensures BitsValue(BitsOf(TWO52, b)) == RPow(2, b - 1)
  {
    hide RPow, Pow, BitsOf, Whole, LastPlace;
    BitsOfParts(TWO52, b);
    PowTwo52();
    RPowNat(2, 52);
    RPowAdd(2, 52, b - 53);
    assert 52 + (b - 53) == b - 1;
  }

  // ---------------------------------------------------------------------------
  // What rounds to the bits a

  // The units a number of this binade may round to.
  predicate MayRoundTo(q: nat, b: int) {
    && -1074 <= b <= 1024
    && if b >= MIN_EXPONENT then TWO52 <= q <= 2 * TWO52 else q <= Pow(2, b + 1074)
  }

  lemma {:induction false} RoundedUnits(y: real, b: int, q: nat)
    requires InBinade(y, b) && -1074 <= b <= 1024 && q == RoundReal(NearestEven, Scaled(y, b))
    ensures MayRoundTo(q, b)
  {
    hide RPow, Pow, RoundReal;
    var p, t := Precision(b), Scaled(y, b);
    ScaledOrder(y, b, b);
    ScaledOrder(y, b, b - 1);
    assert p - b + b == p && p - b + (b - 1) == p - 1;
    RPowNat(2, p);
    RoundMono(NearestEven, t, Pow(2, p) as real);
    RoundInteger(NearestEven, Pow(2, p));
    if b >= MIN_EXPONENT {
      PowTwo52();
      RPowNat(2, 52);
      RoundMono(NearestEven, TWO52 as real, t);
      RoundInteger(NearestEven, TWO52);
    }
  }

  // The end of js_atod puts the units behind each other, whether the mantissa overflows or not.
  lemma {:induction false} AssembleUnits(q: nat, b: int)
    requires MayRoundTo(q, b)
    ensures var (m, e) := Normalize(q, b); Assemble(m, e) == BitsOf(q, b) <= INFINITE
  {
    hide Pow;
    PowTwo52();
    if b >= MIN_EXPONENT {
      PowOne(2);
    } else {
      AssembleSmall(q, b);
    }
  }

  lemma {:induction false} AssembleSmall(q: nat, b: int)
    requires -1074 <= b < MIN_EXPONENT && q <= Pow(2, b + 1074)
    ensures var (m, e) := Normalize(q, b); Assemble(m, e) == q <= TWO52
  {
    hide Pow;
    var l := MIN_EXPONENT - b;
    assert 53 - Precision(b) == l;
    var w := Pow(2, l);
    PowPositive(2, l);
    PowTwo52();
    PowStep(2, l - 1);
    PowPositive(2, l - 1);
    PowAdd(2, b + 1074, l);
    PowMono(2, b + 1074, 52);
    var m := q * w;
    if q == 0 {
      assert m == 0;
    } else {
      MulPositive(q, w);
      MulMono(q, Pow(2, b + 1074), w);
      if m >= 2 * TWO52 {
        if q < Pow(2, b + 1074) {
          MulStrict(q, Pow(2, b + 1074), w);
        }
        PowAdd(2, b + 1074, l - 1);
        UniqueQuotient(TWO52, Pow(2, l - 1), q, 0);
        if l == 1 {
          PowOne(2);
        }
      } else {
        UniqueQuotient(m, w, q, 0);
      }
    }
  }

  lemma {:induction false} RoundedAround(y: real, b: int, q: nat)
    requires InBinade(y, b) && q == RoundReal(NearestEven, Scaled(y, b)) && MayRoundTo(q, b) && BitsOf(q, b) <= INFINITE
    ensures Around(y, BitsOf(q, b))
  {
    hide RPow, Pow, RoundReal, Scaled, Below, BitsValue, Midpoint;
    var t, a := Scaled(y, b), BitsOf(q, b);
    RoundsToNearest(t, q);
    if b < MIN_EXPONENT {
      PowTwo52();
      PowMono(2, b + 1074, 52);
    }
    if InPlace(q, b) {
      BelowScaled(y, q, b);
    } else {
      BitsOfPower(b + 1);
      BelowValue(y, a);
    }
    if a > 0 {
      if q > 0 && InPlace(q - 1, b) {
        BelowScaled(y, q - 1, b);
      } else {
        BitsOfPower(b);
        AboveValue(y, a);
      }
    }
  }

  lemma {:induction false} BelowValue(y: real, a: nat)
    requires y <= BitsValue(a)
    ensures Below(y, a)
  {
    hide BitsValue, Midpoint;
    NextBits(a);
  }

  lemma {:induction false} AboveValue(y: real, a: nat)
    requires y >= BitsValue(a) && a > 0
    ensures !Below(y, a - 1)
  {
    hide BitsValue, Midpoint;
    NextBits(a - 1);
  }

  lemma {:induction false} RoundedIsAround(y: real, a: nat)
    requires RoundedBits(y, a)
    ensures Around(y, a)
  {
    hide RPow, Pow, RoundReal, Normalize, Assemble, Scaled, Below, BitsOf, BitsValue, MayRoundTo;
    if y < RPow(2, -1075) {
      Thresholds();
      BelowLeast(y);
    } else if y >= RPow(2, 1024) {
      BitsOfPower(1025);
      assert BitsOf(TWO52, 1025) == INFINITE by {
        InfinityBits();
      }
      AboveValue(y, INFINITE);
    } else {
      var m: nat, e: int :| RoundsTo(y, m, e) && a == Assemble(m, e);
      var b: int :| InBinade(y, b) && RoundReal(NearestEven, Scaled(y, b)) >= 0
                    && (m, e) == Normalize(RoundReal(NearestEven, Scaled(y, b)), b);
      var q := RoundReal(NearestEven, Scaled(y, b));
      BinadeRange(y, b);
      RoundedUnits(y, b, q);
      AssembleUnits(q, b);
      RoundedAround(y, b, q);
    }
  }

  lemma {:induction false} InfinityBits()
    ensures BitsOf(TWO52, 1025) == INFINITE
  {
  }

  lemma {:induction false} BelowLeast(y: real)
    requires y < Midpoint(0)
    ensures Below(y, 0)
  {
  }

  lemma {:induction false} BinadeRange(y: real, b: int)
    requires InBinade(y, b) && RPow(2, -1075) <= y < RPow(2, 1024)
    ensures -1074 <= b <= 1024
  {
    hide RPow;
    if b < -1075 {
      RPowStrict(2, b, -1075);
    }
    if b - 1 > 1024 {
      RPowStrict(2, 1024, b - 1);
    }
  }

  lemma {:induction false} BinadeExists(y: real, lo: int, hi: int) returns (b: int)
    requires lo < hi && RPow(2, lo) <= y < RPow(2, hi)
    ensures InBinade(y, b)
    decreases hi - lo
  {
    hide RPow;
    if y >= RPow(2, hi - 1) {
      b := hi;
    } else {
      b := BinadeExists(y, lo, hi - 1);
    }
  }

  lemma {:induction false} RoundedExists(y: real) returns (a: nat)
    ensures RoundedBits(y, a)
  {
    hide RPow, Pow, RoundReal, Normalize, Assemble, Scaled;
    if y < RPow(2, -1075) {
      a := 0;
    } else if y >= RPow(2, 1024) {
      a := INFINITE;
    } else {
      var b := BinadeExists(y, -1075, 1024);
      Nonnegative(y, b);
      RoundMono(NearestEven, 0.0, Scaled(y, b));
      RoundInteger(NearestEven, 0);
      var r := Normalize(RoundReal(NearestEven, Scaled(y, b)), b);
      assert RoundsTo(y, r.0, r.1);
      a := Assemble(r.0, r.1);
    }
  }

  lemma {:induction false} AroundUnique(y: real, a: nat, b: nat)
    requires Around(y, a) && Around(y, b)
    ensures a == b
  {
    hide Below;
    if a < b {
      BelowMono(y, y, a, b - 1);
    } else if b < a {
      BelowMono(y, y, b, a - 1);
    }
  }

  // The bits of the nearest double, in terms of the midpoints on its two sides.
  lemma {:induction false} RoundedIffAround(y: real, a: nat)
    ensures RoundedBits(y, a) <==> Around(y, a)
  {
    hide RoundedBits, Around;
    if RoundedBits(y, a) {
      RoundedIsAround(y, a);
    }
    if Around(y, a) {
      var b := RoundedExists(y);
      RoundedIsAround(y, b);
      AroundUnique(y, a, b);
    }
  }

  // ---------------------------------------------------------------------------
  // Replacing a number by a smaller one

  // Some midpoint lies between t and y, and rounding sends them to different sides of it.
  ghost predicate Crossed(t: real, y: real) {
    exists a: nat {:trigger Below(t, a)} :: a < INFINITE && Below(t, a) && !Below(y, a)
  }

  // Rounding t instead of y gives the double nearest to y exactly if no midpoint is crossed.
  lemma {:induction false} RoundedInstead(t: real, y: real, a: nat)
    requires t <= y && RoundedBits(t, a)
    ensures RoundedBits(y, a) <==> !Crossed(t, y)
  {
    hide Below, RoundedBits;
    RoundedIffAround(t, a);
    RoundedIffAround(y, a);
    if RoundedBits(y, a) && Crossed(t, y) {
      var c: nat :| c < INFINITE && Below(t, c) && !Below(y, c);
      if c < a {
        BelowMono(t, t, c, a - 1);
      } else {
        BelowMono(y, y, a, c);
      }
    }
    if !Crossed(t, y) && a > 0 && Below(y, a - 1) {
      BelowMono(t, y, a - 1, a - 1);
    }
  }
}
