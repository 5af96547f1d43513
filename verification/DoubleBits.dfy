// The 64 bits of a double: how js_dtoa takes them apart and js_atod puts them together, and
// what it means for bits to be the double nearest to a real number.
module DoubleBits {
  import opened Powers
  import opened Rounding
  import opened Bignum
  import opened Scaling
  import opened Doubles
  import opened FreeFormat

  const INFINITE: nat := 0x7ff0_0000_0000_0000
  const SIGN: nat := 0x8000_0000_0000_0000

  // The end of js_atod: the bits of m * 2^(e - 53).
  function Assemble(m: nat, e: int): (a: nat) {
    if m == 0 then 0
    else if e > 1024 then INFINITE
    else if e < -1073 then 0
    else if e < MIN_EXPONENT then
      PowPositive(2, MIN_EXPONENT - e);
      m / Pow(2, MIN_EXPONENT - e)
    else (e + 1022) * TWO52 + m % TWO52
  }

  // The beginning of js_dtoa: mantissa and exponent of a finite number other than zero.
  function Decode(a: nat): (r: (nat, int))
    requires 0 < a < INFINITE
  {
    var e, m := a / TWO52, a % TWO52;
    if e == 0 then
      var l := Normalization(m);
      (m * Pow(2, l), 1 - l - 1022)
    else (m + TWO52, e - 1022)
  }

  // clz64(m) - 11
  function Normalization(m: nat): (l: nat) {
    Max0(53 - BitLength(m))
  }

  // Taking bits apart and putting them together again.
  lemma {:induction false} DecodeIsDouble(a: nat)
    requires 0 < a < INFINITE
    ensures var (m, e) := Decode(a); IsDouble(m, e) && Assemble(m, e) == a
  {
    hide Pow, BitLength;
    var e, m := a / TWO52, a % TWO52;
    if e == 0 {
      BitLengthBounds(m);
      PowTwo52();
      var n := BitLength(m);
      if n > 52 {
        PowMono(2, 52, n - 1);
      }
      var l := 53 - n;
      PowAdd(2, n, l);
      PowAdd(2, n - 1, l);
      PowPositive(2, l);
      MulMono(Pow(2, n - 1), m, Pow(2, l));
      MulStrict(m, Pow(2, n), Pow(2, l));
      UniqueQuotient(m * Pow(2, l), Pow(2, l), m, 0);
    } else {
      NormalIsDouble(m + TWO52, e - 1022);
    }
  }

  lemma {:induction false} NormalIsDouble(m: nat, e: int)
    requires TWO52 <= m < 2 * TWO52 && MIN_EXPONENT <= e <= 1024
    ensures IsDouble(m, e)
  {
    PowPositive(2, 0);
  }

  lemma {:induction false} AssembleDecodes(m: nat, e: int)
    requires IsDouble(m, e)
    ensures 0 < Assemble(m, e) < INFINITE && Decode(Assemble(m, e)) == (m, e)
  {
    hide Pow, BitLength;
    if e < MIN_EXPONENT {
      var l := MIN_EXPONENT - e;
      UnitsIs(m, e);
      var u := Units(m, e);
      PowTwo52();
      PowPositive(2, 52 - l);
      PowMono(2, 53 - l, 52);
      BitLengthIs(u, 53 - l);
    }
  }

  // ---------------------------------------------------------------------------
  // Rounding to bits

  // The bits of the double nearest to x, ties to even: zero below half of the least double,
  // infinity from 2^1024 on or where the mantissa overflows.
  ghost predicate RoundedBits(x: real, a: nat) {
    if x < RPow(2, -1075) then a == 0
    else if x >= RPow(2, 1024) then a == INFINITE
    else exists m: nat, e: int :: RoundsTo(x, m, e) && a == Assemble(m, e)
  }

  lemma {:induction false} RoundedUnique(x: real, a: nat, b: nat)
    requires RoundedBits(x, a) && RoundedBits(x, b)
    ensures a == b
  {
    hide RoundsTo, Assemble, RPow;
    if RPow(2, -1075) <= x < RPow(2, 1024) {
      var m: nat, e: int :| RoundsTo(x, m, e) && a == Assemble(m, e);
      var m': nat, e': int :| RoundsTo(x, m', e') && b == Assemble(m', e');
      RoundsToUnique(x, m, e, m', e');
    }
  }

  // What rounds to a mantissa and an exponent has their bits, also outside of the range of
  // doubles.
  lemma {:induction false} RoundsToBits(x: real, m: nat, e: int)
    requires RoundsTo(x, m, e)
    ensures RoundedBits(x, Assemble(m, e))
  {
    hide RPow, Pow, RoundReal, Normalize;
    var b: int :| InBinade(x, b) && RoundReal(NearestEven, Scaled(x, b)) >= 0
                  && (m, e) == Normalize(RoundReal(NearestEven, Scaled(x, b)), b);
    if x < RPow(2, -1075) {
      if b - 1 > -1075 {
        RPowStrict(2, -1075, b - 1);
      }
      TinyIsZero(x, b);
      NormalizeZero(b);
    } else if x >= RPow(2, 1024) {
      if b < 1024 {
        RPowStrict(2, b, 1024);
      }
      NotZero(x, b);
      NormalizeIs(RoundReal(NearestEven, Scaled(x, b)), b);
    }
  }

  lemma {:induction false} NormalizeZero(b: int)
    ensures Normalize(0, b) == (0, b)
  {
  }

  lemma {:induction false} NormalizeIs(q: nat, b: int)
    requires q > 0 && b > MIN_EXPONENT
    ensures Normalize(q, b).0 > 0 && Normalize(q, b).1 >= b
  {
    hide Pow;
    PowOne(2);
  }

  lemma {:induction false} TinyIsZero(x: real, b: int)
    requires InBinade(x, b) && b <= -1075
    ensures RoundReal(NearestEven, Scaled(x, b)) == 0
  {
    hide RPow, RoundReal;
    var p := Precision(b);
    ScaledOrder(x, b, b);
    assert p - b + b == p;
    RPowZero(2);
    HalfPower(0);
    if p < -1 {
      RPowStrict(2, p, -1);
    }
    Nonnegative(x, b);
    RoundsToNearest(Scaled(x, b), 0);
  }

  lemma {:induction false} NotZero(x: real, b: int)
    requires InBinade(x, b) && b > MIN_EXPONENT
    ensures RoundReal(NearestEven, Scaled(x, b)) > 0
  {
    hide RPow, RoundReal, Pow;
    ScaledOrder(x, b, b - 1);
    assert Precision(b) - b + (b - 1) == 52;
    RPowNat(2, 52);
    PowTwo52();
    RoundMono(NearestEven, TWO52 as real, Scaled(x, b));
    RoundInteger(NearestEven, TWO52);
  }

  // A double rounds to its own bits, and so does every number that rounds to it.
  lemma {:induction false} DoubleBitsOf(x: real, a: nat)
    requires 0 < a < INFINITE && RoundsTo(x, Decode(a).0, Decode(a).1)
    ensures RoundedBits(x, a)
  {
    hide RoundsTo, Decode, Assemble, RoundedBits;
    DecodeIsDouble(a);
    RoundsToBits(x, Decode(a).0, Decode(a).1);
  }

  // ---------------------------------------------------------------------------
  // No double is closer

  lemma {:induction false} RoundedValue(x: real, m: nat, e: int, b: int, q: nat)
    requires InBinade(x, b) && q == RoundReal(NearestEven, Scaled(x, b)) && (m, e) == Normalize(q, b)
    ensures ValueOf(m, e) == InUnits(q, b)
  {
    hide RPow, Pow, RoundReal;
    var p := Precision(b);
    var w := Pow(2, 53 - p);
    RPowNat(2, 53 - p);
    RealProduct(q, w);
    RPowAdd(2, 53 - p, b - 53);
    assert 53 - p + (b - 53) == b - p;
    RMulAssoc(q as real, RPow(2, 53 - p), RPow(2, b - 53));
    var y := ((q * w) as real) * RPow(2, b - 53);
    assert y == (q as real) * RPow(2, b - p);
    ValueIs(m, e);
    if q * w >= 2 * TWO52 {
      OverflowIs(x, b, q);
      RPowStep(2, b - 53);
      assert (m as real) * (2.0 * RPow(2, b - 53)) == (2.0 * m as real) * RPow(2, b - 53);
    }
  }

  // A double in units of another scale that is not coarser.
  lemma {:induction false} MultipleOf(m: nat, e: int, k: int) returns (n: nat)
    requires IsDouble(m, e) && k <= e - Precision(e)
    ensures ValueOf(m, e) == (n as real) * RPow(2, k)
  {
    hide RPow, Pow;
    UnitsIs(m, e);
    var u, p := Units(m, e), Precision(e);
    var i := e - p - k;
    n := u * Pow(2, i);
    RPowNat(2, i);
    RPowNat(2, 53 - p);
    RealProduct(u, Pow(2, i));
    RealProduct(u, Pow(2, 53 - p));
    RPowAdd(2, i, k);
    RPowAdd(2, 53 - p, e - 53);
    assert i + k == e - p && 53 - p + (e - 53) == e - p;
    RMulAssoc(u as real, RPow(2, i), RPow(2, k));
    RMulAssoc(u as real, RPow(2, 53 - p), RPow(2, e - 53));
    ValueIs(m, e);
  }

  lemma {:induction false} CoarserScale(b: int, e: int)
    requires b <= e
    ensures b - Precision(b) <= e - Precision(e)
  {
  }

  // n units in the last place of binade b
  ghost function InUnits(n: int, b: int): (y: real) {
    (n as real) * RPow(2, b - Precision(b))
  }

  lemma {:induction false} InUnitsIs(n: int, b: int)
    ensures InUnits(n, b) == (n as real) * RPow(2, b - Precision(b))
  {
  }

  // An integer number of units is not closer than the rounded one.
  lemma {:induction false} UnitsNearest(x: real, b: int, q: int, n: int)
    requires q == RoundReal(NearestEven, Scaled(x, b))
    ensures RAbs(InUnits(q, b) - x) <= RAbs(InUnits(n, b) - x)
  {
    hide RPow, RoundReal, RAbs, Scaled, InUnits;
    InUnitsIs(q, b);
    InUnitsIs(n, b);
    var s, w, t := RPow(2, Precision(b) - b), RPow(2, b - Precision(b)), Scaled(x, b);
    RPowInverse(2, Precision(b) - b);
    assert -(Precision(b) - b) == b - Precision(b);
    ScaledIs(x, b);
    IntegerNearest(t, n);
    var y, z := InUnits(q, b), InUnits(n, b);
    UnitsDistance(x, q as real, s, w, t, y);
    UnitsDistance(x, n as real, s, w, t, z);
    var c, d := RAbs(q as real - t), RAbs(n as real - t);
    RMulMono(c, d, w);
    assert RAbs(y - x) == c * w && RAbs(z - x) == d * w;
  }

  // The number x rounds to is at least as close to x as any double.
  lemma {:induction false} RoundsToClosest(x: real, m: nat, e: int, m': nat, e': int)
    requires RoundsTo(x, m, e) && IsDouble(m', e')
    ensures RAbs(ValueOf(m, e) - x) <= RAbs(ValueOf(m', e') - x)
  {
    hide RPow, Pow, RoundReal, Normalize, RAbs, ValueOf, Scaled, Precision, InUnits;
    var b: int :| InBinade(x, b) && RoundReal(NearestEven, Scaled(x, b)) >= 0
                  && (m, e) == Normalize(RoundReal(NearestEven, Scaled(x, b)), b);
    var q := RoundReal(NearestEven, Scaled(x, b));
    RoundedValue(x, m, e, b, q);
    if b <= e' {
      CoarserScale(b, e');
      var n := MultipleOf(m', e', b - Precision(b));
      InUnitsIs(n, b);
      UnitsNearest(x, b, q, n);
    } else {
      BelowBinade(x, b, q, m', e');
    }
  }

  lemma {:induction false} BelowBinade(x: real, b: int, q: nat, m': nat, e': int)
    requires InBinade(x, b) && q == RoundReal(NearestEven, Scaled(x, b)) && IsDouble(m', e') && e' < b
    ensures RAbs(InUnits(q, b) - x) <= RAbs(ValueOf(m', e') - x)
  {
    hide RPow, Pow, RoundReal, ValueOf, Scaled, InUnits;
    InUnitsIs(Pow(2, Precision(b) - 1), b);
    var p := Precision(b);
    ValueBounds(m', e');
    if e' < b - 1 {
      RPowStrict(2, e', b - 1);
    }
    UnitsNearest(x, b, q, Pow(2, p - 1));
    RPowNat(2, p - 1);
    RPowAdd(2, p - 1, b - p);
    assert p - 1 + (b - p) == b - 1;
    var y, z, v, w := ValueOf(m', e'), InUnits(Pow(2, p - 1), b), RPow(2, b - 1), RPow(2, e');
    assert z == v;
    assert y < w <= v <= x;
    var u := InUnits(q, b);
    assert RAbs(u - x) <= RAbs(v - x);
  }
}
