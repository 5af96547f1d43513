// mul_log2_radix of dtoa.c: floor(a / log2(radix)), for the powers of two exactly and for
// radix 10 by a multiplication with a 24-bit approximation.
module RadixLog {
  import opened Powers
  import opened Rounding
  import opened Scaling

  // mul_log2_radix_table[10 - 2], and its scale
  const MULT10 := 0x4d104d
  const MULT_SCALE := 0x100_0000

  // The range the C code states.
  const LOG_MIN := -2048
  const LOG_MAX := 2047

  // Largest k with radix^k <= 2^a.
  predicate IsFloorLog(a: int, radix: nat, k: int)
    requires radix > 0
  {
    RPow(radix, k) <= RPow(2, a) < RPow(radix, k + 1)
  }

  // Division that truncates, as C's does.
  function Truncated(a: int, b: nat): (q: int)
    requires b > 0
  {
    if a >= 0 then a / b else -((-a) / b)
  }

  method MulLog2Radix(a: int, radix: nat, radixBits: nat) returns (k: int)
    requires LOG_MIN <= a <= LOG_MAX && (radix == 10 ==> radixBits == 0)
    requires radix == 10 || (radixBits > 0 && radix == Pow(2, radixBits))
    ensures radix > 0 && IsFloorLog(a, radix, k)
    ensures radix == 10 ==> k * MULT_SCALE <= a * MULT10 < (k + 1) * MULT_SCALE
  {
    hide Pow, RPow, IsFloorLog;
    if radix != 10 {
      var a' := a;
      if a < 0 {
        a' := a - (radixBits - 1);
      }
      k := Truncated(a', radixBits);
      TruncatedIsFloor(a, radixBits);
      PowerOfTwoLog(a, radixBits, k);
    } else {
      // an arithmetic shift right
      k := a * MULT10 / MULT_SCALE;
      Log10(a, k);
    }
  }

  lemma {:induction false} TruncatedIsFloor(a: int, b: nat)
    requires b > 0
    ensures var k := Truncated(if a < 0 then a - (b - 1) else a, b); k * b <= a < (k + 1) * b
  {
    if a >= 0 {
      var q, r := DivMod(a, b);
      assert (q + 1) * b == q * b + b;
    } else {
      var q, r := DivMod(-a + b - 1, b);
      assert (-q) * b == -(q * b);
      assert (-q + 1) * b == (-q) * b + b;
    }
  }

  lemma {:induction false} PowerOfTwoLog(a: int, b: nat, k: int)
    requires b > 0 && k * b <= a < (k + 1) * b
    ensures Pow(2, b) > 0 && IsFloorLog(a, Pow(2, b), k)
  {
    hide Pow, RPow;
    RPowMul(2, b, k);
    RPowMul(2, b, k + 1);
    if b * k < a {
      RPowStrict(2, b * k, a);
    }
    RPowStrict(2, a, b * (k + 1));
    var x, y, z := RPow(Pow(2, b), k), RPow(2, a), RPow(Pow(2, b), k + 1);
    assert x <= y < z;
  }

  // ---------------------------------------------------------------------------
  // Bounds of powers of 10 by powers of 2, with short mantissas

  predicate AtMost(k: nat, x: nat, s: nat) {
    Pow(10, k) <= x * Pow(2, s)
  }

  predicate AtLeast(k: nat, x: nat, s: nat) {
    x * Pow(2, s) <= Pow(10, k)
  }

  lemma {:induction false} ProductAtMost(j: nat, x: nat, s: nat, k: nat, y: nat, t: nat, z: nat, u: nat)
    requires AtMost(j, x, s) && AtMost(k, y, t) && u <= 32 && x * y <= z * POW2[u]
    ensures AtMost(j + k, z, s + t + u)
  {
    hide Pow;
    Pow2Table(u);
    PowAdd(10, j, k);
    PowAdd(2, s, t);
    PowAdd(2, s + t, u);
    PowPositive(10, k);
    PowPositive(2, s + t);
    MulMono(Pow(10, j), x * Pow(2, s), Pow(10, k));
    MulMono(Pow(10, k), y * Pow(2, t), x * Pow(2, s));
    Swap4(x, Pow(2, s), y, Pow(2, t));
    assert (x * y) * (Pow(2, s) * Pow(2, t)) == (x * Pow(2, s)) * (y * Pow(2, t)) by {
      Swap4(x, y, Pow(2, s), Pow(2, t));
    }
    MulMono(x * y, z * Pow(2, u), Pow(2, s + t));
    MulAssoc(z, Pow(2, u), Pow(2, s + t));
    assert Pow(2, u) * Pow(2, s + t) == Pow(2, s + t) * Pow(2, u);
  }

  lemma {:induction false} ProductAtLeast(j: nat, x: nat, s: nat, k: nat, y: nat, t: nat, z: nat, u: nat)
    requires AtLeast(j, x, s) && AtLeast(k, y, t) && u <= 32 && z * POW2[u] <= x * y
    ensures AtLeast(j + k, z, s + t + u)
  {
    hide Pow;
    Pow2Table(u);
    PowAdd(10, j, k);
    PowAdd(2, s, t);
    PowAdd(2, s + t, u);
    PowPositive(2, t);
    PowPositive(2, s + t);
    MulMono(0, y, Pow(2, t));
    MulMono(x * Pow(2, s), Pow(10, j), y * Pow(2, t));
    MulMono(y * Pow(2, t), Pow(10, k), Pow(10, j));
    assert (x * y) * (Pow(2, s) * Pow(2, t)) == (x * Pow(2, s)) * (y * Pow(2, t)) by {
      Swap4(x, y, Pow(2, s), Pow(2, t));
    }
    MulMono(z * Pow(2, u), x * y, Pow(2, s + t));
    MulAssoc(z, Pow(2, u), Pow(2, s + t));
    assert Pow(2, u) * Pow(2, s + t) == Pow(2, s + t) * Pow(2, u);
  }

  lemma {:induction false} SmallPowers()
    ensures Pow(10, 2) == 100 && Pow(10, 3) == 1000 && Pow(10, 16) == 10_000_000_000_000_000 && Pow(2, 23) == 0x80_0000
  {
    hide Pow;
    PowOne(10);
    PowStep(10, 1);
    PowStep(10, 2);
    PowAdd(10, 2, 2);
    PowAdd(10, 4, 4);
    PowAdd(10, 8, 8);
    Pow2Table(23);
  }

  // 10^643 < 2^2136
  lemma {:induction false} Below643()
    ensures Pow(10, 643) < Pow(2, 2136)
  {
    hide Pow;
    SmallPowers();
    PowOne(2);
    assert AtMost(16, 1192092896, 23) && AtMost(3, 1000, 0);
    hide AtMost;
    ProductAtMost(16, 1192092896, 23, 16, 1192092896, 23, 1323488982, 30);
    ProductAtMost(32, 1323488982, 76, 32, 1323488982, 76, 1631326122, 30);
    ProductAtMost(64, 1631326122, 182, 16, 1192092896, 23, 1811135823, 30);
    ProductAtMost(80, 1811135823, 235, 80, 1811135823, 235, 1527468194, 31);
    ProductAtMost(160, 1527468194, 501, 160, 1527468194, 501, 1086461863, 31);
    ProductAtMost(320, 1086461863, 1033, 320, 1086461863, 1033, 1099332590, 30);
    ProductAtMost(640, 1099332590, 2096, 3, 1000, 0, 2147133965, 9);
    StrictlyBelow(643, 2147133965, 2105);
  }

  lemma {:induction false} StrictlyBelow(k: nat, x: nat, s: nat)
    requires AtMost(k, x, s) && x < 0x8000_0000
    ensures Pow(10, k) < Pow(2, s + 31)
  {
    hide Pow;
    Pow2Table(31);
    PowAdd(2, s, 31);
    PowPositive(2, s);
    MulStrict(x, 0x8000_0000, Pow(2, s));
  }

  // 2^485 < 10^146
  lemma {:induction false} Above146()
    ensures Pow(2, 485) < Pow(10, 146)
  {
    hide Pow;
    SmallPowers();
    PowOne(2);
    assert AtLeast(16, 1192092895, 23) && AtLeast(2, 100, 0);
    hide AtLeast;
    ProductAtLeast(16, 1192092895, 23, 16, 1192092895, 23, 1323488978, 30);
    ProductAtLeast(32, 1323488978, 76, 32, 1323488978, 76, 1631326111, 30);
    ProductAtLeast(64, 1631326111, 182, 64, 1631326111, 182, 1239229403, 31);
    ProductAtLeast(128, 1239229403, 395, 16, 1192092895, 23, 1375821015, 30);
    ProductAtLeast(144, 1375821015, 448, 2, 100, 0, 1074860167, 7);
    StrictlyAbove(146, 1074860167, 455);
  }

  lemma {:induction false} StrictlyAbove(k: nat, x: nat, s: nat)
    requires AtLeast(k, x, s) && x > 0x4000_0000
    ensures Pow(2, s + 30) < Pow(10, k)
  {
    hide Pow;
    Pow2Table(30);
    PowAdd(2, s, 30);
    PowPositive(2, s);
    MulStrict(0x4000_0000, x, Pow(2, s));
  }

  // ---------------------------------------------------------------------------
  // The fractions 643/2136 and 146/485 enclose both the logarithm and its approximation,
  // and no fraction with a smaller denominator lies between them.

  lemma {:induction false} FareyBelow(j: int, c: int)
    requires 0 < c <= 2048 && j * MULT_SCALE <= c * MULT10
    ensures 2136 * j <= 643 * c
  {
  }

  lemma {:induction false} FareyAbove(j: int, c: int)
    requires 0 < c <= 2048 && j * MULT_SCALE >= c * MULT10
    ensures 485 * j >= 146 * c
  {
  }

  // 10^j < 2^c, from 2136 j <= 643 c
  lemma {:induction false} BelowLog(j: nat, c: nat)
    requires c > 0 && 2136 * j <= 643 * c
    ensures Pow(10, j) < Pow(2, c)
  {
    hide Pow;
    Below643();
    PowPositive(10, 643);
    PowBaseStrict(Pow(10, 643), Pow(2, 2136), c);
    PowMul(10, 643, c);
    PowMul(2, 2136, c);
    PowMul(10, j, 2136);
    PowMul(2, c, 2136);
    PowMono(10, 2136 * j, 643 * c);
    assert j * 2136 == 2136 * j && c * 2136 == 2136 * c;
    var x, y := Pow(10, j), Pow(2, c);
    PowPositive(2, c);
    if y <= x {
      PowBaseMono(y, x, 2136);
    }
  }

  // 2^c < 10^j, from 485 j >= 146 c
  lemma {:induction false} AboveLog(j: nat, c: nat)
    requires c > 0 && 485 * j >= 146 * c
    ensures Pow(2, c) < Pow(10, j)
  {
    hide Pow;
    Above146();
    PowPositive(2, 485);
    PowBaseStrict(Pow(2, 485), Pow(10, 146), c);
    PowMul(10, 146, c);
    PowMul(2, 485, c);
    PowMul(10, j, 485);
    PowMul(2, c, 485);
    PowMono(10, 146 * c, 485 * j);
    assert j * 485 == 485 * j && c * 485 == 485 * c;
    var x, y := Pow(10, j), Pow(2, c);
    PowPositive(10, j);
    if x <= y {
      PowBaseMono(x, y, 485);
    }
  }

  // For every a of the stated range the product with the approximation has the right floor.
  lemma {:induction false} Log10(a: int, k: int)
    requires LOG_MIN <= a <= LOG_MAX && k == a * MULT10 / MULT_SCALE
    ensures IsFloorLog(a, 10, k)
  {
    hide Pow, RPow;
    assert k * MULT_SCALE <= a * MULT10 < (k + 1) * MULT_SCALE;
    if a > 0 {
      FareyBelow(k, a);
      FareyAbove(k + 1, a);
      BelowLog(k, a);
      AboveLog(k + 1, a);
      RPowNat(10, k);
      RPowNat(10, k + 1);
      RPowNat(2, a);
    } else if a == 0 {
      RPowZero(2);
      RPowZero(10);
      RPowStep(10, 0);
    } else {
      FareyAbove(-k, -a);
      FareyBelow(-(k + 1), -a);
      AboveLog(-k, -a);
      BelowLog(-(k + 1), -a);
      RPowNat(10, -k);
      RPowNat(10, -(k + 1));
      RPowNat(2, -a);
      Inverted(2, a, 10, k);
      Inverted(10, k + 1, 2, a);
    }
  }

  // b^-j < a^-i gives a^i < b^j
  lemma {:induction false} Inverted(b: nat, j: int, a: nat, i: int)
    requires a > 0 && b > 0 && RPow(b, -j) < RPow(a, -i)
    ensures RPow(a, i) < RPow(b, j)
  {
    hide RPow;
    RPowInverse(b, j);
    RPowInverse(a, i);
    var x, y, u, v := RPow(b, j), RPow(b, -j), RPow(a, i), RPow(a, -i);
    // x * y == 1 == u * v and y < v
    if x <= u {
      RMulMono(x, u, y);
      RMulStrict(y, v, u);
    }
    assert u < x;
  }
}
