// Integer powers, and powers with integer exponents over the reals.
module Powers {

  function Pow(b: nat, n: nat): (p: nat) {
    if n == 0 then 1 else b * Pow(b, n - 1)
  }

  lemma {:induction false} PowPositive(b: nat, n: nat)
    requires b > 0
    ensures Pow(b, n) > 0
  {
    if n > 0 {
      PowPositive(b, n - 1);
      MulPositive(b, Pow(b, n - 1));
    }
  }

  lemma {:induction false} MulPositive(x: nat, y: nat)
    requires x > 0 && y > 0
    ensures x * y > 0
  {
  }

  lemma {:induction false} MulAssoc(x: int, y: int, z: int)
    ensures x * (y * z) == (x * y) * z
  {
  }

  lemma {:induction false} PowAdd(b: nat, j: nat, k: nat)
    ensures Pow(b, j + k) == Pow(b, j) * Pow(b, k)
  {
    if j > 0 {
      PowAdd(b, j - 1, k);
      MulAssoc(b, Pow(b, j - 1), Pow(b, k));
    }
  }

  lemma {:induction false} PowStep(b: nat, n: nat)
    ensures Pow(b, n + 1) == b * Pow(b, n)
  {
  }

  lemma {:induction false} MulMono(x: int, y: int, z: int)
    requires x <= y && 0 <= z
    ensures x * z <= y * z && z * x <= z * y
  {
  }

  lemma {:induction false} MulStrict(x: int, y: int, z: int)
    requires x < y && 0 < z
    ensures x * z < y * z && z * x < z * y
  {
  }

  lemma {:induction false} PowMono(b: nat, j: nat, k: nat)
    requires b > 0 && j <= k
    ensures Pow(b, j) <= Pow(b, k)
  {
    PowAdd(b, j, k - j);
    PowPositive(b, k - j);
    MulMono(1, Pow(b, k - j), Pow(b, j));
  }

  lemma {:induction false} PowStrict(b: nat, j: nat, k: nat)
    requires b > 1 && j < k
    ensures Pow(b, j) < Pow(b, k)
  {
    PowMono(b, j, k - 1);
    PowPositive(b, k - 1);
    PowStep(b, k - 1);
    MulStrict(1, b, Pow(b, k - 1));
  }

  lemma {:induction false} PowBase(a: nat, b: nat, n: nat)
    ensures Pow(a * b, n) == Pow(a, n) * Pow(b, n)
  {
    if n > 0 {
      PowBase(a, b, n - 1);
      var x, y := Pow(a, n - 1), Pow(b, n - 1);
      Swap4(a, b, x, y);
    }
  }

  lemma {:induction false} Swap4(a: int, b: int, x: int, y: int)
    ensures (a * b) * (x * y) == (a * x) * (b * y)
  {
    MulAssoc(a * b, x, y);
    MulAssoc(a, b, x);
    MulAssoc(a, x, b);
    MulAssoc(a * x, b, y);
  }

  lemma {:induction false} PowMul(b: nat, j: nat, k: nat)
    ensures Pow(b, j * k) == Pow(Pow(b, j), k)
    decreases k
  {
    if k > 0 {
      PowMul(b, j, k - 1);
      assert j * k == j + j * (k - 1);
      PowAdd(b, j, j * (k - 1));
    }
  }

  lemma {:induction false} PowBaseStrict(a: nat, b: nat, n: nat)
    requires 0 < a < b && n > 0
    ensures Pow(a, n) < Pow(b, n)
  {
    PowBaseMono(a, b, n - 1);
    PowPositive(b, n - 1);
    MulMono(Pow(a, n - 1), Pow(b, n - 1), a);
    MulStrict(a, b, Pow(b, n - 1));
  }

  lemma {:induction false} PowBaseMono(a: nat, b: nat, n: nat)
    requires 0 < a <= b
    ensures Pow(a, n) <= Pow(b, n)
  {
    if n > 0 {
      PowBaseMono(a, b, n - 1);
      MulMono(Pow(a, n - 1), Pow(b, n - 1), a);
      MulMono(a, b, Pow(b, n - 1));
    }
  }

  // b to an integer exponent, as a real number.
  function RPow(b: nat, k: int): (p: real)
    requires b > 0
    ensures p > 0.0
    decreases if k >= 0 then k else -k
  {
    if k == 0 then 1.0
    else if k > 0 then (b as real) * RPow(b, k - 1)
    else RPow(b, k + 1) / (b as real)
  }

  lemma {:induction false} RPowStep(b: nat, k: int)
    requires b > 0
    ensures RPow(b, k + 1) == (b as real) * RPow(b, k)
  {
    if k < 0 {
      RCancel(RPow(b, k + 1), b as real);
    }
  }

  lemma {:induction false} RCancel(x: real, y: real)
    requires y > 0.0
    ensures y * (x / y) == x
  {
  }

  lemma {:induction false} RMulAssoc(x: real, y: real, z: real)
    ensures x * (y * z) == (x * y) * z
  {
  }

  lemma {:induction false} RPowZero(b: nat)
    requires b > 0
    ensures RPow(b, 0) == 1.0
  {
  }

  lemma {:induction false} RPowAdd(b: nat, j: int, k: int)
    requires b > 0
    ensures RPow(b, j + k) == RPow(b, j) * RPow(b, k)
    decreases if j >= 0 then j else -j
  {
    hide RPow;
    var y, z, w := RPow(b, k), RPow(b, j), RPow(b, j + k);
    if j == 0 {
      RPowZero(b);
      assert w == y && z == 1.0;
      assert w == z * y;
    } else if j > 0 {
      RPowAdd(b, j - 1, k);
      RPowStep(b, j - 1);
      RPowStep(b, j - 1 + k);
      var x := RPow(b, j - 1);
      RMulAssoc(b as real, x, y);
      assert w == z * y;
    } else {
      RPowAdd(b, j + 1, k);
      RPowStep(b, j);
      RPowStep(b, j + k);
      assert (b as real) * w == ((b as real) * z) * y;
      RMulAssoc(b as real, z, y);
      RMulInjective(b as real, w, z * y);
    }
  }

  lemma {:induction false} RMulInjective(x: real, y: real, z: real)
    requires x > 0.0 && x * y == x * z
    ensures y == z
  {
    if y < z {
      RMulStrict(y, z, x);
    } else if z < y {
      RMulStrict(z, y, x);
    }
  }

  lemma {:induction false} RPowNat(b: nat, n: nat)
    requires b > 0
    ensures RPow(b, n) == Pow(b, n) as real
  {
    if n > 0 {
      RPowNat(b, n - 1);
      RealProduct(b, Pow(b, n - 1));
    }
  }

  lemma {:induction false} RealProduct(x: int, y: int)
    ensures (x * y) as real == (x as real) * (y as real)
  {
  }

  lemma {:induction false} RPowInverse(b: nat, k: int)
    requires b > 0
    ensures RPow(b, k) * RPow(b, -k) == 1.0
  {
    hide RPow;
    RPowAdd(b, k, -k);
    RPowZero(b);
  }

  lemma {:induction false} RMulStrict(x: real, y: real, z: real)
    requires x < y && z > 0.0
    ensures x * z < y * z && z * x < z * y
  {
  }

  lemma {:induction false} RMulMono(x: real, y: real, z: real)
    requires x <= y && z >= 0.0
    ensures x * z <= y * z && z * x <= z * y
  {
  }

  lemma {:induction false} RPowStrict(b: nat, j: int, k: int)
    requires b > 1 && j < k
    ensures RPow(b, j) < RPow(b, k)
    decreases k - j
  {
    hide RPow;
    RPowStep(b, k - 1);
    RMulStrict(1.0, b as real, RPow(b, k - 1));
    var x, y, z := RPow(b, k - 1), RPow(b, k), RPow(b, j);
    assert x < y;
    if j < k - 1 {
      RPowStrict(b, j, k - 1);
      assert z < x;
    }
  }

  lemma {:induction false} RPowBase(a: nat, b: nat, k: int)
    requires a > 0 && b > 0
    ensures a * b > 0 && RPow(a * b, k) == RPow(a, k) * RPow(b, k)
    decreases if k >= 0 then k else -k
  {
    hide RPow;
    MulPositive(a, b);
    var x, y, z := RPow(a, k), RPow(b, k), RPow(a * b, k);
    RPowZero(a);
    RPowZero(b);
    RPowZero(a * b);
    RealProduct(a, b);
    var p, q := a as real, b as real;
    if k > 0 {
      RPowBase(a, b, k - 1);
      RPowStep(a, k - 1);
      RPowStep(b, k - 1);
      RPowStep(a * b, k - 1);
      var x', y' := RPow(a, k - 1), RPow(b, k - 1);
      RSwap4(p, q, x', y');
      assert z == x * y;
    } else if k < 0 {
      RPowBase(a, b, k + 1);
      RPowStep(a, k);
      RPowStep(b, k);
      RPowStep(a * b, k);
      RSwap4(p, q, x, y);
      assert (p * q) * z == (p * q) * (x * y);
      RMulInjective(p * q, z, x * y);
    }
  }

  lemma {:induction false} RSwap4(a: real, b: real, x: real, y: real)
    ensures (a * b) * (x * y) == (a * x) * (b * y)
  {
    RMulAssoc(a * b, x, y);
    RMulAssoc(a, b, x);
    RMulAssoc(a, x, b);
    RMulAssoc(a * x, b, y);
  }

  lemma {:induction false} RPowMul(b: nat, j: nat, k: int)
    requires b > 0
    ensures Pow(b, j) > 0 && RPow(Pow(b, j), k) == RPow(b, j * k)
    decreases if k >= 0 then k else -k
  {
    hide RPow, Pow;
    PowPositive(b, j);
    var p := Pow(b, j);
    var x, y := RPow(p, k), RPow(b, j * k);
    RPowZero(b);
    RPowZero(p);
    RPowNat(b, j);
    if k == 0 {
      assert j * k == 0;
    } else if k > 0 {
      RPowMul(b, j, k - 1);
      RPowStep(p, k - 1);
      assert j * k == j + j * (k - 1);
      RPowAdd(b, j, j * (k - 1));
      assert x == y;
    } else {
      RPowMul(b, j, k + 1);
      RPowStep(p, k);
      assert j * (k + 1) == j + j * k;
      RPowAdd(b, j, j * k);
      assert (p as real) * x == (p as real) * y;
      RMulInjective(p as real, x, y);
    }
  }

  // Dividing by a power is multiplying by its inverse.
  lemma {:induction false} RPowDivide(b: nat, k: int, x: real)
    requires b > 0 && k >= 0
    ensures Pow(b, k) > 0 && x / (Pow(b, k) as real) == x * RPow(b, -k)
  {
    hide RPow, Pow;
    PowPositive(b, k);
    RPowNat(b, k);
    RPowInverse(b, k);
    var p, q := RPow(b, k), RPow(b, -k);
    assert p * q == 1.0;
    RDivideIs(x, p, q);
  }

  lemma {:induction false} RDivideIs(x: real, p: real, q: real)
    requires p > 0.0 && p * q == 1.0
    ensures x / p == x * q
  {
    RMulAssoc(p, q, x);
    RCancel(x, p);
    assert p * (x * q) == x by {
      assert x * q == q * x;
    }
    RMulInjective(p, x / p, x * q);
  }

  lemma {:induction false} RScaledBetween(a: real, x: real, b: real, s: real, lo: real, v: real, hi: real)
    requires a <= x < b && s > 0.0 && lo == a * s && v == x * s && hi == b * s
    ensures lo <= v < hi
  {
    RMulMono(a, x, s);
    RMulStrict(x, b, s);
  }
}
