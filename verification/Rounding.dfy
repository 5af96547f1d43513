// Rounding of quotients: the three modes of dtoa.c, and what the "sticky bit" preserves.
module Rounding {
  import opened Powers

  // JS_RNDN: to nearest, ties to even; JS_RNDNA: to nearest, ties away from zero; JS_RNDZ.
  datatype Mode = NearestEven | NearestAway | TowardZero

  // n / d rounded to an integer.
  function RoundDiv(mode: Mode, n: nat, d: nat): (q: nat)
    requires d > 0
  {
    n / d + if RoundsUp(mode, n, d) then 1 else 0
  }

  predicate RoundsUp(mode: Mode, n: nat, d: nat)
    requires d > 0
  {
    match mode
    case TowardZero => false
    case NearestAway => 2 * (n % d) >= d
    case NearestEven => 2 * (n % d) > d || (2 * (n % d) == d && (n / d) % 2 == 1)
  }

  // What is nearest: no integer is closer, and of two that are equally close the even one
  // (or the larger one) is taken.
  lemma {:induction false} RoundDivIsNearest(n: nat, d: nat, k: int)
    requires d > 0
    ensures forall mode :: mode != TowardZero ==> Distance(RoundDiv(mode, n, d) * d, n) <= Distance(k * d, n)
    ensures Distance(k * d, n) == Distance(RoundDiv(NearestEven, n, d) * d, n) && k != RoundDiv(NearestEven, n, d) ==>
              RoundDiv(NearestEven, n, d) % 2 == 0
    ensures Distance(k * d, n) == Distance(RoundDiv(NearestAway, n, d) * d, n) ==> k <= RoundDiv(NearestAway, n, d)
  {
    var q, r := n / d, n % d;
    assert n == q * d + r;
    assert (q + 1) * d == q * d + d;
    if k < q {
      Multiples(k, q, d);
    } else if k > q + 1 {
      Multiples(q + 1, k, d);
    }
  }

  lemma {:induction false} Multiples(j: int, k: int, d: nat)
    requires j < k && d > 0
    ensures j * d + d <= k * d
  {
    MulMono(j + 1, k, d);
    assert (j + 1) * d == j * d + d;
  }

  function Distance(x: int, y: int): (z: nat) {
    if x >= y then x - y else y - x
  }

  // ---------------------------------------------------------------------------
  // The sticky bit

  // Floor division with the remainder ORed into the lowest bit.
  function Sticky(n: nat, d: nat): (q: nat)
    requires d > 0
  {
    if n % d != 0 && n / d % 2 == 0 then n / d + 1 else n / d
  }

  // As long as at least two bits are dropped afterwards, the sticky bit stands for the whole
  // remainder: rounding loses nothing.
  lemma {:induction false} StickyRounds(mode: Mode, n: nat, d: nat, p: nat)
    requires d > 0 && p >= 4 && p % 4 == 0
    ensures d * p > 0 && RoundDiv(mode, Sticky(n, d), p) == RoundDiv(mode, n, d * p)
  {
    hide RoundDiv, Sticky;
    var q, r, h, low, low' := StickyDigits(n, d, p);
    MulPositive(d, p);
    StickyRoundsWith(mode, n, d, p, q, r, h, low, low', Sticky(n, d));
  }

  lemma {:induction false} DivMod(x: nat, d: nat) returns (q: nat, r: nat)
    requires d > 0
    ensures q == x / d && r == x % d && x == q * d + r && r < d
  {
    q, r := x / d, x % d;
  }

  lemma {:induction false} StickyDigits(n: nat, d: nat, p: nat) returns (q: nat, r: nat, h: nat, low: nat, low': nat)
    requires d > 0 && p >= 4 && p % 4 == 0
    ensures n == q * d + r && r < d && q == h * p + low && low < p && Sticky(n, d) == h * p + low' && low' < p
    ensures low' == if r != 0 && low % 2 == 0 then low + 1 else low
  {
    hide Sticky;
    q, r := DivMod(n, d);
    StickyOf(n, d, q, r);
    h, low := DivMod(q, p);
    low' := if r != 0 && low % 2 == 0 then low + 1 else low;
    SameParity(q, h, p, low);
  }

  lemma {:induction false} StickyOf(n: nat, d: nat, q: nat, r: nat)
    requires d > 0 && q == n / d && r == n % d
    ensures Sticky(n, d) == if r != 0 && q % 2 == 0 then q + 1 else q
  {
  }

  lemma {:induction false} StickyRoundsWith(mode: Mode, n: nat, d: nat, p: nat, q: nat, r: nat, h: nat, low: nat, low': nat, s: nat)
    requires d > 0 && p >= 4 && p % 4 == 0 && d * p > 0
    requires n == q * d + r && r < d && q == h * p + low && low < p && s == h * p + low' && low' < p
    requires low' == if r != 0 && low % 2 == 0 then low + 1 else low
    ensures RoundDiv(mode, s, p) == RoundDiv(mode, n, d * p)
  {
    hide RoundDiv;
    StickyParts(n, d, p, q, r, h, low);
    UniqueQuotient(n, d * p, h, low * d + r);
    UniqueQuotient(s, p, h, low');
    // low' compares with p / 2 as low * d + r does with d * p / 2
    StickyCompare(low, low', d, r, p);
    SameRounding(mode, s, p, n, d * p, h, low', low * d + r);
  }

  lemma {:induction false} SameRounding(mode: Mode, x: nat, p: nat, y: nat, w: nat, h: nat, j: nat, k: nat)
    requires p > 0 && w > 0 && x / p == h && x % p == j && y / w == h && y % w == k
    requires (2 * j > p <==> 2 * k > w) && (2 * j == p <==> 2 * k == w)
    ensures RoundDiv(mode, x, p) == RoundDiv(mode, y, w)
  {
  }

  lemma {:induction false} SameParity(q: nat, h: nat, p: nat, low: nat)
    requires p % 4 == 0 && q == h * p + low && low < p
    ensures q % 2 == low % 2
    ensures low % 2 == 0 ==> low + 1 < p
  {
    var t := p / 2;
    assert p == 2 * t;
    EvenSum(q, h, t, low);
  }

  lemma {:induction false} EvenSum(q: nat, h: nat, t: nat, low: nat)
    requires q == h * (2 * t) + low
    ensures q % 2 == low % 2
  {
    MulAssoc(h, 2, t);
    assert q == 2 * (h * t) + low;
  }

  lemma {:induction false} StickyParts(n: nat, d: nat, p: nat, q: nat, r: nat, h: nat, low: nat)
    requires n == q * d + r && q == h * p + low && r < d && low < p
    ensures n == h * (d * p) + (low * d + r) && 0 <= low * d + r < d * p
  {
    assert (h * p + low) * d == (h * p) * d + low * d;
    MulAssoc(h, p, d);
    assert h * (p * d) == h * (d * p);
    MulMono(low + 1, p, d);
    assert (low + 1) * d == low * d + d;
    MulMono(0, low, d);
  }

  lemma {:induction false} StickyCompare(low: nat, low': nat, d: nat, r: nat, p: nat)
    requires d > 0 && r < d && p % 4 == 0 && low < p
    requires low' == if r != 0 && low % 2 == 0 then low + 1 else low
    ensures 2 * low' > p <==> 2 * (low * d + r) > d * p
    ensures 2 * low' == p <==> 2 * (low * d + r) == d * p
  {
    var h := p / 2;
    assert p == 2 * h && h % 2 == 0;
    assert d * p == 2 * (h * d) by {
      MulAssoc(d, 2, h);
    }
    if low < h {
      MulMono(low + 1, h, d);
      assert (low + 1) * d == low * d + d;
    } else if low > h {
      MulMono(h + 1, low, d);
      assert (h + 1) * d == h * d + d;
    }
  }

  // Quotient and remainder are determined.
  lemma {:induction false} UniqueQuotient(x: int, b: int, q: int, r: int)
    requires b > 0 && x == q * b + r && 0 <= r < b
    ensures x / b == q && x % b == r
  {
    var d := x / b - q;
    assert d * b == (x / b) * b - q * b;
    if d >= 1 {
      MulMono(1, d, b);
    } else if d <= -1 {
      MulMono(d, -1, b);
    }
  }

  // Dividing in several steps: the quotients compose, and a remainder is left in the end
  // exactly if one was left in some step.
  lemma {:induction false} DivisionsCompose(n: nat, a: nat, b: nat)
    requires a > 0 && b > 0
    ensures a * b > 0 && n / (a * b) == n / a / b
    ensures n % (a * b) != 0 <==> n % a != 0 || n / a % b != 0
  {
    MulPositive(a, b);
    var q, r := n / a, n % a;
    var q', r' := q / b, q % b;
    assert n == q * a + r && q == q' * b + r';
    StickyParts(n, a, b, q, r, q', r');
    UniqueQuotient(n, a * b, q', r' * a + r);
    if r' != 0 {
      MulMono(1, r', a);
    }
  }
}
