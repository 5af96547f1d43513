// mpb_t of dtoa.c: a number in a fixed array of limbs, changed in place.
module Bignum {
  import opened Powers
  import opened Limbs
  import opened Rounding

  lemma {:induction false} ScaleIsPow(l: nat)
    ensures Scale(l) == Pow(2, LIMB_BITS * l) && Scale(l) > 0
  {
    PowLimb();
    PowMul(2, LIMB_BITS, l);
    PowPositive(2, LIMB_BITS * l);
  }

  // 2 to a bit position, by limb and bit.
  lemma {:induction false} PowPosition(k: nat, l: nat, b: nat)
    requires k == LIMB_BITS * l + b
    ensures Pow(2, k) == Scale(l) * Pow(2, b)
  {
    ScaleIsPow(l);
    PowAdd(2, LIMB_BITS * l, b);
  }

  lemma {:induction false} SplitAtLimb(s: seq<Limb>, l: nat)
    requires l <= |s|
    ensures Value(s) == Value(s[l..]) * Scale(l) + Value(s[..l]) && Value(s[..l]) < Scale(l)
    ensures Value(s) / Scale(l) == Value(s[l..]) && Value(s) % Scale(l) == Value(s[..l])
  {
    hide Value;
    assert s == s[..l] + s[l..];
    ValueConcat(s[..l], s[l..]);
    ValueBound(s[..l]);
    UniqueQuotient(Value(s), Scale(l), Value(s[l..]), Value(s[..l]));
  }

  lemma {:induction false} TopLimb(s: seq<Limb>)
    requires |s| > 0 && s[|s| - 1] != 0
    ensures Value(s) >= Scale(|s| - 1)
  {
    hide Value;
    var n := |s| - 1;
    assert s == s[..n] + [s[n]];
    ValueSnoc(s[..n], s[n]);
    ScaleIsPow(n);
    MulMono(1, s[n], Scale(n));
  }

  lemma {:induction false} TopZero(s: seq<Limb>)
    requires |s| > 0 && s[|s| - 1] == 0
    ensures Value(s) == Value(s[..|s| - 1])
  {
    var n := |s| - 1;
    assert s == s[..n] + [s[n]];
    ValueSnoc(s[..n], s[n]);
  }

  // The bit at position k, seen in its limb.
  lemma {:induction false} BitAt(s: seq<Limb>, k: nat, l: nat, b: nat)
    requires k == LIMB_BITS * l + b && b < LIMB_BITS && l < |s| && Pow(2, k) > 0 && Pow(2, b) > 0
    ensures Value(s) / Pow(2, k) % 2 == s[l] / Pow(2, b) % 2
    ensures Value(s) % Pow(2, k) == 0 <==> Value(s[..l]) == 0 && s[l] % Pow(2, b) == 0
  {
    hide Value, Pow, Scale;
    var p := Pow(2, b);
    PowPosition(k, l, b);
    ScaleIsPow(l);
    ShiftParts(b);
    SplitAtLimb(s, l);
    var lo, x, hi := Value(s[..l]), s[l], Value(s[l + 1..]);
    HeadAndTail(s, l);
    var xh, xl := DivMod(x, p);
    EvenParts(b);
    BitArith(Value(s), Scale(l), lo, x, hi, p, Pow(2, LIMB_BITS - b), xh, xl);
  }

  lemma {:induction false} HeadAndTail(s: seq<Limb>, l: nat)
    requires l < |s|
    ensures Value(s[l..]) == s[l] + BASE * Value(s[l + 1..])
  {
    assert s[l..][1..] == s[l + 1..];
  }

  lemma {:induction false} EvenParts(b: nat)
    requires b < LIMB_BITS
    ensures Pow(2, LIMB_BITS - b) % 2 == 0
  {
    PowStep(2, LIMB_BITS - b - 1);
  }

  lemma {:induction false} BitArith(v: nat, w: nat, lo: nat, x: nat, hi: nat, p: nat, q: nat, xh: nat, xl: nat)
    requires w > 0 && lo < w && v == (x + BASE * hi) * w + lo && p * q == BASE && p > 0 && q % 2 == 0
    requires x == xh * p + xl && xl < p
    ensures w * p > 0 && v / (w * p) % 2 == xh % 2
    ensures v % (w * p) == 0 <==> lo == 0 && xl == 0
  {
    MulPositive(w, p);
    var h := xh + q * hi;
    assert x + BASE * hi == h * p + xl by {
      assert (xh + q * hi) * p == xh * p + (q * hi) * p;
      MulAssoc(q, hi, p);
      MulAssoc(q, p, hi);
      assert q * (hi * p) == q * (p * hi);
    }
    StickyParts(v, w, p, x + BASE * hi, lo, h, xl);
    UniqueQuotient(v, w * p, h, xl * w + lo);
    EvenSum(h, hi, q / 2, xh);
    assert hi * (2 * (q / 2)) == q * hi;
    if xl != 0 {
      MulMono(1, xl, w);
    }
  }

  // Number of bits of a limb: 32 - clz32(v).
  function BitLength(v: nat): (n: nat) {
    if v == 0 then 0 else 1 + BitLength(v / 2)
  }

  lemma {:induction false} BitLengthBounds(v: nat)
    requires v > 0
    ensures BitLength(v) > 0 && Pow(2, BitLength(v) - 1) <= v < Pow(2, BitLength(v))
  {
    if v > 1 {
      BitLengthBounds(v / 2);
      PowStep(2, BitLength(v / 2));
      PowStep(2, BitLength(v / 2) - 1);
    } else {
      assert BitLength(0) == 0;
      PowStep(2, 0);
    }
  }

  class Mpb {
    const tab: array<Limb>
    var len: nat

    ghost predicate Valid()
      reads this
    {
      1 <= len <= tab.Length
    }

    ghost function Val(): (v: nat)
      requires Valid()
      reads this, tab
    {
      Value(tab[..len])
    }

    // The highest limb is not zero, unless it is the only one.
    ghost predicate Normal()
      requires Valid()
      reads this, tab
    {
      len == 1 || Val() >= Scale(len - 1)
    }

    constructor (size: nat)
      requires size > 0
      ensures Valid() && fresh(tab) && tab.Length == size && Val() == 0 && Normal() && len == 1
    {
      tab := new Limb[size](_ => 0);
      len := 1;
      new;
      assert tab[..1] == [0];
      ValueOne(0);
    }

    // mpb_renorm
    method Renorm()
      requires Valid()
      modifies `len
      ensures Valid() && Normal() && Val() == old(Val()) && len <= old(len)
    {
      hide Value, Scale;
      while len > 1 && tab[len - 1] == 0
        invariant Valid() && Val() == old(Val()) && len <= old(len)
      {
        TopZero(tab[..len]);
        assert tab[..len][..len - 1] == tab[..len - 1];
        len := len - 1;
      }
      if len > 1 {
        TopLimb(tab[..len]);
      }
    }

    // mpb_get_bit
    method GetBit(k: nat) returns (bit: nat)
      requires Valid()
      ensures Pow(2, k) > 0 && bit == Val() / Pow(2, k) % 2
    {
      hide Value, Pow, Scale;
      var l, b := k / LIMB_BITS, k % LIMB_BITS;
      PowPositive(2, k);
      if l >= len {
        BelowPosition(tab[..len], k);
        SmallQuotient(Val(), Pow(2, k));
        return 0;
      }
      PowPositive(2, b);
      BitAt(tab[..len], k, l, b);
      return tab[l] / Pow(2, b) % 2;
    }

    // Whether some bit below position k is set: the limbs below, and the low part of the next.
    method AnyBitBelow(k: nat) returns (any: bool)
      requires Valid()
      ensures Pow(2, k) > 0 && any == (Val() % Pow(2, k) != 0)
    {
      hide Value, Pow, Scale;
      var l, b := k / LIMB_BITS, k % LIMB_BITS;
      PowPositive(2, k);
      PowPositive(2, b);
      any := false;
      var i := 0;
      var end := if l < len then l else len;
      EmptyValue(tab[..0]);
      while i < end
        invariant 0 <= i <= end && any == (Value(tab[..i]) != 0)
      {
        assert tab[..i + 1] == tab[..i] + [tab[i]];
        ValueSnoc(tab[..i], tab[i]);
        ScaleIsPow(i);
        if tab[i] != 0 {
          any := true;
          MulPositive(Scale(i), tab[i]);
        }
        i := i + 1;
      }
      if l < len {
        assert tab[..len][..l] == tab[..l];
        BitAt(tab[..len], k, l, b);
        any := any || tab[l] % Pow(2, b) != 0;
      } else {
        BelowPosition(tab[..len], k);
        SmallQuotient(Val(), Pow(2, k));
      }
    }

    // Whether dropping "shift" bits rounds up, decided from the bits around the cut.
    method RoundBit(shift: nat, mode: Mode) returns (addOne: nat)
      requires Valid() && shift > 0
      ensures Pow(2, shift) > 0 && addOne == if RoundsUp(mode, Val(), Pow(2, shift)) then 1 else 0
    {
      hide Value, Pow, RoundsUp;
      PowPositive(2, shift);
      PowPositive(2, shift - 1);
      PowStep(2, shift - 1);
      addOne := 0;
      if mode != TowardZero {
        var bit1 := GetBit(shift - 1);
        if bit1 != 0 {
          var bit2 := mode == NearestAway;
          if mode == NearestEven {
            bit2 := AnyBitBelow(shift - 1);
          }
          if bit2 {
            addOne := 1;
          } else {
            // round to even
            addOne := GetBit(shift);
          }
        }
      }
      RoundingBits(mode, Val(), Pow(2, shift - 1), Pow(2, shift));
    }

    // Drop "l" whole limbs from the bottom.
    method DropLimbs(l: nat)
      requires Valid() && 0 < l < len
      modifies this, tab
      ensures Valid() && len == old(len) - l && Scale(l) > 0 && Val() == old(Val()) / Scale(l)
      ensures old(Normal()) ==> Normal()
    {
      hide Value, Scale;
      ghost var s := tab[..len];
      SplitAtLimb(s, l);
      len := len - l;
      MoveDown(l, s);
      assert tab[..len] == s[l..];
      ScaleIsPow(l);
      DropNormal(Value(s), Value(s[l..]), |s|, l);
    }

    method MoveDown(l: nat, ghost s: seq<Limb>)
      requires Valid() && len + l == |s| <= tab.Length && tab[..|s|] == s
      modifies tab
      ensures forall k :: 0 <= k < len ==> tab[k] == s[k + l]
    {
      var i := 0;
      while i < len
        invariant 0 <= i <= len
        invariant forall k :: 0 <= k < i ==> tab[k] == s[k + l]
        invariant forall k :: i <= k < |s| ==> tab[k] == s[k]
      {
        tab[i] := tab[i + l];
        i := i + 1;
      }
    }

    // Drop less than a limb.
    method DropBits(b: nat)
      requires Valid() && 0 < b < LIMB_BITS
      modifies this, tab
      ensures Valid() && Normal() && len <= old(len) && Pow(2, b) > 0 && Val() == old(Val()) / Pow(2, b)
      ensures 2 * Val() < Scale(old(len))
    {
      hide Value, Scale, Pow;
      ghost var w, n := Val(), len;
      ShiftParts(b);
      ValueBound(tab[..len]);
      var r := Shr(tab, len, b, 0);
      UniqueQuotient(w, Pow(2, b), Value(tab[..len]), r);
      AtLeastTwo(b);
      TopClear(w, Value(tab[..len]), Pow(2, b), n);
      Renorm();
    }

    // Drop "shift" bits and add the rounding bit.
    method ShiftRight(shift: nat, addOne: nat)
      requires Valid() && Normal() && shift > 0 && addOne <= 1
      modifies this, tab
      ensures Valid() && Normal() && len <= old(len)
      ensures Pow(2, shift) > 0 && Val() == old(Val()) / Pow(2, shift) + addOne
    {
      hide Value, Scale, Pow, Normal;
      var l, b := shift / LIMB_BITS, shift % LIMB_BITS;
      ghost var v, n, p := Val(), len, Pow(2, b);
      PowPositive(2, shift);
      PowPosition(shift, l, b);
      ScaleIsPow(l);
      ShiftParts(b);
      if l >= len {
        BelowPosition(tab[..len], shift);
        SmallQuotient(v, Pow(2, shift));
        len := 1;
        tab[0] := addOne;
        assert tab[..1] == [addOne];
        ValueOne(addOne);
        OneIsNormal();
        return;
      }
      ghost var q, _ := DivMod(v, Scale(l));
      ghost var q', _ := DivMod(q, p);
      DivisionsCompose(v, Scale(l), p);
      if l > 0 {
        DropLimbs(l);
      } else {
        ScaleStep(0);
        DivideByOne(v);
      }
      assert Val() == q;
      if b != 0 {
        DropBits(b);
      } else {
        PowZero();
        DivideByOne(q);
      }
      assert Val() == q';
      if addOne != 0 {
        assert len < tab.Length || 2 * Val() < Scale(len);
        AddOne();
      }
    }

    lemma {:induction false} OneIsNormal()
      requires Valid() && len == 1
      ensures Normal()
    {
    }

    // The carry of the rounding bit may need a new limb, which is free when limbs were dropped.
    method AddOne()
      requires Valid() && Normal() && (len < tab.Length || 2 * Val() < Scale(len))
      modifies this, tab
      ensures Valid() && Normal() && Val() == old(Val()) + 1 && len <= old(len) + 1
      ensures 2 * old(Val()) < Scale(old(len)) ==> len == old(len)
    {
      hide Value, Scale;
      ghost var v, n := Val(), len;
      ScaleIsPow(len);
      var a := AddUi(tab, 1, len);
      ValueBound(tab[..len]);
      if a != 0 {
        MulMono(1, a, Scale(len));
        assert 2 * v >= Scale(len) by {
          assert v + 1 >= Scale(n);
          ScaleAbove(n);
        }
        assert a == 1;
        tab[len] := a;
        assert tab[..len + 1] == tab[..len] + [a];
        ValueSnoc(tab[..len], a);
        len := len + 1;
      }
    }

    // Put "l" zero limbs below the number.
    method InsertLimbs(l: nat)
      requires Valid() && Normal() && 0 < l && len + l <= tab.Length
      modifies this, tab
      ensures Valid() && (old(Val()) > 0 ==> Normal()) && len == old(len) + l && Val() == old(Val()) * Scale(l)
    {
      hide Value, Scale;
      ghost var s, v, n := tab[..len], Val(), len;
      MoveUp(l);
      ZeroLimbs(l, s);
      len := len + l;
      ghost var z := tab[..l];
      assert tab[..len] == z + s;
      ValueConcat(z, s);
      assert Val() == Scale(l) * v;
      if v > 0 {
        InsertNormal(v, n, l);
      }
    }

    method MoveUp(l: nat)
      requires Valid() && len + l <= tab.Length
      modifies tab
      ensures tab[l..len + l] == old(tab[..len])
    {
      ghost var s := tab[..len];
      var i := len;
      while i > 0
        invariant 0 <= i <= len == |s| && len + l <= tab.Length
        invariant forall k :: 0 <= k < i ==> tab[k] == s[k]
        invariant forall k :: i + l <= k < len + l ==> tab[k] == s[k - l]
      {
        i := i - 1;
        tab[i + l] := tab[i];
      }
      assert tab[l..len + l] == s;
    }

    method ZeroLimbs(l: nat, ghost s: seq<Limb>)
      requires Valid() && len == |s| && len + l <= tab.Length && tab[l..len + l] == s
      modifies tab
      ensures tab[l..len + l] == s && Value(tab[..l]) == 0
    {
      hide Value, Scale;
      var i := 0;
      EmptyValue(tab[..0]);
      while i < l
        invariant 0 <= i <= l && tab[l..len + l] == s && Value(tab[..i]) == 0
      {
        ghost var t := tab[..];
        tab[i] := 0;
        assert tab[..i + 1] == t[..i] + [0];
        ValueSnoc(t[..i], 0);
        assert tab[l..len + l] == t[l..len + l];
        i := i + 1;
      }
    }

    // Multiply by 2^shift.
    method ShiftLeft(shift: nat)
      requires Valid() && Normal() && len + shift / LIMB_BITS + 1 <= tab.Length
      modifies this, tab
      ensures Valid() && Val() == old(Val()) * Pow(2, shift) && (old(Val()) > 0 ==> Normal())
      ensures len <= old(len) + shift / LIMB_BITS + 1
    {
      hide Value, Scale, Pow, Normal;
      var l, b := shift / LIMB_BITS, shift % LIMB_BITS;
      ghost var v := Val();
      PowPosition(shift, l, b);
      MulAssoc(v, Pow(2, b), Scale(l));
      if b != 0 {
        ShiftLeftBits(b);
      } else {
        PowZero();
        DivideByOne(v);
      }
      PowPositive(2, b);
      if v > 0 {
        MulPositive(v, Pow(2, b));
      }
      if l > 0 {
        InsertLimbs(l);
      } else {
        ScaleStep(0);
        DivideByOne(Val());
      }
    }

    method ShiftLeftBits(b: nat)
      requires Valid() && 0 < b < LIMB_BITS && len + 1 <= tab.Length
      modifies this, tab
      ensures Valid() && Normal() && Val() == old(Val()) * Pow(2, b) && len <= old(len) + 1
    {
      hide Value, Scale, Pow;
      PowPositive(2, b);
      var high := Shl(tab, len, b, 0);
      tab[len] := high;
      assert tab[..len + 1] == tab[..len] + [high];
      ValueSnoc(tab[..len], high);
      len := len + 1;
      Renorm();
    }

    // mpb_shr_round: round(r / 2^shift), where the shift may be negative.
    method ShrRound(shift: int, mode: Mode)
      requires Valid() && Normal() && (shift < 0 ==> len + (-shift) / LIMB_BITS + 1 <= tab.Length)
      modifies this, tab
      ensures Valid() && (shift >= 0 || old(Val()) > 0 ==> Normal())
      ensures shift >= 0 ==> Pow(2, shift) > 0 && Val() == RoundDiv(mode, old(Val()), Pow(2, shift)) && len <= old(len)
      ensures shift < 0 ==> Val() == old(Val()) * Pow(2, -shift) && len <= old(len) + (-shift) / LIMB_BITS + 1
    {
      hide Value, Scale, Pow, Normal, RoundsUp;
      if shift == 0 {
        PowZero();
        RoundByOne(mode, Val());
      } else if shift < 0 {
        ShiftLeft(-shift);
      } else {
        var addOne := RoundBit(shift, mode);
        ShiftRight(shift, addOne);
      }
    }

    // mpb_set_u64
    method SetU64(m: nat)
      requires m < BASE2 && tab.Length >= 2
      modifies this, tab
      ensures Valid() && Normal() && Val() == m && len <= 2
    {
      hide Scale;
      tab[0] := m % BASE;
      tab[1] := m / BASE;
      if tab[1] == 0 {
        len := 1;
        assert tab[..1] == [m % BASE];
        ValueOne(m % BASE);
      } else {
        len := 2;
        assert tab[..2] == [m % BASE] + [m / BASE];
        ValueSnoc([m % BASE], m / BASE);
        ValueOne(m % BASE);
        ScaleStep(0);
        TopLimb(tab[..2]);
      }
    }

    // mpb_get_u64
    method GetU64() returns (m: nat)
      requires Valid() && Normal()
      ensures m == Val() % BASE2
    {
      hide Value, Scale;
      ScaleStep(0);
      if len == 1 {
        assert tab[..1] == [tab[0]];
        ValueOne(tab[0]);
        return tab[0];
      } else {
        LowLimbs(tab[..len]);
        return tab[0] + tab[1] * BASE;
      }
    }

    // mpb_floor_log2: position of the highest bit.
    method FloorLog2() returns (e: int)
      requires Valid() && Normal()
      ensures Val() == 0 ==> e == -1
      ensures Val() > 0 ==> e >= 0 && Pow(2, e) <= Val() < Pow(2, e + 1) && e / LIMB_BITS == len - 1
    {
      hide Value, Scale, Pow, BitLength;
      var v: int := tab[len - 1];
      if v == 0 {
        TopIsZero(tab[..len]);
        return -1;
      }
      TopBits(tab[..len], v);
      // len * LIMB_BITS - 1 - clz32(v)
      e := LIMB_BITS * (len - 1) + BitLength(v) - 1;
    }
  }

  lemma {:induction false} BelowPosition(s: seq<Limb>, k: nat)
    requires |s| <= k / LIMB_BITS
    ensures Value(s) < Pow(2, k)
  {
    hide Value;
    ValueBound(s);
    ScaleIsPow(|s|);
    PowMono(2, LIMB_BITS * |s|, k);
  }

  lemma {:induction false} SmallQuotient(x: nat, p: nat)
    requires x < p
    ensures x / p == 0 && x % p == x
  {
  }

  lemma {:induction false} AtLeastTwo(b: nat)
    requires b > 0
    ensures Pow(2, b) >= 2
  {
    PowPositive(2, b - 1);
  }

  lemma {:induction false} ScaleAbove(n: nat)
    requires n > 0
    ensures Scale(n) >= 2
  {
    ScaleStep(n - 1);
  }

  lemma {:induction false} DivideByOne(v: nat)
    ensures v / 1 == v && v * 1 == v
  {
  }

  lemma {:induction false} DropNormal(v: nat, w: nat, n: nat, l: nat)
    requires 0 < l < n && Scale(l) > 0 && w == v / Scale(l)
    ensures n - l == 1 || (v >= Scale(n - 1) ==> w >= Scale(n - l - 1))
  {
    PowAdd(BASE, n - l - 1, l);
    ScaleStep(n - l - 1);
    if v >= Scale(n - 1) {
      var q, r := DivMod(v, Scale(l));
      QuotientAtLeast(v, Scale(l), Scale(n - l - 1), q, r);
    }
  }

  lemma {:induction false} QuotientAtLeast(v: nat, d: nat, k: nat, q: nat, r: nat)
    requires v == q * d + r && r < d && v >= k * d
    ensures q >= k
  {
    assert (q + 1) * d == q * d + d;
    if q < k {
      MulMono(q + 1, k, d);
    }
  }

  // Shifting down leaves the top bit clear.
  lemma {:induction false} TopClear(w: nat, v: nat, p: nat, n: nat)
    requires p >= 2 && w < Scale(n) && v * p <= w
    ensures 2 * v < Scale(n)
  {
    MulMono(2, p, v);
  }

  // Rounding by the bits around the cut: the bit below it, the bits below that one, the bit
  // above it.
  lemma {:induction false} RoundingBits(mode: Mode, v: nat, p: nat, p2: nat)
    requires p > 0 && p2 == 2 * p
    ensures var bit1 := v / p % 2;
            RoundsUp(mode, v, p2) <==>
            mode != TowardZero && bit1 == 1 && (mode == NearestAway || v % p != 0 || v / p2 % 2 == 1)
  {
    var q, r := DivMod(v, p);
    var h, bit := q / 2, q % 2;
    assert q == 2 * h + bit;
    assert (2 * h + bit) * p == h * (2 * p) + bit * p by {
      assert (2 * h + bit) * p == (2 * h) * p + bit * p;
      MulAssoc(h, 2, p);
    }
    assert bit * p == if bit == 1 then p else 0;
    UniqueQuotient(v, p2, h, bit * p + r);
  }

  lemma {:induction false} RoundByOne(mode: Mode, v: nat)
    ensures RoundDiv(mode, v, 1) == v
  {
  }

  lemma {:induction false} ScaleProduct(j: nat, k: nat)
    ensures Scale(j + k) == Scale(j) * Scale(k)
  {
    PowAdd(BASE, j, k);
  }

  lemma {:induction false} InsertNormal(v: nat, n: nat, l: nat)
    requires n > 0 && v > 0 && (n == 1 || v >= Scale(n - 1))
    ensures Scale(l) * v >= Scale(n + l - 1)
  {
    hide Scale;
    ScaleStep(0);
    ScaleProduct(n - 1, l);
    MulMono(Scale(n - 1), v, Scale(l));
  }

  // Only zero has a top limb that is zero.
  lemma {:induction false} TopIsZero(s: seq<Limb>)
    requires |s| > 0 && s[|s| - 1] == 0 && (|s| == 1 || Value(s) >= Scale(|s| - 1))
    ensures Value(s) == 0
  {
    if Value(s) > 0 {
      TopNotZero(s);
    }
  }

  // The highest bit of a number is that of its top limb v.
  lemma {:induction false} TopBits(s: seq<Limb>, v: nat)
    requires |s| > 0 && s[|s| - 1] == v && v > 0
    ensures var e := LIMB_BITS * (|s| - 1) + BitLength(v) - 1;
            e >= 0 && Value(s) > 0 && Pow(2, e) <= Value(s) < Pow(2, e + 1) && e / LIMB_BITS == |s| - 1
  {
    hide Value, Scale, Pow, BitLength;
    var n, b := |s| - 1, BitLength(v);
    var low, w := Value(s[..n]), Scale(n);
    assert s == s[..n] + [v];
    ValueSnoc(s[..n], v);
    ValueBound(s[..n]);
    ScaleIsPow(n);
    BitLengthBounds(v);
    BitLengthLimb(v);
    PowPosition(LIMB_BITS * n + b - 1, n, b - 1);
    PowAdd(2, LIMB_BITS * n, b);
    MulMono(Pow(2, b - 1), v, w);
    MulMono(v + 1, Pow(2, b), w);
    PowPositive(2, LIMB_BITS * n + b - 1);
    assert w * (v + 1) == w * v + w;
  }

  // The two lowest limbs.
  lemma {:induction false} LowLimbs(s: seq<Limb>)
    requires |s| >= 2
    ensures Value(s) % BASE2 == s[0] + s[1] * BASE
  {
    hide Value, Scale;
    ScaleStep(0);
    ScaleStep(1);
    assert s == ([s[0]] + [s[1]]) + s[2..];
    ValueConcat([s[0]] + [s[1]], s[2..]);
    ValueSnoc([s[0]], s[1]);
    ValueOne(s[0]);
    Unique(Value(s), BASE2, Value(s[2..]), s[0] + s[1] * BASE);
  }

  lemma {:induction false} TopNotZero(s: seq<Limb>)
    requires |s| > 0 && Value(s) > 0 && (|s| == 1 || Value(s) >= Scale(|s| - 1))
    ensures s[|s| - 1] != 0
  {
    if s[|s| - 1] == 0 {
      TopZero(s);
      ValueBound(s[..|s| - 1]);
    }
  }

  lemma {:induction false} BitLengthLimb(v: Limb)
    ensures BitLength(v) <= LIMB_BITS
  {
    if v > 0 {
      hide BitLength, Pow;
      BitLengthBounds(v);
      if BitLength(v) > LIMB_BITS {
        PowMono(2, LIMB_BITS, BitLength(v) - 1);
        PowLimb();
      }
    }
  }
}
