// js_atod of dtoa.c for radix 10 and the powers of two: scanning the digits into a bignum
// and rounding the exact value of the text to a double.
module Atod {
  import opened Powers
  import opened Limbs
  import opened Bignum
  import opened Scaling
  import opened AtodText

  // ---------------------------------------------------------------------------
  // Collecting digits in a bignum

  // mpb_mul1_base: r = r * radixBase + a, where 0 stands for 2^32.
  method Mul1Base(r: Mpb, radixBase: Limb, a: Limb)
    requires r.Valid() && r.Normal() && r.len + 2 <= r.tab.Length
    modifies r, r.tab
    ensures r.Valid() && r.Normal() && r.len <= old(r.len) + 1
    ensures r.Val() == old(r.Val()) * (if radixBase == 0 then BASE else radixBase) + a
  {
    hide Value, Scale;
    if r.tab[0] == 0 && r.len == 1 {
      assert r.tab[..1] == [0];
      ValueOne(0);
      r.tab[0] := a;
      assert r.tab[..1] == [a];
      ValueOne(a);
    } else if radixBase == 0 {
      AppendLimb(r, a);
    } else {
      MulAppend(r, radixBase, a);
    }
  }

  // r * 2^32 + a
  method AppendLimb(r: Mpb, a: Limb)
    requires r.Valid() && r.Normal() && r.len + 2 <= r.tab.Length
    modifies r, r.tab
    ensures r.Valid() && r.Normal() && r.len <= old(r.len) + 1 && r.Val() == old(r.Val()) * BASE + a
  {
    hide Value, Scale;
    ghost var s := r.tab[..r.len];
    r.MoveUp(1);
    r.tab[0] := a;
    assert r.tab[..r.len + 1] == [a] + s;
    ValueConcat([a], s);
    ValueOne(a);
    ScaleStep(0);
    r.len := r.len + 1;
    r.Renorm();
  }

  method MulAppend(r: Mpb, radixBase: Limb, a: Limb)
    requires r.Valid() && r.Normal() && r.len + 2 <= r.tab.Length
    modifies r, r.tab
    ensures r.Valid() && r.Normal() && r.len <= old(r.len) + 1 && r.Val() == old(r.Val()) * radixBase + a
  {
    hide Value, Scale;
    var h := Mul1(r.tab, r.len, radixBase, a);
    r.tab[r.len] := h;
    assert r.tab[..r.len + 1] == r.tab[..r.len] + [h];
    ValueSnoc(r.tab[..r.len], h);
    r.len := r.len + 1;
    r.Renorm();
  }

  // What the digits read so far amount to: whole limbs in the bignum, the rest in cur.
  ghost predicate Collected(tmp: Mpb, cur: nat, count: nat, k: nat, ds: seq<nat>, base: nat, d: nat)
    requires tmp.Valid()
    reads tmp, tmp.tab
  {
    && tmp.Normal() && |ds| == k * d + count && count < d && tmp.len <= k + 1
    && cur < Pow(base, count) && tmp.Val() * Pow(base, count) + cur == Num(ds, base)
  }

  // One more digit; a full limb goes to the bignum.
  method AddDigit(tmp: Mpb, x: Radix, cur0: nat, count0: nat, ghost k0: nat, c: nat, ghost ds: seq<nat>)
    returns (cur: nat, count: nat, ghost k: nat)
    requires RadixOk(x) && c < Base(x) && tmp.Valid() && k0 + 3 <= tmp.tab.Length
    requires Collected(tmp, cur0, count0, k0, ds, Base(x), DIGITS_PER_LIMB[Base(x) - 2])
    modifies tmp, tmp.tab
    ensures tmp.Valid() && Collected(tmp, cur, count, k, ds + [c], Base(x), DIGITS_PER_LIMB[Base(x) - 2])
    ensures k <= k0 + 1
  {
    hide Pow, Value, Scale, Num;
    var base, d := Base(x), DIGITS_PER_LIMB[Base(x) - 2];
    RadixBaseIs(x);
    DigitCollected(tmp, cur0, count0, k0, ds, base, d, c);
    cur, count, k := cur0 * base + c, count0 + 1, k0;
    if count == d {
      StoreLimb(tmp, base, RADIX_BASE[base - 2], cur, d, k, ds + [c]);
      cur, count, k := 0, 0, k0 + 1;
    }
  }

  // A full limb goes to the bignum.
  method StoreLimb(tmp: Mpb, ghost base: nat, radixBase: Limb, cur: Limb, ghost d: nat, ghost k: nat, ghost ds: seq<nat>)
    requires tmp.Valid() && tmp.Normal() && tmp.len <= k + 1 && k + 3 <= tmp.tab.Length && 0 < d && |ds| == k * d + d
    requires Pow(base, d) == (if radixBase == 0 then BASE else radixBase) && tmp.Val() * Pow(base, d) + cur == Num(ds, base)
    modifies tmp, tmp.tab
    ensures tmp.Valid() && Collected(tmp, 0, 0, k + 1, ds, base, d)
  {
    hide Pow, Value, Scale, Num;
    Mul1Base(tmp, radixBase, cur);
    PowOne(base);
    assert (k + 1) * d == k * d + d;
  }

  lemma {:induction false} DigitCollected(tmp: Mpb, cur: nat, count: nat, k: nat, ds: seq<nat>, base: nat, d: nat, c: nat)
    requires tmp.Valid() && Collected(tmp, cur, count, k, ds, base, d) && c < base
    ensures tmp.Val() * Pow(base, count + 1) + (cur * base + c) == Num(ds + [c], base) && cur * base + c < Pow(base, count + 1)
  {
    hide Pow, Value, Scale, Num;
    NumSnoc(ds, c, base);
    PowStep(base, count);
    OneMoreDigit(tmp.Val(), Pow(base, count), cur, base, c, Num(ds, base));
  }

  lemma {:induction false} OneMoreDigit(v: nat, p: nat, cur: nat, base: nat, c: nat, n: nat)
    requires v * p + cur == n && cur < p && c < base
    ensures v * (base * p) + (cur * base + c) == n * base + c && cur * base + c < base * p
  {
    MulAssoc(v, p, base);
    assert p * base == base * p;
    assert (v * p + cur) * base == (v * p) * base + cur * base;
    MulMono(cur + 1, p, base);
  }

  // The digits of an incomplete limb.
  method FinishDigits(tmp: Mpb, x: Radix, cur: nat, count: nat, ghost k: nat, ghost ds: seq<nat>)
    requires RadixOk(x) && tmp.Valid() && k + 3 <= tmp.tab.Length
    requires Collected(tmp, cur, count, k, ds, Base(x), DIGITS_PER_LIMB[Base(x) - 2])
    modifies tmp, tmp.tab
    ensures tmp.Valid() && tmp.Normal() && tmp.Val() == Num(ds, Base(x)) && tmp.len <= k + 2
  {
    hide Pow, Value, Scale, Num;
    PowOne(Base(x));
    if count != 0 {
      PartialPower(x, count);
      var p := PowUi(Base(x), count);
      Mul1Base(tmp, p, cur);
    }
  }

  lemma {:induction false} PartialPower(x: Radix, count: nat)
    requires RadixOk(x) && 0 < count < DIGITS_PER_LIMB[Base(x) - 2]
    ensures 0 < Pow(Base(x), count) < BASE
  {
    hide Pow;
    RadixBaseIs(x);
    PowPositive(Base(x), count);
    PowStrict(Base(x), count, DIGITS_PER_LIMB[Base(x) - 2]);
  }

  // ---------------------------------------------------------------------------
  // Scanning

  // The first loop of js_atod: leading zeros, perhaps with the point among them.
  method SkipZeros(text: string, start: nat, p0: nat, base: nat) returns (p: nat, pos: nat, dotPos: int, ghost zeros: seq<nat>)
    requires 2 <= base <= 36
    ensures -1 <= dotPos <= pos && p0 <= p && |zeros| == pos && AllZero(zeros)
    ensures Reading(text, start, base, p0, false, p, dotPos >= 0, zeros, Behind(dotPos, 0, pos))
    ensures var r := ScanNumber(text, p, start, base, dotPos >= 0); r.digits != [] ==> r.digits[0] != 0
    ensures p <= |text| || p == p0
  {
    hide Reading, AllZero;
    p, pos, dotPos, zeros := p0, 0, -1, [];
    NothingRead(text, start, base, p0, false);
    NoZeros();
    while true
      invariant -1 <= dotPos <= pos && p0 <= p && (p <= |text| || p == p0) && |zeros| == pos && AllZero(zeros)
      invariant Reading(text, start, base, p0, false, p, dotPos >= 0, zeros, Behind(dotPos, 0, pos))
      decreases |text| - p
    {
      if IsPoint(text, p, start, base) {
        if dotPos >= 0 {
          break;
        }
        ReadPoint(text, start, base, p0, false, p, zeros, 0);
        dotPos := pos;
        p := p + 1;
      }
      if CharAt(text, p) != '0' {
        break;
      }
      ReadDigit(text, start, base, p0, false, p, dotPos >= 0, zeros, Behind(dotPos, 0, pos));
      AllZeroSnoc(zeros, 0);
      zeros := zeros + [0];
      p := p + 1;
      pos := pos + 1;
    }
  }

  lemma {:induction false} NoZeros()
    ensures AllZero([])
  {
  }

  // The digits that are kept, and those that are only checked for being zero.
  ghost predicate Retained(tmp: Mpb, cur: nat, count: nat, k: nat, done: seq<nat>, x: Radix, extra: nat)
    requires RadixOk(x) && tmp.Valid()
    reads tmp, tmp.tab
  {
    var n := Min(|done|, ATOD_MAX_DIGITS[Base(x) - 2]);
    && Collected(tmp, cur, count, k, done[..n], Base(x), DIGITS_PER_LIMB[Base(x) - 2])
    && (extra == 0 <==> AllZero(done[n..]))
  }

  // The second loop: the significant digits. The ones beyond the maximum are ORed together.
  method ScanSignificant(text: string, start: nat, x: Radix, p0: nat, pos0: nat, dotPos0: int, tmp: Mpb)
    returns (p: nat, pos: nat, dotPos: int, digitCount: nat, extra: nat, ghost ds: seq<nat>)
    requires RadixOk(x) && -1 <= dotPos0 <= pos0
    requires tmp.Valid() && tmp.Normal() && tmp.Val() == 0 && tmp.len == 1 && tmp.tab.Length >= 16
    modifies tmp, tmp.tab
    ensures tmp.Valid() && tmp.Normal() && tmp.len <= 8
    ensures -1 <= dotPos <= pos && (dotPos0 >= 0 ==> dotPos == dotPos0) && (dotPos0 < 0 ==> dotPos < 0 || pos0 <= dotPos) && pos0 <= pos
    ensures ScanNumber(text, p0, start, Base(x), dotPos0 >= 0) == Number(p, ds, Behind(dotPos, pos0, pos))
    ensures pos == pos0 + |ds| && digitCount == Min(|ds|, ATOD_MAX_DIGITS[Base(x) - 2]) && p0 <= p
    ensures tmp.Val() == Num(ds[..digitCount], Base(x)) && (extra == 0 <==> AllZero(ds[digitCount..]))
    ensures p <= |text| || p == p0
  {
    hide Pow, Value, Scale, Num, Reading, ScanNumber, Collected, AllZero, Retained, ToDigit, CharAt;
    var base := Base(x);
    p, pos, dotPos, digitCount, extra, ds := p0, pos0, dotPos0, 0, 0, [];
    var cur, count := 0, 0;
    ghost var k := 0;
    NothingRetained(tmp, x);
    NothingRead(text, start, base, p0, dotPos0 >= 0);
    while true
      invariant p0 <= p && -1 <= dotPos <= pos && pos == pos0 + |ds| && (p <= |text| || p == p0)
      invariant (dotPos0 >= 0 ==> dotPos == dotPos0) && (dotPos0 < 0 ==> dotPos < 0 || pos0 <= dotPos)
      invariant digitCount == Min(|ds|, ATOD_MAX_DIGITS[Base(x) - 2]) && tmp.Valid() && Retained(tmp, cur, count, k, ds, x, extra)
      invariant Reading(text, start, base, p0, dotPos0 >= 0, p, dotPos >= 0, ds, Behind(dotPos, pos0, pos))
      decreases |text| - p
    {
      if IsPoint(text, p, start, base) {
        if dotPos >= 0 {
          break;
        }
        ReadPoint(text, start, base, p0, dotPos0 >= 0, p, ds, 0);
        dotPos := pos;
        p := p + 1;
      }
      var c := ToDigit(CharAt(text, p));
      if c >= base {
        break;
      }
      NotAPoint(text, p, start, base);
      ReadDigit(text, start, base, p0, dotPos0 >= 0, p, dotPos >= 0, ds, Behind(dotPos, pos0, pos));
      p := p + 1;
      pos := pos + 1;
      cur, count, k, digitCount, extra := TakeDigit(tmp, x, cur, count, k, digitCount, extra, c, ds);
      ds := ds + [c];
    }
    ReadEnd(text, start, base, p0, dotPos0 >= 0, p, dotPos >= 0, ds, Behind(dotPos, pos0, pos));
    KeptBlocks(tmp, cur, count, k, ds, x, extra);
    FinishDigits(tmp, x, cur, count, k, ds[..digitCount]);
  }

  // Of the union of bits only matters whether it is zero.
  function Or(a: nat, b: nat): (c: nat)
    ensures c == 0 <==> a == 0 && b == 0
  {
    if a == 0 then b else a
  }

  lemma {:induction false} NotAPoint(text: string, p: nat, start: nat, base: nat)
    requires ToDigit(CharAt(text, p)) < base <= 36
    ensures !IsPoint(text, p, start, base) && p < |text|
  {
  }

  lemma {:induction false} NothingCollected(tmp: Mpb, base: nat, d: nat)
    requires tmp.Valid() && tmp.Normal() && tmp.Val() == 0 && tmp.len == 1 && d > 0
    ensures Collected(tmp, 0, 0, 0, [], base, d) && AllZero([])
  {
    PowOne(base);
  }

  lemma {:induction false} NothingRetained(tmp: Mpb, x: Radix)
    requires RadixOk(x) && tmp.Valid() && tmp.Normal() && tmp.Val() == 0 && tmp.len == 1
    ensures Retained(tmp, 0, 0, 0, [], x, 0)
  {
    hide Collected, AllZero, Value, Scale;
    NothingCollected(tmp, Base(x), DIGITS_PER_LIMB[Base(x) - 2]);
    var none: seq<nat> := [];
    assert none[..0] == [] && none[0..] == [];
  }

  // The digits kept fill few limbs.
  lemma {:induction false} KeptBlocks(tmp: Mpb, cur: nat, count: nat, k: nat, done: seq<nat>, x: Radix, extra: nat)
    requires RadixOk(x) && tmp.Valid() && Retained(tmp, cur, count, k, done, x, extra)
    ensures k <= 4 && (extra == 0 <==> AllZero(done[Min(|done|, ATOD_MAX_DIGITS[Base(x) - 2])..]))
    ensures Collected(tmp, cur, count, k, done[..Min(|done|, ATOD_MAX_DIGITS[Base(x) - 2])], Base(x), DIGITS_PER_LIMB[Base(x) - 2])
  {
    hide Pow, Num, Value, Scale;
    var d := DIGITS_PER_LIMB[Base(x) - 2];
    FewBlocks(k, d, ATOD_MAX_DIGITS[Base(x) - 2]);
  }

  lemma {:induction false} FewBlocks(k: nat, d: nat, n: nat)
    requires d > 0 && 5 * d > n && k * d <= n
    ensures k <= 4
  {
    if k >= 5 {
      MulMono(5, k, d);
    }
  }

  // A significant digit is kept or only checked.
  method TakeDigit(tmp: Mpb, x: Radix, cur0: nat, count0: nat, ghost k0: nat, digitCount0: nat, extra0: nat, c: nat, ghost ds: seq<nat>)
    returns (cur: nat, count: nat, ghost k: nat, digitCount: nat, extra: nat)
    requires RadixOk(x) && c < Base(x) && tmp.Valid() && tmp.tab.Length >= 16
    requires digitCount0 == Min(|ds|, ATOD_MAX_DIGITS[Base(x) - 2]) && Retained(tmp, cur0, count0, k0, ds, x, extra0)
    modifies tmp, tmp.tab
    ensures digitCount == Min(|ds| + 1, ATOD_MAX_DIGITS[Base(x) - 2])
    ensures tmp.Valid() && Retained(tmp, cur, count, k, ds + [c], x, extra)
  {
    hide Retained;
    cur, count, k, digitCount, extra := cur0, count0, k0, digitCount0, extra0;
    if digitCount < ATOD_MAX_DIGITS[Base(x) - 2] {
      cur, count, k := AddKept(tmp, x, cur, count, k, c, ds, extra);
      digitCount := digitCount + 1;
    } else {
      AddExtra(tmp, x, cur, count, k, c, ds, extra);
      extra := Or(extra, c);
    }
  }

  method AddKept(tmp: Mpb, x: Radix, cur0: nat, count0: nat, ghost k0: nat, c: nat, ghost ds: seq<nat>, ghost extra: nat)
    returns (cur: nat, count: nat, ghost k: nat)
    requires RadixOk(x) && c < Base(x) && tmp.Valid() && tmp.tab.Length >= 16 && |ds| < ATOD_MAX_DIGITS[Base(x) - 2]
    requires Retained(tmp, cur0, count0, k0, ds, x, extra)
    modifies tmp, tmp.tab
    ensures tmp.Valid() && Retained(tmp, cur, count, k, ds + [c], x, extra)
  {
    hide Pow, Value, Scale, Num, Collected;
    KeptBlocks(tmp, cur0, count0, k0, ds, x, extra);
    ghost var n := ATOD_MAX_DIGITS[Base(x) - 2];
    assert ds[..Min(|ds|, n)] == ds && (ds + [c])[..Min(|ds| + 1, n)] == ds + [c];
    cur, count, k := AddDigit(tmp, x, cur0, count0, k0, c, ds);
    assert ds[|ds|..] == [] && (ds + [c])[|ds| + 1..] == [];
  }

  lemma {:induction false} AddExtra(tmp: Mpb, x: Radix, cur: nat, count: nat, k: nat, c: nat, ds: seq<nat>, extra: nat)
    requires RadixOk(x) && tmp.Valid() && |ds| >= ATOD_MAX_DIGITS[Base(x) - 2] && Retained(tmp, cur, count, k, ds, x, extra)
    ensures Retained(tmp, cur, count, k, ds + [c], x, Or(extra, c))
  {
    hide Pow, Value, Scale, Num, Collected;
    var n := ATOD_MAX_DIGITS[Base(x) - 2];
    assert (ds + [c])[..n] == ds[..n] && (ds + [c])[n..] == ds[n..] + [c];
    AllZeroSnoc(ds[n..], c);
  }

  // ---------------------------------------------------------------------------
  // The significand and the exponent

  const INT_MAX := 0x7fff_ffff

  predicate IsInt32(v: int) {
    -INT_MAX - 1 <= v <= INT_MAX
  }

  type Int32 = v: int | IsInt32(v)

  // What the bignum holds after the digits s: the ones kept, and for a power of two its
  // lowest bit set if the others are not all zero.
  ghost predicate Significand(v: nat, count: nat, s: seq<nat>, x: Radix)
    requires RadixOk(x)
  {
    && count == Min(|s|, ATOD_MAX_DIGITS[Base(x) - 2])
    && var n := Num(s[..count], Base(x));
       v == if x.odd == 1 && !AllZero(s[count..]) && n % 2 == 0 then n + 1 else n
  }

  // Both loops of js_atod, and the bit for the digits that are not kept. The positions counted
  // only grow, so they fit an int if the last one does.
  method ReadSignificand(text: string, start: nat, p0: nat, x: Radix, tmp: Mpb)
    returns (p: nat, fits: bool, count: nat, offset: Int32, ghost ds: seq<nat>, ghost frac: nat)
    requires RadixOk(x) && tmp.Valid() && tmp.Normal() && tmp.Val() == 0 && tmp.len == 1 && tmp.tab.Length >= 16
    modifies tmp, tmp.tab
    ensures ScanNumber(text, p0, start, Base(x), false) == Number(p, ds, frac) && p0 <= p
    ensures fits <==> |ds| <= INT_MAX
    ensures tmp.Valid() && tmp.Normal() && tmp.len <= 8
    ensures Significand(tmp.Val(), count, Significant(ds), x)
    ensures fits ==> offset == if count == 0 then 0 else frac - (|Significant(ds)| - count)
  {
    hide Pow, Value, Scale, Num, Reading, ScanNumber, AllZero, Significand;
    var pos, dotPos;
    ghost var zeros;
    p, pos, dotPos, zeros := SkipZeros(text, start, p0, Base(x));
    var sigPos, dotPos0 := pos, dotPos;
    var extra;
    ghost var p1 := p;
    ghost var s;
    p, pos, dotPos, count, extra, s := ScanSignificant(text, start, x, p, pos, dotPos, tmp);
    ReadRest(text, start, Base(x), p0, p1, dotPos0 >= 0, zeros, Behind(dotPos0, 0, sigPos), p, s, Behind(dotPos, sigPos, pos));
    ds, frac := zeros + s, Behind(dotPos0, 0, sigPos) + Behind(dotPos, sigPos, pos);
    SignificantIs(zeros, s, Base(x));
    ScanBounds(text, p0, start, Base(x), false);
    fits, offset := pos <= INT_MAX, 0;
    if fits && count != 0 {
      if dotPos < 0 {
        dotPos := pos;
      }
      offset := sigPos + count - dotPos;
    }
    IsSignificand(tmp.Val(), count, s, x, extra);
    if x.odd == 1 && extra != 0 {
      OrOne(tmp);
    }
  }

  lemma {:induction false} ReadRest(text: string, start: nat, base: nat, p0: nat, p: nat, seen: bool, zeros: seq<nat>, frac0: int,
                                    end: nat, s: seq<nat>, frac1: nat)
    requires base <= 36 && Reading(text, start, base, p0, false, p, seen, zeros, frac0) && frac0 >= 0
    requires ScanNumber(text, p, start, base, seen) == Number(end, s, frac1)
    ensures ScanNumber(text, p0, start, base, false) == Number(end, zeros + s, frac0 + frac1)
  {
    hide ScanNumber;
  }

  lemma {:induction false} IsSignificand(v: nat, count: nat, s: seq<nat>, x: Radix, extra: nat)
    requires RadixOk(x) && count == Min(|s|, ATOD_MAX_DIGITS[Base(x) - 2])
    requires v == Num(s[..count], Base(x)) && (extra == 0 <==> AllZero(s[count..]))
    ensures Significand(if x.odd == 1 && extra != 0 && v % 2 == 0 then v + 1 else v, count, s, x)
  {
    hide Num, AllZero;
  }

  // tab[0] |= 1
  method OrOne(tmp: Mpb)
    requires tmp.Valid() && tmp.Normal()
    modifies tmp.tab
    ensures tmp.Valid() && tmp.Normal() && tmp.Val() == if old(tmp.Val()) % 2 == 0 then old(tmp.Val()) + 1 else old(tmp.Val())
  {
    hide Value, Scale;
    LowBit(tmp.tab[..tmp.len]);
    if tmp.tab[0] % 2 == 0 {
      SetLowBit(tmp);
    }
  }

  // An exponent with more digits after 214748364 is out of range for certain.
  const EXPN_LIMIT := 2147483640

  // The exponent behind the marker at p0.
  method ReadExponent(text: string, p0: nat) returns (ok: bool, neg: bool, expn: Int32, overflow: bool, p: nat)
    ensures var r := ExponentText(text, p0);
            && ok == (r.1 != [])
            && (ok ==> neg == r.0 && p == r.2 && overflow == (Num(r.1, 10) >= EXPN_LIMIT))
            && (ok && !overflow ==> expn == Num(r.1, 10))
    ensures p > p0 && 0 <= expn < EXPN_LIMIT
  {
    hide Num, DecimalRun, RunFrom;
    p, neg, expn, overflow, ok := p0 + 1, false, 0, false, false;
    if CharAt(text, p) == '+' {
      p := p + 1;
    } else if CharAt(text, p) == '-' {
      neg := true;
      p := p + 1;
    }
    ghost var q := p;
    var c := ToDigit(CharAt(text, p));
    RunEnd(text, q, [], p);
    if c >= 10 {
      return;
    }
    RunDigit(text, q, [], p);
    ok := true;
    expn := c;
    p := p + 1;
    ghost var done := [c];
    NumSnoc([], c, 10);
    assert [] + [c] == done;
    while true
      invariant p0 < p <= |text| && RunFrom(text, q, done, p) && done != []
      invariant 0 <= expn < EXPN_LIMIT && overflow == (Num(done, 10) >= EXPN_LIMIT) && (!overflow ==> expn == Num(done, 10))
      decreases |text| - p
    {
      c := ToDigit(CharAt(text, p));
      if c >= 10 {
        break;
      }
      NumSnoc(done, c, 10);
      if !overflow {
        if expn > (INT_MAX - 2 - 9) / 10 {
          overflow := true;
        } else {
          expn := expn * 10 + c;
        }
      }
      RunDigit(text, q, done, p);
      done := done + [c];
      p := p + 1;
    }
    RunEnd(text, q, done, p);
  }

  // The run from q is what has been read, followed by the run from p.
  ghost predicate RunFrom(text: string, q: nat, done: seq<nat>, p: nat) {
    DecimalRun(text, q) == (done + DecimalRun(text, p).0, DecimalRun(text, p).1)
  }

  lemma {:induction false} RunDigit(text: string, q: nat, done: seq<nat>, p: nat)
    requires ToDigit(CharAt(text, p)) < 10 && RunFrom(text, q, done, p)
    ensures p < |text| && RunFrom(text, q, done + [ToDigit(CharAt(text, p))], p + 1)
  {
    var c, r := ToDigit(CharAt(text, p)), DecimalRun(text, p + 1);
    assert done + ([c] + r.0) == done + [c] + r.0;
  }

  lemma {:induction false} RunEnd(text: string, q: nat, done: seq<nat>, p: nat)
    requires (done == [] && p == q) || RunFrom(text, q, done, p)
    ensures RunFrom(text, q, done, p)
    ensures ToDigit(CharAt(text, p)) >= 10 ==> DecimalRun(text, q) == (done, p)
  {
    var r := DecimalRun(text, p);
    assert done + [] == done && [] + r.0 == r.0;
  }
}
