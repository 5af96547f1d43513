// The texts js_atod of dtoa.c reads, in radix 10 and the powers of two: their syntax and the
// numbers they stand for.
module AtodText {
  import opened Powers
  import opened Limbs
  import opened Scaling

  // ---------------------------------------------------------------------------
  // Radixes

  // A radix: 5 * 2 for ten, 1 * 2^bits for a power of two.
  datatype Radix = Radix(odd: nat, shift: nat)

  predicate RadixOk(x: Radix) {
    (x.odd == 5 && x.shift == 1) || (x.odd == 1 && 1 <= x.shift <= 5)
  }

  // radix_base_table, 0 for 2^32
  const RADIX_BASE: seq<int> := [
    0x00000000, 0xcfd41b91, 0x00000000, 0x48c27395,
    0x81bf1000, 0x75db9c97, 0x40000000, 0xcfd41b91,
    0x3b9aca00, 0x8c8b6d2b, 0x19a10000, 0x309f1021,
    0x57f6c100, 0x98c29b81, 0x00000000, 0x18754571,
    0x247dbc80, 0x3547667b, 0x4c4b4000, 0x6b5a6e1d,
    0x94ace180, 0xcaf18367, 0x0b640000, 0x0e8d4a51,
    0x1269ae40, 0x17179149, 0x1cb91000, 0x23744899,
    0x2b73a840, 0x34e63b41, 0x40000000]

  // atod_max_digits_table
  const ATOD_MAX_DIGITS: seq<int> := [
    64, 80, 32, 55, 49, 45, 21, 40, 38, 37, 35, 34, 33, 32, 16, 31, 30, 30, 29, 29, 28, 28, 27, 27, 27, 26, 26, 26, 26, 25, 12]

  // max_exponent and min_exponent for radix 10
  const MAX_EXPONENT10 := 309
  const MIN_EXPONENT10 := -324

  function Base(x: Radix): (b: nat)
    requires RadixOk(x)
    ensures 2 <= b <= 32
  {
    if x.odd == 5 then 10 else [2, 4, 8, 16, 32][x.shift - 1]
  }

  lemma {:induction false} BaseIs(x: Radix)
    requires RadixOk(x)
    ensures Base(x) == x.odd * Pow(2, x.shift) && Base(x) > 0
  {
    hide Pow;
    Pow2Table(x.shift);
  }

  // The tables agree with the powers they abbreviate.
  lemma {:induction false} RadixBaseIs(x: Radix)
    requires RadixOk(x)
    ensures var b := RADIX_BASE[Base(x) - 2]; var d := DIGITS_PER_LIMB[Base(x) - 2];
            0 < d && Pow(Base(x), d) == (if b == 0 then BASE else b) && Pow(Base(x), d) <= BASE
  {
    hide Pow;
    if x.odd == 5 {
      NinthPower();
    } else {
      var d, bits := BinaryDigits(x);
      BaseIs(x);
      PowMul(2, x.shift, d);
      PowThirty();
    }
  }

  // A limb holds 32 or 30 bits of digits.
  lemma {:induction false} BinaryDigits(x: Radix) returns (d: nat, bits: nat)
    requires RadixOk(x) && x.odd == 1
    ensures d == DIGITS_PER_LIMB[Base(x) - 2] && d > 0 && bits == x.shift * d
    ensures (bits == 32 && RADIX_BASE[Base(x) - 2] == 0) || (bits == 30 && RADIX_BASE[Base(x) - 2] == 0x4000_0000)
  {
    d, bits := DIGITS_PER_LIMB[Base(x) - 2], if x.shift == 3 || x.shift == 5 then 30 else 32;
  }

  lemma {:induction false} PowThirty()
    ensures Pow(2, 30) == 0x4000_0000 && Pow(2, 32) == BASE
  {
    hide Pow;
    Pow2Table(30);
    Pow2Table(32);
  }

  lemma {:induction false} NinthPower()
    ensures Pow(10, 9) == 1_000_000_000
  {
    hide Pow;
    PowOne(10);
    PowStep(10, 1);
    PowStep(10, 2);
    PowAdd(10, 3, 3);
    PowAdd(10, 6, 3);
  }

  // ---------------------------------------------------------------------------
  // Text

  // Past the end there is the terminating zero.
  function CharAt(text: string, p: nat): (c: char) {
    if p < |text| then text[p] else '\0'
  }

  // to_digit
  function ToDigit(c: char): (d: nat)
    ensures d <= 36
  {
    if '0' <= c <= '9' then c as int - '0' as int
    else if 'A' <= c <= 'Z' then c as int - 'A' as int + 10
    else if 'a' <= c <= 'z' then c as int - 'a' as int + 10
    else 36
  }

  // A dot that counts as a decimal point: not at the very start, unless a digit follows.
  predicate IsPoint(text: string, p: nat, start: nat, base: nat) {
    CharAt(text, p) == '.' && (p > start || ToDigit(CharAt(text, p + 1)) < base)
  }

  // The digits of a number from p on: where they end, the digits, and how many of them
  // follow the point.
  datatype Number = Number(end: nat, digits: seq<nat>, frac: nat)

  function ScanNumber(text: string, p: nat, start: nat, base: nat, seen: bool): (r: Number)
    requires base <= 36
    decreases |text| - p
  {
    var point := IsPoint(text, p, start, base);
    if point && seen then Number(p, [], 0)
    else
      var q := if point then p + 1 else p;
      var seen' := seen || point;
      var c := ToDigit(CharAt(text, q));
      if c >= base || q >= |text| then Number(q, [], 0)
      else
        var r := ScanNumber(text, q + 1, start, base, seen');
        Number(r.end, [c] + r.digits, r.frac + if seen' then 1 else 0)
  }

  // The integer a list of digits stands for.
  function Num(ds: seq<nat>, base: nat): (n: nat) {
    if ds == [] then 0 else Num(ds[..|ds| - 1], base) * base + ds[|ds| - 1]
  }

  lemma {:induction false} NumSnoc(ds: seq<nat>, d: nat, base: nat)
    ensures Num([], base) == 0 && Num(ds + [d], base) == Num(ds, base) * base + d
  {
    assert (ds + [d])[..|ds|] == ds;
  }

  lemma {:induction false} NumConcat(a: seq<nat>, b: seq<nat>, base: nat)
    ensures Num(a + b, base) == Num(a, base) * Pow(base, |b|) + Num(b, base)
    decreases |b|
  {
    hide Pow, Num;
    PowOne(base);
    if b == [] {
      assert a + b == a;
      NumSnoc([], 0, base);
    } else {
      var n := |b| - 1;
      var c, d := b[..n], b[n];
      assert a + b == (a + c) + [d] && b == c + [d];
      NumConcat(a, c, base);
      NumSnoc(a + c, d, base);
      NumSnoc(c, d, base);
      PowStep(base, n);
      Horner(Num(a, base), Pow(base, n), Num(c, base), base, d);
    }
  }

  lemma {:induction false} Horner(a: nat, p: nat, c: nat, base: nat, d: nat)
    ensures (a * p + c) * base + d == a * (base * p) + (c * base + d)
  {
    MulAssoc(a, p, base);
    assert p * base == base * p;
  }

  predicate DigitsOk(ds: seq<nat>, base: nat) {
    forall k :: 0 <= k < |ds| ==> ds[k] < base
  }

  lemma {:induction false} NumBelow(ds: seq<nat>, base: nat)
    requires DigitsOk(ds, base)
    ensures Num(ds, base) < Pow(base, |ds|)
  {
    hide Pow, Num;
    PowOne(base);
    NumSnoc([], 0, base);
    if ds != [] {
      var n := |ds| - 1;
      assert ds == ds[..n] + [ds[n]];
      NumBelow(ds[..n], base);
      NumSnoc(ds[..n], ds[n], base);
      PowStep(base, n);
      MulMono(Num(ds[..n], base) + 1, Pow(base, n), base);
    }
  }

  // With a first digit that is not zero the number has all its digits.
  lemma {:induction false} NumAtLeast(ds: seq<nat>, base: nat)
    requires |ds| > 0 && ds[0] != 0
    ensures Num(ds, base) >= Pow(base, |ds| - 1)
  {
    hide Pow, Num;
    PowOne(base);
    var n := |ds| - 1;
    assert ds == ds[..n] + [ds[n]];
    NumSnoc(ds[..n], ds[n], base);
    if n == 0 {
      NumSnoc([], 0, base);
      assert ds[..n] == [];
    } else {
      NumAtLeast(ds[..n], base);
      PowStep(base, n - 1);
      MulMono(Pow(base, n - 1), Num(ds[..n], base), base);
    }
  }

  lemma {:induction false} NumZeros(ds: seq<nat>, base: nat)
    requires base > 0
    ensures Num(ds, base) == 0 <==> AllZero(ds)
    decreases |ds|
  {
    if ds != [] {
      var n := |ds| - 1;
      NumZeros(ds[..n], base);
      AllZeroSnoc(ds[..n], ds[n]);
      assert ds[..n] + [ds[n]] == ds;
      if Num(ds[..n], base) != 0 {
        MulPositive(Num(ds[..n], base), base);
      }
    }
  }

  predicate AllZero(ds: seq<nat>) {
    forall k :: 0 <= k < |ds| ==> ds[k] == 0
  }

  lemma {:induction false} AllZeroSnoc(ds: seq<nat>, d: nat)
    ensures AllZero(ds + [d]) <==> AllZero(ds) && d == 0
  {
    if AllZero(ds + [d]) {
      assert (ds + [d])[|ds|] == d;
      assert forall k :: 0 <= k < |ds| ==> ds[k] == (ds + [d])[k];
    }
  }

  // ---------------------------------------------------------------------------
  // Scanning

  // The number of digits read behind the point, when reading started at position pos0.
  function Behind(dotPos: int, pos0: int, pos: int): (n: int) {
    if dotPos < 0 then 0 else if dotPos <= pos0 then pos - pos0 else pos - dotPos
  }

  // The scan from p0 is what has been read since, followed by the scan from p.
  ghost predicate Reading(text: string, start: nat, base: nat, p0: nat, seen0: bool, p: nat, seen: bool, done: seq<nat>, frac: int)
    requires base <= 36
  {
    var r0, r := ScanNumber(text, p0, start, base, seen0), ScanNumber(text, p, start, base, seen);
    r0.end == r.end && r0.digits == done + r.digits && r0.frac == frac + r.frac
  }

  // Reading a point.
  lemma {:induction false} ReadPoint(text: string, start: nat, base: nat, p0: nat, seen0: bool, p: nat, done: seq<nat>, frac: int)
    requires base <= 36 && Reading(text, start, base, p0, seen0, p, false, done, frac) && IsPoint(text, p, start, base)
    ensures p < |text| && Reading(text, start, base, p0, seen0, p + 1, true, done, frac)
  {
  }

  // Reading a digit that is not behind a second point.
  lemma {:induction false} ReadDigit(text: string, start: nat, base: nat, p0: nat, seen0: bool, p: nat, seen: bool, done: seq<nat>, frac: int)
    requires base <= 36 && Reading(text, start, base, p0, seen0, p, seen, done, frac)
    requires !IsPoint(text, p, start, base) && ToDigit(CharAt(text, p)) < base
    ensures Reading(text, start, base, p0, seen0, p + 1, seen, done + [ToDigit(CharAt(text, p))], frac + if seen then 1 else 0)
  {
    var c := ToDigit(CharAt(text, p));
    var r := ScanNumber(text, p + 1, start, base, seen);
    assert done + ([c] + r.digits) == done + [c] + r.digits;
  }

  // Reading ends.
  lemma {:induction false} ReadEnd(text: string, start: nat, base: nat, p0: nat, seen0: bool, p: nat, seen: bool, done: seq<nat>, frac: int)
    requires base <= 36 && Reading(text, start, base, p0, seen0, p, seen, done, frac) && 0 <= frac
    requires if IsPoint(text, p, start, base) then seen else ToDigit(CharAt(text, p)) >= base
    ensures ScanNumber(text, p0, start, base, seen0) == Number(p, done, frac)
  {
    assert done + [] == done;
  }

  lemma {:induction false} NothingRead(text: string, start: nat, base: nat, p: nat, seen: bool)
    requires base <= 36
    ensures Reading(text, start, base, p, seen, p, seen, [], 0)
  {
    var r := ScanNumber(text, p, start, base, seen);
    assert [] + r.digits == r.digits;
  }

  // What ScanNumber returns lies inside the text.
  lemma {:induction false} ScanBounds(text: string, p: nat, start: nat, base: nat, seen: bool)
    requires base <= 36
    ensures var r := ScanNumber(text, p, start, base, seen);
            r.frac <= |r.digits| && p + |r.digits| <= r.end && (r.end <= |text| || r.end == p)
            && DigitsOk(r.digits, base)
    decreases |text| - p
  {
    var point := IsPoint(text, p, start, base);
    if !(point && seen) {
      var q := if point then p + 1 else p;
      var c := ToDigit(CharAt(text, q));
      if c < base && q < |text| {
        ScanBounds(text, q + 1, start, base, seen || point);
      }
    }
  }

  // The digits without leading zeros.
  function Significant(ds: seq<nat>): (s: seq<nat>)
    ensures |s| <= |ds| && (s != [] ==> s[0] != 0)
  {
    if ds != [] && ds[0] == 0 then Significant(ds[1..]) else ds
  }

  lemma {:induction false} SignificantIs(zeros: seq<nat>, s: seq<nat>, base: nat)
    requires AllZero(zeros) && (s != [] ==> s[0] != 0) && base > 0
    ensures Significant(zeros + s) == s && Num(zeros + s, base) == Num(s, base)
  {
    hide Pow, Num;
    NumConcat(zeros, s, base);
    NumZeros(zeros, base);
    SkipsZeros(zeros, s);
  }

  lemma {:induction false} SkipsZeros(zeros: seq<nat>, s: seq<nat>)
    requires AllZero(zeros) && (s != [] ==> s[0] != 0)
    ensures Significant(zeros + s) == s
  {
    if zeros == [] {
      assert zeros + s == s;
    } else {
      assert (zeros + s)[1..] == zeros[1..] + s;
      SkipsZeros(zeros[1..], s);
    }
  }

  // ---------------------------------------------------------------------------
  // Exponents and whole texts

  // 'e' for radix 10; '@' for the powers of two, and 'p', which counts bits.
  predicate IsMarker(c: char, x: Radix) {
    if x.odd == 5 then c == 'e' || c == 'E' else c == '@' || (x.shift <= 4 && IsBinaryMarker(c))
  }

  predicate IsBinaryMarker(c: char) {
    c == 'p' || c == 'P'
  }

  // Decimal digits from p on, and where they end.
  function DecimalRun(text: string, p: nat): (r: (seq<nat>, nat))
    decreases |text| - p
  {
    var c := ToDigit(CharAt(text, p));
    if c >= 10 || p >= |text| then ([], p)
    else
      var r := DecimalRun(text, p + 1);
      ([c] + r.0, r.1)
  }

  // The exponent behind the marker at p: its sign, its digits, and where it ends.
  function ExponentText(text: string, p: nat): (r: (bool, seq<nat>, nat)) {
    var neg := CharAt(text, p + 1) == '-';
    var d := DecimalRun(text, if neg || CharAt(text, p + 1) == '+' then p + 2 else p + 1);
    (neg, d.0, d.1)
  }

  // A text is no number, or infinity, or digits with a sign, a point and an exponent.
  datatype Literal =
    | NotANumber
    | Infinite(neg: bool, end: nat)
    | Literal(neg: bool, digits: seq<nat>, frac: nat, exponent: int, binary: bool, end: nat)

  function AfterSign(text: string): (p: nat) {
    if CharAt(text, 0) == '+' || CharAt(text, 0) == '-' then 1 else 0
  }

  // 0x is accepted in front of hexadecimal digits.
  function AfterPrefix(text: string, p: nat, x: Radix): (q: nat) {
    if x.odd == 1 && x.shift == 4 && CharAt(text, p) == '0' && (CharAt(text, p + 1) == 'x' || CharAt(text, p + 1) == 'X')
    then p + 2
    else p
  }

  const INFINITY_TEXT := "Infinity"

  predicate StartsWith(text: string, p: nat, word: string) {
    p + |word| <= |text| && text[p..p + |word|] == word
  }

  function ParseText(text: string, x: Radix): (l: Literal)
    requires RadixOk(x)
  {
    var neg, start := CharAt(text, 0) == '-', AfterSign(text);
    var p := AfterPrefix(text, start, x);
    if StartsWith(text, start, INFINITY_TEXT) then Infinite(neg, start + |INFINITY_TEXT|)
    else if p > start && ToDigit(CharAt(text, p)) >= Base(x) then NotANumber
    else ParseNumber(text, start, p, x, neg)
  }

  function ParseNumber(text: string, start: nat, p: nat, x: Radix, neg: bool): (l: Literal)
    requires RadixOk(x)
  {
    var r := ScanNumber(text, p, start, Base(x), false);
    if r.end <= start then NotANumber
    else if !IsMarker(CharAt(text, r.end), x) then Literal(neg, r.digits, r.frac, 0, false, r.end)
    else
      var e := ExponentText(text, r.end);
      var n: int := Num(e.1, 10);
      if e.1 == [] then NotANumber
      else Literal(neg, r.digits, r.frac, if e.0 then -n else n, IsBinaryMarker(CharAt(text, r.end)), e.2)
  }

  // The integer the digits are read as. In radix 10 the ones from the 39th on are taken for
  // zeros.
  function ReadDigits(ds: seq<nat>, x: Radix): (n: nat)
    requires RadixOk(x)
  {
    var s, most := Significant(ds), ATOD_MAX_DIGITS[Base(x) - 2];
    if x.odd == 1 || |s| <= most then Num(ds, Base(x))
    else Num(s[..most], Base(x)) * Pow(Base(x), |s| - most)
  }

  // Nothing is lost if the digits beyond the 38th are zeros.
  lemma {:induction false} ReadDigitsExact(ds: seq<nat>, x: Radix)
    requires RadixOk(x)
    requires x.odd == 1 || |Significant(ds)| <= 38 || AllZero(Significant(ds)[38..])
    ensures ReadDigits(ds, x) == Num(ds, Base(x))
  {
    hide Pow, Num;
    var s, most := Significant(ds), ATOD_MAX_DIGITS[Base(x) - 2];
    if x.odd == 5 && |s| > most {
      NumSignificant(ds, Base(x));
      assert s == s[..most] + s[most..];
      NumConcat(s[..most], s[most..], Base(x));
      NumZeros(s[most..], Base(x));
    }
  }

  lemma {:induction false} NumSignificant(ds: seq<nat>, base: nat)
    requires base > 0
    ensures Num(ds, base) == Num(Significant(ds), base)
  {
    var zeros := LeadingZeros(ds);
    SignificantIs(zeros, Significant(ds), base);
  }

  lemma {:induction false} LeadingZeros(ds: seq<nat>) returns (zeros: seq<nat>)
    ensures AllZero(zeros) && ds == zeros + Significant(ds)
  {
    zeros := [];
    if ds != [] && ds[0] == 0 {
      zeros := LeadingZeros(ds[1..]);
      zeros := [0] + zeros;
      assert ds == [0] + ds[1..];
    }
  }

  // n * radix^(e - frac), or n * radix^-frac * 2^e for a binary exponent
  ghost function Magnitude(n: nat, x: Radix, frac: nat, e: int, binary: bool): (y: real)
    requires RadixOk(x)
  {
    (n as real) * (RPow(Base(x), (if binary then 0 else e) - frac) * RPow(2, if binary then e else 0))
  }
}
