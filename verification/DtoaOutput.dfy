// js_dtoa of dtoa.c in free format and radix 10: the text of a double.
module DtoaOutput {
  import opened Powers
  import opened Limbs
  import opened Rounding
  import opened Bignum
  import opened Scaling
  import opened Doubles
  import opened FreeFormat
  import opened DoubleBits
  import opened AtodText

  // ---------------------------------------------------------------------------
  // DecimalDigits as characters

  function DigitChar(d: nat): (c: char)
    requires d < 10
    ensures ToDigit(c) == d && '0' <= c <= '9'
  {
    ('0' as int + d) as char
  }

  function Text(ds: seq<nat>): (s: string)
    requires DigitsOk(ds, 10)
    ensures |s| == |ds| && forall k :: 0 <= k < |ds| ==> s[k] == DigitChar(ds[k])
  {
    seq(|ds|, k requires 0 <= k < |ds| => DigitChar(ds[k]))
  }

  // The last n decimal digits of v.
  function DecimalDigits(v: nat, n: nat): (ds: seq<nat>)
    ensures |ds| == n && DigitsOk(ds, 10)
  {
    if n == 0 then [] else DecimalDigits(v / 10, n - 1) + [v % 10]
  }

  // All decimal digits of v, at least one.
  function Shortest(v: nat): (ds: seq<nat>)
    ensures |ds| > 0 && DigitsOk(ds, 10)
  {
    if v < 10 then [v] else Shortest(v / 10) + [v % 10]
  }

  lemma {:induction false} DigitsSplit(v: nat, n: nat, k: nat)
    ensures Pow(10, k) > 0 && DecimalDigits(v, n + k) == DecimalDigits(v / Pow(10, k), n) + DecimalDigits(v, k)
  {
    hide Pow, DecimalDigits;
    PowPositive(10, k);
    PowOne(10);
    if k > 0 {
      PowPositive(10, k - 1);
      DigitsSplit(v / 10, n, k - 1);
      PowStep(10, k - 1);
      DivisionsCompose(v, 10, Pow(10, k - 1));
      LastOfDigits(v, n + k);
      LastOfDigits(v, k);
      var a, b, c := DecimalDigits(v / Pow(10, k), n), DecimalDigits(v / 10, k - 1), [v % 10];
      assert a + b + c == a + (b + c);
    } else {
      NoDecimalDigits(v);
    }
  }

  lemma {:induction false} LastOfDigits(v: nat, n: nat)
    requires n > 0
    ensures DecimalDigits(v, n) == DecimalDigits(v / 10, n - 1) + [v % 10]
  {
  }

  lemma {:induction false} NoDecimalDigits(v: nat)
    ensures DecimalDigits(v, 0) == []
  {
  }

  // Only the last digits count.
  lemma {:induction false} DigitsMod(v: nat, k: nat, n: nat)
    requires n <= k
    ensures Pow(10, k) > 0 && DecimalDigits(v % Pow(10, k), n) == DecimalDigits(v, n)
    decreases n
  {
    hide Pow;
    PowPositive(10, k);
    if n > 0 {
      PowPositive(10, k - 1);
      PowStep(10, k - 1);
      DigitsMod(v / 10, k - 1, n - 1);
      ModParts(v, Pow(10, k - 1));
    }
  }

  lemma {:induction false} ModParts(v: nat, p: nat)
    requires p > 0
    ensures v % (10 * p) / 10 == v / 10 % p && v % (10 * p) % 10 == v % 10
  {
    var q, r := DivMod(v / 10, p);
    var d := v % 10;
    assert v == 10 * (q * p + r) + d;
    assert q * (10 * p) == 10 * (q * p) by {
      MulAssoc(q, 10, p);
      MulAssoc(10, q, p);
    }
    UniqueQuotient(v, 10 * p, q, 10 * r + d);
  }

  lemma {:induction false} ShortestSplit(v: nat, k: nat)
    requires v >= Pow(10, k)
    ensures Pow(10, k) > 0 && Shortest(v) == Shortest(v / Pow(10, k)) + DecimalDigits(v, k)
  {
    hide Pow;
    PowPositive(10, k);
    PowOne(10);
    if k > 0 {
      PowPositive(10, k - 1);
      PowStep(10, k - 1);
      ShortestSplit(v / 10, k - 1);
      DivisionsCompose(v, 10, Pow(10, k - 1));
      var a, b, c := Shortest(v / Pow(10, k)), DecimalDigits(v / 10, k - 1), [v % 10];
      assert a + b + c == a + (b + c);
    } else {
      assert DecimalDigits(v, 0) == [];
    }
  }

  lemma {:induction false} TextConcat(a: seq<nat>, b: seq<nat>)
    requires DigitsOk(a, 10) && DigitsOk(b, 10)
    ensures DigitsOk(a + b, 10) && Text(a + b) == Text(a) + Text(b)
  {
  }

  // The digits stand for the number.
  lemma {:induction false} DigitsNum(v: nat, n: nat)
    ensures Pow(10, n) > 0 && Num(DecimalDigits(v, n), 10) == v % Pow(10, n)
  {
    hide Pow, Num;
    PowPositive(10, n);
    PowOne(10);
    NumSnoc([], 0, 10);
    if n > 0 {
      PowPositive(10, n - 1);
      PowStep(10, n - 1);
      DigitsNum(v / 10, n - 1);
      NumSnoc(DecimalDigits(v / 10, n - 1), v % 10, 10);
      ModParts(v, Pow(10, n - 1));
    }
  }

  lemma {:induction false} ShortestNum(v: nat)
    ensures Num(Shortest(v), 10) == v
  {
    hide Num;
    NumSnoc([], v % 10, 10);
    assert [] + [v % 10] == [v % 10];
    if v >= 10 {
      ShortestNum(v / 10);
      NumSnoc(Shortest(v / 10), v % 10, 10);
    }
  }

  lemma {:induction false} ShortestLength(v: nat, n: nat)
    requires 0 < n && v < Pow(10, n)
    ensures |Shortest(v)| <= n
  {
    hide Pow;
    PowOne(10);
    if v >= 10 {
      PowStep(10, n - 1);
      ShortestLength(v / 10, n - 1);
    }
  }

  // ---------------------------------------------------------------------------
  // Printing integers

  lemma {:induction false} DigitsNone(v: nat)
    ensures DecimalDigits(v, 0) == []
  {
  }

  lemma {:induction false} DigitsLast(v: nat, i: nat, done: seq<nat>)
    ensures DecimalDigits(v, i + 1) + done == DecimalDigits(v / 10, i) + ([v % 10] + done)
  {
    var a := DecimalDigits(v / 10, i);
    assert a + [v % 10] + done == a + ([v % 10] + done);
  }

  lemma {:induction false} TextCons(d: nat, ds: seq<nat>)
    requires d < 10 && DigitsOk(ds, 10)
    ensures DigitsOk([d] + ds, 10) && Text([d] + ds) == [DigitChar(d)] + Text(ds)
  {
  }

  // u32toa_len: the last digits of n, in place.
  method U32toaLen(buf: array<char>, pos: nat, n: nat, len: nat)
    requires pos + len <= buf.Length
    modifies buf
    ensures buf[pos..pos + len] == Text(DecimalDigits(n, len))
    ensures buf[..pos] == old(buf[..pos]) && buf[pos + len..] == old(buf[pos + len..])
  {
    hide Text, DecimalDigits;
    var v, i := n, len;
    ghost var done: seq<nat> := [];
    assert buf[pos + i..pos + len] == Text(done);
    assert DecimalDigits(v, i) == DecimalDigits(v, i) + done;
    while i > 0
      invariant 0 <= i <= len && |done| == len - i && DigitsOk(done, 10)
      invariant DecimalDigits(n, len) == DecimalDigits(v, i) + done
      invariant buf[pos + i..pos + len] == Text(done)
      invariant buf[..pos] == old(buf[..pos]) && buf[pos + len..] == old(buf[pos + len..])
    {
      i := i - 1;
      ghost var t := buf[pos + i + 1..pos + len];
      buf[pos + i] := DigitChar(v % 10);
      assert buf[pos + i..pos + len] == [DigitChar(v % 10)] + t;
      TextCons(v % 10, done);
      DigitsLast(v, i, done);
      done := [v % 10] + done;
      v := v / 10;
    }
    DigitsNone(v);
    assert [] + done == done;
  }

  // u32toa: all digits of n, from the end of a local buffer.
  method U32toa(n: Limb) returns (s: string)
    ensures s == Text(Shortest(n))
  {
    hide Pow, Text, Shortest;
    var buf1, q, v := new char[10], 10, n;
    ghost var done: seq<nat> := [];
    TenthPower();
    PowOne(10);
    assert Shortest(v) + done == Shortest(v);
    while true
      invariant 1 <= q <= 10 && |done| == 10 - q && DigitsOk(done, 10) && 0 <= v < Pow(10, q)
      invariant Shortest(n) == Shortest(v) + done && buf1[q..] == Text(done)
      decreases q
    {
      q := q - 1;
      PowStep(10, q);
      ghost var t := buf1[q + 1..];
      buf1[q] := DigitChar(v % 10);
      assert buf1[q..] == [DigitChar(v % 10)] + t;
      TextCons(v % 10, done);
      ShortestLast(v, done);
      done := [v % 10] + done;
      if v < 10 {
        break;
      }
      v := v / 10;
    }
    s := buf1[q..];
  }

  lemma {:induction false} ShortestLast(v: nat, done: seq<nat>)
    ensures Shortest(v) + done == if v < 10 then [v % 10] + done else Shortest(v / 10) + ([v % 10] + done)
  {
    if v >= 10 {
      var a := Shortest(v / 10);
      assert a + [v % 10] + done == a + ([v % 10] + done);
    }
  }

  lemma {:induction false} TenthPower()
    ensures Pow(10, 9) == 1_000_000_000 && Pow(10, 10) == 10_000_000_000 && Pow(10, 18) == 1_000_000_000_000_000_000
  {
    hide Pow;
    NinthPower();
    PowStep(10, 9);
    PowAdd(10, 9, 9);
  }

  // u64toa: up to three blocks of nine digits.
  method U64toa(n: nat) returns (s: string)
    requires n < BASE2
    ensures s == Text(Shortest(n))
  {
    hide Pow, DecimalDigits, Shortest;
    if n < BASE {
      s := U32toa(n);
      return;
    }
    TenthPower();
    var n1, low := n / 1_000_000_000, n % 1_000_000_000;
    ShortestSplit(n, 9);
    DigitsMod(n, 9, 9);
    if n1 >= BASE {
      var n2, mid := n1 / 1_000_000_000, n1 % 1_000_000_000;
      ShortestSplit(n1, 9);
      DigitsMod(n1, 9, 9);
      // at most two digits
      s := TwoDigits(n2);
      s := AppendBlock(s, mid, Shortest(n2));
    } else {
      s := U32toa(n1);
    }
    s := AppendBlock(s, low, Shortest(n1));
  }

  method TwoDigits(n2: nat) returns (s: string)
    requires n2 < 100
    ensures s == Text(Shortest(n2))
  {
    s := "";
    var d := n2;
    if d >= 10 {
      s := [DigitChar(d / 10)];
      d := d % 10;
      assert Shortest(n2) == Shortest(n2 / 10) + [n2 % 10];
      assert Shortest(n2 / 10) == [n2 / 10];
    }
    s := s + [DigitChar(d)];
  }

  method AppendBlock(s0: string, n: nat, ghost ds: seq<nat>) returns (s: string)
    requires DigitsOk(ds, 10) && s0 == Text(ds)
    ensures s == Text(ds + DecimalDigits(n, 9))
  {
    hide DecimalDigits;
    var w := new char[9];
    U32toaLen(w, 0, n, 9);
    TextConcat(ds, DecimalDigits(n, 9));
    assert w[..] == w[0..9];
    s := s0 + w[..];
  }

  // ---------------------------------------------------------------------------
  // Printing the digits of a bignum

  function WithPoint(s: string, dot: nat): (r: string)
    requires dot <= |s|
  {
    if dot == |s| then s else s[..dot] + "." + s[dot..]
  }

  // output_digits in radix 10: nine digits at a time, from the last ones, and then the point.
  method OutputDigits(a: Mpb, n1: nat, dotPos: nat) returns (s: string)
    requires a.Valid() && a.Normal() && dotPos <= n1
    modifies a, a.tab
    ensures s == WithPoint(Text(DecimalDigits(old(a.Val()), n1)), dotPos)
  {
    hide Pow, DecimalDigits, Value, Scale;
    var n, buf := n1, new char[n1];
    ghost var v, done := a.Val(), [];
    TenthPower();
    while n != 0
      invariant 0 <= n <= n1 && a.Valid() && a.Normal() && fresh(buf)
      invariant |done| == n1 - n && DigitsOk(done, 10) && DecimalDigits(v, n1) == DecimalDigits(a.Val(), n) + done && buf[n..] == Text(done)
      decreases n
    {
      var k := if n < 9 then n else 9;
      n := n - k;
      done := OutputBlock(a, buf, n, k, done);
    }
    DigitsNone(a.Val());
    assert DecimalDigits(v, n1) == done && buf[..] == buf[0..];
    s := buf[..];
    if dotPos != n1 {
      s := s[..dotPos] + "." + s[dotPos..];
    }
  }

  // The next digits in front of the ones that are done.
  method OutputBlock(a: Mpb, buf: array<char>, n: nat, k: nat, ghost done0: seq<nat>) returns (ghost done: seq<nat>)
    requires a.Valid() && a.Normal() && k <= 9 && (k < 9 ==> n == 0) && n + k + |done0| == buf.Length
    requires DigitsOk(done0, 10) && buf[n + k..] == Text(done0)
    modifies a, a.tab, buf
    ensures a.Valid() && a.Normal() && |done| == k + |done0| && DigitsOk(done, 10) && buf[n..] == Text(done)
    ensures DecimalDigits(old(a.Val()), n + k) + done0 == DecimalDigits(a.Val(), n) + done
  {
    hide Pow, DecimalDigits, Value, Scale;
    ghost var w := a.Val();
    var r := LastDigits(a);
    ghost var v := a.Val();
    NineDigits(w, n, k, v, r);
    U32toaLen(buf, n, r, k);
    JoinBlocks(buf[..], n, k, DecimalDigits(r, k), done0, DecimalDigits(v, n));
    done := DecimalDigits(r, k) + done0;
  }

  // The last nine digits are taken off.
  method LastDigits(a: Mpb) returns (r: Limb)
    requires a.Valid() && a.Normal()
    modifies a, a.tab
    ensures a.Valid() && a.Normal() && a.Val() == old(a.Val()) / 1_000_000_000 && r == old(a.Val()) % 1_000_000_000
  {
    hide Value, Scale;
    ghost var w := a.Val();
    r := Div1(a.tab, a.len, 1_000_000_000, 0);
    UniqueQuotient(w, 1_000_000_000, a.Val(), r);
    a.Renorm();
  }

  lemma {:induction false} JoinBlocks(b: string, n: nat, k: nat, block: seq<nat>, done: seq<nat>, front: seq<nat>)
    requires n + k <= |b| && DigitsOk(block, 10) && DigitsOk(done, 10) && b[n..n + k] == Text(block) && b[n + k..] == Text(done)
    ensures DigitsOk(block + done, 10) && b[n..] == Text(block + done) && front + block + done == front + (block + done)
  {
    hide Text;
    TextConcat(block, done);
    assert b[n..] == b[n..n + k] + b[n + k..];
  }

  // One block of digits. The blocks in front of the first are empty.
  lemma {:induction false} NineDigits(w: nat, n: nat, k: nat, q: nat, r: nat)
    requires k <= 9 && (k < 9 ==> n == 0) && q == w / 1_000_000_000 && r == w % 1_000_000_000
    ensures DecimalDigits(w, n + k) == DecimalDigits(q, n) + DecimalDigits(r, k)
  {
    hide Pow;
    TenthPower();
    DigitsSplit(w, n, k);
    DigitsMod(w, 9, k);
  }

  // ---------------------------------------------------------------------------
  // js_dtoa

  datatype ExponentMode = Auto | Enabled | Disabled

  // dtoa_max_digits_table[10 - 2] + 4
  const E_MAX := 21

  function Zeros(n: nat): (ds: seq<nat>)
    ensures |ds| == n && DigitsOk(ds, 10) && AllZero(ds)
  {
    seq(n, _ => 0)
  }

  predicate Scientific(mode: ExponentMode, e: int) {
    mode == Enabled || (mode == Auto && (e <= -6 || e > E_MAX))
  }

  function SignText(neg: bool): (s: string) {
    if neg then "-" else ""
  }

  function ExponentPart(e: int): (s: string) {
    "e" + (if e < 0 then "-" else "+") + Text(Shortest(Abs(e)))
  }

  // The layout of p digits of mant with the exponent e: with an exponent, as a fraction, or
  // as a number with an integer part.
  function Layout(mode: ExponentMode, mant: nat, p: nat, e: int): (s: string)
    requires p >= 1
  {
    var t := Text(DecimalDigits(mant, p));
    if Scientific(mode, e) then
      WithPoint(t, 1) + ExponentPart(e - 1)
    else if e <= 0 then "0." + Text(Zeros(-e)) + t
    else WithPoint(t, Min(p, e)) + Text(Zeros(Max0(e - p)))
  }

  // The output part: tmp holds the digits.
  method PutNumber(tmp: Mpb, mode: ExponentMode, p: nat, e0: int, q0: string) returns (q: string)
    requires tmp.Valid() && tmp.Normal() && p >= 1 && -10_000 < e0 < 10_000
    modifies tmp, tmp.tab
    ensures q == q0 + Layout(mode, old(tmp.Val()), p, e0)
  {
    hide Pow, DecimalDigits, Value, Scale, Shortest, WithPoint, Text, ExponentPart;
    ghost var v := tmp.Val();
    var e := e0;
    q := q0;
    if mode == Enabled || (mode == Auto && (e <= -6 || e > E_MAX)) {
      var d := OutputDigits(tmp, p, 1);
      q := PutExponent(q + d, e - 1);
      Append(q0, d, ExponentPart(e - 1), "");
    } else if e <= 0 {
      q := q + "0.";
      q := PutZeros(q, -e);
      var d := OutputDigits(tmp, p, p);
      q := q + d;
      NoPoint(Text(DecimalDigits(v, p)));
      Append(q0, "0.", Text(Zeros(-e)), d);
    } else {
      var d := OutputDigits(tmp, p, Min(p, e));
      q := q + d;
      q := PutZeros(q, Max0(e - p));
      Append(q0, d, Text(Zeros(Max0(e - p))), "");
    }
  }

  lemma {:induction false} Append(q: string, a: string, b: string, c: string)
    ensures q + a + b + c == q + (a + b + c) && q + a + b == q + (a + b)
  {
  }

  lemma {:induction false} NoPoint(s: string)
    ensures WithPoint(s, |s|) == s
  {
  }

  method PutExponent(q0: string, e0: int) returns (q: string)
    requires -100_000 < e0 < 100_000
    ensures q == q0 + ExponentPart(e0)
  {
    hide Shortest;
    q := q0 + "e";
    var e := e0;
    if e < 0 {
      q := q + "-";
      e := -e;
    } else {
      q := q + "+";
    }
    var x := U32toa(e);
    q := q + x;
  }

  method PutZeros(q0: string, n: nat) returns (q: string)
    ensures q == q0 + Text(Zeros(n))
  {
    q := q0;
    var i := 0;
    while i < n
      invariant 0 <= i <= n && q == q0 + Text(Zeros(i))
    {
      q := q + "0";
      assert Text(Zeros(i + 1)) == Text(Zeros(i)) + "0";
      i := i + 1;
    }
  }

  // Integers of at most 53 bits are printed as they are.
  predicate FastInteger(m: nat, e: int, mode: ExponentMode) {
    1 <= e <= 53 && (PowPositive(2, 53 - e); m % Pow(2, 53 - e) == 0) && mode != Enabled
  }

  function IntegerOf(m: nat, e: int): (v: nat)
    requires 1 <= e <= 53
  {
    PowPositive(2, 53 - e);
    m / Pow(2, 53 - e)
  }

  // The text of the 64 bits a.
  ghost predicate IsPrinted(a: nat, mode: ExponentMode, minusZero: bool, s: string) {
    var neg, b := a >= SIGN, a % SIGN;
    if b > INFINITE then s == "NaN"
    else if b == INFINITE then s == SignText(neg) + INFINITY_TEXT
    else if b == 0 then s == SignText(neg && minusZero) + Layout(mode, 0, 1, 1)
    else
      var (m, e) := Decode(b);
      if FastInteger(m, e, mode) then s == SignText(neg) + Text(Shortest(IntegerOf(m, e)))
      else exists mant: nat, p: int, k: int :: FreeDigits(m, e, mant, p, k) && s == SignText(neg) + Layout(mode, mant, p, k)
  }

  // js_dtoa for radix 10 in free format.
  method JsDtoa(a: nat, mode: ExponentMode, minusZero: bool) returns (q: string)
    requires a < 2 * SIGN
    ensures IsPrinted(a, mode, minusZero, q)
  {
    hide Pow, RPow, Decode, RoundsTo, Closest, NoneRounds, Decimal, Layout, Value, Scale, FreeDigits;
    var neg, b := a >= SIGN, a % SIGN;
    q := "";
    if b >= INFINITE {
      if b == INFINITE {
        if neg {
          q := "-";
        }
        q := q + INFINITY_TEXT;
      } else {
        q := "NaN";
      }
    } else if b == 0 {
      var tmp := new Mpb(BIGNUM_LEN);
      if neg && minusZero {
        q := "-";
      }
      q := PutNumber(tmp, mode, 1, 1, q);
    } else {
      if neg {
        q := "-";
      }
      var (m, e) := Decode(b);
      DecodeIsDouble(b);
      PowPositive(2, Max0(53 - e));
      if 1 <= e <= 53 && m % Pow(2, 53 - e) == 0 && mode != Enabled {
        IntegerFits(m, e);
        var t := U64toa(m / Pow(2, 53 - e));
        q := q + t;
      } else {
        q := PutShortest(m, e, mode, q);
      }
    }
  }

  lemma {:induction false} IntegerFits(m: nat, e: int)
    requires IsDouble(m, e) && 1 <= e <= 53
    ensures Pow(2, 53 - e) > 0 && m / Pow(2, 53 - e) < BASE2
  {
    hide Pow;
    PowPositive(2, 53 - e);
    var q, r := DivMod(m, Pow(2, 53 - e));
    MulMono(1, Pow(2, 53 - e), q);
  }

  method PutShortest(m: nat, e: int, mode: ExponentMode, q0: string) returns (q: string)
    requires IsDouble(m, e)
    ensures exists mant: nat, p: int, k: int :: FreeDigits(m, e, mant, p, k) && q == q0 + Layout(mode, mant, p, k)
  {
    hide Pow, RPow, RoundsTo, Closest, NoneRounds, Decimal, Layout, Value, Scale, Symmetric, IsDouble, Attempt, NearestConverts, Missed;
    var mant, p, k := FreeFormat10(m, e);
    FreeDigitsCorrect(m, e, mant, p, k);
    var tmp := new Mpb(BIGNUM_LEN);
    MantissaFits(mant, p);
    tmp.SetU64(mant);
    q := PutNumber(tmp, mode, p, k, q0);
    assert FreeDigits(m, e, mant, p, k);
  }

  lemma {:induction false} MantissaFits(mant: nat, p: int)
    requires 1 <= p <= MAX_DIGITS && mant < Pow(10, p)
    ensures mant < BASE2
  {
    hide Pow;
    PowerFits(p);
  }
}
