// The subject string of the machine and the macros GET_CHAR, PEEK_CHAR,
// PEEK_PREV_CHAR and PREV_CHAR (libregexp.c). A cursor is an offset in code units;
// with UTF-16 decoding (cbuf_type 2) a character takes one or two units.
module RegexInput {

  type Unit = u: int | 0 <= u < 0x1_0000

  datatype Subject = Subject(units: seq<Unit>, utf16: bool)

  predicate IsHiSurrogate(c: int) {
    0xD800 <= c < 0xDC00
  }

  predicate IsLoSurrogate(c: int) {
    0xDC00 <= c < 0xE000
  }

  function FromSurrogate(hi: int, lo: int): (c: int)
    requires IsHiSurrogate(hi) && IsLoSurrogate(lo)
    ensures 0x1_0000 <= c <= 0x10_FFFF
  {
    0x1_0000 + 0x400 * (hi - 0xD800) + (lo - 0xDC00)
  }

  // Whether units x and x + 1 form a surrogate pair.
  predicate PairAt(s: Subject, x: int) {
    s.utf16 && 0 <= x && x + 1 < |s.units| && IsHiSurrogate(s.units[x]) && IsLoSurrogate(s.units[x + 1])
  }

  // GET_CHAR: the character at the cursor and the cursor after it.
  function GetChar(s: Subject, x: int): (r: (int, int))
    requires 0 <= x < |s.units|
    ensures x < r.1 <= |s.units| && 0 <= r.0 <= 0x10_FFFF
  {
    if PairAt(s, x) then (FromSurrogate(s.units[x], s.units[x + 1]), x + 2) else (s.units[x], x + 1)
  }

  // GET_PREV_CHAR: the character before the cursor and the cursor at its start.
  function GetPrevChar(s: Subject, x: int): (r: (int, int))
    requires 0 < x <= |s.units|
    ensures 0 <= r.1 < x
  {
    if PairAt(s, x - 2) then (FromSurrogate(s.units[x - 2], s.units[x - 1]), x - 2) else (s.units[x - 1], x - 1)
  }

  // The characters of the subject from offset x: its code points in UTF-16 mode,
  // its code units otherwise.
  function CharsFrom(s: Subject, x: int): (cs: seq<int>)
    requires 0 <= x <= |s.units|
    ensures x < |s.units| <==> |cs| > 0
    ensures forall k :: 0 <= k < |cs| ==> 0 <= cs[k] <= 0x10_FFFF
    decreases |s.units| - x
  {
    if x == |s.units| then [] else [GetChar(s, x).0] + CharsFrom(s, GetChar(s, x).1)
  }

  function Chars(s: Subject): (cs: seq<int>)
    ensures forall k :: 0 <= k < |cs| ==> 0 <= cs[k] <= 0x10_FFFF
  {
    CharsFrom(s, 0)
  }

  // The offset of the k-th character counted from offset x.
  function OffsetFrom(s: Subject, x: int, k: nat): (o: int)
    requires 0 <= x <= |s.units| && k <= |CharsFrom(s, x)|
    ensures x <= o <= |s.units|
    decreases k
  {
    if k == 0 then x else OffsetFrom(s, GetChar(s, x).1, k - 1)
  }

  function Offset(s: Subject, k: nat): (o: int)
    requires k <= |Chars(s)|
    ensures 0 <= o <= |s.units|
  {
    OffsetFrom(s, 0, k)
  }

  lemma {:induction false} OffsetFromStep(s: Subject, x: int, k: nat)
    requires 0 <= x <= |s.units| && k < |CharsFrom(s, x)|
    ensures OffsetFrom(s, x, k) < |s.units|
    ensures GetChar(s, OffsetFrom(s, x, k)) == (CharsFrom(s, x)[k], OffsetFrom(s, x, k + 1))
    decreases k
  {
    if k > 0 {
      OffsetFromStep(s, GetChar(s, x).1, k - 1);
    }
  }

  lemma {:induction false} OffsetFromEnd(s: Subject, x: int)
    requires 0 <= x <= |s.units|
    ensures OffsetFrom(s, x, |CharsFrom(s, x)|) == |s.units|
    decreases |s.units| - x
  {
    if x < |s.units| {
      OffsetFromEnd(s, GetChar(s, x).1);
    }
  }

  // Reading forward from the k-th character yields it and moves to the next one.
  lemma {:induction false} GetCharAtOffset(s: Subject, k: nat)
    requires k < |Chars(s)|
    ensures Offset(s, k) < |s.units|
    ensures GetChar(s, Offset(s, k)) == (Chars(s)[k], Offset(s, k + 1))
  {
    OffsetFromStep(s, 0, k);
  }

  lemma {:induction false} OffsetAtEnd(s: Subject)
    ensures Offset(s, |Chars(s)|) == |s.units|
  {
    OffsetFromEnd(s, 0);
  }

  // Offsets of characters never lie between the two units of a surrogate pair.
  lemma {:induction false} OffsetNotInsidePair(s: Subject, k: nat)
    requires k <= |Chars(s)|
    ensures !PairAt(s, Offset(s, k) - 1)
  {
    if k > 0 {
      GetCharAtOffset(s, k - 1);
    }
  }

  // PREV_CHAR undoes GET_CHAR at every character boundary.
  lemma {:induction false} GetPrevCharAtOffset(s: Subject, k: nat)
    requires 0 < k <= |Chars(s)|
    ensures Offset(s, k) > 0
    ensures GetPrevChar(s, Offset(s, k)) == (Chars(s)[k - 1], Offset(s, k - 1))
  {
    GetCharAtOffset(s, k - 1);
    OffsetNotInsidePair(s, k - 1);
  }

  lemma {:induction false} OffsetIncreases(s: Subject, j: nat, k: nat)
    requires j < k <= |Chars(s)|
    ensures Offset(s, j) < Offset(s, k)
    decreases k - j
  {
    GetCharAtOffset(s, j);
    if j + 1 < k {
      OffsetIncreases(s, j + 1, k);
    }
  }

  lemma {:induction false} OffsetInjective(s: Subject, j: nat, k: nat)
    requires j <= |Chars(s)| && k <= |Chars(s)|
    ensures Offset(s, j) == Offset(s, k) <==> j == k
  {
    if j < k {
      OffsetIncreases(s, j, k);
    } else if k < j {
      OffsetIncreases(s, k, j);
    }
  }
}
