// The code re_parse_term, re_parse_alternative and re_parse_disjunction emit for a pattern,
// as a list of instructions. Jump offsets are byte distances from the end of the jump.
module RegexAsm {
  import opened Bytes
  import opened CharRange
  import opened RegexOpcode
  import Spec = RegexSpec

  type Asm = seq<Instr>

  function Length(a: Asm): (n: nat) {
    if a == [] then 0 else Size(a[0]) + Length(a[1..])
  }

  function Assemble(a: Asm): (b: seq<Byte>)
    ensures |b| == Length(a)
  {
    if a == [] then [] else Encode(a[0]) + Assemble(a[1..])
  }

  predicate AllValid(a: Asm) {
    forall i :: 0 <= i < |a| ==> ValidInstr(a[i])
  }

  lemma {:induction false} LengthConcat(a: Asm, b: Asm)
    ensures Length(a + b) == Length(a) + Length(b)
  {
    if a == [] {
      assert a + b == b;
    } else {
      assert (a + b)[1..] == a[1..] + b;
      LengthConcat(a[1..], b);
    }
  }

  lemma {:induction false} AssembleConcat(a: Asm, b: Asm)
    ensures Assemble(a + b) == Assemble(a) + Assemble(b)
  {
    if a == [] {
      assert a + b == b;
    } else {
      assert (a + b)[1..] == a[1..] + b;
      AssembleConcat(a[1..], b);
      assert Encode(a[0]) + (Assemble(a[1..]) + Assemble(b)) == Encode(a[0]) + Assemble(a[1..]) + Assemble(b);
    }
  }

  // ---------------------------------------------------------------------------
  // The scans of the emitted code that decide how a quantifier is compiled.

  predicate IsCharInstr(i: Instr) {
    i.Char? || i.Char32? || i.Range? || i.Range32? || i.Dot? || i.AnyChar?
  }

  predicate IsAssertion(i: Instr) {
    i.LineStart? || i.LineEnd? || i.WordBoundary?
  }

  // Opcodes that re_need_check_advance takes to leave the position alone.
  predicate IsNeutral(i: Instr) {
    IsAssertion(i) || i.PushI32? || i.PushCharPos? || i.Drop? || i.Prev? || i.SaveStart? || i.SaveEnd? || i.SaveReset?
  }

  predicate Linear(a: Asm) {
    forall i :: 0 <= i < |a| ==> IsCharInstr(a[i]) || IsNeutral(a[i])
  }

  predicate Simple(a: Asm) {
    forall i :: 0 <= i < |a| ==> IsCharInstr(a[i]) || IsAssertion(a[i])
  }

  function CharCount(a: Asm): (n: nat) {
    if a == [] then 0 else (if IsCharInstr(a[0]) then 1 else 0) + CharCount(a[1..])
  }

  lemma {:induction false} CharCountConcat(a: Asm, b: Asm)
    ensures CharCount(a + b) == CharCount(a) + CharCount(b)
  {
    if a == [] {
      assert a + b == b;
    } else {
      assert (a + b)[1..] == a[1..] + b;
      CharCountConcat(a[1..], b);
    }
  }

  // re_need_check_advance: whether the code may match without moving the position.
  predicate NeedCheckAdvance(a: Asm) {
    !(Linear(a) && CharCount(a) > 0)
  }

  // re_is_simple_quantifier: the number of characters matched by simple code, else -1.
  function SimpleCount(a: Asm): (n: int) {
    if Simple(a) then CharCount(a) else -1
  }

  // ---------------------------------------------------------------------------
  // Quantifiers

  // One iteration beyond the minimum count; unless the atom always advances, it is wrapped
  // in the test that it did.
  function Guarded(a: Asm, check: bool): (r: Asm) {
    if check then [PushCharPos] + a + [CheckAdvance] else a
  }

  // A split, then one guarded copy of the atom; the split jumps "extra" bytes past it.
  function Iteration(a: Asm, check: bool, greedy: bool, extra: int): (r: Asm) {
    var c := if check then 2 else 0;
    [Split(!greedy, Length(a) + c + extra)] + Guarded(a, check)
  }

  function Star(a: Asm, check: bool, greedy: bool): (r: Asm) {
    var c := if check then 2 else 0;
    Iteration(a, check, greedy, 5) + [Goto(-(Length(a) + c + 10))]
  }

  function UpTo(a: Asm, check: bool, greedy: bool, n: int): (r: Asm) {
    var c := if check then 2 else 0;
    [PushI32(n)] + Iteration(a, check, greedy, 5) + [Loop(-(Length(a) + c + 10)), Drop]
  }

  function Exactly(a: Asm, n: int): (r: Asm) {
    [PushI32(n)] + a + [Loop(-(Length(a) + 5)), Drop]
  }

  function Plus(a: Asm, greedy: bool): (r: Asm) {
    a + [Split(greedy, -(Length(a) + 5))]
  }

  function SimpleQuant(a: Asm, min: int, max: int): (r: Asm) {
    [SimpleGreedyQuant(Length(a) + 1, min, max, CharCount(a))] + a + [Match]
  }

  function Reset(firstCapture: nat, nextCapture: nat): (r: Asm) {
    if firstCapture != nextCapture then [SaveReset(firstCapture, nextCapture - 1)] else []
  }

  // The part of a quantifier up to its minimum count.
  function Mandatory(a: Asm, min: int): (r: Asm) {
    if min == 1 then a else Exactly(a, min)
  }

  // The part beyond the minimum count, at most n iterations.
  function Optional(a: Asm, check: bool, greedy: bool, n: int, unbounded: bool): (r: Asm) {
    if unbounded then Star(a, check, greedy)
    else if n > 0 then UpTo(a, check, greedy, n)
    else []
  }

  function QuantAsm(a: Asm, min: int, max: int, greedy: bool, firstCapture: nat, nextCapture: nat): (r: Asm) {
    var check := NeedCheckAdvance(a);
    if greedy && max > 0 && SimpleCount(a) > 0 then SimpleQuant(a, min, max)
    else if min == 0 then
      Reset(firstCapture, nextCapture)
      + (if max == 1 then Iteration(a, check, greedy, 0) else Optional(a, check, greedy, max, max == Spec.INFINITE))
    else if min == 1 && max == Spec.INFINITE && !check then Plus(a, greedy)
    else Mandatory(a, min) + Optional(a, check, greedy, max - min, max == Spec.INFINITE)
  }

  // ---------------------------------------------------------------------------
  // Characters and classes

  function EmitChar(c: int, icase: bool): (i: Instr) {
    if c <= 0xffff then Char(c, icase) else Char32(c, icase)
  }

  // The highest bound that decides between 16-bit and 32-bit tables in re_emit_range.
  function HighBound(p: seq<Point>): (h: int)
    requires |p| >= 2
  {
    if p[|p| - 1] == UINT32_MAX then p[|p| - 2] else p[|p| - 1]
  }

  function Table16(p: seq<Point>): (t: seq<Interval>) {
    seq(|p| / 2, k requires 0 <= k < |p| / 2 =>
      (p[2 * k] as int, if p[2 * k + 1] == UINT32_MAX then 0xffff else (p[2 * k + 1] as int) - 1))
  }

  function Table32(p: seq<Point>): (t: seq<Interval>) {
    seq(|p| / 2, k requires 0 <= k < |p| / 2 => (p[2 * k] as int, (p[2 * k + 1] as int) - 1))
  }

  // re_emit_range
  function EmitRange(p: seq<Point>, icase: bool): (i: Instr) {
    if |p| / 2 == 0 then Char32(0xffff_ffff, false)
    else if HighBound(p) <= 0xffff then Range(icase, Table16(p))
    else Range32(icase, Table32(p))
  }

  // The canonical forms of the characters lo, ..., hi, as a canonical range list.
  ghost function ImageSet(canon: int -> int, lo: int, hi: int): (p: seq<Point>)
    requires Spec.CanonOk(canon) && 0 <= lo && hi <= 0x10_FFFF
    decreases hi - lo
  {
    if lo > hi then []
    else Op(Union, ImageSet(canon, lo, hi - 1), [canon(hi), canon(hi) + 1])
  }

  ghost function ItemSet(canon: int -> int, i: Spec.ClassItem, icase: bool): (p: seq<Point>)
    requires Spec.CanonOk(canon) && Spec.WellFormedItem(i)
  {
    match i
    case Single(c) => if icase then [canon(c), canon(c) + 1] else [c, c + 1]
    case Span(lo, hi) => if icase then ImageSet(canon, lo, hi) else [lo, hi + 1]
  }

  // The union re_parse_nested_class builds, item by item.
  ghost function ItemsSet(canon: int -> int, items: seq<Spec.ClassItem>, icase: bool): (p: seq<Point>)
    requires Spec.CanonOk(canon) && forall i :: 0 <= i < |items| ==> Spec.WellFormedItem(items[i])
  {
    if items == [] then []
    else
      var n := |items| - 1;
      Op(Union, ItemsSet(canon, items[..n], icase), ItemSet(canon, items[n], icase))
  }

  ghost function ClassSet(canon: int -> int, items: seq<Spec.ClassItem>, negated: bool, icase: bool): (p: seq<Point>)
    requires Spec.CanonOk(canon) && forall i :: 0 <= i < |items| ==> Spec.WellFormedItem(items[i])
  {
    if negated then Invert(ItemsSet(canon, items, icase)) else ItemsSet(canon, items, icase)
  }

  // The instruction of a one-character pattern.
  ghost function OneChar(canon: int -> int, r: Spec.Node, f: Spec.Flags): (i: Instr)
    requires Spec.CanonOk(canon) && Spec.WellFormed(r) && (r.Literal? || r.Dot? || r.Class?)
    ensures IsCharInstr(i)
  {
    match r
    case Literal(c) => EmitChar(if f.ignoreCase then canon(c) else c, f.ignoreCase)
    case Dot => if f.dotAll then AnyChar else Instr.Dot
    case Class(items, negated) => EmitRange(ClassSet(canon, items, negated, f.ignoreCase), f.ignoreCase)
  }

  function AssertionInstr(r: Spec.Node, f: Spec.Flags): (i: Instr)
    requires r.LineStart? || r.LineEnd? || r.WordBoundary?
    ensures IsAssertion(i)
  {
    match r
    case LineStart => Instr.LineStart(f.multiLine)
    case LineEnd => Instr.LineEnd(f.multiLine)
    case WordBoundary(negated) => Instr.WordBoundary(negated, f.ignoreCase)
  }

  // A character matcher; in a lookbehind it is wrapped between two steps back.
  function Directed(backward: bool, i: Instr): (r: Asm) {
    if backward then [Prev, i, Prev] else [i]
  }

  // ---------------------------------------------------------------------------
  // Patterns. "encode" gives the instruction of a one-character pattern, "capture" is the
  // number of the next capture group.

  type Encoder = (Spec.Node, Spec.Flags) -> Instr

  function Emit(encode: Encoder, r: Spec.Node, f: Spec.Flags, backward: bool, capture: nat): (a: Asm)
    decreases r
  {
    match r
    case Empty => []
    case Literal(_) => Directed(backward, encode(r, f))
    case Dot => Directed(backward, encode(r, f))
    case Class(_, _) => Directed(backward, encode(r, f))
    case LineStart => [AssertionInstr(r, f)]
    case LineEnd => [AssertionInstr(r, f)]
    case WordBoundary(_) => [AssertionInstr(r, f)]
    case Seq(x, y) =>
      var a := Emit(encode, x, f, backward, capture);
      var b := Emit(encode, y, f, backward, capture + Spec.Captures(x));
      if backward then b + a else a + b
    case Alt(x, y) =>
      AltAsm(Emit(encode, x, f, backward, capture), Emit(encode, y, f, backward, capture + Spec.Captures(x)))
    case Group(x) => Emit(encode, x, f, backward, capture)
    case Capture(x) => CaptureAsm(Emit(encode, x, f, backward, capture + 1), backward, capture)
    case Modifiers(add, remove, x) => Emit(encode, x, Spec.UpdateFlags(f, add, remove), backward, capture)
    case Look(negative, behind, x) => LookAsm(Emit(encode, x, f, behind, capture), negative)
    case Quant(x, min, max, greedy) =>
      QuantAsm(Emit(encode, x, f, backward, capture), min, max, greedy, capture, capture + Spec.Captures(x))
  }

  // What is emitted for each kind of pattern, one at a time.
  lemma {:induction false} EmitSeq(encode: Encoder, x: Spec.Node, y: Spec.Node, f: Spec.Flags, backward: bool, capture: nat)
    ensures var a, b := Emit(encode, x, f, backward, capture), Emit(encode, y, f, backward, capture + Spec.Captures(x));
            Emit(encode, Spec.Seq(x, y), f, backward, capture) == if backward then b + a else a + b
  {
    hide AltAsm, CaptureAsm, LookAsm, QuantAsm, Directed, AssertionInstr, Spec.UpdateFlags, Spec.Captures;
  }

  lemma {:induction false} EmitEmpty(encode: Encoder, f: Spec.Flags, backward: bool, capture: nat)
    ensures Emit(encode, Spec.Empty, f, backward, capture) == []
  {
    hide AltAsm, CaptureAsm, LookAsm, QuantAsm, Directed, AssertionInstr, Spec.UpdateFlags;
  }

  lemma {:induction false} EmitAlt(encode: Encoder, x: Spec.Node, y: Spec.Node, f: Spec.Flags, backward: bool, capture: nat)
    ensures Emit(encode, Spec.Alt(x, y), f, backward, capture) ==
            AltAsm(Emit(encode, x, f, backward, capture), Emit(encode, y, f, backward, capture + Spec.Captures(x)))
  {
    hide AltAsm, CaptureAsm, LookAsm, QuantAsm, Directed, AssertionInstr, Spec.UpdateFlags, Spec.Captures;
  }

  lemma {:induction false} EmitNested(encode: Encoder, x: Spec.Node, f: Spec.Flags, backward: bool, capture: nat)
    ensures Emit(encode, Spec.Group(x), f, backward, capture) == Emit(encode, x, f, backward, capture)
    ensures Emit(encode, Spec.Capture(x), f, backward, capture) == CaptureAsm(Emit(encode, x, f, backward, capture + 1), backward, capture)
  {
    hide AltAsm, CaptureAsm, LookAsm, QuantAsm, Directed, AssertionInstr, Spec.UpdateFlags;
  }

  lemma {:induction false} EmitModifiers(encode: Encoder, x: Spec.Node, add: Spec.Flags, remove: Spec.Flags, f: Spec.Flags, backward: bool, capture: nat)
    ensures Emit(encode, Spec.Modifiers(add, remove, x), f, backward, capture) == Emit(encode, x, Spec.UpdateFlags(f, add, remove), backward, capture)
  {
    hide AltAsm, CaptureAsm, LookAsm, QuantAsm, Directed, AssertionInstr, Spec.UpdateFlags;
  }

  lemma {:induction false} EmitLook(encode: Encoder, x: Spec.Node, negative: bool, behind: bool, f: Spec.Flags, backward: bool, capture: nat)
    ensures Emit(encode, Spec.Look(negative, behind, x), f, backward, capture) == LookAsm(Emit(encode, x, f, behind, capture), negative)
  {
    hide AltAsm, CaptureAsm, LookAsm, QuantAsm, Directed, AssertionInstr, Spec.UpdateFlags;
  }

  lemma {:induction false} EmitQuant(encode: Encoder, x: Spec.Node, min: int, max: int, greedy: bool, f: Spec.Flags, backward: bool, capture: nat)
    ensures Emit(encode, Spec.Quant(x, min, max, greedy), f, backward, capture) ==
            QuantAsm(Emit(encode, x, f, backward, capture), min, max, greedy, capture, capture + Spec.Captures(x))
  {
    hide AltAsm, CaptureAsm, LookAsm, QuantAsm, Directed, AssertionInstr, Spec.UpdateFlags;
  }

  lemma {:induction false} EmitLeaf(encode: Encoder, r: Spec.Node, f: Spec.Flags, backward: bool, capture: nat)
    ensures r.Literal? || r.Dot? || r.Class? ==> Emit(encode, r, f, backward, capture) == Directed(backward, encode(r, f))
    ensures r.LineStart? || r.LineEnd? || r.WordBoundary? ==> Emit(encode, r, f, backward, capture) == [AssertionInstr(r, f)]
  {
    hide AltAsm, CaptureAsm, LookAsm, QuantAsm, Directed, AssertionInstr;
  }

  function AltAsm(a: Asm, b: Asm): (r: Asm) {
    [Split(false, Length(a) + 5)] + a + [Goto(Length(b))] + b
  }

  function CaptureAsm(a: Asm, backward: bool, capture: nat): (r: Asm) {
    if backward then [SaveEnd(capture)] + a + [SaveStart(capture)]
    else [SaveStart(capture)] + a + [SaveEnd(capture)]
  }

  function LookAsm(a: Asm, negative: bool): (r: Asm) {
    [Instr.Look(negative, Length(a) + 1)] + a + [Match]
  }

  // The whole program after its header (lre_compile). Without the sticky flag it starts
  // with a lazy loop over the start positions.
  function Program(encode: Encoder, r: Spec.Node, f: Spec.Flags, sticky: bool): (a: Asm) {
    (if sticky then [] else [Split(true, 6), AnyChar, Goto(-11)])
    + [SaveStart(0)] + Emit(encode, r, f, false, 1) + [SaveEnd(0), Match]
  }
}
