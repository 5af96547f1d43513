// The compiler of libregexp.c: it appends to the byte code, inserts into it, patches it and
// moves parts of it. Every method is proved against the instruction list of RegexAsm.
module RegexCompiler {
  import opened Wrappers
  import opened Bytes
  import opened CharRange
  import opened CharSet
  import opened RegexOpcode
  import opened RegexAsm
  import opened RegexClass
  import opened RegexSteps
  import opened RegexScan
  import opened RegexValid
  import opened RegexTerms
  import RegexInput
  import opened RegexMachine
  import opened RegexTheorem
  import Spec = RegexSpec

  datatype Error = TooManyCaptures | TooManyRanges | TooManyQuantifiers | OutOfMemory

  const HEADER_LEN := 8
  const HEADER_CAPTURE_COUNT := 2
  const HEADER_STACK_SIZE := 3
  const HEADER_BYTECODE_LEN := 4

  // ---------------------------------------------------------------------------
  // Byte code and instructions

  // b, followed by the code of a.
  function Out(b: seq<Byte>, a: Asm): (c: seq<Byte>) {
    b + Assemble(a)
  }

  lemma {:induction false} OutNil(b: seq<Byte>)
    ensures Out(b, []) == b
  {
  }

  lemma {:induction false} OutConcat(b: seq<Byte>, a: Asm, c: Asm)
    ensures Out(b, a + c) == Out(Out(b, a), c)
  {
    hide Assemble;
    AssembleConcat(a, c);
    assert b + (Assemble(a) + Assemble(c)) == b + Assemble(a) + Assemble(c);
  }

  lemma {:induction false} OutOne(b: seq<Byte>, i: Instr)
    ensures Out(b, [i]) == b + Encode(i)
  {
    AssembleOne(i);
  }

  lemma {:induction false} OutPrefix(b: seq<Byte>, a: Asm)
    ensures |Out(b, a)| == |b| + Length(a) && Out(b, a)[..|b|] == b && Out(b, a)[|b|..] == Assemble(a)
    ensures At(Out(b, a), |b|, Assemble(a))
  {
  }

  // a, then b, put in front: the code of a + b, with b in the bytes already there.
  lemma {:induction false} OutBefore(b: seq<Byte>, a: Asm, c: Asm)
    ensures Out(b, a + c) == b + Assemble(a) + Assemble(c)
  {
    OutConcat(b, a, c);
  }

  // The case table gives a Canonicalize operation with the properties the standard states.
  ghost function CanonFn(t: CaseTable, unicode: bool): (canon: int -> int)
    requires TableOk(t) && FastPathOk(t, unicode)
    ensures Spec.CanonOk(canon) && forall c: int :: canon(c) == Canon(t, c)
  {
    var canon := (c: int) => Canon(t, c);
    CanonFnOk(t, unicode, canon);
    canon
  }

  lemma {:induction false} CanonFnOk(t: CaseTable, unicode: bool, canon: int -> int)
    requires TableOk(t) && FastPathOk(t, unicode) && forall c: int :: canon(c) == Canon(t, c)
    ensures Spec.CanonOk(canon)
  {
    forall c: int
      ensures 0 <= c <= 0x10_FFFF ==> 0 <= canon(c) <= 0x10_FFFF
      ensures Spec.IsWordChar(c) ==> Spec.IsWordChar(canon(c))
    {
      assert canon(c) == Canon(t, c);
    }
  }

  // The set cr_regexp_canonicalize computes for an interval is the one RegexAsm describes.
  lemma {:induction false} ImageIsUnique(t: CaseTable, unicode: bool, lo: int, hi: int, p: seq<Point>)
    requires TableOk(t) && FastPathOk(t, unicode) && 0 <= lo <= hi <= 0x10_FFFF && Canonical(p)
    requires forall d: int :: In(p, d) <==> exists c :: In([lo, hi + 1], c) && Canon(t, c) == d
    ensures p == ImageSet(CanonFn(t, unicode), lo, hi)
  {
    hide In, CharRange.Canonical, Spec.CanonOk, TableOk, FastPathOk, CanonFn, ImageSet;
    var canon := CanonFn(t, unicode);
    ImageSetCorrect(canon, lo, hi);
    forall d: int
      ensures In(p, d) <==> In(ImageSet(canon, lo, hi), d)
    {
      if In(p, d) {
        var c :| In([lo, hi + 1], c) && Canon(t, c) == d;
        InPair(lo, hi + 1, c);
        assert lo <= c <= hi && canon(c) == d;
      }
      if In(ImageSet(canon, lo, hi), d) {
        var c {:trigger canon(c)} :| lo <= c <= hi && canon(c) == d;
        InPair(lo, hi + 1, c);
        assert In([lo, hi + 1], c) && Canon(t, c) == d;
      }
    }
    CanonicalUnique(p, ImageSet(canon, lo, hi));
  }

  // ---------------------------------------------------------------------------
  // Tables of intervals

  lemma {:induction false} EncodeTable16Append(t: seq<Interval>, x: Interval)
    ensures EncodeTable16(t + [x]) == EncodeTable16(t) + (PutU16(x.0) + PutU16(x.1))
  {
    if t == [] {
      assert ([] + [x])[1..] == [];
      assert [] + [x] == [x];
    } else {
      assert (t + [x])[1..] == t[1..] + [x];
      EncodeTable16Append(t[1..], x);
    }
  }

  lemma {:induction false} EncodeTable32Append(t: seq<Interval>, x: Interval)
    ensures EncodeTable32(t + [x]) == EncodeTable32(t) + (PutU32(x.0) + PutU32(x.1))
  {
    if t == [] {
      assert ([] + [x])[1..] == [];
      assert [] + [x] == [x];
    } else {
      assert (t + [x])[1..] == t[1..] + [x];
      EncodeTable32Append(t[1..], x);
    }
  }

  // ---------------------------------------------------------------------------
  // Code put together from instructions and code already there

  lemma {:induction false} Then(b: seq<Byte>, a: Asm, i: Instr)
    ensures Out(b, a) + Encode(i) == Out(b, a + [i])
  {
    OutConcat(b, a, [i]);
    OutOne(Out(b, a), i);
  }

  lemma {:induction false} Before(b: seq<Byte>, i: Instr, a: Asm)
    ensures b + Encode(i) + Assemble(a) == Out(b, [i] + a)
  {
    OutBefore(b, [i], a);
    AssembleOne(i);
  }

  lemma {:induction false} BeforeTwo(b: seq<Byte>, i: Instr, j: Instr, a: Asm)
    ensures b + (Encode(i) + Encode(j)) + Assemble(a) == Out(b, [i, j] + a)
  {
    OutBefore(b, [i, j], a);
    assert [i, j] == [i] + [j];
    AssembleConcat([i], [j]);
    AssembleOne(i);
    AssembleOne(j);
  }

  // A parsing method succeeds exactly on the patterns within the limits; otherwise it says
  // which limit the pattern exceeds.
  ghost predicate Failure(canon: int -> int, err: Option<Error>, r: Spec.Node, f: Spec.Flags, capture: nat)
    requires Spec.CanonOk(canon) && Spec.WellFormed(r)
  {
    err.Some? ==>
      || (err.value == TooManyCaptures && capture + Spec.Captures(r) > CAPTURE_COUNT_MAX)
      || (err.value == TooManyRanges && !RangesFit(canon, r, f))
  }

  class Compiler {
    var byteCode: seq<Byte>
    var captureCount: nat
    var ignoreCase: bool
    var multiLine: bool
    var dotAll: bool
    const table: CaseTable
    const unicode: bool

    ghost function Flags(): (f: Spec.Flags)
      reads this
    {
      Spec.Flags(ignoreCase, multiLine, dotAll)
    }

    ghost predicate TableValid() {
      TableOk(table) && FastPathOk(table, unicode)
    }

    ghost function Canonical(): (canon: int -> int)
      requires TableValid()
    {
      CanonFn(table, unicode)
    }

    constructor (table: CaseTable, unicode: bool, f: Spec.Flags, header: seq<Byte>)
      ensures this.table == table && this.unicode == unicode && Flags() == f
      ensures byteCode == header && captureCount == 1
    {
      this.table, this.unicode := table, unicode;
      ignoreCase, multiLine, dotAll := f.ignoreCase, f.multiLine, f.dotAll;
      byteCode, captureCount := header, 1;
    }

    // -------------------------------------------------------------------------
    // Emitting one opcode

    method EmitOp(op: Byte)
      modifies `byteCode
      ensures byteCode == old(byteCode) + [op]
    {
      byteCode := byteCode + [op];
    }

    method EmitOpU8(op: Byte, v: int)
      modifies `byteCode
      ensures byteCode == old(byteCode) + [op, v % 0x100]
    {
      byteCode := byteCode + [op, v % 0x100];
    }

    method EmitOpU16(op: Byte, v: int)
      modifies `byteCode
      ensures byteCode == old(byteCode) + ([op] + PutU16(v))
    {
      byteCode := byteCode + ([op] + PutU16(v));
    }

    // The result is the position of the operand.
    method EmitOpU32(op: Byte, v: int) returns (pos: nat)
      modifies `byteCode
      ensures byteCode == old(byteCode) + ([op] + PutU32(v)) && pos == old(|byteCode|) + 1
    {
      pos := |byteCode| + 1;
      byteCode := byteCode + ([op] + PutU32(v));
    }

    // A jump to an absolute position, stored relative to the end of the jump.
    method EmitGoto(op: Byte, target: int)
      modifies `byteCode
      ensures byteCode == old(byteCode) + ([op] + PutU32(target - (old(|byteCode|) + 5)))
    {
      var pos := |byteCode| + 1;
      byteCode := byteCode + ([op] + PutU32(target - (pos + 4)));
    }

    // dbuf_insert: make room for n bytes at pos.
    method Insert(pos: nat, n: nat)
      requires pos <= |byteCode|
      modifies `byteCode
      ensures |byteCode| == old(|byteCode|) + n
      ensures byteCode[..pos] == old(byteCode[..pos]) && byteCode[pos + n..] == old(byteCode[pos..])
    {
      byteCode := byteCode[..pos] + seq(n, _ => 0) + byteCode[pos..];
    }

    // Overwrite bytes at pos; the bytes before pos and after the written ones stay.
    method Patch(pos: nat, b: seq<Byte>)
      requires pos + |b| <= |byteCode|
      modifies `byteCode
      ensures byteCode == old(byteCode[..pos]) + b + old(byteCode[pos + |b|..])
    {
      byteCode := byteCode[..pos] + b + byteCode[pos + |b|..];
    }

    // dbuf_put_self: append a copy of n bytes of the code.
    method CopySelf(pos: nat, n: nat)
      requires pos + n <= |byteCode|
      modifies `byteCode
      ensures byteCode == old(byteCode) + old(byteCode[pos..pos + n])
    {
      byteCode := byteCode + byteCode[pos..pos + n];
    }

    // Insert bytes at pos.
    method InsertBytes(pos: nat, b: seq<Byte>)
      requires pos <= |byteCode|
      modifies `byteCode
      ensures byteCode == old(byteCode[..pos]) + b + old(byteCode[pos..])
    {
      ghost var before := byteCode;
      Insert(pos, |b|);
      assert byteCode[..pos] == before[..pos];
      Patch(pos, b);
    }

    // -------------------------------------------------------------------------
    // Characters and classes

    // re_emit_char
    method EmitCharCode(c: int)
      modifies `byteCode
      ensures byteCode == old(byteCode) + Encode(EmitChar(c, ignoreCase))
    {
      if c <= 0xffff {
        EmitOpU16(if ignoreCase then REOP_CHAR_I else REOP_CHAR, c);
      } else {
        var _ := EmitOpU32(if ignoreCase then REOP_CHAR32_I else REOP_CHAR32, c);
      }
    }

    // re_emit_range: it fails when there are too many ranges.
    method EmitRangeCode(p: seq<Point>) returns (ok: bool)
      requires CharRange.Canonical(p)
      modifies `byteCode
      ensures ok <==> |p| / 2 < MAX_RANGES
      ensures ok ==> byteCode == old(byteCode) + Encode(EmitRange(p, ignoreCase))
    {
      hide Encode, EmitRange, Table16, Table32, EncodeTable16, EncodeTable32, PutU16, PutU32;
      var len := |p| / 2;
      if len >= 65535 {
        return false;
      }
      ghost var b := byteCode;
      RangeCode(p, ignoreCase);
      if len == 0 {
        var _ := EmitOpU32(REOP_CHAR32, 0xffff_ffff);
      } else {
        var high := p[|p| - 1];
        if high == UINT32_MAX {
          high := p[|p| - 2];
        }
        if high <= 0xffff {
          EmitOpU16(if ignoreCase then REOP_RANGE_I else REOP_RANGE, len);
          EmitTable16(p);
          ConcatAssoc(b, [if ignoreCase then REOP_RANGE_I else REOP_RANGE] + PutU16(len), EncodeTable16(Table16(p)));
        } else {
          EmitOpU16(if ignoreCase then REOP_RANGE32_I else REOP_RANGE32, len);
          EmitTable32(p);
          ConcatAssoc(b, [if ignoreCase then REOP_RANGE32_I else REOP_RANGE32] + PutU16(len), EncodeTable32(Table32(p)));
        }
      }
      return true;
    }

    method EmitTable16(p: seq<Point>)
      requires CharRange.Canonical(p)
      modifies `byteCode
      ensures byteCode == old(byteCode) + EncodeTable16(Table16(p))
    {
      hide EncodeTable16, PutU16;
      ghost var t := Table16(p);
      var i := 0;
      TableStart();
      while i < |p|
        invariant 0 <= i <= |p| && i % 2 == 0
        invariant byteCode == old(byteCode) + EncodeTable16(t[..i / 2])
      {
        var high: int := (p[i + 1] as int) - 1;
        if high == UINT32_MAX - 1 {
          high := 0xffff;
        }
        assert t[i / 2] == (p[2 * (i / 2)] as int, high);
        assert t[..i / 2 + 1] == t[..i / 2] + [t[i / 2]];
        EncodeTable16Append(t[..i / 2], t[i / 2]);
        byteCode := byteCode + PutU16(p[i]);
        byteCode := byteCode + PutU16(high);
        i := i + 2;
      }
      assert t[..i / 2] == t;
    }

    method EmitTable32(p: seq<Point>)
      requires CharRange.Canonical(p)
      modifies `byteCode
      ensures byteCode == old(byteCode) + EncodeTable32(Table32(p))
    {
      hide EncodeTable32, PutU32;
      ghost var t := Table32(p);
      var i := 0;
      TableStart();
      while i < |p|
        invariant 0 <= i <= |p| && i % 2 == 0
        invariant byteCode == old(byteCode) + EncodeTable32(t[..i / 2])
      {
        assert t[i / 2] == (p[2 * (i / 2)] as int, (p[i + 1] as int) - 1);
        assert t[..i / 2 + 1] == t[..i / 2] + [t[i / 2]];
        EncodeTable32Append(t[..i / 2], t[i / 2]);
        byteCode := byteCode + PutU32(p[i]);
        byteCode := byteCode + PutU32((p[i + 1] as int) - 1);
        i := i + 2;
      }
      assert t[..i / 2] == t;
    }

    // One item of a class: a character, or a range that is folded first when case is ignored.
    method AddItem(cr: CharRangeBuffer, item: Spec.ClassItem)
      requires TableValid() && Spec.WellFormedItem(item)
      modifies cr
      ensures cr.points == CharRange.Op(Union, old(cr.points), ItemSet(Canonical(), item, ignoreCase))
    {
      hide Spec.CanonOk, TableOk, FastPathOk, CharRange.Op, In, ImageSet;
      match item {
        case Single(c) =>
          var c' := c;
          if ignoreCase {
            c' := Canonicalize(table, unicode, c);
            CanonRange(table, c);
          }
          cr.UnionInterval(c', c');
        case Span(lo, hi) =>
          if ignoreCase {
            var cr2 := new CharRangeBuffer();
            cr2.AddInterval(lo, hi + 1);
            assert cr2.points == [lo, hi + 1];
            cr2.RegexpCanonicalize(table);
            ImageIsUnique(table, unicode, lo, hi, cr2.points);
            cr.Op1(cr2.points, Union);
          } else {
            cr.UnionInterval(lo, hi);
          }
      }
    }

    // The loop of re_parse_nested_class over the items of a class, and the final inversion.
    method ParseClass(items: seq<Spec.ClassItem>, negated: bool) returns (cr: CharRangeBuffer)
      requires TableValid() && forall i :: 0 <= i < |items| ==> Spec.WellFormedItem(items[i])
      ensures fresh(cr) && cr.points == ClassSet(Canonical(), items, negated, ignoreCase)
      ensures CharRange.Canonical(cr.points)
    {
      hide Spec.CanonOk, TableOk, FastPathOk, CharRange.Op, CharRange.Invert, ItemSet, CharRange.Canonical;
      cr := new CharRangeBuffer();
      var i := 0;
      while i < |items|
        invariant 0 <= i <= |items|
        invariant cr.points == ItemsSet(Canonical(), items[..i], ignoreCase)
      {
        hide ItemsSet;
        ItemsStep(Canonical(), items, ignoreCase, i);
        AddItem(cr, items[i]);
        i := i + 1;
      }
      assert items[..i] == items;
      if negated {
        cr.Invert();
      }
      ClassSetCanonical(Canonical(), items, negated, ignoreCase);
    }

    // -------------------------------------------------------------------------
    // Quantifiers: the atom a stands at the end of the code, from start on.

    // The optimization for greedy quantifiers on simple atoms.
    method QuantifySimple(start: nat, min: int, max: int, count: int, ghost b: seq<Byte>, ghost a: Asm)
      requires byteCode == Out(b, a) && start == |b| && count == CharCount(a)
      modifies `byteCode
      ensures byteCode == Out(b, SimpleQuant(a, min, max))
    {
      hide Assemble, Length, CharCount, PutU32;
      OutPrefix(b, a);
      EmitOp(REOP_MATCH);
      Then(b, a, Match);
      OutPrefix(b, a + [Match]);
      LengthConcat(a, [Match]);
      AssembleOne(Match);
      var size := |byteCode| + 17;
      InsertBytes(start, [REOP_SIMPLE_GREEDY_QUANT] + (PutU32(size - start - 17) + PutU32(min) + PutU32(max) + PutU32(count)));
      ghost var i := SimpleGreedyQuant(Length(a) + 1, min, max, CharCount(a));
      Before(b, i, a + [Match]);
      assert [i] + (a + [Match]) == SimpleQuant(a, min, max);
    }

    // The reset of the captures inside an atom that may not be executed.
    method ResetBefore(start: nat, lastCapture: nat, ghost b: seq<Byte>, ghost a: Asm) returns (start': nat)
      requires byteCode == Out(b, a) && start == |b|
      modifies `byteCode
      ensures byteCode == Out(Out(b, Reset(lastCapture, captureCount)), a)
      ensures start' == |Out(b, Reset(lastCapture, captureCount))|
    {
      hide Assemble, Length;
      OutPrefix(b, a);
      start' := start;
      if lastCapture != captureCount {
        InsertBytes(start, [REOP_SAVE_RESET, lastCapture % 0x100, (captureCount - 1) % 0x100]);
        start' := start + 3;
        OutOne(b, SaveReset(lastCapture, captureCount - 1));
        assert byteCode == b + Encode(SaveReset(lastCapture, captureCount - 1)) + Assemble(a);
      } else {
        OutNil(b);
      }
    }

    // Zero or one time, or zero or more times: a split before the atom, a jump back after it.
    method QuantifyOnce(start: nat, len: nat, check: bool, greedy: bool, hasGoto: bool, ghost b: seq<Byte>, ghost a: Asm)
      requires byteCode == Out(b, a) && start == |b| && len == Length(a)
      modifies `byteCode
      ensures byteCode == Out(b, if hasGoto then Star(a, check, greedy) else Iteration(a, check, greedy, 0))
    {
      hide Assemble, Length, PutU32, Iteration, Out;
      var extra := if hasGoto then 5 else 0;
      SplitBefore(start, len, check, greedy, extra, b, a);
      if hasGoto {
        IterationLength(a, check, greedy, extra);
        OutPrefix(b, Iteration(a, check, greedy, extra));
        EmitGoto(REOP_GOTO, start);
        Then(b, Iteration(a, check, greedy, extra), Goto(-(len + (if check then 2 else 0) + 10)));
      }
    }

    // A split before the atom, with the check that the atom advances where it is needed.
    method SplitBefore(start: nat, len: nat, check: bool, greedy: bool, extra: int, ghost b: seq<Byte>, ghost a: Asm)
      requires byteCode == Out(b, a) && start == |b| && len == Length(a)
      modifies `byteCode
      ensures byteCode == Out(b, Iteration(a, check, greedy, extra))
    {
      hide Assemble, Length, PutU32, Iteration, Out, Encode;
      OutPrefix(b, a);
      var op := if greedy then REOP_SPLIT_NEXT_FIRST else REOP_SPLIT_GOTO_FIRST;
      var off := len + extra + if check then 2 else 0;
      ghost var split := Split(!greedy, off);
      SplitCode(0, !greedy, off);
      IterationParts(a, check, greedy, extra);
      if check {
        InsertBytes(start, ([op] + PutU32(off)) + [REOP_PUSH_CHAR_POS]);
        BeforeTwo(b, split, PushCharPos, a);
        EmitOp(REOP_CHECK_ADVANCE);
        Then(b, [split, PushCharPos] + a, CheckAdvance);
      } else {
        InsertBytes(start, [op] + PutU32(off));
        Before(b, split, a);
      }
    }

    // At most max times: a counted loop around a split.
    method QuantifyUpTo(start: nat, len: nat, check: bool, greedy: bool, max: int, ghost b: seq<Byte>, ghost a: Asm)
      requires byteCode == Out(b, a) && start == |b| && len == Length(a)
      modifies `byteCode
      ensures byteCode == Out(b, UpTo(a, check, greedy, max))
    {
      hide Assemble, Length, PutU32, Iteration, Out;
      CountedSplitBefore(start, len, check, greedy, max, b, a);
      ghost var body := [PushI32(max)] + Iteration(a, check, greedy, 5);
      LoopEnd(start + 5, b, body, Length(a) + (if check then 2 else 0) + 10, UpToLength(a, check, greedy, max));
      assert body + [Loop(-(Length(a) + (if check then 2 else 0) + 10)), Drop] == UpTo(a, check, greedy, max);
    }

    method CountedSplitBefore(start: nat, len: nat, check: bool, greedy: bool, max: int, ghost b: seq<Byte>, ghost a: Asm)
      requires byteCode == Out(b, a) && start == |b| && len == Length(a)
      modifies `byteCode
      ensures byteCode == Out(b, [PushI32(max)] + Iteration(a, check, greedy, 5))
    {
      hide Assemble, Length, PutU32, Iteration, Out, Encode;
      OutPrefix(b, a);
      IterationParts(a, check, greedy, 5);
      var op := if greedy then REOP_SPLIT_NEXT_FIRST else REOP_SPLIT_GOTO_FIRST;
      var off := len + 5 + if check then 2 else 0;
      ghost var push, split := PushI32(max), Split(!greedy, off);
      SplitCode(max, !greedy, off);
      if check {
        InsertBytes(start, ([REOP_PUSH_I32] + PutU32(max)) + ([op] + PutU32(off)) + [REOP_PUSH_CHAR_POS]);
        BeforeThree(b, push, split, PushCharPos, a);
        EmitOp(REOP_CHECK_ADVANCE);
        Then(b, [push, split, PushCharPos] + a, CheckAdvance);
        assert [push, split, PushCharPos] + a + [CheckAdvance] == [push] + ([split, PushCharPos] + a + [CheckAdvance]);
      } else {
        InsertBytes(start, ([REOP_PUSH_I32] + PutU32(max)) + ([op] + PutU32(off)));
        BeforeTwo(b, push, split, a);
        assert [push, split] + a == [push] + ([split] + a);
      }
    }

    // The end of a counted loop that jumps "back" bytes back from its end.
    method LoopEnd(target: nat, ghost b: seq<Byte>, ghost body: Asm, ghost back: int, ghost size: nat)
      requires byteCode == Out(b, body) && size == Length(body) && target - (|b| + size + 5) == -back
      modifies `byteCode
      ensures byteCode == Out(b, body + [Loop(-back), Drop])
    {
      hide Assemble, Length, PutU32;
      OutPrefix(b, body);
      EmitGoto(REOP_LOOP, target);
      Then(b, body, Loop(-back));
      EmitOp(REOP_DROP);
      Then(b, body + [Loop(-back)], Drop);
      assert body + [Loop(-back)] + [Drop] == body + [Loop(-back), Drop];
    }

    // Exactly min times: a counted loop around the atom. The result is where the atom now starts.
    method QuantifyExactly(start: nat, min: int, ghost b: seq<Byte>, ghost a: Asm) returns (start': nat)
      requires byteCode == Out(b, a) && start == |b|
      modifies `byteCode
      ensures byteCode == Out(b, Exactly(a, min)) && start' == start + 5
      ensures start' + Length(a) <= |byteCode| && byteCode[start'..start' + Length(a)] == Assemble(a)
    {
      hide Assemble, Length, PutU32;
      OutPrefix(b, a);
      InsertBytes(start, [REOP_PUSH_I32] + PutU32(min));
      Before(b, PushI32(min), a);
      start' := start + 5;
      ghost var c := byteCode;
      assert c[start'..start' + Length(a)] == Assemble(a);
      OutPrefix(b, [PushI32(min)] + a);
      LoopEnd(start', b, [PushI32(min)] + a, Length(a) + 5, Length([PushI32(min)] + a));
      assert [PushI32(min)] + a + [Loop(-(Length(a) + 5)), Drop] == Exactly(a, min);
      OutConcat(b, [PushI32(min)] + a, [Loop(-(Length(a) + 5)), Drop]);
      assert byteCode[..|c|] == c;
      assert byteCode[start'..start' + Length(a)] == byteCode[..|c|][start'..start' + Length(a)];
    }

    // A split over a copy of the atom, which stands at "start".
    method CopyIteration(start: nat, len: nat, check: bool, greedy: bool, ghost b: seq<Byte>, ghost a: Asm)
      requires byteCode == b && len == Length(a) && start + len <= |b| && b[start..start + len] == Assemble(a)
      modifies `byteCode
      ensures byteCode == Out(b, Iteration(a, check, greedy, 5))
    {
      hide Assemble, Length, PutU32, Iteration, Out;
      IterationParts(a, check, greedy, 5);
      ghost var split := Split(!greedy, len + 5 + if check then 2 else 0);
      var _ := EmitOpU32(if greedy then REOP_SPLIT_NEXT_FIRST else REOP_SPLIT_GOTO_FIRST, len + 5 + if check then 2 else 0);
      OutOne(b, split);
      if check {
        EmitOp(REOP_PUSH_CHAR_POS);
        Then(b, [split], PushCharPos);
        assert [split] + [PushCharPos] == [split, PushCharPos];
        CopyAtom(start, len, b, [split, PushCharPos], a);
        EmitOp(REOP_CHECK_ADVANCE);
        Then(b, [split, PushCharPos] + a, CheckAdvance);
      } else {
        CopyAtom(start, len, b, [split], a);
      }
    }

    method CopyAtom(start: nat, len: nat, ghost b: seq<Byte>, ghost head: Asm, ghost a: Asm)
      requires byteCode == Out(b, head) && len == Length(a) && start + len <= |b| && b[start..start + len] == Assemble(a)
      modifies `byteCode
      ensures byteCode == Out(b, head + a)
    {
      hide Assemble, Length;
      OutPrefix(b, head);
      assert byteCode[start..start + len] == byteCode[..|b|][start..start + len] == Assemble(a);
      CopySelf(start, len);
      OutBefore(b, head, a);
    }

    // The part of a quantifier beyond its minimum count, by copies of the atom at "start".
    method QuantifyRest(start: nat, len: nat, check: bool, greedy: bool, n: int, unbounded: bool, ghost b: seq<Byte>, ghost a: Asm)
      requires byteCode == b && len == Length(a) && start + len <= |b| && b[start..start + len] == Assemble(a)
      modifies `byteCode
      ensures byteCode == Out(b, Optional(a, check, greedy, n, unbounded))
    {
      hide Assemble, Length, PutU32, Iteration;
      IterationLength(a, check, greedy, 5);
      OutPrefix(b, Iteration(a, check, greedy, 5));
      var pos := |byteCode|;
      if unbounded {
        CopyIteration(start, len, check, greedy, b, a);
        EmitGoto(REOP_GOTO, pos);
        Then(b, Iteration(a, check, greedy, 5), Goto(-(len + (if check then 2 else 0) + 10)));
      } else if n > 0 {
        var _ := EmitOpU32(REOP_PUSH_I32, n);
        OutOne(b, PushI32(n));
        OutPrefix(b, [PushI32(n)]);
        pos := |byteCode|;
        assert byteCode[start..start + len] == byteCode[..|b|][start..start + len] == Assemble(a);
        CopyIteration(start, len, check, greedy, Out(b, [PushI32(n)]), a);
        OutConcat(b, [PushI32(n)], Iteration(a, check, greedy, 5));
        LoopEnd(pos, b, [PushI32(n)] + Iteration(a, check, greedy, 5), Length(a) + (if check then 2 else 0) + 10,
                UpToLength(a, check, greedy, n));
        assert [PushI32(n)] + Iteration(a, check, greedy, 5) + [Loop(-(Length(a) + (if check then 2 else 0) + 10)), Drop]
            == UpTo(a, check, greedy, n);
      } else {
        OutNil(b);
      }
    }

    // The quantifier part of re_parse_term.
    method Quantify(start: nat, min: int, max: int, greedy: bool, lastCapture: nat, ghost b: seq<Byte>, ghost a: Asm)
      requires byteCode == Out(b, a) && start == |b| && TablesFit(a) && 0 <= min <= max <= Spec.INFINITE
      modifies `byteCode
      ensures byteCode == Out(b, QuantAsm(a, min, max, greedy, lastCapture, captureCount))
    {
      hide Assemble, Length, PutU32, Iteration, UpTo, Star, Exactly, SimpleQuant, At, NeedCheckAdvance, SimpleCount, Reset, CharCount;
      OutPrefix(b, a);
      if greedy && max > 0 {
        var count := ScanSimpleQuantifier(byteCode, start, a);
        SimpleCountIs(a);
        if count > 0 {
          QuantifySimple(start, min, max, count, b, a);
          return;
        }
      }
      var check := ScanNeedCheckAdvance(byteCode, start, a);
      var len := |byteCode| - start;
      if min == 0 {
        ghost var reset := Reset(lastCapture, captureCount);
        var start' := ResetBefore(start, lastCapture, b, a);
        OutPrefix(Out(b, reset), a);
        OutNil(Out(b, reset));
        if max == 0 {
          byteCode := byteCode[..start'];
          OutConcat(b, reset, []);
        } else if max == 1 || max == INT32_MAX {
          QuantifyOnce(start', len, check, greedy, max == INT32_MAX, Out(b, reset), a);
          OutConcat(b, reset, if max == INT32_MAX then Star(a, check, greedy) else Iteration(a, check, greedy, 0));
        } else {
          QuantifyUpTo(start', len, check, greedy, max, Out(b, reset), a);
          OutConcat(b, reset, UpTo(a, check, greedy, max));
        }
      } else if min == 1 && max == INT32_MAX && !check {
        EmitGoto(if greedy then REOP_SPLIT_GOTO_FIRST else REOP_SPLIT_NEXT_FIRST, start);
        Then(b, a, Split(greedy, -(len + 5)));
      } else {
        var start' := start;
        if min != 1 {
          start' := QuantifyExactly(start, min, b, a);
        } else {
          assert byteCode[start..start + len] == Assemble(a);
        }
        QuantifyRest(start', len, check, greedy, max - min, max == INT32_MAX, Out(b, Mandatory(a, min)), a);
        OutConcat(b, Mandatory(a, min), Optional(a, check, greedy, max - min, max == INT32_MAX));
      }
    }

    // -------------------------------------------------------------------------
    // The recursive descent

    ghost function Encoding(): (encode: Encoder)
      requires TableValid()
    {
      CharEncoder(Canonical())
    }

    // re_parse_term
    method ParseTerm(r: Spec.Node, backward: bool) returns (err: Option<Error>)
      requires TableValid() && Spec.WellFormed(r) && captureCount <= CAPTURE_COUNT_MAX
      modifies this
      ensures err.None? <==> Fits(Canonical(), r, old(Flags()), old(captureCount))
      ensures Failure(Canonical(), err, r, old(Flags()), old(captureCount))
      ensures err.None? ==> Flags() == old(Flags()) && captureCount == old(captureCount) + Spec.Captures(r)
      ensures err.None? ==> byteCode == Out(old(byteCode), Emit(Encoding(), r, old(Flags()), backward, old(captureCount)))
      decreases NodeSize(r), 2, 0
    {
      hide TableOk, FastPathOk, Spec.CanonOk, CanonFn, Out, Encode, CharEncoder, ClassSet, Length, Net;
      EmitLeaf(Encoding(), r, Flags(), backward, captureCount);
      hide Emit;
      err := None;
      match r
      case LineStart => ParseAssertion(r);
      case LineEnd => ParseAssertion(r);
      case WordBoundary(_) => ParseAssertion(r);
      case Literal(_) => err := ParseChar(r, backward);
      case Dot => err := ParseChar(r, backward);
      case Class(_, _) => err := ParseChar(r, backward);
      case Alt(_, _) => err := ParseDisjunction(r, backward);
      case Empty => err := ParseAlternative(r, backward);
      case Seq(_, _) => err := ParseAlternative(r, backward);
      case _ => err := ParseNested(r, backward);
    }

    // The terms with a body, and those with a quantifier.
    method ParseNested(r: Spec.Node, backward: bool) returns (err: Option<Error>)
      requires r.Group? || r.Capture? || r.Modifiers? || r.Look? || r.Quant?
      requires TableValid() && Spec.WellFormed(r) && captureCount <= CAPTURE_COUNT_MAX
      modifies this
      ensures err.None? <==> Fits(Canonical(), r, old(Flags()), old(captureCount))
      ensures Failure(Canonical(), err, r, old(Flags()), old(captureCount))
      ensures err.None? ==> Flags() == old(Flags()) && captureCount == old(captureCount) + Spec.Captures(r)
      ensures err.None? ==> byteCode == Out(old(byteCode), Emit(Encoding(), r, old(Flags()), backward, old(captureCount)))
      decreases NodeSize(r), 0, 0
    {
      hide TableOk, FastPathOk, Spec.CanonOk, CanonFn, Out, Encode, CharEncoder, ClassSet, Length, Net, Emit;
      match r
      case Group(x) =>
        EmitNested(Encoding(), x, Flags(), backward, captureCount);
        err := ParseDisjunction(x, backward);
      case Capture(x) =>
        EmitNested(Encoding(), x, Flags(), backward, captureCount);
        err := ParseCapture(x, backward);
      case Modifiers(add, remove, x) =>
        EmitModifiers(Encoding(), x, add, remove, Flags(), backward, captureCount);
        err := ParseModifiers(add, remove, x, backward);
      case Look(negative, behind, x) =>
        EmitLook(Encoding(), x, negative, behind, Flags(), backward, captureCount);
        err := ParseLook(negative, behind, x, backward);
      case Quant(x, min, max, greedy) =>
        EmitQuant(Encoding(), x, min, max, greedy, Flags(), backward, captureCount);
        err := ParseQuantified(x, min, max, greedy, backward);
    }

    method ParseAssertion(r: Spec.Node)
      requires r.LineStart? || r.LineEnd? || r.WordBoundary?
      modifies `byteCode
      ensures byteCode == Out(old(byteCode), [AssertionInstr(r, Flags())])
    {
      hide Out, Encode;
      OutOne(byteCode, AssertionInstr(r, Flags()));
      OpCode(AssertionInstr(r, Flags()));
      match r
      case LineStart => EmitOp(if multiLine then REOP_LINE_START_M else REOP_LINE_START);
      case LineEnd => EmitOp(if multiLine then REOP_LINE_END_M else REOP_LINE_END);
      case WordBoundary(negated) =>
        if negated {
          EmitOp(if ignoreCase then REOP_NOT_WORD_BOUNDARY_I else REOP_NOT_WORD_BOUNDARY);
        } else {
          EmitOp(if ignoreCase then REOP_WORD_BOUNDARY_I else REOP_WORD_BOUNDARY);
        }
    }

    // The lazy loop over the start positions in front of a pattern that is not sticky.
    method EmitSearchLoop(ghost b: seq<Byte>)
      requires byteCode == b
      modifies `byteCode
      ensures byteCode == Out(b, [Split(true, 6), AnyChar, Goto(-11)])
    {
      hide Out, Encode, PutU32;
      var _ := EmitOpU32(REOP_SPLIT_GOTO_FIRST, 1 + 5);
      SplitCode(0, true, 6);
      OutOne(b, Split(true, 6));
      EmitOp(REOP_ANY);
      OpCode(AnyChar);
      Then(b, [Split(true, 6)], AnyChar);
      var _ := EmitOpU32(REOP_GOTO, -(5 + 1 + 5));
      GotoCode(-11);
      Then(b, [Split(true, 6)] + [AnyChar], Goto(-11));
      assert [Split(true, 6)] + [AnyChar] + [Goto(-11)] == [Split(true, 6), AnyChar, Goto(-11)];
    }

    // The program of a pattern: the search loop, the start of the match, the pattern, the end.
    method ParseProgram(r: Spec.Node, sticky: bool, ghost h: seq<Byte>) returns (err: Option<Error>)
      requires TableValid() && Spec.WellFormed(r) && captureCount == 1 && byteCode == h
      modifies this
      ensures err.None? <==> Fits(Canonical(), r, old(Flags()), 1)
      ensures Failure(Canonical(), err, r, old(Flags()), 1)
      ensures err.None? ==> captureCount == 1 + Spec.Captures(r)
      ensures err.None? ==> byteCode == Out(h, Program(Encoding(), r, old(Flags()), sticky))
    {
      hide TableOk, FastPathOk, Spec.CanonOk, CanonFn, Out, Emit, CharEncoder, Spec.WellFormed, Encode, RangesFit, Failure, Fits, Program;
      ghost var e := Emit(Encoding(), r, Flags(), false, 1);
      ProgramParts(Encoding(), r, Flags(), sticky);
      ghost var lead: Asm := if sticky then [] else [Split(true, 6), AnyChar, Goto(-11)];
      if !sticky {
        EmitSearchLoop(h);
      } else {
        OutNil(h);
      }
      EmitOpU8(REOP_SAVE_START, 0);
      SaveCode(0);
      Then(h, lead, SaveStart(0));
      err := ParseDisjunction(r, false);
      if err.Some? {
        return;
      }
      OutConcat(h, lead + [SaveStart(0)], e);
      EmitOpU8(REOP_SAVE_END, 0);
      Then(h, lead + [SaveStart(0)] + e, SaveEnd(0));
      EmitOp(REOP_MATCH);
      OpCode(Match);
      Then(h, lead + [SaveStart(0)] + e + [SaveEnd(0)], Match);
    }

    // The fields of the header that are known at the end.
    method WriteHeader(stackSize: Byte, ghost flags: U16, ghost rest: seq<Byte>)
      requires captureCount < 0x100 && |rest| < U32_LIMIT
      requires byteCode == PutU16(flags) + [0, 0] + PutU32(0) + rest
      modifies `byteCode
      ensures byteCode == PutU16(flags) + [captureCount, stackSize] + PutU32(|rest|) + rest
    {
      hide PutU16, PutU32;
      var len := |byteCode| - HEADER_LEN;
      HeaderForms(PutU16(flags), captureCount, stackSize, PutU32(0), PutU32(len), rest);
      Patched(PutU16(flags), [], [0], [0] + PutU32(0) + rest, [captureCount], byteCode);
      Patch(HEADER_CAPTURE_COUNT, [captureCount]);
      Patched(PutU16(flags) + [captureCount], [], [0], PutU32(0) + rest, [stackSize], byteCode);
      Patch(HEADER_STACK_SIZE, [stackSize]);
      Patched(PutU16(flags) + [captureCount, stackSize], [], PutU32(0), rest, PutU32(len), byteCode);
      Patch(HEADER_BYTECODE_LEN, PutU32(len));
    }

    // A character, the dot or a class, with a step back before and after it in a lookbehind.
    method ParseChar(r: Spec.Node, backward: bool) returns (err: Option<Error>)
      requires TableValid() && Spec.WellFormed(r) && IsOneChar(r) && captureCount <= CAPTURE_COUNT_MAX
      modifies this
      ensures err.None? <==> Fits(Canonical(), r, old(Flags()), old(captureCount))
      ensures Failure(Canonical(), err, r, old(Flags()), old(captureCount))
      ensures err.None? ==> Flags() == old(Flags()) && captureCount == old(captureCount)
      ensures err.None? ==> byteCode == Out(old(byteCode), Directed(backward, Encoding()(r, old(Flags()))))
    {
      hide TableOk, FastPathOk, Spec.CanonOk, CanonFn, Out, Encode, CharEncoder, Spec.WellFormed, Fits, Failure;
      ghost var b, i := byteCode, Encoding()(r, Flags());
      if backward {
        EmitOp(REOP_PREV);
        OpCode(Prev);
        OutOne(b, Prev);
      } else {
        OutNil(b);
      }
      err := EmitOneChar(r);
      if err.Some? {
        return err;
      }
      ghost var head: Asm := if backward then [Prev] else [];
      Then(b, head, i);
      if backward {
        EmitOp(REOP_PREV);
        OpCode(Prev);
        Then(b, [Prev] + [i], Prev);
        assert [Prev] + [i] + [Prev] == [Prev, i, Prev];
      }
      assert head + [i] == if backward then [Prev] + [i] else [i];
      return None;
    }

    // The instruction that accepts a character, without its direction.
    method EmitOneChar(r: Spec.Node) returns (err: Option<Error>)
      requires TableValid() && Spec.WellFormed(r) && IsOneChar(r) && captureCount <= CAPTURE_COUNT_MAX
      modifies `byteCode
      ensures err.None? <==> Fits(Canonical(), r, Flags(), captureCount)
      ensures Failure(Canonical(), err, r, Flags(), captureCount)
      ensures err.None? ==> byteCode == old(byteCode) + Encode(Encoding()(r, Flags()))
    {
      hide TableOk, FastPathOk, Spec.CanonOk, CanonFn, Encode, ClassSet, EmitRange;
      match r {
        case Literal(c) =>
          var c' := c;
          if ignoreCase {
            c' := Canonicalize(table, unicode, c);
          }
          EmitCharCode(c');
        case Dot =>
          EmitOp(if dotAll then REOP_ANY else REOP_DOT);
          OpCode(if dotAll then AnyChar else Instr.Dot);
        case Class(items, negated) =>
          var cr := ParseClass(items, negated);
          var ok := EmitRangeCode(cr.points);
          if !ok {
            return Some(TooManyRanges);
          }
      }
      return None;
    }

    method ParseCapture(x: Spec.Node, backward: bool) returns (err: Option<Error>)
      requires TableValid() && Spec.WellFormed(x) && captureCount <= CAPTURE_COUNT_MAX
      modifies this
      ensures err.None? <==> Fits(Canonical(), Spec.Capture(x), old(Flags()), old(captureCount))
      ensures Failure(Canonical(), err, Spec.Capture(x), old(Flags()), old(captureCount))
      ensures err.None? ==> Flags() == old(Flags()) && captureCount == old(captureCount) + 1 + Spec.Captures(x)
      ensures err.None? ==>
                byteCode == Out(old(byteCode), CaptureAsm(Emit(Encoding(), x, old(Flags()), backward, old(captureCount) + 1), backward, old(captureCount)))
      decreases NodeSize(x), 5
    {
      hide TableOk, FastPathOk, Spec.CanonOk, CanonFn, Out, Encode, Emit, CharEncoder, Fits, RangesFit, Failure, Spec.WellFormed;
      if captureCount >= CAPTURE_COUNT_MAX {
        TooManyAlready(Canonical(), x, Flags(), captureCount);
        return Some(TooManyCaptures);
      }
      ghost var b, f := byteCode, Flags();
      var index := captureCount;
      captureCount := captureCount + 1;
      ghost var first, last := if backward then SaveEnd(index) else SaveStart(index), if backward then SaveStart(index) else SaveEnd(index);
      EmitOpU8(if backward then REOP_SAVE_END else REOP_SAVE_START, index);
      SaveCode(index);
      OutOne(b, first);
      BodyWellFormed(Spec.Capture(x));
      err := ParseDisjunction(x, backward);
      Limits(Canonical(), err, Spec.Capture(x), x, f, f, index, index + 1);
      if err.Some? {
        return;
      }
      EmitOpU8(if backward then REOP_SAVE_START else REOP_SAVE_END, index);
      ghost var e := Emit(Encoding(), x, f, backward, index + 1);
      OutConcat(b, [first], e);
      Then(b, [first] + e, last);
    }

    method ParseModifiers(add: Spec.Flags, remove: Spec.Flags, x: Spec.Node, backward: bool) returns (err: Option<Error>)
      requires TableValid() && Spec.WellFormed(x) && captureCount <= CAPTURE_COUNT_MAX
      modifies this
      ensures err.None? <==> Fits(Canonical(), Spec.Modifiers(add, remove, x), old(Flags()), old(captureCount))
      ensures Failure(Canonical(), err, Spec.Modifiers(add, remove, x), old(Flags()), old(captureCount))
      ensures err.None? ==> Flags() == old(Flags()) && captureCount == old(captureCount) + Spec.Captures(x)
      ensures err.None? ==>
                byteCode == Out(old(byteCode), Emit(Encoding(), x, Spec.UpdateFlags(old(Flags()), add, remove), backward, old(captureCount)))
      decreases NodeSize(x), 5
    {
      hide TableOk, FastPathOk, Spec.CanonOk, CanonFn, Out, Encode, Emit, CharEncoder, Fits, RangesFit, Failure, Spec.WellFormed,
           Spec.Captures;
      ghost var f, capture := Flags(), captureCount;
      var savedIgnoreCase, savedMultiLine, savedDotAll := ignoreCase, multiLine, dotAll;
      ignoreCase := UpdateModifier(ignoreCase, add.ignoreCase, remove.ignoreCase);
      multiLine := UpdateModifier(multiLine, add.multiLine, remove.multiLine);
      dotAll := UpdateModifier(dotAll, add.dotAll, remove.dotAll);
      BodyWellFormed(Spec.Modifiers(add, remove, x));
      err := ParseDisjunction(x, backward);
      Limits(Canonical(), err, Spec.Modifiers(add, remove, x), x, f, Spec.UpdateFlags(f, add, remove), capture, capture);
      if err.Some? {
        return;
      }
      ignoreCase, multiLine, dotAll := savedIgnoreCase, savedMultiLine, savedDotAll;
    }

    method ParseLook(negative: bool, behind: bool, x: Spec.Node, backward: bool) returns (err: Option<Error>)
      requires TableValid() && Spec.WellFormed(x) && captureCount <= CAPTURE_COUNT_MAX
      modifies this
      ensures err.None? <==> Fits(Canonical(), Spec.Look(negative, behind, x), old(Flags()), old(captureCount))
      ensures Failure(Canonical(), err, Spec.Look(negative, behind, x), old(Flags()), old(captureCount))
      ensures err.None? ==> Flags() == old(Flags()) && captureCount == old(captureCount) + Spec.Captures(x)
      ensures err.None? ==>
                byteCode == Out(old(byteCode), LookAsm(Emit(Encoding(), x, old(Flags()), behind, old(captureCount)), negative))
      decreases NodeSize(x), 5
    {
      hide TableOk, FastPathOk, Spec.CanonOk, CanonFn, Out, Encode, Emit, CharEncoder, Fits, RangesFit, Failure, Spec.WellFormed, Length, PutU32;
      ghost var b, f, capture := byteCode, Flags(), captureCount;
      ghost var hole := Instr.Look(negative, 0);
      var pos := EmitOpU32(if negative then REOP_NEGATIVE_LOOKAHEAD else REOP_LOOKAHEAD, 0);
      LookCode(negative, 0);
      OutOne(b, hole);
      BodyWellFormed(Spec.Look(negative, behind, x));
      err := ParseDisjunction(x, behind);
      Limits(Canonical(), err, Spec.Look(negative, behind, x), x, f, f, capture, capture);
      if err.Some? {
        return;
      }
      EmitOp(REOP_MATCH);
      OpCode(Match);
      ghost var e := Emit(Encoding(), x, f, behind, capture);
      OutConcat(b, [hole], e);
      Then(b, [hole] + e, Match);
      // jump after the match once the lookahead is successful
      LookParts(e, negative);
      PatchJump(pos, b, [], hole, e + [Match], Instr.Look(negative, Length(e + [Match])));
    }

    // A greedy or lazy quantifier on the term just parsed.
    method ParseQuantified(x: Spec.Node, min: int, max: int, greedy: bool, backward: bool) returns (err: Option<Error>)
      requires TableValid() && Spec.WellFormed(Spec.Quant(x, min, max, greedy)) && captureCount <= CAPTURE_COUNT_MAX
      modifies this
      ensures err.None? <==> Fits(Canonical(), Spec.Quant(x, min, max, greedy), old(Flags()), old(captureCount))
      ensures Failure(Canonical(), err, Spec.Quant(x, min, max, greedy), old(Flags()), old(captureCount))
      ensures err.None? ==> Flags() == old(Flags()) && captureCount == old(captureCount) + Spec.Captures(x)
      ensures err.None? ==>
                byteCode == Out(old(byteCode), QuantAsm(Emit(Encoding(), x, old(Flags()), backward, old(captureCount)), min, max, greedy,
                                                        old(captureCount), old(captureCount) + Spec.Captures(x)))
      decreases NodeSize(x), 5
    {
      hide TableOk, FastPathOk, Spec.CanonOk, CanonFn, Out, Encode, Emit, CharEncoder, Fits, RangesFit, Failure, Spec.WellFormed, QuantAsm, Net, Trough;
      ghost var b, f, a := byteCode, Flags(), Emit(Encoding(), x, Flags(), backward, captureCount);
      var lastAtomStart, lastCaptureCount := |byteCode|, captureCount;
      QuantWellFormed(x, min, max, greedy);
      err := ParseTerm(x, backward);
      Limits(Canonical(), err, Spec.Quant(x, min, max, greedy), x, f, f, lastCaptureCount, lastCaptureCount);
      if err.Some? {
        return;
      }
      FitsIs(Canonical(), x, f, lastCaptureCount);
      EmitGood(Canonical(), x, f, backward, lastCaptureCount);
      Quantify(lastAtomStart, min, max, greedy, lastCaptureCount, b, a);
    }

    // re_parse_alternative: in a lookbehind every new term is moved in front of the others.
    method ParseAlternative(r: Spec.Node, backward: bool) returns (err: Option<Error>)
      requires TableValid() && Spec.WellFormed(r) && captureCount <= CAPTURE_COUNT_MAX
      modifies this
      ensures err.None? <==> Fits(Canonical(), r, old(Flags()), old(captureCount))
      ensures Failure(Canonical(), err, r, old(Flags()), old(captureCount))
      ensures err.None? ==> Flags() == old(Flags()) && captureCount == old(captureCount) + Spec.Captures(r)
      ensures err.None? ==> byteCode == Out(old(byteCode), Emit(Encoding(), r, old(Flags()), backward, old(captureCount)))
      decreases NodeSize(r), if r.Seq? || r.Empty? then 1 else 3
    {
      hide TableOk, FastPathOk, Spec.CanonOk, CanonFn, Out, Encode, Emit, CharEncoder, EmitTerms, Terms, AllFit, RangesFit, Failure,
           Spec.WellFormed, Spec.Captures;
      ghost var b, f, capture := byteCode, Flags(), captureCount;
      var terms := Terms(r);
      FitsTerms(Canonical(), r, f, capture);
      EmitIsTerms(Encoding(), r, f, backward, capture);
      var start, i := |byteCode|, 0;
      NoTerms(Encoding(), f, backward, capture);
      OutNil(b);
      NothingFits(Canonical(), f, capture);
      assert terms[..0] == [];
      while i < |terms|
        invariant 0 <= i <= |terms| && Flags() == f && captureCount == capture + CapturesIn(terms[..i]) <= CAPTURE_COUNT_MAX
        invariant AllFit(Canonical(), terms[..i], f, capture)
        invariant byteCode == Out(b, EmitTerms(Encoding(), terms[..i], f, backward, capture))
      {
        TermsSmaller(r, i);
        AllFitStep(Canonical(), terms, f, capture, i);
        TermsStep(Encoding(), terms, f, backward, capture, i);
        err := ParseNextTerm(terms[i], start, backward, b, EmitTerms(Encoding(), terms[..i], f, backward, capture));
        if err.Some? {
          TermFails(Canonical(), err, r, f, capture, i);
          return;
        }
        i := i + 1;
      }
      assert terms[..i] == terms;
      NoFailure(Canonical(), r, f, capture);
      err := None;
    }

    // One more term after the ones whose code is "done".
    method ParseNextTerm(x: Spec.Node, start: nat, backward: bool, ghost b: seq<Byte>, ghost done: Asm) returns (err: Option<Error>)
      requires TableValid() && Spec.WellFormed(x) && captureCount <= CAPTURE_COUNT_MAX && byteCode == Out(b, done) && start == |b|
      modifies this
      ensures err.None? <==> Fits(Canonical(), x, old(Flags()), old(captureCount))
      ensures Failure(Canonical(), err, x, old(Flags()), old(captureCount))
      ensures err.None? ==> Flags() == old(Flags()) && captureCount == old(captureCount) + Spec.Captures(x)
      ensures err.None? ==>
                var next := Emit(Encoding(), x, old(Flags()), backward, old(captureCount));
                byteCode == Out(b, if backward then next + done else done + next)
      decreases NodeSize(x), 2, 1
    {
      hide TableOk, FastPathOk, Spec.CanonOk, CanonFn, Out, Encode, Emit, CharEncoder, RangesFit, Failure, Spec.WellFormed, Fits;
      ghost var next := Emit(Encoding(), x, Flags(), backward, captureCount);
      OutPrefix(b, done);
      var termStart := |byteCode|;
      err := ParseTerm(x, backward);
      if err.Some? {
        return;
      }
      OutConcat(b, done, next);
      if backward {
        MoveToFront(start, termStart, b, done, next);
      }
    }

    // memmove and memcpy: the term from termStart on changes places with the ones before it.
    method MoveToFront(start: nat, termStart: nat, ghost b: seq<Byte>, ghost done: Asm, ghost next: Asm)
      requires byteCode == Out(b, done + next) && start == |b| && termStart == |b| + Length(done)
      modifies `byteCode
      ensures byteCode == Out(b, next + done)
    {
      hide Assemble, Length;
      OutBefore(b, done, next);
      OutBefore(b, next, done);
      var end := |byteCode|;
      var termSize := end - termStart;
      Moved(b, Assemble(done), Assemble(next), byteCode);
      byteCode := byteCode[..start] + seq(termSize, _ => 0) + byteCode[start..end];
      byteCode := byteCode[..start] + byteCode[end..end + termSize] + byteCode[start + termSize..end];
    }

    // re_parse_disjunction: a split is inserted before what has been parsed so far.
    method ParseDisjunction(r: Spec.Node, backward: bool) returns (err: Option<Error>)
      requires TableValid() && Spec.WellFormed(r) && captureCount <= CAPTURE_COUNT_MAX
      modifies this
      ensures err.None? <==> Fits(Canonical(), r, old(Flags()), old(captureCount))
      ensures Failure(Canonical(), err, r, old(Flags()), old(captureCount))
      ensures err.None? ==> Flags() == old(Flags()) && captureCount == old(captureCount) + Spec.Captures(r)
      ensures err.None? ==> byteCode == Out(old(byteCode), Emit(Encoding(), r, old(Flags()), backward, old(captureCount)))
      decreases NodeSize(r), if r.Alt? then 1 else 4
    {
      hide TableOk, FastPathOk, Spec.CanonOk, CanonFn, Out, Encode, Emit, CharEncoder, EmitAlternatives, Alternatives, AllFit, RangesFit,
           AltAsm, Failure, Spec.WellFormed, Spec.Captures;
      ghost var b, f, capture := byteCode, Flags(), captureCount;
      var alternatives := Alternatives(r);
      FitsAlternatives(Canonical(), r, f, capture);
      EmitIsAlternatives(Encoding(), r, f, backward, capture);
      var start := |byteCode|;
      AlternativesSmaller(r, 0);
      NothingFits(Canonical(), f, capture);
      assert alternatives[..0] == [];
      AllFitStep(Canonical(), alternatives, f, capture, 0);
      AlternativesStep(Encoding(), alternatives, f, backward, capture, 0);
      err := ParseAlternative(alternatives[0], backward);
      if err.Some? {
        AlternativeFails(Canonical(), err, r, f, capture, 0);
        return;
      }
      var i := 1;
      while i < |alternatives|
        invariant 1 <= i <= |alternatives| && Flags() == f && captureCount == capture + CapturesIn(alternatives[..i]) <= CAPTURE_COUNT_MAX
        invariant AllFit(Canonical(), alternatives[..i], f, capture)
        invariant byteCode == Out(b, EmitAlternatives(Encoding(), alternatives[..i], f, backward, capture))
      {
        AlternativesStep(Encoding(), alternatives, f, backward, capture, i);
        AllFitStep(Canonical(), alternatives, f, capture, i);
        NotAlt(r);
        err := ParseNextAlternative(r, alternatives[i], i, start, backward, b,
                                    EmitAlternatives(Encoding(), alternatives[..i], f, backward, capture));
        if err.Some? {
          AlternativeFails(Canonical(), err, r, f, capture, i);
          return;
        }
        i := i + 1;
      }
      assert alternatives[..i] == alternatives;
      NoFailure(Canonical(), r, f, capture);
      err := None;
    }

    // One more alternative of a disjunction whose code so far is "left".
    method ParseNextAlternative(ghost r: Spec.Node, x: Spec.Node, ghost i: nat, start: nat, backward: bool,
                                ghost b: seq<Byte>, ghost left: Asm) returns (err: Option<Error>)
      requires r.Alt? && i < |Alternatives(r)| && x == Alternatives(r)[i] && start == |b|
      requires TableValid() && Spec.WellFormed(x) && captureCount <= CAPTURE_COUNT_MAX && byteCode == Out(b, left)
      modifies this
      ensures err.None? <==> Fits(Canonical(), x, old(Flags()), old(captureCount))
      ensures Failure(Canonical(), err, x, old(Flags()), old(captureCount))
      ensures err.None? ==> Flags() == old(Flags()) && captureCount == old(captureCount) + Spec.Captures(x)
      ensures err.None? ==> byteCode == Out(b, AltAsm(left, Emit(Encoding(), x, old(Flags()), backward, old(captureCount))))
      decreases NodeSize(r), 0
    {
      hide TableOk, FastPathOk, Spec.CanonOk, CanonFn, Out, Encode, Emit, CharEncoder, Alternatives, RangesFit, AltAsm, Failure, Spec.WellFormed, Fits;
      ghost var right := Emit(Encoding(), x, Flags(), backward, captureCount);
      AlternativesSmaller(r, i);
      var pos := SplitAlternative(start, b, left);
      err := ParseAlternative(x, backward);
      if err.Some? {
        return;
      }
      // patch the goto
      ghost var head := [Split(false, Length(left) + 5)] + left;
      OutConcat(b, head + [Goto(0)], right);
      PatchJump(pos, b, head, Goto(0), right, Goto(Length(right)));
      AltParts(left, right);
    }

    // The split before the first alternative and the jump over the second one, still open.
    method SplitAlternative(start: nat, ghost b: seq<Byte>, ghost left: Asm) returns (pos: nat)
      requires byteCode == Out(b, left) && start == |b|
      modifies `byteCode
      ensures byteCode == Out(b, [Split(false, Length(left) + 5)] + left + [Goto(0)])
      ensures pos == |b| + Length([Split(false, Length(left) + 5)] + left) + 1
    {
      hide Assemble, Length, PutU32, Out, Encode;
      OutPrefix(b, left);
      var len := |byteCode| - start;
      InsertBytes(start, [REOP_SPLIT_NEXT_FIRST] + PutU32(len + 5));
      SplitCode(0, false, len + 5);
      ghost var split := Split(false, Length(left) + 5);
      Before(b, split, left);
      OutPrefix(b, [split] + left);
      pos := EmitOpU32(REOP_GOTO, 0);
      GotoCode(0);
      Then(b, [split] + left, Goto(0));
    }

    // put_u32 on the operand at pos: the jump now leads to the end of the code.
    method PatchJump(pos: nat, ghost b: seq<Byte>, ghost head: Asm, ghost hole: Instr, ghost rest: Asm, ghost jump: Instr)
      requires byteCode == Out(b, head + [hole] + rest) && pos == |b| + Length(head) + 1
      requires (hole.Goto? && jump == Goto(Length(rest))) || (hole.Look? && jump == Instr.Look(hole.neg, Length(rest)))
      modifies `byteCode
      ensures byteCode == Out(b, head + [jump] + rest)
    {
      hide Assemble, Length, PutU32, Out, Encode;
      JumpForm(b, head, hole, rest);
      JumpForm(b, head, jump, rest);
      var len := |byteCode| - (pos + 4);
      Patched(b + Assemble(head), [Opcode(jump)], PutU32(hole.off), Assemble(rest), PutU32(len), byteCode);
      Patch(pos, PutU32(len));
    }
  }

  function UpdateModifier(val: bool, add: bool, remove: bool): (v: bool) {
    if remove then false else val || add
  }

  lemma {:induction false} OpCode(i: Instr)
    requires i.Dot? || i.AnyChar? || i.LineStart? || i.LineEnd? || i.WordBoundary? || i.Match? || i.Prev?
    ensures Encode(i) == [Opcode(i)]
  {
  }

  lemma {:induction false} SaveCode(g: int)
    ensures Encode(SaveStart(g)) == [REOP_SAVE_START, g % 0x100] && Encode(SaveEnd(g)) == [REOP_SAVE_END, g % 0x100]
  {
  }

  lemma {:induction false} LookCode(negative: bool, off: int)
    ensures Encode(Instr.Look(negative, off))
         == [if negative then REOP_NEGATIVE_LOOKAHEAD else REOP_LOOKAHEAD] + PutU32(off)
  {
  }

  lemma {:induction false} GotoCode(off: int)
    ensures Encode(Goto(off)) == [REOP_GOTO] + PutU32(off)
  {
  }

  lemma {:induction false} JumpCode(i: Instr)
    requires i.Goto? || i.Look?
    ensures Encode(i) == [Opcode(i)] + PutU32(i.off) && Length([i]) == 5
  {
    AssembleOne(i);
  }

  lemma {:induction false} Patched(b: seq<Byte>, op: seq<Byte>, x: seq<Byte>, rest: seq<Byte>, y: seq<Byte>, code: seq<Byte>)
    requires |x| == |y| && code == b + (op + x) + rest
    ensures var pos := |b| + |op|; code[..pos] + y + code[pos + |y|..] == b + (op + y) + rest
  {
    var pos := |b| + |op|;
    assert code[..pos] == b + op && code[pos + |y|..] == rest;
  }

  // The header, cut at each of the fields that are written last.
  lemma {:induction false} HeaderForms(f: seq<Byte>, c: Byte, s: Byte, w: seq<Byte>, w': seq<Byte>, rest: seq<Byte>)
    ensures f + [0, 0] + w + rest == f + ([] + [0]) + ([0] + w + rest)
    ensures f + ([] + [c]) + ([0] + w + rest) == (f + [c]) + ([] + [0]) + (w + rest)
    ensures (f + [c]) + ([] + [s]) + (w + rest) == (f + [c, s]) + ([] + w) + rest
    ensures (f + [c, s]) + ([] + w') + rest == f + [c, s] + w' + rest
  {
  }

  // Making room for y in front of x, and copying it there from behind.
  lemma {:induction false} Moved(b: seq<Byte>, x: seq<Byte>, y: seq<Byte>, code: seq<Byte>)
    requires code == b + x + y
    ensures var moved := code[..|b|] + seq(|y|, _ => 0) + code[|b|..|code|];
            moved[..|b|] + moved[|code|..|code| + |y|] + moved[|b| + |y|..|code|] == b + y + x
  {
    var moved := code[..|b|] + seq(|y|, _ => 0) + code[|b|..|code|];
    assert code[|b|..|code|] == x + y;
    assert moved == (b + seq(|y|, _ => 0) + x) + y;
    assert moved[|code|..|code| + |y|] == y;
    assert moved[|b| + |y|..|code|] == x;
    assert moved[..|b|] == b;
  }

  lemma {:induction false} LookParts(e: Asm, negative: bool)
    ensures [] + [Instr.Look(negative, 0)] + (e + [Match]) == [Instr.Look(negative, 0)] + e + [Match]
    ensures [] + [Instr.Look(negative, Length(e + [Match]))] + (e + [Match]) == LookAsm(e, negative)
    ensures Length([]) == 0
  {
    LengthConcat(e, [Match]);
    AssembleOne(Match);
  }

  // The code around a jump.
  lemma {:induction false} JumpForm(b: seq<Byte>, head: Asm, i: Instr, rest: Asm)
    requires i.Goto? || i.Look?
    ensures Out(b, head + [i] + rest) == (b + Assemble(head)) + ([Opcode(i)] + PutU32(i.off)) + Assemble(rest)
    ensures |Out(b, head + [i] + rest)| == |b| + Length(head) + 5 + Length(rest)
    ensures |b + Assemble(head)| == |b| + Length(head)
  {
    hide Assemble, Length, PutU32, Encode;
    JumpCode(i);
    OutBefore(b, head + [i], rest);
    AssembleConcat(head, [i]);
    AssembleOne(i);
    assert b + (Assemble(head) + Encode(i)) == b + Assemble(head) + Encode(i);
  }

  lemma {:induction false} AltParts(left: Asm, right: Asm)
    ensures [Split(false, Length(left) + 5)] + left + [Goto(Length(right))] + right == AltAsm(left, right)
  {
  }

  // Only a disjunction has more than one alternative.
  lemma {:induction false} NotAlt(r: Spec.Node)
    ensures |Alternatives(r)| > 1 ==> r.Alt?
  {
  }

  lemma {:induction false} NothingFits(canon: int -> int, f: Spec.Flags, capture: nat)
    requires Spec.CanonOk(canon) && capture <= CAPTURE_COUNT_MAX
    ensures AllFit(canon, [], f, capture) && CapturesIn([]) == 0
  {
  }

  lemma {:induction false} TermsStep(encode: Encoder, ts: seq<Spec.Node>, f: Spec.Flags, backward: bool, capture: nat, i: nat)
    requires i < |ts|
    ensures CapturesIn(ts[..i + 1]) == CapturesIn(ts[..i]) + Spec.Captures(ts[i])
    ensures var a, b := EmitTerms(encode, ts[..i], f, backward, capture), Emit(encode, ts[i], f, backward, capture + CapturesIn(ts[..i]));
            EmitTerms(encode, ts[..i + 1], f, backward, capture) == if backward then b + a else a + b
  {
    hide Emit;
    assert ts[..i + 1][..i] == ts[..i];
  }

  lemma {:induction false} AlternativesStep(encode: Encoder, rs: seq<Spec.Node>, f: Spec.Flags, backward: bool, capture: nat, i: nat)
    requires i < |rs|
    ensures CapturesIn(rs[..i + 1]) == CapturesIn(rs[..i]) + Spec.Captures(rs[i])
    ensures var b := Emit(encode, rs[i], f, backward, capture + CapturesIn(rs[..i]));
            EmitAlternatives(encode, rs[..i + 1], f, backward, capture)
            == if i == 0 then b else AltAsm(EmitAlternatives(encode, rs[..i], f, backward, capture), b)
  {
    hide Emit, Length, Spec.Captures;
    assert rs[..i + 1][..i] == rs[..i];
  }

  // The limits of a pattern around a single pattern are those of the inner one.
  lemma {:induction false} Limits(canon: int -> int, err: Option<Error>, r: Spec.Node, x: Spec.Node, f: Spec.Flags, g: Spec.Flags,
                                  capture: nat, capture': nat)
    requires Spec.CanonOk(canon) && Spec.WellFormed(r)
    requires || (r == Spec.Capture(x) && g == f && capture' == capture + 1)
             || (r.Modifiers? && r.body == x && g == Spec.UpdateFlags(f, r.add, r.remove) && capture' == capture)
             || ((r.Look? || r.Quant? || r.Group?) && r.body == x && g == f && capture' == capture)
    ensures Spec.WellFormed(x)
    ensures Fits(canon, r, f, capture) <==> Fits(canon, x, g, capture')
    ensures Failure(canon, err, x, g, capture') ==> Failure(canon, err, r, f, capture)
    ensures capture + Spec.Captures(r) == capture' + Spec.Captures(x)
  {
    hide Spec.CanonOk, ClassSet;
  }

  lemma {:induction false} TooManyAlready(canon: int -> int, x: Spec.Node, f: Spec.Flags, capture: nat)
    requires Spec.CanonOk(canon) && Spec.WellFormed(Spec.Capture(x)) && capture >= CAPTURE_COUNT_MAX
    ensures !Fits(canon, Spec.Capture(x), f, capture) && Failure(canon, Some(TooManyCaptures), Spec.Capture(x), f, capture)
  {
  }

  lemma {:induction false} BodyWellFormed(r: Spec.Node)
    requires r.Capture? || r.Modifiers? || r.Look?
    ensures Spec.WellFormed(r) <==> Spec.WellFormed(r.body)
  {
  }

  lemma {:induction false} QuantWellFormed(x: Spec.Node, min: int, max: int, greedy: bool)
    requires Spec.WellFormed(Spec.Quant(x, min, max, greedy))
    ensures Spec.WellFormed(x) && 0 <= min <= max <= Spec.INFINITE
  {
  }

  lemma {:induction false} FitsIs(canon: int -> int, r: Spec.Node, f: Spec.Flags, capture: nat)
    requires Spec.CanonOk(canon) && Spec.WellFormed(r)
    ensures Fits(canon, r, f, capture) <==> RangesFit(canon, r, f) && capture + Spec.Captures(r) <= CAPTURE_COUNT_MAX
  {
  }

  lemma {:induction false} NoFailure(canon: int -> int, r: Spec.Node, f: Spec.Flags, capture: nat)
    requires Spec.CanonOk(canon) && Spec.WellFormed(r)
    ensures Failure(canon, None, r, f, capture)
  {
  }

  lemma {:induction false} TermFails(canon: int -> int, err: Option<Error>, r: Spec.Node, f: Spec.Flags, capture: nat, i: nat)
    requires Spec.CanonOk(canon) && Spec.WellFormed(r) && i < |Terms(r)| && Spec.WellFormed(Terms(r)[i]) && err.Some?
    requires Failure(canon, err, Terms(r)[i], f, capture + CapturesIn(Terms(r)[..i]))
    ensures Failure(canon, err, r, f, capture) && !Fits(canon, r, f, capture)
  {
    hide Terms, RangesFit, Spec.CanonOk, Spec.WellFormed, Emit, EmitTerms, EmitAlternatives;
    FitsTerms(canon, r, f, capture);
    RangesFitTerms(canon, r, f);
    EmitIsTerms((x, g) => Match, r, f, false, 0);
    FailureSpreads(canon, Terms(r), f, capture, i);
  }

  lemma {:induction false} AlternativeFails(canon: int -> int, err: Option<Error>, r: Spec.Node, f: Spec.Flags, capture: nat, i: nat)
    requires Spec.CanonOk(canon) && Spec.WellFormed(r) && i < |Alternatives(r)| && Spec.WellFormed(Alternatives(r)[i]) && err.Some?
    requires Failure(canon, err, Alternatives(r)[i], f, capture + CapturesIn(Alternatives(r)[..i]))
    ensures Failure(canon, err, r, f, capture) && !Fits(canon, r, f, capture)
  {
    hide Alternatives, RangesFit, Spec.CanonOk, Spec.WellFormed, Emit, EmitTerms, EmitAlternatives;
    FitsAlternatives(canon, r, f, capture);
    RangesFitAlternatives(canon, r, f);
    EmitIsAlternatives((x, g) => Match, r, f, false, 0);
    FailureSpreads(canon, Alternatives(r), f, capture, i);
  }

  // A term that does not fit, or has too many captures, spoils the whole list.
  lemma {:induction false} FailureSpreads(canon: int -> int, rs: seq<Spec.Node>, f: Spec.Flags, capture: nat, i: nat)
    requires Spec.CanonOk(canon) && (forall k :: 0 <= k < |rs| ==> Spec.WellFormed(rs[k])) && i < |rs|
    ensures capture + CapturesIn(rs[..i]) + Spec.Captures(rs[i]) > CAPTURE_COUNT_MAX ==> capture + CapturesIn(rs) > CAPTURE_COUNT_MAX
  {
    assert rs[..i + 1][..i] == rs[..i];
    assert rs == rs[..i + 1] + rs[i + 1..];
    CapturesInConcat(rs[..i + 1], rs[i + 1..]);
  }

  lemma {:induction false} SimpleCountIs(a: Asm)
    ensures SimpleCount(a) > 0 ==> SimpleCount(a) == CharCount(a)
  {
  }

  lemma {:induction false} SplitCode(n: int, gotoFirst: bool, off: int)
    ensures Encode(PushI32(n)) == [REOP_PUSH_I32] + PutU32(n)
    ensures Encode(Split(gotoFirst, off)) == [if gotoFirst then REOP_SPLIT_GOTO_FIRST else REOP_SPLIT_NEXT_FIRST] + PutU32(off)
    ensures Encode(PushCharPos) == [REOP_PUSH_CHAR_POS] && Encode(CheckAdvance) == [REOP_CHECK_ADVANCE]
  {
  }

  lemma {:induction false} IterationParts(a: Asm, check: bool, greedy: bool, extra: int)
    ensures var split := Split(!greedy, Length(a) + extra + if check then 2 else 0);
            Iteration(a, check, greedy, extra) == if check then [split, PushCharPos] + a + [CheckAdvance] else [split] + a
  {
    var split := Split(!greedy, Length(a) + extra + if check then 2 else 0);
    if check {
      assert [split] + ([PushCharPos] + a + [CheckAdvance]) == [split, PushCharPos] + a + [CheckAdvance];
    }
  }

  lemma {:induction false} IterationLength(a: Asm, check: bool, greedy: bool, extra: int)
    ensures Length(Iteration(a, check, greedy, extra)) == Length(a) + 5 + if check then 2 else 0
  {
    hide Length;
    var split := Split(!greedy, Length(a) + (if check then 2 else 0) + extra);
    LengthConcat([split], Guarded(a, check));
    AssembleOne(split);
    if check {
      LengthConcat([PushCharPos] + a, [CheckAdvance]);
      LengthConcat([PushCharPos], a);
      AssembleOne(PushCharPos);
      AssembleOne(CheckAdvance);
    }
  }

  ghost function UpToLength(a: Asm, check: bool, greedy: bool, n: int): (l: nat)
    ensures l == Length([PushI32(n)] + Iteration(a, check, greedy, 5)) == Length(a) + 10 + if check then 2 else 0
  {
    LengthConcat([PushI32(n)], Iteration(a, check, greedy, 5));
    IterationLength(a, check, greedy, 5);
    Length([PushI32(n)] + Iteration(a, check, greedy, 5))
  }

  lemma {:induction false} BeforeThree(b: seq<Byte>, i: Instr, j: Instr, k: Instr, a: Asm)
    ensures b + (Encode(i) + Encode(j) + Encode(k)) + Assemble(a) == Out(b, [i, j, k] + a)
  {
    OutBefore(b, [i, j, k], a);
    assert [i, j, k] == [i] + [j] + [k];
    AssembleConcat([i] + [j], [k]);
    AssembleConcat([i], [j]);
    AssembleOne(i);
    AssembleOne(j);
    AssembleOne(k);
  }

  lemma {:induction false} ConcatAssoc(a: seq<Byte>, b: seq<Byte>, c: seq<Byte>)
    ensures a + b + c == a + (b + c)
  {
  }

  // The three forms re_emit_range chooses between, as bytes.
  lemma {:induction false} RangeCode(p: seq<Point>, icase: bool)
    requires CharRange.Canonical(p)
    ensures |p| / 2 == 0 ==> Encode(EmitRange(p, icase)) == [REOP_CHAR32] + PutU32(0xffff_ffff)
    ensures |p| / 2 > 0 && HighBound(p) <= 0xffff ==>
              Encode(EmitRange(p, icase))
              == ([if icase then REOP_RANGE_I else REOP_RANGE] + PutU16(|p| / 2)) + EncodeTable16(Table16(p))
    ensures |p| / 2 > 0 && HighBound(p) > 0xffff ==>
              Encode(EmitRange(p, icase))
              == ([if icase then REOP_RANGE32_I else REOP_RANGE32] + PutU16(|p| / 2)) + EncodeTable32(Table32(p))
  {
    hide EncodeTable16, EncodeTable32, PutU16, PutU32;
    if |p| / 2 > 0 && HighBound(p) <= 0xffff {
      ConcatAssoc([if icase then REOP_RANGE_I else REOP_RANGE], PutU16(|p| / 2), EncodeTable16(Table16(p)));
    } else if |p| / 2 > 0 {
      ConcatAssoc([if icase then REOP_RANGE32_I else REOP_RANGE32], PutU16(|p| / 2), EncodeTable32(Table32(p)));
    }
  }

  lemma {:induction false} TableStart()
    ensures EncodeTable16([]) == [] && EncodeTable32([]) == []
  {
  }

  lemma {:induction false} CanonRange(t: CaseTable, c: int)
    requires TableOk(t) && 0 <= c <= 0x10_FFFF
    ensures 0 <= Canon(t, c) <= 0x10_FFFF
  {
  }

  lemma {:induction false} ItemsStep(canon: int -> int, items: seq<Spec.ClassItem>, icase: bool, i: nat)
    requires Spec.CanonOk(canon) && (forall k :: 0 <= k < |items| ==> Spec.WellFormedItem(items[k])) && i < |items|
    ensures ItemsSet(canon, items[..i + 1], icase)
         == CharRange.Op(Union, ItemsSet(canon, items[..i], icase), ItemSet(canon, items[i], icase))
  {
    assert items[..i + 1][..i] == items[..i];
  }

  // ---------------------------------------------------------------------------
  // lre_compile

  datatype Outcome = Code(code: seq<Byte>) | Failed(error: Error)

  // The limits a pattern must keep for lre_compile to accept it.
  ghost predicate Acceptable(t: CaseTable, unicode: bool, r: Spec.Node, f: Spec.Flags, sticky: bool)
    requires TableOk(t) && FastPathOk(t, unicode) && Spec.WellFormed(r)
  {
    var a := Program(CharEncoder(CanonFn(t, unicode)), r, f, sticky);
    Fits(CanonFn(t, unicode), r, f, 1) && HEADER_LEN + Length(a) <= CODE_SIZE_MAX && Peak(a) <= STACK_SIZE_MAX
  }

  // The machine lre_exec builds from compiled code.
  function MachineOf(code: seq<Byte>, subject: RegexInput.Subject, canon: int -> int): (m: Machine)
    requires |code| >= HEADER_LEN
  {
    RegexMachine.Machine(code[HEADER_LEN..], subject, canon, code[HEADER_CAPTURE_COUNT], code[HEADER_STACK_SIZE])
  }

  // Compilation succeeds exactly on the patterns within the limits. The header then tells
  // the size of the code, and the machine set up from it runs the pattern (ExecIsSearch).
  method LreCompile(t: CaseTable, unicode: bool, r: Spec.Node, f: Spec.Flags, sticky: bool, flags: U16) returns (res: Outcome)
    requires TableOk(t) && FastPathOk(t, unicode) && Spec.WellFormed(r)
    ensures res.Code? <==> Acceptable(t, unicode, r, f, sticky)
    ensures res.Code? ==> |res.code| >= HEADER_LEN && GetU16(res.code, 0) == flags
                          && GetU32(res.code, HEADER_BYTECODE_LEN) == |res.code| - HEADER_LEN
    ensures res.Code? ==> forall subject :: Compiled(MachineOf(res.code, subject, CanonFn(t, unicode)), r, f, sticky)
    ensures res.Failed? && res.error == TooManyCaptures ==> 1 + Spec.Captures(r) > CAPTURE_COUNT_MAX
    ensures res.Failed? && res.error == TooManyRanges ==> !RangesFit(CanonFn(t, unicode), r, f)
  {
    hide TableOk, FastPathOk, Spec.CanonOk, CanonFn, Out, CharEncoder, Spec.WellFormed, Assemble, Length, Net, Peak, Trough, PutU16,
         PutU32, TablesFit, AllValid, RangesFit, Program, GetU16, GetU32, At;
    var s := new Compiler(t, unicode, f, PutU16(flags) + [0, 0] + PutU32(0));
    ghost var h := s.byteCode;
    ghost var a := Program(CharEncoder(CanonFn(t, unicode)), r, f, sticky);
    var err := s.ParseProgram(r, sticky, h);
    if err.Some? {
      return Failed(err.value);
    }
    OutPrefix(h, a);
    OutIs(h, a);
    if |s.byteCode| > CODE_SIZE_MAX {
      return Failed(OutOfMemory);
    }
    ProgramGood(CanonFn(t, unicode), r, f, sticky);
    var stackSize := ScanStackSize(s.byteCode, HEADER_LEN, a);
    if stackSize < 0 {
      return Failed(TooManyQuantifiers);
    }
    s.WriteHeader(stackSize, flags, Assemble(a));
    FinishHeader(flags, s.captureCount, stackSize, |Assemble(a)|, Assemble(a));
    IsCompiled(s.byteCode, t, unicode, r, f, sticky, a);
    return Code(s.byteCode);
  }

  lemma {:induction false} OutIs(b: seq<Byte>, a: Asm)
    ensures Out(b, a) == b + Assemble(a)
  {
  }

  lemma {:induction false} IsCompiled(code: seq<Byte>, t: CaseTable, unicode: bool, r: Spec.Node, f: Spec.Flags, sticky: bool, a: Asm)
    requires TableOk(t) && FastPathOk(t, unicode) && Spec.WellFormed(r) && a == Program(CharEncoder(CanonFn(t, unicode)), r, f, sticky)
    requires |code| >= HEADER_LEN && code[HEADER_LEN..] == Assemble(a) && AllValid(a)
    requires code[HEADER_CAPTURE_COUNT] == 1 + Spec.Captures(r) && code[HEADER_STACK_SIZE] == Peak(a)
    ensures forall subject :: Compiled(MachineOf(code, subject, CanonFn(t, unicode)), r, f, sticky)
  {
    hide TableOk, FastPathOk, Program, CharEncoder, CanonFn, Spec.CanonOk, Spec.WellFormed, Assemble, AllValid, Peak, Spec.Captures;
  }

  lemma {:induction false} ProgramParts(encode: Encoder, r: Spec.Node, f: Spec.Flags, sticky: bool)
    ensures var lead: Asm := if sticky then [] else [Split(true, 6), AnyChar, Goto(-11)];
            Program(encode, r, f, sticky) == lead + [SaveStart(0)] + Emit(encode, r, f, false, 1) + [SaveEnd(0)] + [Match]
  {
    hide Emit;
  }

  // Reading the header back.
  lemma {:induction false} FinishHeader(flags: U16, captures: Byte, stack: Byte, len: U32, rest: seq<Byte>)
    ensures var c := PutU16(flags) + [captures, stack] + PutU32(len) + rest;
            && GetU16(c, 0) == flags && c[HEADER_CAPTURE_COUNT] == captures && c[HEADER_STACK_SIZE] == stack
            && GetU32(c, HEADER_BYTECODE_LEN) == len && c[HEADER_LEN..] == rest
  {
    var c := PutU16(flags) + [captures, stack] + PutU32(len) + rest;
    assert c[0..2] == PutU16(flags);
    GetPutU16(c, 0, flags);
    assert c[4..8] == PutU32(len);
    GetPutU32(c, 4, len);
  }
}
