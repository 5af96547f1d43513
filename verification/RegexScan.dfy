// The loops that walk over emitted byte code: re_need_check_advance,
// re_is_simple_quantifier and compute_stack_size. Each is proved to compute, from the
// bytes alone, a property of the instruction list the bytes encode.
module RegexScan {
  import opened Bytes
  import opened RegexOpcode
  import opened RegexAsm
  import opened RegexSteps
  import Spec = RegexSpec

  const STACK_SIZE_MAX := 255

  // The interval counts fit their 16-bit fields.
  predicate TablesFit(a: Asm) {
    forall k :: 0 <= k < |a| ==> TableFits(a[k])
  }

  predicate TableFits(i: Instr) {
    i.Range? || i.Range32? ==> |i.table| < U16_LIMIT
  }

  lemma {:induction false} TablesFitConcat(a: Asm, b: Asm)
    ensures TablesFit(a + b) <==> TablesFit(a) && TablesFit(b)
  {
    if TablesFit(a + b) {
      assert forall k :: 0 <= k < |a| ==> a[k] == (a + b)[k];
      assert forall k :: 0 <= k < |b| ==> b[k] == (a + b)[|a| + k];
    }
  }

  // The length a scan steps over: the fixed size of the opcode plus the interval table.
  function ScanSize(op: Byte, n: int): (l: int) {
    FixedSize(op)
    + if op == REOP_RANGE || op == REOP_RANGE_I then n * 4
      else if op == REOP_RANGE32 || op == REOP_RANGE32_I then n * 8
      else 0
  }

  predicate IsRangeOp(op: Byte) {
    REOP_RANGE <= op <= REOP_RANGE32_I
  }

  // A scan at an instruction reads its opcode and knows its size.
  lemma {:induction false} ScanAt(code: seq<Byte>, pos: int, i: Instr)
    requires At(code, pos, Encode(i)) && TableFits(i)
    ensures 0 <= pos && pos + Size(i) <= |code| && code[pos] == Opcode(i)
    ensures IsRangeOp(Opcode(i)) ==> pos + 3 <= |code|
    ensures Size(i) == ScanSize(Opcode(i), if IsRangeOp(Opcode(i)) then GetU16(code, pos + 1) else 0)
  {
    AtConcat(code, pos, [Opcode(i)], EncodeOperands(i));
    assert code[pos] == code[pos..pos + 1][0];
    if i.Range? {
      AtConcat(code, pos + 1, PutU16(|i.table|), EncodeTable16(i.table));
      GetPutU16(code, pos + 1, |i.table|);
    } else if i.Range32? {
      AtConcat(code, pos + 1, PutU16(|i.table|), EncodeTable32(i.table));
      GetPutU16(code, pos + 1, |i.table|);
    }
  }

  // At the position of the k-th instruction it steps to the next one.
  lemma {:induction false} ScanStep(code: seq<Byte>, start: int, a: Asm, k: int)
    requires At(code, start, Assemble(a)) && TablesFit(a) && 0 <= k < |a|
    ensures var pos := start + Length(a[..k]);
            && 0 <= pos < start + Length(a) <= |code| && code[pos] == Opcode(a[k])
            && (IsRangeOp(code[pos]) ==> pos + 3 <= |code|)
            && Length(a[..k + 1]) == Length(a[..k]) + ScanSize(code[pos], if IsRangeOp(code[pos]) then GetU16(code, pos + 1) else 0)
            && Length(a[..k + 1]) <= Length(a)
  {
    hide Encode, Opcode, Size, Assemble, Length, ScanSize, TableFits, At;
    var i := a[k];
    assert a == a[..k] + [i] + a[k + 1..];
    assert a[..k + 1] == a[..k] + [i];
    PlacedConcat(code, start, a[..k] + [i], a[k + 1..]);
    PlacedConcat(code, start, a[..k], [i]);
    LengthConcat(a[..k] + [i], a[k + 1..]);
    LengthConcat(a[..k], [i]);
    AssembleOne(i);
    ScanAt(code, start + Length(a[..k]), i);
    WholeFits(code, start, a);
  }

  lemma {:induction false} WholeFits(code: seq<Byte>, start: int, a: Asm)
    requires At(code, start, Assemble(a))
    ensures 0 <= start && start + Length(a) <= |code|
  {
  }

  predicate IsCharOp(op: Byte) {
    REOP_CHAR <= op <= REOP_ANY || IsRangeOp(op)
  }

  predicate IsAssertionOp(op: Byte) {
    REOP_LINE_START <= op <= REOP_LINE_END_M || REOP_WORD_BOUNDARY <= op <= REOP_NOT_WORD_BOUNDARY_I
  }

  predicate IsNeutralOp(op: Byte) {
    IsAssertionOp(op) || op == REOP_PUSH_I32 || op == REOP_PUSH_CHAR_POS || op == REOP_DROP || op == REOP_PREV
    || REOP_SAVE_START <= op <= REOP_SAVE_RESET
  }

  lemma {:induction false} OpcodeKinds(i: Instr)
    ensures IsCharOp(Opcode(i)) <==> IsCharInstr(i)
    ensures IsAssertionOp(Opcode(i)) <==> IsAssertion(i)
    ensures IsNeutralOp(Opcode(i)) <==> IsNeutral(i)
    ensures Opcode(i) == REOP_PUSH_I32 || Opcode(i) == REOP_PUSH_CHAR_POS <==> Delta(i) == 1
    ensures Opcode(i) == REOP_DROP || Opcode(i) == REOP_CHECK_ADVANCE <==> Delta(i) == -1
  {
  }

  // What a scan knows after the first k instructions.
  lemma {:induction false} PrefixStep(a: Asm, k: int)
    requires 0 <= k < |a|
    ensures Linear(a[..k + 1]) <==> Linear(a[..k]) && (IsCharInstr(a[k]) || IsNeutral(a[k]))
    ensures Simple(a[..k + 1]) <==> Simple(a[..k]) && (IsCharInstr(a[k]) || IsAssertion(a[k]))
    ensures CharCount(a[..k + 1]) == CharCount(a[..k]) + if IsCharInstr(a[k]) then 1 else 0
    ensures Linear(a) ==> Linear(a[..k + 1])
    ensures Simple(a) ==> Simple(a[..k + 1])
  {
    assert a[..k + 1] == a[..k] + [a[k]];
    CharCountConcat(a[..k], [a[k]]);
    assert [a[k]][1..] == [];
    LinearConcat(a[..k], [a[k]]);
    LinearConcat(a[..k + 1], a[k + 1..]);
    assert a == a[..k + 1] + a[k + 1..];
  }

  // A scan that stands at the end of the code has seen every instruction.
  lemma {:induction false} PrefixEnd(a: Asm, k: int)
    requires 0 <= k <= |a|
    ensures Length(a[..k]) <= Length(a)
    ensures Length(a[..k]) < Length(a) <==> k < |a|
    ensures k == |a| ==> a[..k] == a
  {
    assert a == a[..k] + a[k..];
    LengthConcat(a[..k], a[k..]);
  }

  // re_need_check_advance
  method ScanNeedCheckAdvance(code: seq<Byte>, start: nat, ghost a: Asm) returns (need: bool)
    requires At(code, start, Assemble(a)) && start + Length(a) == |code| && TablesFit(a)
    ensures need == NeedCheckAdvance(a)
  {
    hide At, Assemble, Length, Linear, CharCount, Opcode, IsCharInstr, IsNeutral, FixedSize;
    need := true;
    var pos := start;
    ghost var k := 0;
    EmptyPrefix(a);
    while pos < |code|
      invariant 0 <= k <= |a| && start <= pos == start + Length(a[..k]) <= |code|
      invariant Linear(a[..k]) && need == (CharCount(a[..k]) == 0)
      decreases |a| - k
    {
      PrefixEnd(a, k);
      ScanStep(code, start, a, k);
      OpcodeKinds(a[k]);
      PrefixStep(a, k);
      var op := code[pos];
      var len := ScanSize(op, if IsRangeOp(op) then GetU16(code, pos + 1) else 0);
      if IsCharOp(op) {
        need := false;
      } else if !IsNeutralOp(op) {
        return true;
      }
      pos := pos + len;
      k := k + 1;
    }
    PrefixEnd(a, k);
  }

  // re_is_simple_quantifier
  method ScanSimpleQuantifier(code: seq<Byte>, start: nat, ghost a: Asm) returns (count: int)
    requires At(code, start, Assemble(a)) && start + Length(a) == |code| && TablesFit(a)
    ensures count == SimpleCount(a)
  {
    hide At, Assemble, Length, Simple, CharCount, Opcode, IsCharInstr, IsAssertion, FixedSize;
    count := 0;
    var pos := start;
    ghost var k := 0;
    EmptyPrefix(a);
    while pos < |code|
      invariant 0 <= k <= |a| && start <= pos == start + Length(a[..k]) <= |code|
      invariant Simple(a[..k]) && count == CharCount(a[..k])
      decreases |a| - k
    {
      PrefixEnd(a, k);
      ScanStep(code, start, a, k);
      OpcodeKinds(a[k]);
      PrefixStep(a, k);
      var op := code[pos];
      var len := ScanSize(op, if IsRangeOp(op) then GetU16(code, pos + 1) else 0);
      if IsCharOp(op) {
        count := count + 1;
      } else if !IsAssertionOp(op) {
        return -1;
      }
      pos := pos + len;
      k := k + 1;
    }
    PrefixEnd(a, k);
  }

  lemma {:induction false} EmptyPrefix(a: Asm)
    ensures a[..0] == [] && Length(a[..0]) == 0 && CharCount(a[..0]) == 0 && Linear(a[..0]) && Simple(a[..0])
    ensures Net(a[..0]) == 0 && Peak(a[..0]) == 0
  {
  }

  // ---------------------------------------------------------------------------
  // compute_stack_size

  // The lowest depth of the integer stack along the code; never above zero.
  function Trough(a: Asm): (d: int)
    ensures d <= 0
  {
    if a == [] then 0 else var t := Delta(a[0]) + Trough(a[1..]); if t < 0 then t else 0
  }

  // The code leaves the depth unchanged and never pops what it has not pushed.
  predicate Balanced(a: Asm) {
    Net(a) == 0 && Trough(a) == 0
  }

  lemma {:induction false} TroughConcat(a: Asm, b: Asm)
    ensures Trough(a + b) == if Trough(a) <= Net(a) + Trough(b) then Trough(a) else Net(a) + Trough(b)
  {
    if a == [] {
      assert a + b == b;
    } else {
      assert (a + b)[1..] == a[1..] + b;
      TroughConcat(a[1..], b);
    }
  }

  lemma {:induction false} TroughBelowNet(a: Asm)
    ensures Trough(a) <= Net(a)
  {
    if a != [] {
      TroughBelowNet(a[1..]);
    }
  }

  lemma {:induction false} DepthStep(a: Asm, k: int)
    requires 0 <= k < |a|
    ensures Net(a[..k + 1]) == Net(a[..k]) + Delta(a[k])
    ensures Peak(a[..k + 1]) == Spec.Max(Peak(a[..k]), Net(a[..k + 1]))
    ensures Peak(a[..k + 1]) <= Peak(a)
    ensures Trough(a) <= Net(a[..k + 1])
  {
    assert a[..k + 1] == a[..k] + [a[k]];
    assert [a[k]][1..] == [];
    NetConcat(a[..k], [a[k]]);
    PeakAboveNet(a[..k]);
    assert a == a[..k + 1] + a[k + 1..];
    NetConcat(a[..k + 1], a[k + 1..]);
    TroughConcat(a[..k + 1], a[k + 1..]);
    TroughBelowNet(a[..k + 1]);
  }

  lemma {:induction false} PeakAboveNet(a: Asm)
    ensures Net(a) <= Peak(a)
  {
    if a != [] {
      PeakAboveNet(a[1..]);
    }
  }

  // compute_stack_size: the highest depth of the integer stack, or -1 when it is over the
  // limit. The depth is positive whenever the code pops.
  method ScanStackSize(code: seq<Byte>, start: nat, ghost a: Asm) returns (size: int)
    requires At(code, start, Assemble(a)) && start + Length(a) == |code| && TablesFit(a) && Trough(a) == 0
    ensures size == if Peak(a) <= STACK_SIZE_MAX then Peak(a) else -1
  {
    hide At, Assemble, Length, Opcode, Net, Peak, Trough, FixedSize, Delta;
    size := 0;
    var depth, pos := 0, start;
    ghost var k := 0;
    EmptyPrefix(a);
    while pos < |code|
      invariant 0 <= k <= |a| && start <= pos == start + Length(a[..k]) <= |code|
      invariant depth == Net(a[..k]) && 0 <= depth <= size == Peak(a[..k]) <= STACK_SIZE_MAX
      decreases |a| - k
    {
      PrefixEnd(a, k);
      ScanStep(code, start, a, k);
      OpcodeKinds(a[k]);
      DepthStep(a, k);
      var op := code[pos];
      var len := ScanSize(op, if IsRangeOp(op) then GetU16(code, pos + 1) else 0);
      DeltaRange(a[k]);
      if op == REOP_PUSH_I32 || op == REOP_PUSH_CHAR_POS {
        depth := depth + 1;
        if depth > size {
          if depth > STACK_SIZE_MAX {
            return -1;
          }
          size := depth;
        }
      } else if op == REOP_DROP || op == REOP_CHECK_ADVANCE {
        assert depth > 0;
        depth := depth - 1;
      }
      pos := pos + len;
      k := k + 1;
    }
    PrefixEnd(a, k);
  }

  lemma {:induction false} DeltaRange(i: Instr)
    ensures -1 <= Delta(i) <= 1
  {
  }
}
