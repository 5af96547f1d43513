// Static facts about emitted programs: the integer stack is balanced, interval counts and
// operands fit their fields.
module RegexValid {
  import opened Bytes
  import opened CharRange
  import opened RegexOpcode
  import opened RegexAsm
  import opened RegexClass
  import opened RegexSteps
  import opened RegexScan
  import opened RegexTheorem
  import Spec = RegexSpec

  const CAPTURE_COUNT_MAX := 255
  const MAX_RANGES := 65535
  const CODE_SIZE_MAX := INT32_MAX / 2

  // No class of the pattern has too many ranges.
  ghost predicate RangesFit(canon: int -> int, r: Spec.Node, f: Spec.Flags)
    requires Spec.CanonOk(canon) && Spec.WellFormed(r)
  {
    match r
    case Class(items, negated) => |ClassSet(canon, items, negated, f.ignoreCase)| / 2 < MAX_RANGES
    case Seq(x, y) => RangesFit(canon, x, f) && RangesFit(canon, y, f)
    case Alt(x, y) => RangesFit(canon, x, f) && RangesFit(canon, y, f)
    case Group(x) => RangesFit(canon, x, f)
    case Capture(x) => RangesFit(canon, x, f)
    case Modifiers(add, remove, x) => RangesFit(canon, x, Spec.UpdateFlags(f, add, remove))
    case Look(_, _, x) => RangesFit(canon, x, f)
    case Quant(x, _, _, _) => RangesFit(canon, x, f)
    case _ => true
  }

  // ---------------------------------------------------------------------------
  // Any property of instruction lists that holds of single instructions of the right kind
  // and is kept by concatenation

  lemma {:induction false} OneBalanced(i: Instr)
    ensures Net([i]) == Delta(i) && Trough([i]) == if Delta(i) < 0 then Delta(i) else 0
    ensures TablesFit([i]) <==> TableFits(i)
    ensures AllValid([i]) <==> ValidInstr(i)
    ensures Length([i]) == Size(i)
  {
    assert [i][1..] == [];
    assert [i][0] == i;
  }

  // Concatenation on the three measures.
  lemma {:induction false} Concat(a: Asm, b: Asm)
    ensures Net(a + b) == Net(a) + Net(b)
    ensures Trough(a + b) == if Trough(a) <= Net(a) + Trough(b) then Trough(a) else Net(a) + Trough(b)
    ensures TablesFit(a + b) <==> TablesFit(a) && TablesFit(b)
    ensures AllValid(a + b) <==> AllValid(a) && AllValid(b)
    ensures Length(a + b) == Length(a) + Length(b)
  {
    hide Net, Trough, TablesFit, AllValid, Length;
    NetConcat(a, b);
    TroughConcat(a, b);
    TablesFitConcat(a, b);
    AllValidConcat(a, b);
    LengthConcat(a, b);
  }

  lemma {:induction false} Wrapped(i: Instr, a: Asm, j: Instr)
    requires Balanced(a) && Delta(i) + Delta(j) == 0 && Delta(i) >= 0
    ensures Balanced([i] + a + [j])
    ensures TablesFit([i] + a + [j]) <==> TableFits(i) && TablesFit(a) && TableFits(j)
    ensures AllValid([i] + a + [j]) <==> ValidInstr(i) && AllValid(a) && ValidInstr(j)
    ensures Length([i] + a + [j]) == Size(i) + Length(a) + Size(j)
  {
    hide Net, Trough, TablesFit, AllValid, Length;
    Concat([i] + a, [j]);
    Concat([i], a);
    OneBalanced(i);
    OneBalanced(j);
  }

  // a, then one instruction that leaves the depth alone (or the other way round).
  lemma {:induction false} Followed(a: Asm, j: Instr)
    requires Balanced(a) && Delta(j) == 0
    ensures Balanced(a + [j]) && Balanced([j] + a)
    ensures TablesFit(a + [j]) <==> TablesFit(a) && TableFits(j)
    ensures TablesFit([j] + a) <==> TablesFit(a) && TableFits(j)
    ensures AllValid(a + [j]) <==> AllValid(a) && ValidInstr(j)
    ensures AllValid([j] + a) <==> AllValid(a) && ValidInstr(j)
    ensures Length(a + [j]) == Length(a) + Size(j) == Length([j] + a)
  {
    hide Net, Trough, TablesFit, AllValid, Length;
    Concat(a, [j]);
    Concat([j], a);
    OneBalanced(j);
  }

  // Balanced code with interval counts that fit.
  predicate Sound(a: Asm) {
    Balanced(a) && TablesFit(a)
  }

  // Valid operands, provided that the code is small enough for its jumps.
  predicate ValidWithin(a: Asm) {
    Length(a) <= CODE_SIZE_MAX ==> AllValid(a)
  }

  predicate Good(a: Asm) {
    Sound(a) && ValidWithin(a)
  }

  lemma {:induction false} GoodConcat(a: Asm, b: Asm)
    requires Good(a) && Good(b)
    ensures Good(a + b)
  {
    hide Net, Trough, TablesFit, AllValid, Length;
    Concat(a, b);
  }

  lemma {:induction false} GoodOne(i: Instr)
    requires Delta(i) == 0 && TableFits(i) && ValidInstr(i)
    ensures Good([i])
  {
    OneBalanced(i);
  }

  lemma {:induction false} GuardedGood(a: Asm, check: bool)
    requires Good(a)
    ensures Good(Guarded(a, check)) && Length(Guarded(a, check)) == Length(a) + if check then 2 else 0
  {
    hide Net, Trough, TablesFit, AllValid, Length;
    if check {
      Wrapped(PushCharPos, a, CheckAdvance);
    }
  }

  lemma {:induction false} IterationGood(a: Asm, check: bool, greedy: bool, extra: int)
    requires Good(a) && 0 <= extra <= 5
    ensures Good(Iteration(a, check, greedy, extra))
    ensures Length(Iteration(a, check, greedy, extra)) == Length(a) + 5 + if check then 2 else 0
  {
    hide Net, Trough, TablesFit, AllValid, Length;
    GuardedGood(a, check);
    Followed(Guarded(a, check), Split(!greedy, Length(a) + (if check then 2 else 0) + extra));
  }

  lemma {:induction false} StarGood(a: Asm, check: bool, greedy: bool)
    requires Good(a)
    ensures Good(Star(a, check, greedy))
  {
    hide Net, Trough, TablesFit, AllValid, Length, Iteration;
    IterationGood(a, check, greedy, 5);
    Followed(Iteration(a, check, greedy, 5), Goto(-(Length(a) + (if check then 2 else 0) + 10)));
  }

  // A counter around a body that jumps back to it.
  lemma {:induction false} CounterGood(n: int, b: Asm, off: int)
    requires Good(b) && 0 <= n <= INT32_MAX && -(Length(b) + 5) <= off <= 0
    ensures Good([PushI32(n)] + b + [Loop(off), Drop])
  {
    hide Net, Trough, TablesFit, AllValid, Length;
    Followed(b, Loop(off));
    Wrapped(PushI32(n), b + [Loop(off)], Drop);
    assert [PushI32(n)] + (b + [Loop(off)]) + [Drop] == [PushI32(n)] + b + [Loop(off), Drop];
  }

  lemma {:induction false} OptionalGood(a: Asm, check: bool, greedy: bool, n: int, unbounded: bool)
    requires Good(a) && n <= INT32_MAX
    ensures Good(Optional(a, check, greedy, n, unbounded))
  {
    hide Net, Trough, TablesFit, AllValid, Length, Iteration, Star;
    if unbounded {
      StarGood(a, check, greedy);
    } else if n > 0 {
      IterationGood(a, check, greedy, 5);
      var c := if check then 2 else 0;
      CounterGood(n, Iteration(a, check, greedy, 5), -(Length(a) + c + 10));
    } else {
      EmptyGood();
    }
  }

  lemma {:induction false} EmptyGood()
    ensures Good([])
  {
  }

  lemma {:induction false} MandatoryGood(a: Asm, min: int)
    requires Good(a) && 0 <= min <= INT32_MAX
    ensures Good(Mandatory(a, min))
  {
    hide Net, Trough, TablesFit, AllValid, Length;
    if min != 1 {
      CounterGood(min, a, -(Length(a) + 5));
    }
  }

  lemma {:induction false} CharCountBounded(a: Asm)
    ensures CharCount(a) <= Length(a)
  {
    if a != [] {
      CharCountBounded(a[1..]);
    }
  }

  lemma {:induction false} QuantGood(a: Asm, min: int, max: int, greedy: bool, first: nat, next: nat)
    requires Good(a) && 0 <= min <= max <= INT32_MAX && first <= next <= CAPTURE_COUNT_MAX
    ensures Good(QuantAsm(a, min, max, greedy, first, next))
  {
    hide Net, Trough, TablesFit, AllValid, Length, Iteration, Star, Optional, Mandatory, NeedCheckAdvance, SimpleCount;
    var check := NeedCheckAdvance(a);
    if greedy && max > 0 && SimpleCount(a) > 0 {
      CharCountBounded(a);
      Followed(a, Match);
      Followed(a + [Match], SimpleGreedyQuant(Length(a) + 1, min, max, CharCount(a)));
      assert [SimpleGreedyQuant(Length(a) + 1, min, max, CharCount(a))] + (a + [Match]) == SimpleQuant(a, min, max);
    } else if min == 0 {
      var rest := if max == 1 then Iteration(a, check, greedy, 0) else Optional(a, check, greedy, max, max == Spec.INFINITE);
      if max == 1 {
        IterationGood(a, check, greedy, 0);
      } else {
        OptionalGood(a, check, greedy, max, max == Spec.INFINITE);
      }
      if first != next {
        GoodOne(SaveReset(first, next - 1));
        GoodConcat([SaveReset(first, next - 1)], rest);
      } else {
        assert [] + rest == rest;
      }
    } else if min == 1 && max == Spec.INFINITE && !check {
      Followed(a, Split(greedy, -(Length(a) + 5)));
    } else {
      MandatoryGood(a, min);
      OptionalGood(a, check, greedy, max - min, max == Spec.INFINITE);
      GoodConcat(Mandatory(a, min), Optional(a, check, greedy, max - min, max == Spec.INFINITE));
    }
  }

  lemma {:induction false} AltGood(a: Asm, b: Asm)
    requires Good(a) && Good(b)
    ensures Good(AltAsm(a, b))
  {
    hide Net, Trough, TablesFit, AllValid, Length;
    var i, j := Split(false, Length(a) + 5), Goto(Length(b));
    Followed(a, i);
    Followed([i] + a, j);
    Concat([i] + a + [j], b);
  }

  lemma {:induction false} CaptureGood(a: Asm, backward: bool, capture: nat)
    requires Good(a) && capture < CAPTURE_COUNT_MAX
    ensures Good(CaptureAsm(a, backward, capture))
  {
    hide Net, Trough, TablesFit, AllValid, Length;
    if backward {
      Wrapped(SaveEnd(capture), a, SaveStart(capture));
    } else {
      Wrapped(SaveStart(capture), a, SaveEnd(capture));
    }
  }

  lemma {:induction false} LookGood(a: Asm, negative: bool)
    requires Good(a)
    ensures Good(LookAsm(a, negative))
  {
    hide Net, Trough, TablesFit, AllValid, Length;
    Wrapped(Instr.Look(negative, Length(a) + 1), a, Match);
  }

  lemma {:induction false} ClassSetCanonical(canon: int -> int, items: seq<Spec.ClassItem>, negated: bool, icase: bool)
    requires Spec.CanonOk(canon) && forall i :: 0 <= i < |items| ==> Spec.WellFormedItem(items[i])
    ensures Canonical(ClassSet(canon, items, negated, icase))
  {
    ItemsSetCorrect(canon, items, icase);
    InvertCorrect(ItemsSet(canon, items, icase));
  }

  lemma {:induction false} OneCharGood(canon: int -> int, r: Spec.Node, f: Spec.Flags, backward: bool)
    requires IsOneChar(r) && Spec.WellFormed(r) && Spec.CanonOk(canon) && RangesFit(canon, r, f)
    ensures Good(Directed(backward, CharEncoder(canon)(r, f)))
  {
    hide ClassSet, Length;
    var i := OneChar(canon, r, f);
    assert CharEncoder(canon)(r, f) == i;
    assert ValidInstr(i) && TableFits(i) by {
      if r.Class? {
        ClassSetCanonical(canon, r.items, r.negated, f.ignoreCase);
        EmitRangeValid(ClassSet(canon, r.items, r.negated, f.ignoreCase), f.ignoreCase);
      }
    }
    GoodOne(i);
    if backward {
      Wrapped(Prev, [i], Prev);
      assert [Prev] + [i] + [Prev] == [Prev, i, Prev];
    }
  }

  lemma {:induction false} SeqGood(encode: Encoder, x: Spec.Node, y: Spec.Node, f: Spec.Flags, backward: bool, capture: nat)
    requires Good(Emit(encode, x, f, backward, capture)) && Good(Emit(encode, y, f, backward, capture + Spec.Captures(x)))
    ensures Good(Emit(encode, Spec.Seq(x, y), f, backward, capture))
  {
    hide Good, Emit;
    EmitSeq(encode, x, y, f, backward, capture);
    var a, b := Emit(encode, x, f, backward, capture), Emit(encode, y, f, backward, capture + Spec.Captures(x));
    GoodConcat(a, b);
    GoodConcat(b, a);
  }

  // The code emitted for a pattern keeps the integer stack balanced and has operands that
  // fit, as long as it stays within the size limit.
  lemma {:induction false} EmitGood(canon: int -> int, r: Spec.Node, f: Spec.Flags, backward: bool, capture: nat)
    requires Spec.CanonOk(canon) && Spec.WellFormed(r) && RangesFit(canon, r, f)
    requires capture + Spec.Captures(r) <= CAPTURE_COUNT_MAX
    ensures Good(Emit(CharEncoder(canon), r, f, backward, capture))
    decreases r
  {
    hide Good, Emit, QuantAsm, AltAsm, CaptureAsm, LookAsm, Directed, CharEncoder, Spec.CanonOk, ClassSet;
    var encode := CharEncoder(canon);
    EmitLeaf(encode, r, f, backward, capture);
    match r
    case Empty => EmptyGood(); EmitEmpty(encode, f, backward, capture);
    case LineStart => GoodOne(AssertionInstr(r, f));
    case LineEnd => GoodOne(AssertionInstr(r, f));
    case WordBoundary(_) => GoodOne(AssertionInstr(r, f));
    case Literal(_) => OneCharGood(canon, r, f, backward);
    case Dot => OneCharGood(canon, r, f, backward);
    case Class(_, _) => OneCharGood(canon, r, f, backward);
    case Seq(x, y) =>
      EmitGood(canon, x, f, backward, capture);
      EmitGood(canon, y, f, backward, capture + Spec.Captures(x));
      SeqGood(encode, x, y, f, backward, capture);
    case Alt(x, y) =>
      EmitGood(canon, x, f, backward, capture);
      EmitGood(canon, y, f, backward, capture + Spec.Captures(x));
      AltGood(Emit(encode, x, f, backward, capture), Emit(encode, y, f, backward, capture + Spec.Captures(x)));
      EmitAlt(encode, x, y, f, backward, capture);
    case Group(x) =>
      EmitNested(encode, x, f, backward, capture);
      EmitGood(canon, x, f, backward, capture);
    case Capture(x) =>
      EmitNested(encode, x, f, backward, capture);
      EmitGood(canon, x, f, backward, capture + 1);
      CaptureGood(Emit(encode, x, f, backward, capture + 1), backward, capture);
    case Modifiers(add, remove, x) =>
      EmitModifiers(encode, x, add, remove, f, backward, capture);
      EmitGood(canon, x, Spec.UpdateFlags(f, add, remove), backward, capture);
    case Look(negative, behind, x) =>
      EmitLook(encode, x, negative, behind, f, backward, capture);
      EmitGood(canon, x, f, behind, capture);
      LookGood(Emit(encode, x, f, behind, capture), negative);
    case Quant(x, min, max, greedy) =>
      EmitQuant(encode, x, min, max, greedy, f, backward, capture);
      EmitGood(canon, x, f, backward, capture);
      QuantGood(Emit(encode, x, f, backward, capture), min, max, greedy, capture, capture + Spec.Captures(x));
  }

  lemma {:induction false} ProgramGood(canon: int -> int, r: Spec.Node, f: Spec.Flags, sticky: bool)
    requires Spec.CanonOk(canon) && Spec.WellFormed(r) && RangesFit(canon, r, f)
    requires 1 + Spec.Captures(r) <= CAPTURE_COUNT_MAX
    ensures Good(Program(CharEncoder(canon), r, f, sticky))
  {
    hide Good, Emit, Spec.WellFormed, RangesFit, Spec.CanonOk, CharEncoder;
    var e := Emit(CharEncoder(canon), r, f, false, 1);
    EmitGood(canon, r, f, false, 1);
    hide Spec.Captures;
    BodyGood(e);
    var body: Asm := [SaveStart(0)] + e + [SaveEnd(0), Match];
    if sticky {
      assert Program(CharEncoder(canon), r, f, sticky) == body;
    } else {
      SearchGood();
      var lead: Asm := [Split(true, 6), AnyChar, Goto(-11)];
      GoodConcat(lead, body);
      assert Program(CharEncoder(canon), r, f, sticky) == lead + body;
    }
  }

  lemma {:induction false} BodyGood(e: Asm)
    requires Good(e)
    ensures Good([SaveStart(0)] + e + [SaveEnd(0), Match])
  {
    hide Good;
    GoodOne(SaveStart(0));
    GoodOne(SaveEnd(0));
    GoodOne(Match);
    GoodConcat([SaveStart(0)], e);
    GoodConcat([SaveStart(0)] + e, [SaveEnd(0)]);
    GoodConcat([SaveStart(0)] + e + [SaveEnd(0)], [Match]);
    assert [SaveStart(0)] + e + [SaveEnd(0)] + [Match] == [SaveStart(0)] + e + [SaveEnd(0), Match];
  }

  // The search loop in front of a pattern that is not sticky.
  lemma {:induction false} SearchGood()
    ensures Good([Split(true, 6), AnyChar, Goto(-11)])
  {
    hide Good;
    GoodOne(Split(true, 6));
    GoodOne(AnyChar);
    GoodOne(Goto(-11));
    GoodConcat([Split(true, 6)], [AnyChar]);
    GoodConcat([Split(true, 6)] + [AnyChar], [Goto(-11)]);
    assert [Split(true, 6)] + [AnyChar] + [Goto(-11)] == [Split(true, 6), AnyChar, Goto(-11)];
  }
}
