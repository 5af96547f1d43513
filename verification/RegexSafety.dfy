// What holds of every program the compiler emits and of every configuration of its runs:
// jumps lead to instruction starts where the integer stack has the same depth, capture
// numbers are in range, and the cursor never rests inside a surrogate pair.
module RegexSafety {
  import opened Wrappers
  import opened Bytes
  import opened RegexOpcode
  import opened RegexInput
  import opened RegexAsm
  import opened RegexMachine
  import opened RegexSteps
  import opened RegexTheorem
  import opened RegexExec
  import Spec = RegexSpec

  // ---------------------------------------------------------------------------
  // Well-formed code

  predicate HasOffset(i: Instr) {
    i.Goto? || i.Split? || i.Loop? || i.Look? || i.SimpleGreedyQuant?
  }

  // The jump at k leads to instruction j (or to the end), at the same stack depth.
  predicate LeadsTo(a: Asm, k: int, j: int) {
    && 0 <= k < |a| && 0 <= j <= |a| && HasOffset(a[k])
    && Length(a[..j]) == Length(a[..k + 1]) + a[k].off && Net(a[..j]) == Net(a[..k + 1])
  }

  predicate JumpOk(a: Asm, k: int)
    requires 0 <= k < |a|
  {
    HasOffset(a[k]) ==> exists j :: 0 <= j <= |a| && LeadsTo(a, k, j)
  }

  predicate JumpsOk(a: Asm) {
    forall k :: 0 <= k < |a| ==> JumpOk(a, k)
  }

  // Capture numbers are below n.
  predicate GroupOk(i: Instr, n: int) {
    match i
    case SaveStart(g) => 0 <= g < n
    case SaveEnd(g) => 0 <= g < n
    case SaveReset(g, h) => 0 <= g <= h < n
    case _ => true
  }

  predicate GroupsOk(a: Asm, n: int) {
    forall k :: 0 <= k < |a| ==> GroupOk(a[k], n)
  }

  predicate WellFormedCode(a: Asm, n: int) {
    JumpsOk(a) && GroupsOk(a, n)
  }

  // Jumps are relative: a block keeps its meaning wherever it is put.
  lemma {:induction false} JumpInside(x: Asm, a: Asm, y: Asm, k: int)
    requires 0 <= k < |a| && JumpOk(a, k)
    ensures (x + a + y)[|x| + k] == a[k] && JumpOk(x + a + y, |x| + k)
  {
    var w := x + a + y;
    assert w[|x| + k] == a[k];
    if HasOffset(a[k]) {
      var j :| 0 <= j <= |a| && LeadsTo(a, k, j);
      assert w[..|x| + j] == x + a[..j];
      assert w[..|x| + k + 1] == x + a[..k + 1];
      LengthConcat(x, a[..j]);
      LengthConcat(x, a[..k + 1]);
      NetConcat(x, a[..j]);
      NetConcat(x, a[..k + 1]);
      assert LeadsTo(w, |x| + k, |x| + j);
    }
  }

  lemma {:induction false} CodeConcat(a: Asm, b: Asm, n: int)
    requires WellFormedCode(a, n) && WellFormedCode(b, n)
    ensures WellFormedCode(a + b, n)
  {
    hide JumpOk;
    forall k | 0 <= k < |a + b|
      ensures JumpOk(a + b, k) && GroupOk((a + b)[k], n)
    {
      if k < |a| {
        JumpInside([], a, b, k);
        assert [] + a + b == a + b;
      } else {
        JumpInside(a, b, [], k - |a|);
        assert a + b + [] == a + b;
        assert GroupOk(b[k - |a|], n);
      }
    }
  }

  lemma {:induction false} CodeOne(i: Instr, n: int)
    requires !HasOffset(i) && GroupOk(i, n)
    ensures WellFormedCode([i], n)
  {
  }

  lemma {:induction false} CodeWrap(i: Instr, a: Asm, j: Instr, n: int)
    requires !HasOffset(i) && !HasOffset(j) && GroupOk(i, n) && GroupOk(j, n) && WellFormedCode(a, n)
    ensures WellFormedCode([i] + a + [j], n)
  {
    CodeOne(i, n);
    CodeOne(j, n);
    CodeConcat([i], a, n);
    CodeConcat([i] + a, [j], n);
  }

  // Code around a well-formed block in which every other jump leads to a place of the same depth.
  lemma {:induction false} CodeAround(x: Asm, a: Asm, y: Asm, n: int)
    requires WellFormedCode(a, n) && GroupsOk(x, n) && GroupsOk(y, n)
    requires forall k :: 0 <= k < |x| ==> JumpOk(x + a + y, k)
    requires forall k :: |x| + |a| <= k < |x| + |a| + |y| ==> JumpOk(x + a + y, k)
    ensures WellFormedCode(x + a + y, n)
  {
    hide JumpOk;
    var w := x + a + y;
    forall k | 0 <= k < |w|
      ensures JumpOk(w, k) && GroupOk(w[k], n)
    {
      if k < |x| {
        assert w[k] == x[k];
      } else if k < |x| + |a| {
        JumpInside(x, a, y, k - |x|);
      } else {
        assert w[k] == y[k - |x| - |a|];
      }
    }
  }

  // Length and depth in front of the second part and behind it.
  lemma {:induction false} Cut(x: Asm, y: Asm)
    ensures (x + y)[..|x|] == x && (x + y)[..|x + y|] == x + y
    ensures Length(x + y) == Length(x) + Length(y) && Net(x + y) == Net(x) + Net(y)
  {
    LengthConcat(x, y);
    NetConcat(x, y);
  }

  lemma {:induction false} OneSize(i: Instr)
    ensures Length([i]) == Size(i) && Net([i]) == Delta(i)
  {
    assert [i][1..] == [];
  }

  // A forward jump over "skip", which leaves the depth unchanged.
  lemma {:induction false} ForwardJump(x: Asm, i: Instr, skip: Asm, y: Asm)
    requires HasOffset(i) && i.off == Length(skip) && Net(skip) == 0
    ensures JumpOk(x + [i] + skip + y, |x|)
  {
    var w := x + [i] + skip + y;
    assert w[..|x| + 1] == x + [i];
    assert w[..|x| + 1 + |skip|] == x + [i] + skip;
    Cut(x + [i], skip);
    assert LeadsTo(w, |x|, |x| + 1 + |skip|);
  }

  // A backward jump to the start of "body", which leaves the depth unchanged, jump included.
  lemma {:induction false} BackwardJump(x: Asm, body: Asm, i: Instr, y: Asm)
    requires HasOffset(i) && i.off == -(Length(body) + Size(i)) && Net(body) + Delta(i) == 0
    ensures JumpOk(x + body + [i] + y, |x| + |body|)
  {
    var w := x + body + [i] + y;
    assert w[|x| + |body|] == i;
    assert w[..|x|] == x;
    assert w[..|x| + |body| + 1] == x + body + [i];
    Cut(x, body);
    Cut(x + body, [i]);
    OneSize(i);
    assert LeadsTo(w, |x| + |body|, |x|);
  }

  // ---------------------------------------------------------------------------
  // The constructs

  lemma {:induction false} GuardedCode(a: Asm, check: bool, n: int)
    requires WellFormedCode(a, n) && Net(a) == 0
    ensures WellFormedCode(Guarded(a, check), n) && Net(Guarded(a, check)) == 0
    ensures Length(Guarded(a, check)) == Length(a) + if check then 2 else 0
  {
    if check {
      CodeWrap(PushCharPos, a, CheckAdvance, n);
      Cut([PushCharPos] + a, [CheckAdvance]);
      Cut([PushCharPos], a);
      OneSize(PushCharPos);
      OneSize(CheckAdvance);
    }
  }

  lemma {:induction false} OnceCode(a: Asm, check: bool, greedy: bool, n: int)
    requires WellFormedCode(a, n) && Net(a) == 0
    ensures WellFormedCode(Iteration(a, check, greedy, 0), n)
  {
    hide JumpOk, Guarded;
    var g := Guarded(a, check);
    var split := Split(!greedy, Length(a) + if check then 2 else 0);
    GuardedCode(a, check, n);
    ForwardJump([], split, g, []);
    assert [] + [split] + g + [] == [split] + g + [];
    CodeAround([split], g, [], n);
    assert [split] + g + [] == [split] + g;
  }

  // A split over the guarded atom and one instruction that jumps back to the split.
  lemma {:induction false} LoopCode(a: Asm, check: bool, greedy: bool, jump: Instr, n: int)
    requires WellFormedCode(a, n) && Net(a) == 0
    requires (jump.Goto? || jump.Loop?) && jump.off == -(Length(a) + (if check then 2 else 0) + 10)
    ensures WellFormedCode(Iteration(a, check, greedy, 5) + [jump], n)
  {
    hide JumpOk, Guarded, Length, Net;
    var g := Guarded(a, check);
    var split := Split(!greedy, Length(a) + (if check then 2 else 0) + 5);
    GuardedCode(a, check, n);
    OneSize(split);
    OneSize(jump);
    Cut(g, [jump]);
    Cut([split], g);
    ForwardJump([], split, g + [jump], []);
    assert [] + [split] + (g + [jump]) + [] == [split] + g + [jump];
    BackwardJump([], [split] + g, jump, []);
    assert [] + ([split] + g) + [jump] + [] == [split] + g + [jump];
    CodeAround([split], g, [jump], n);
  }

  lemma {:induction false} CountedCode(body: Asm, v: int, n: int)
    requires WellFormedCode(body, n)
    ensures WellFormedCode([PushI32(v)] + body + [Drop], n)
  {
    CodeWrap(PushI32(v), body, Drop, n);
  }

  lemma {:induction false} UpToCode(a: Asm, check: bool, greedy: bool, v: int, n: int)
    requires WellFormedCode(a, n) && Net(a) == 0
    ensures WellFormedCode(UpTo(a, check, greedy, v), n)
  {
    hide JumpsOk, GroupsOk, Iteration;
    var loop := Loop(-(Length(a) + (if check then 2 else 0) + 10));
    LoopCode(a, check, greedy, loop, n);
    CountedCode(Iteration(a, check, greedy, 5) + [loop], v, n);
    assert [PushI32(v)] + (Iteration(a, check, greedy, 5) + [loop]) + [Drop] == UpTo(a, check, greedy, v);
  }

  lemma {:induction false} BackCode(a: Asm, jump: Instr, n: int)
    requires WellFormedCode(a, n) && Net(a) == 0 && (jump.Loop? || jump.Split?) && jump.off == -(Length(a) + 5)
    ensures WellFormedCode(a + [jump], n)
  {
    hide JumpOk;
    OneSize(jump);
    BackwardJump([], a, jump, []);
    assert [] + a + [jump] + [] == [] + a + [jump];
    CodeAround([], a, [jump], n);
    assert [] + a + [jump] == a + [jump];
  }

  lemma {:induction false} ExactlyCode(a: Asm, v: int, n: int)
    requires WellFormedCode(a, n) && Net(a) == 0
    ensures WellFormedCode(Exactly(a, v), n)
  {
    var loop := Loop(-(Length(a) + 5));
    BackCode(a, loop, n);
    CountedCode(a + [loop], v, n);
    assert [PushI32(v)] + (a + [loop]) + [Drop] == Exactly(a, v);
  }

  // An instruction that jumps behind the match at the end of its block.
  lemma {:induction false} EnclosedCode(i: Instr, a: Asm, n: int)
    requires WellFormedCode(a, n) && Net(a) == 0 && (i.Look? || i.SimpleGreedyQuant?) && i.off == Length(a) + 1
    ensures WellFormedCode([i] + a + [Match], n)
  {
    hide JumpOk;
    OneSize(Match);
    Cut(a, [Match]);
    ForwardJump([], i, a + [Match], []);
    assert [] + [i] + (a + [Match]) + [] == [i] + a + [Match];
    NoJump([i] + a + [Match], |a| + 1);
    CodeAround([i], a, [Match], n);
  }

  lemma {:induction false} NoJump(w: Asm, k: int)
    requires 0 <= k < |w| && !HasOffset(w[k])
    ensures JumpOk(w, k)
  {
  }

  lemma {:induction false} AltCode(a: Asm, b: Asm, n: int)
    requires WellFormedCode(a, n) && Net(a) == 0 && WellFormedCode(b, n) && Net(b) == 0
    ensures WellFormedCode(AltAsm(a, b), n)
  {
    hide JumpOk, WellFormedCode;
    var split, goto := Split(false, Length(a) + 5), Goto(Length(b));
    OneSize(goto);
    Cut(a, [goto]);
    ForwardJump([], split, a + [goto], b);
    assert [] + [split] + (a + [goto]) + b == [split] + a + ([goto] + b);
    ForwardJump([split] + a, goto, b, []);
    assert [split] + a + [goto] + b + [] == [split] + a + ([goto] + b);
    AltInside([split] + a + [goto], b, n);
    assert [split] + a + [goto] + b == [split] + a + ([goto] + b);
    AltAround(split, goto, a, b, n);
  }

  lemma {:induction false} AltInside(x: Asm, b: Asm, n: int)
    requires WellFormedCode(b, n)
    ensures forall k :: |x| <= k < |x| + |b| ==> JumpOk(x + b, k)
  {
    hide JumpOk;
    forall k | |x| <= k < |x| + |b|
      ensures JumpOk(x + b, k)
    {
      JumpInside(x, b, [], k - |x|);
      assert x + b + [] == x + b;
    }
  }

  lemma {:induction false} AltAround(split: Instr, goto: Instr, a: Asm, b: Asm, n: int)
    requires WellFormedCode(a, n) && WellFormedCode(b, n) && split.Split? && goto.Goto?
    requires JumpOk([split] + a + ([goto] + b), 0) && JumpOk([split] + a + ([goto] + b), |a| + 1)
    requires forall k :: |a| + 2 <= k < |a| + |b| + 2 ==> JumpOk([split] + a + ([goto] + b), k)
    ensures WellFormedCode([split] + a + [goto] + b, n)
  {
    hide JumpOk;
    assert forall k :: 0 < k <= |b| ==> ([goto] + b)[k] == b[k - 1];
    CodeAround([split], a, [goto] + b, n);
    assert [split] + a + [goto] + b == [split] + a + ([goto] + b);
  }

  lemma {:induction false} OptionalCode(a: Asm, check: bool, greedy: bool, v: int, unbounded: bool, n: int)
    requires WellFormedCode(a, n) && Net(a) == 0
    ensures WellFormedCode(Optional(a, check, greedy, v, unbounded), n)
  {
    hide Iteration, UpTo, JumpOk;
    if unbounded {
      LoopCode(a, check, greedy, Goto(-(Length(a) + (if check then 2 else 0) + 10)), n);
    } else if v > 0 {
      UpToCode(a, check, greedy, v, n);
    }
  }

  lemma {:induction false} QuantCode(a: Asm, min: int, max: int, greedy: bool, first: nat, next: nat, n: int)
    requires WellFormedCode(a, n) && Net(a) == 0 && first <= next <= n
    ensures WellFormedCode(QuantAsm(a, min, max, greedy, first, next), n)
  {
    hide WellFormedCode, Net, Length, Iteration, UpTo, Star, Exactly, NeedCheckAdvance, SimpleCount, Optional;
    var check := NeedCheckAdvance(a);
    if greedy && max > 0 && SimpleCount(a) > 0 {
      EnclosedCode(SimpleGreedyQuant(Length(a) + 1, min, max, CharCount(a)), a, n);
    } else if min == 0 {
      var rest := if max == 1 then Iteration(a, check, greedy, 0) else Optional(a, check, greedy, max, max == Spec.INFINITE);
      OnceCode(a, check, greedy, n);
      OptionalCode(a, check, greedy, max, max == Spec.INFINITE, n);
      if first != next {
        CodeOne(SaveReset(first, next - 1), n);
        CodeConcat([SaveReset(first, next - 1)], rest, n);
      } else {
        assert [] + rest == rest;
      }
    } else if min == 1 && max == Spec.INFINITE && !check {
      BackCode(a, Split(greedy, -(Length(a) + 5)), n);
    } else {
      ExactlyCode(a, min, n);
      OptionalCode(a, check, greedy, max - min, max == Spec.INFINITE, n);
      CodeConcat(Mandatory(a, min), Optional(a, check, greedy, max - min, max == Spec.INFINITE), n);
    }
  }

  lemma {:induction false} DirectedCode(i: Instr, backward: bool, n: int)
    requires IsCharTest(i)
    ensures WellFormedCode(Directed(backward, i), n) && Net(Directed(backward, i)) == 0
  {
    CodeOne(i, n);
    OneSize(i);
    if backward {
      CodeWrap(Prev, [i], Prev, n);
      assert [Prev] + [i] + [Prev] == [Prev, i, Prev];
      Cut([Prev] + [i], [Prev]);
      Cut([Prev], [i]);
      OneSize(Prev);
    }
  }

  lemma {:induction false} EmitNet(m: Machine, encode: Encoder, r: Spec.Node, f: Spec.Flags, backward: bool, capture: nat)
    requires Spec.WellFormed(r) && Spec.CanonOk(m.canon) && Encodes(m, encode) && EncodesChars(encode)
    requires capture > 0 && capture + Spec.Captures(r) <= m.captureCount
    ensures Net(Emit(encode, r, f, backward, capture)) == 0
  {
    hide Spec.WellFormed, Spec.Captures, Encodes, EncodesChars, Spec.CanonOk, RegexCorrect.Implements, Net, Emit;
    EmitImplements(m, encode, r, f, backward, capture);
  }

  // Every jump of an emitted program leads to the start of an instruction at the same stack
  // depth, and every capture number is in range.
  lemma {:induction false} EmitCode(m: Machine, encode: Encoder, r: Spec.Node, f: Spec.Flags, backward: bool, capture: nat, n: int)
    requires Spec.WellFormed(r) && Spec.CanonOk(m.canon) && Encodes(m, encode) && EncodesChars(encode)
    requires capture > 0 && capture + Spec.Captures(r) <= n == m.captureCount
    ensures WellFormedCode(Emit(encode, r, f, backward, capture), n) && Net(Emit(encode, r, f, backward, capture)) == 0
    decreases r
  {
    hide WellFormedCode, QuantAsm, AltAsm, LookAsm, Directed, Encodes, Spec.CanonOk, RegexCorrect.Implements, Net;
    EmitNet(m, encode, r, f, backward, capture);
    EmitLeaf(encode, r, f, backward, capture);
    hide Emit;
    match r
    case Empty =>
      EmitEmpty(encode, f, backward, capture);
      EmptyCode(n);
    case LineStart => CodeOne(AssertionInstr(r, f), n);
    case LineEnd => CodeOne(AssertionInstr(r, f), n);
    case WordBoundary(_) => CodeOne(AssertionInstr(r, f), n);
    case Literal(_) => DirectedCode(encode(r, f), backward, n);
    case Dot => DirectedCode(encode(r, f), backward, n);
    case Class(_, _) => DirectedCode(encode(r, f), backward, n);
    case Seq(x, y) =>
      EmitSeq(encode, x, y, f, backward, capture);
      EmitCode(m, encode, x, f, backward, capture, n);
      EmitCode(m, encode, y, f, backward, capture + Spec.Captures(x), n);
      var a, b := Emit(encode, x, f, backward, capture), Emit(encode, y, f, backward, capture + Spec.Captures(x));
      CodeConcat(a, b, n);
      CodeConcat(b, a, n);
    case Alt(x, y) =>
      EmitAlt(encode, x, y, f, backward, capture);
      EmitCode(m, encode, x, f, backward, capture, n);
      EmitCode(m, encode, y, f, backward, capture + Spec.Captures(x), n);
      AltCode(Emit(encode, x, f, backward, capture), Emit(encode, y, f, backward, capture + Spec.Captures(x)), n);
    case Group(x) =>
      EmitNested(encode, x, f, backward, capture);
      EmitCode(m, encode, x, f, backward, capture, n);
    case Capture(x) =>
      EmitNested(encode, x, f, backward, capture);
      EmitCode(m, encode, x, f, backward, capture + 1, n);
      var (i, j) := if backward then (SaveEnd(capture), SaveStart(capture)) else (SaveStart(capture), SaveEnd(capture));
      CodeWrap(i, Emit(encode, x, f, backward, capture + 1), j, n);
    case Modifiers(add, remove, x) =>
      EmitModifiers(encode, x, add, remove, f, backward, capture);
      EmitCode(m, encode, x, Spec.UpdateFlags(f, add, remove), backward, capture, n);
    case Look(negative, behind, x) =>
      EmitLook(encode, x, negative, behind, f, backward, capture);
      var a := Emit(encode, x, f, behind, capture);
      EmitCode(m, encode, x, f, behind, capture, n);
      EnclosedCode(Instr.Look(negative, Length(a) + 1), a, n);
      LookIs(a, negative);
    case Quant(x, min, max, greedy) =>
      EmitQuant(encode, x, min, max, greedy, f, backward, capture);
      EmitCode(m, encode, x, f, backward, capture, n);
      QuantCode(Emit(encode, x, f, backward, capture), min, max, greedy, capture, capture + Spec.Captures(x), n);
  }

  lemma {:induction false} LookIs(a: Asm, negative: bool)
    ensures LookAsm(a, negative) == [Instr.Look(negative, Length(a) + 1)] + a + [Match]
  {
  }

  lemma {:induction false} EmptyCode(n: int)
    ensures WellFormedCode([], n)
  {
  }

  lemma {:induction false} SearchLoopCode(n: int)
    ensures WellFormedCode([Split(true, 6), AnyChar, Goto(-11)], n)
  {
    var split, goto := Split(true, 6), Goto(-11);
    OneSize(split);
    OneSize(AnyChar);
    OneSize(goto);
    Cut([AnyChar], [goto]);
    Cut([split], [AnyChar]);
    ForwardJump([], split, [AnyChar] + [goto], []);
    assert [] + [split] + ([AnyChar] + [goto]) + [] == [split] + [AnyChar] + [goto];
    BackwardJump([], [split] + [AnyChar], goto, []);
    assert [] + ([split] + [AnyChar]) + [goto] + [] == [split] + [AnyChar] + [goto];
    CodeOne(AnyChar, n);
    CodeAround([split], [AnyChar], [goto], n);
    assert [split] + [AnyChar] + [goto] == [split, AnyChar, goto];
  }

  lemma {:induction false} ProgramCode(m: Machine, r: Spec.Node, f: Spec.Flags, sticky: bool)
    requires Compiled(m, r, f, sticky)
    ensures WellFormedCode(Program(CharEncoder(m.canon), r, f, sticky), m.captureCount)
  {
    hide WellFormedCode, Encodes, EncodesChars, CharEncoder, Spec.CanonOk, Spec.WellFormed, Emit, Assemble, AllValid, Peak;
    var n := m.captureCount;
    var encode := CharEncoder(m.canon);
    var e := Emit(encode, r, f, false, 1);
    CharEncoderOk(m);
    EmitCode(m, encode, r, f, false, 1, n);
    CodeWrap(SaveStart(0), e, SaveEnd(0), n);
    CodeOne(Match, n);
    var body := [SaveStart(0)] + e + [SaveEnd(0)];
    CodeConcat(body, [Match], n);
    assert body + [Match] == [SaveStart(0)] + e + [SaveEnd(0), Match];
    SearchLoopCode(n);
    CodeConcat([Split(true, 6), AnyChar, Goto(-11)], body + [Match], n);
    assert [] + [SaveStart(0)] + e + [SaveEnd(0), Match] == body + [Match];
    assert [Split(true, 6), AnyChar, Goto(-11)] + [SaveStart(0)] + e + [SaveEnd(0), Match]
        == [Split(true, 6), AnyChar, Goto(-11)] + (body + [Match]);
  }

  // ---------------------------------------------------------------------------
  // Cursor positions

  // An offset that is not inside a surrogate pair.
  predicate Boundary(s: Subject, x: int) {
    0 <= x <= |s.units| && !PairAt(s, x - 1)
  }

  lemma {:induction false} GetCharBoundary(s: Subject, x: int)
    requires Boundary(s, x) && x < |s.units|
    ensures Boundary(s, GetChar(s, x).1)
  {
  }

  lemma {:induction false} GetPrevCharBoundary(s: Subject, x: int)
    requires Boundary(s, x) && 0 < x
    ensures Boundary(s, GetPrevChar(s, x).1)
  {
  }

  lemma {:induction false} StepBackBoundary(s: Subject, x: int, n: nat)
    requires Boundary(s, x) && StepBack(s, x, n).Some?
    ensures Boundary(s, StepBack(s, x, n).value)
    decreases n
  {
    if n > 0 {
      GetPrevCharBoundary(s, x);
      StepBackBoundary(s, GetPrevChar(s, x).1, n - 1);
    }
  }

  lemma {:induction false} StraightBoundary(m: Machine, pc: int, x: int)
    requires Boundary(m.subject, x) && RunStraight(m, pc, x).Reached?
    ensures Boundary(m.subject, RunStraight(m, pc, x).pos)
    decreases |m.code| - pc
  {
    hide Fetch, TestChar, TestPosition;
    FetchInside(m.code, pc);
    var i := Fetch(m.code, pc).value;
    if IsCharTest(i) {
      GetCharBoundary(m.subject, x);
      StraightBoundary(m, pc + Size(i), GetChar(m.subject, x).1);
    } else if IsPositionTest(i) {
      StraightBoundary(m, pc + Size(i), x);
    }
  }

  lemma {:induction false} GreedyBoundary(m: Machine, pc: int, x: int, q: nat, max: int)
    requires Boundary(m.subject, x) && RunGreedy(m, pc, x, q, max).Some?
    ensures Boundary(m.subject, RunGreedy(m, pc, x, q, max).value.0)
    decreases |m.subject.units| - x
  {
    hide RunStraight;
    var s := RunStraight(m, pc, x);
    if s.Reached? {
      StraightBoundary(m, pc, x);
      if !(q + 1 >= max && max != INT32_MAX) {
        GreedyBoundary(m, pc, s.pos, q + 1, max);
      }
    }
  }

  // ---------------------------------------------------------------------------
  // Configurations

  // pc is the start of the j-th instruction, where the integer stack is this deep.
  predicate AtInstr(a: Asm, pc: int, depth: int, j: int) {
    0 <= j <= |a| && pc == Length(a[..j]) && depth == Net(a[..j])
  }

  predicate PlaceOk(a: Asm, pc: int, depth: int) {
    exists j :: 0 <= j <= |a| && AtInstr(a, pc, depth, j)
  }

  predicate CapturesInRange(s: Subject, captures: seq<int>) {
    forall k :: 0 <= k < |captures| ==> captures[k] == NULL || Boundary(s, captures[k])
  }

  predicate StateOk(m: Machine, a: Asm, s: SavedState) {
    && Boundary(m.subject, s.pos) && CapturesInRange(m.subject, s.captures)
    && if s.kind == GreedyState then QuantAt(m, a, s.pc, |s.stack|) else PlaceOk(a, s.pc, |s.stack|)
  }

  // The state of a simple_greedy_quant stands at its operands.
  predicate QuantAt(m: Machine, a: Asm, pc: int, depth: int) {
    exists j :: 0 <= j < |a| && a[j].SimpleGreedyQuant? && AtInstr(a, pc - 1, depth, j)
  }

  predicate StatesOk(m: Machine, a: Asm, states: seq<SavedState>) {
    forall k :: 0 <= k < |states| ==> StateOk(m, a, states[k])
  }

  predicate ConfigOk(m: Machine, a: Asm, c: Config) {
    match c
    case Run(pc, pos, stack, captures, states) =>
      && PlaceOk(a, pc, |stack|) && Boundary(m.subject, pos) && CapturesInRange(m.subject, captures)
      && StatesOk(m, a, states)
    case Fail(states) => StatesOk(m, a, states)
    case Succeed(captures, states) => CapturesInRange(m.subject, captures) && StatesOk(m, a, states)
    case Halt(_, captures) => CapturesInRange(m.subject, captures)
    case Stuck => false
  }

  // The machine's code is a well-formed program.
  ghost predicate Runs(m: Machine, a: Asm) {
    m.code == Assemble(a) && AllValid(a) && WellFormedCode(a, m.captureCount)
  }

  lemma {:induction false} EndOfCode(m: Machine, a: Asm)
    requires Runs(m, a)
    ensures At(m.code, 0, Assemble(a)) && Fetch(m.code, Length(a)).None?
  {
    hide Assemble;
    assert m.code[0..|m.code|] == m.code;
  }

  // The j-th instruction is what is fetched there; behind it stands the next one.
  lemma {:induction false} FetchAt(m: Machine, a: Asm, pc: int, depth: int, j: int)
    requires Runs(m, a) && AtInstr(a, pc, depth, j)
    ensures j == |a| ==> Fetch(m.code, pc).None?
    ensures j < |a| ==> Fetch(m.code, pc) == Some(a[j]) && AtInstr(a, pc + Size(a[j]), depth + Delta(a[j]), j + 1)
  {
    hide WellFormedCode, Fetch, Assemble, Encode, Size, At, Delta, Net, Length;
    EndOfCode(m, a);
    if j < |a| {
      var i := a[j];
      assert a[..j + 1] == a[..j] + [i];
      assert a == a[..j] + [i] + a[j + 1..];
      Cut(a[..j], [i]);
      OneSize(i);
      PlacedConcat(m.code, 0, a[..j] + [i], a[j + 1..]);
      PlacedConcat(m.code, 0, a[..j], [i]);
      AssembleOne(i);
      FetchEncode(m.code, pc, i);
    } else {
      assert a[..j] == a;
    }
  }

  // Where a jump leads.
  lemma {:induction false} JumpTarget(m: Machine, a: Asm, pc: int, depth: int, j: int)
    requires Runs(m, a) && AtInstr(a, pc, depth, j) && j < |a| && HasOffset(a[j])
    ensures PlaceOk(a, pc + Size(a[j]) + a[j].off, depth)
  {
    FetchAt(m, a, pc, depth, j);
    assert JumpOk(a, j);
    var t :| 0 <= t <= |a| && LeadsTo(a, j, t);
    assert AtInstr(a, pc + Size(a[j]) + a[j].off, depth, t);
  }

  // A resumed state: unless it is a greedy one, everything is in place.
  lemma {:induction false} BacktrackOk(m: Machine, a: Asm, states: seq<SavedState>)
    requires Runs(m, a) && StatesOk(m, a, states) && states != [] && !Backtrack(m, states).Stuck?
    ensures ConfigOk(m, a, Backtrack(m, states))
  {
    hide Runs, Fetch, StepBack, Length, Net, Assemble;
    var rest := states[..|states| - 1];
    var s := states[|states| - 1];
    assert StateOk(m, a, s);
    assert StatesOk(m, a, rest);
    if s.kind == GreedyState {
      var j :| 0 <= j < |a| && a[j].SimpleGreedyQuant? && AtInstr(a, s.pc - 1, |s.stack|, j);
      QuantOperandsAt(m, a, s.pc, |s.stack|, j);
      JumpTarget(m, a, s.pc - 1, |s.stack|, j);
      StepBackBoundary(m.subject, s.pos, GetU32(m.code, s.pc + 12));
    }
  }

  lemma {:induction false} QuantOperandsAt(m: Machine, a: Asm, pc: int, depth: int, j: int)
    requires Runs(m, a) && AtInstr(a, pc - 1, depth, j) && j < |a| && a[j].SimpleGreedyQuant?
    ensures 0 <= pc && pc + 16 <= |m.code| && ToSigned(GetU32(m.code, pc)) == a[j].off
  {
    FetchAt(m, a, pc - 1, depth, j);
  }

  lemma {:induction false} RunStepOk(m: Machine, a: Asm, c: Config)
    requires Runs(m, a) && c.Run? && ConfigOk(m, a, c) && !Step(m, c).Stuck?
    ensures ConfigOk(m, a, Step(m, c))
  {
    hide Runs, Fetch, StepInstr, Boundary;
    var j :| 0 <= j <= |a| && AtInstr(a, c.pc, |c.stack|, j);
    FetchAt(m, a, c.pc, |c.stack|, j);
    assert j < |a|;
    if IsCharTest(a[j]) || IsPositionTest(a[j]) {
      TestStepOk(m, a, c, j);
    } else if HasOffset(a[j]) {
      JumpStepOk(m, a, c, j);
    } else {
      PlainStepOk(m, a, c, j);
    }
  }

  // The instruction at c, and what it leads to.
  ghost predicate Executing(m: Machine, a: Asm, c: Config, j: int) {
    && Runs(m, a) && c.Run? && ConfigOk(m, a, c) && 0 <= j < |a| && AtInstr(a, c.pc, |c.stack|, j)
    && Step(m, c) == StepInstr(m, a[j], c.pc, c.pos, c.stack, c.captures, c.states) && !Step(m, c).Stuck?
    && AtInstr(a, c.pc + Size(a[j]), |c.stack| + Delta(a[j]), j + 1)
  }

  lemma {:induction false} NextPlace(m: Machine, a: Asm, c: Config, j: int)
    requires Executing(m, a, c, j)
    ensures PlaceOk(a, c.pc + Size(a[j]), |c.stack| + Delta(a[j]))
  {
  }

  lemma {:induction false} TestStepOk(m: Machine, a: Asm, c: Config, j: int)
    requires Executing(m, a, c, j) && (IsCharTest(a[j]) || IsPositionTest(a[j]))
    ensures ConfigOk(m, a, Step(m, c))
  {
    hide Runs, Fetch, TestChar, TestPosition, PlaceOk, StatesOk, Step, GetChar, Boundary;
    NextPlace(m, a, c, j);
    BoundaryValid(m.subject, c.pos);
    if IsCharTest(a[j]) && c.pos < |m.subject.units| {
      GetCharBoundary(m.subject, c.pos);
    }
  }

  lemma {:induction false} BoundaryValid(s: Subject, x: int)
    ensures Boundary(s, x) ==> ValidPos(s, x)
  {
  }

  lemma {:induction false} PushOk(m: Machine, a: Asm, states: seq<SavedState>, s: SavedState)
    requires StatesOk(m, a, states) && StateOk(m, a, s)
    ensures StatesOk(m, a, states + [s])
  {
    hide StateOk;
  }

  lemma {:induction false} JumpStepOk(m: Machine, a: Asm, c: Config, j: int)
    requires Executing(m, a, c, j) && HasOffset(a[j])
    ensures ConfigOk(m, a, Step(m, c))
  {
    hide Runs, Fetch, PlaceOk, StatesOk, Step, RunGreedy, Boundary, CapturesInRange;
    NextPlace(m, a, c, j);
    BoundaryValid(m.subject, c.pos);
    JumpTarget(m, a, c.pc, |c.stack|, j);
    var next := c.pc + Size(a[j]);
    match a[j]
    case Goto(off) =>
    case Split(gotoFirst, off) =>
      var second := if gotoFirst then next else next + off;
      PushOk(m, a, c.states, SavedState(SplitState, 0, c.pos, second, c.captures, c.stack));
    case Look(neg, off) =>
      var kind := if neg then NegativeLookaheadState else LookaheadState;
      PushOk(m, a, c.states, SavedState(kind, 0, c.pos, next + off, c.captures, c.stack));
    case Loop(off) =>
    case SimpleGreedyQuant(off, min, max, _) =>
      GreedyBoundary(m, next, c.pos, 0, max);
      var (pos', q) := RunGreedy(m, next, c.pos, 0, max).value;
      assert AtInstr(a, (c.pc + 1) - 1, |c.stack|, j);
      if q > min {
        PushOk(m, a, c.states, SavedState(GreedyState, q - min, pos', c.pc + 1, c.captures, c.stack));
      }
  }

  lemma {:induction false} PlainStepOk(m: Machine, a: Asm, c: Config, j: int)
    requires Executing(m, a, c, j) && !IsCharTest(a[j]) && !IsPositionTest(a[j]) && !HasOffset(a[j])
    ensures ConfigOk(m, a, Step(m, c))
  {
    hide Runs, Fetch, PlaceOk, StatesOk, Step, Boundary;
    NextPlace(m, a, c, j);
    BoundaryValid(m.subject, c.pos);
    match a[j]
    case Prev =>
      if c.pos > 0 {
        GetPrevCharBoundary(m.subject, c.pos);
      }
    case _ =>
  }

  // Every step keeps the configuration sound.
  lemma {:induction false} StepOk(m: Machine, a: Asm, c: Config)
    requires Runs(m, a) && ConfigOk(m, a, c) && !Step(m, c).Stuck?
    ensures ConfigOk(m, a, Step(m, c))
  {
    match c
    case Run(_, _, _, _, _) => RunStepOk(m, a, c);
    case Fail(states) =>
      if states != [] {
        BacktrackOk(m, a, states);
      }
    case Succeed(captures, states) => SucceedStepOk(m, a, captures, states);
    case _ =>
  }

  lemma {:induction false} SucceedStepOk(m: Machine, a: Asm, captures: seq<int>, states: seq<SavedState>)
    requires ConfigOk(m, a, Succeed(captures, states))
    ensures ConfigOk(m, a, Step(m, Succeed(captures, states)))
  {
    hide Boundary, PlaceOk;
    if states != [] {
      var rest := states[..|states| - 1];
      assert StateOk(m, a, states[|states| - 1]) && StatesOk(m, a, rest);
    }
  }

  // In every configuration a run of an accepted pattern can reach, nothing is undefined: pc
  // is the start of an instruction, the depth of the integer stack is the one the linear
  // count gives for that place, and the cursor, the captures and all saved cursors lie
  // between characters.
  lemma {:induction false} ReachableOk(m: Machine, r: Spec.Node, f: Spec.Flags, sticky: bool, x: nat, n: nat)
    requires Compiled(m, r, f, sticky) && x <= Len(m)
    ensures ConfigOk(m, Program(CharEncoder(m.canon), r, f, sticky), Steps(m, Start(m, x), n))
    decreases n
  {
    hide Compiled, Step, ConfigOk, Runs;
    var a := Program(CharEncoder(m.canon), r, f, sticky);
    var c0 := Start(m, x);
    IsRunning(m, r, f, sticky);
    StepsStart(m, c0);
    if n == 0 {
      OffsetNotInsidePair(m.subject, x);
      StartOk(m, a, Offset(m.subject, x), Spec.Unset(m.captureCount));
    } else {
      ReachableOk(m, r, f, sticky, x, n - 1);
      var end := EndOf(m, r, f, sticky, x);
      BeforeTheEnd(m, c0, end, n);
      StepsNext(m, c0, n - 1);
      StepOk(m, a, Steps(m, c0, n - 1));
    }
  }

  lemma {:induction false} IsRunning(m: Machine, r: Spec.Node, f: Spec.Flags, sticky: bool)
    requires Compiled(m, r, f, sticky)
    ensures Runs(m, Program(CharEncoder(m.canon), r, f, sticky))
  {
    hide WellFormedCode, CharEncoder, Spec.CanonOk, Spec.WellFormed, Program, Assemble, AllValid, Peak;
    ProgramCode(m, r, f, sticky);
  }

  lemma {:induction false} StartOk(m: Machine, a: Asm, pos: int, captures: seq<int>)
    requires Boundary(m.subject, pos) && CapturesInRange(m.subject, captures)
    ensures ConfigOk(m, a, Run(0, pos, [], captures, []))
  {
    assert AtInstr(a, 0, 0, 0);
  }
}
