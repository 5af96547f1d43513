// The main theorem: running the compiled program of a pattern on a subject halts, and its
// outcome is that of the search of section 22.2.7.2 of ECMA-262 with the pattern's matcher,
// except for the captures that RegexCaptures names.
module RegexTheorem {
  import opened Wrappers
  import opened Bytes
  import opened RegexOpcode
  import opened RegexInput
  import opened RegexAsm
  import opened RegexMachine
  import opened RegexClass
  import opened RegexSteps
  import opened RegexCorrect
  import opened RegexQuant
  import opened RegexGreedy
  import opened RegexCaptures
  import opened RegexTracking
  import Spec = RegexSpec

  // ---------------------------------------------------------------------------
  // Blocks that read nothing

  ghost predicate SameMatcher(m: Machine, matcher: Spec.Matcher, matcher': Spec.Matcher) {
    forall x: nat, captures: seq<int>, k: Spec.Cont {:trigger matcher'(x, captures, k)} :: x <= Len(m) ==> matcher'(x, captures, k) == matcher(x, captures, k)
  }

  lemma {:induction false} BlockSame(m: Machine, a: Asm, backward: bool, matcher: Spec.Matcher, matcher': Spec.Matcher)
    requires Block(m, a, backward, matcher) && SameMatcher(m, matcher, matcher')
    ensures Block(m, a, backward, matcher')
  {
    hide At, Assemble, Yields, Placed, Follows;
    forall ctx: Context, p: int, x: nat, stack: seq<int>, captures: seq<int>, s: seq<SavedState>, k: Spec.Cont |
      Applies(m, ctx, a, backward, p, x, stack, captures, s, k)
      ensures Yields(m, ctx, Run(p, Offset(m.subject, x), stack, captures, s), matcher'(x, captures, k), s)
    {
      assert matcher'(x, captures, k) == matcher(x, captures, k);
    }
  }

  ghost function Identity(): (matcher: Spec.Matcher) {
    (x: nat, captures: seq<int>, k: Spec.Cont) => k(x, captures)
  }

  lemma {:induction false} EmptyImplements(m: Machine, backward: bool)
    ensures Block(m, [], backward, Identity())
  {
    hide At, Assemble, Yields, Placed;
    forall ctx: Context, p: int, x: nat, stack: seq<int>, captures: seq<int>, s: seq<SavedState>, k: Spec.Cont |
      Applies(m, ctx, [], backward, p, x, stack, captures, s, k)
      ensures Yields(m, ctx, Run(p, Offset(m.subject, x), stack, captures, s), k(x, captures), s)
    {
      assert Lands(m, backward, Linear([]), CharCount([]), x, x);
    }
  }

  lemma {:induction false} ResetImplements(m: Machine, first: nat, next: nat, backward: bool)
    requires first <= next <= m.captureCount
    ensures Block(m, Reset(first, next), backward, Spec.ClearMatcher(first, next))
  {
    hide At, Assemble, Yields, Placed, Follows;
    if first == next {
      hide Block;
      EmptyImplements(m, backward);
      assert forall c: Spec.Marks :: Spec.Clear(c, first, next) == c;
      BlockSame(m, [], backward, Identity(), Spec.ClearMatcher(first, next));
    } else {
      var i := SaveReset(first, next - 1);
      assert [i][1..] == [] && Net([i]) == Delta(i) + Net([]) == 0;
      forall ctx: Context, p: int, x: nat, stack: seq<int>, captures: seq<int>, s: seq<SavedState>, k: Spec.Cont |
        Applies(m, ctx, [i], backward, p, x, stack, captures, s, k)
        ensures Yields(m, ctx, Run(p, Offset(m.subject, x), stack, captures, s), Spec.ClearMatcher(first, next)(x, captures, k), s)
      {
        ResetYields(m, ctx, first, next, backward, p, x, stack, captures, s, k);
      }
    }
  }

  lemma {:induction false} ResetYields(m: Machine, ctx: Context, first: nat, next: nat, backward: bool, p: int, x: nat,
                                       stack: seq<int>, captures: seq<int>, s: seq<SavedState>, k: Spec.Cont)
    requires first < next <= m.captureCount
    requires Applies(m, ctx, [SaveReset(first, next - 1)], backward, p, x, stack, captures, s, k)
    ensures Yields(m, ctx, Run(p, Offset(m.subject, x), stack, captures, s), k(x, Spec.Clear(captures, first, next)), s)
  {
    hide At, Assemble, Yields, Reaches;
    var i := SaveReset(first, next - 1);
    assert [i][1..] == [] && ValidInstr([i][0]) && Length([i]) == Size(i) + Length([]) == 3;
    var pos, captures' := Offset(m.subject, x), Spec.Clear(captures, first, next);
    ResetReaches(m, first, next - 1, p, pos, stack, captures, s);
    assert Lands(m, backward, Linear([i]), CharCount([i]), x, x);
    YieldsAfter(m, ctx, Run(p, pos, stack, captures, s), Run(p + 3, pos, stack, captures', s), k(x, captures'), s);
  }

  // ---------------------------------------------------------------------------
  // Quantifiers

  lemma {:induction false} OptionalImplements(m: Machine, a: Asm, check: bool, greedy: bool, n: int, unbounded: bool,
                                              backward: bool, matcher: Spec.Matcher)
    requires Block(m, a, backward, matcher) && (check || !NeedCheckAdvance(a)) && 0 <= n
    requires !unbounded ==> n < Spec.INFINITE
    ensures Block(m, Optional(a, check, greedy, n, unbounded), backward,
                  Spec.RepeatMatcher(EnvOf(m), matcher, backward, 0, Spec.MaxOf(0, n, unbounded), greedy))
  {
    hide Block, NeedCheckAdvance;
    if unbounded {
      StarImplements(m, a, check, greedy, backward, matcher);
    } else if n > 0 {
      UpToImplements(m, a, check, greedy, n, backward, matcher);
    } else {
      EmptyImplements(m, backward);
      BlockSame(m, [], backward, Identity(), Spec.RepeatMatcher(EnvOf(m), matcher, backward, 0, 0, greedy));
    }
  }

  lemma {:induction false} MandatoryImplements(m: Machine, a: Asm, n: nat, backward: bool, matcher: Spec.Matcher)
    requires Block(m, a, backward, matcher) && n > 0 && Spec.Local(EnvOf(m), backward, matcher)
    ensures Block(m, Mandatory(a, n), backward, Spec.TimesMatcher(matcher, n))
  {
    hide Block;
    if n == 1 {
      forall x: nat, captures: seq<int>, k: Spec.Cont | x <= Len(m)
        ensures Spec.TimesMatcher(matcher, 1)(x, captures, k) == matcher(x, captures, k)
      {
        assert forall y: nat, c: seq<int> :: Spec.TimesCont(matcher, 1, k)(y, c) == Spec.Times(matcher, 0, y, c, k) == k(y, c);
        assert Spec.AgreeAhead(EnvOf(m), backward, x, k, Spec.TimesCont(matcher, 1, k));
      }
      BlockSame(m, a, backward, matcher, Spec.TimesMatcher(matcher, 1));
    } else {
      ExactlyImplements(m, a, n, backward, matcher);
    }
  }

  // Minimum, then the optional rest.
  lemma {:induction false} BoundedImplements(m: Machine, a: Asm, check: bool, min: nat, max: int, greedy: bool, backward: bool,
                                             matcher: Spec.Matcher)
    requires Block(m, a, backward, matcher) && Spec.Local(EnvOf(m), backward, matcher)
    requires (check || !NeedCheckAdvance(a)) && 0 < min <= max <= Spec.INFINITE
    ensures Block(m, Mandatory(a, min) + Optional(a, check, greedy, max - min, max == Spec.INFINITE), backward,
                  Spec.RepeatMatcher(EnvOf(m), matcher, backward, min, max, greedy))
  {
    hide Block, NeedCheckAdvance;
    var n, unbounded := max - min, max == Spec.INFINITE;
    var rest := Spec.RepeatMatcher(EnvOf(m), matcher, backward, 0, Spec.MaxOf(0, n, unbounded), greedy);
    MandatoryImplements(m, a, min, backward, matcher);
    OptionalImplements(m, a, check, greedy, n, unbounded, backward, matcher);
    var first, second := Mandatory(a, min), Optional(a, check, greedy, n, unbounded);
    SeqImplements(m, first, second, backward, Spec.TimesMatcher(matcher, min), rest);
    forall x: nat, captures: seq<int>, k: Spec.Cont | x <= Len(m)
      ensures Spec.RepeatMatcher(EnvOf(m), matcher, backward, min, max, greedy)(x, captures, k)
           == Spec.SeqMatcher(Spec.TimesMatcher(matcher, min), rest)(x, captures, k)
    {
      Spec.RepeatSplits(EnvOf(m), matcher, backward, min, n, unbounded, greedy, x, captures, k);
    }
    BlockSame(m, first + second, backward, Spec.SeqMatcher(Spec.TimesMatcher(matcher, min), rest),
              Spec.RepeatMatcher(EnvOf(m), matcher, backward, min, max, greedy));
  }

  // No minimum: the captures of the atom are reset first.
  lemma {:induction false} ResetThenImplements(m: Machine, first: nat, next: nat, b: Asm, backward: bool, matcher: Spec.Matcher)
    requires first <= next <= m.captureCount && Block(m, b, backward, matcher)
    ensures Block(m, Reset(first, next) + b, backward, Spec.SeqMatcher(Spec.ClearMatcher(first, next), matcher))
  {
    hide Block, Reset;
    ResetImplements(m, first, next, backward);
    SeqImplements(m, Reset(first, next), b, backward, Spec.ClearMatcher(first, next), matcher);
  }

  // With no captures in the atom there is nothing to reset.
  lemma {:induction false} NothingToReset(m: Machine, b: Asm, g: nat, backward: bool, matcher: Spec.Matcher)
    requires Block(m, b, backward, matcher)
    ensures Block(m, b, backward, Spec.SeqMatcher(Spec.ClearMatcher(g, g), matcher))
  {
    hide Block;
    forall x: nat, captures: seq<int>, k: Spec.Cont | x <= Len(m)
      ensures Spec.SeqMatcher(Spec.ClearMatcher(g, g), matcher)(x, captures, k) == matcher(x, captures, k)
    {
      var next := Spec.Then(matcher, k);
      assert Spec.Clear(captures, g, g) == captures;
      assert Spec.SeqMatcher(Spec.ClearMatcher(g, g), matcher)(x, captures, k) == Spec.ClearMatcher(g, g)(x, captures, next) == next(x, captures);
    }
    BlockSame(m, b, backward, matcher, Spec.SeqMatcher(Spec.ClearMatcher(g, g), matcher));
  }

  lemma {:induction false} QuantImplements(m: Machine, a: Asm, min: int, max: int, greedy: bool, first: nat, next: nat,
                                           backward: bool, matcher: Spec.Matcher)
    requires Block(m, a, backward, matcher) && Spec.Local(EnvOf(m), backward, matcher)
    requires Simple(a) ==> Straight(m, a, matcher) && (backward ==> CharCount(a) == 0) && first == next
    requires 0 <= min <= max <= Spec.INFINITE && first <= next <= m.captureCount
    ensures Block(m, QuantAsm(a, min, max, greedy, first, next), backward,
                  Spec.QuantMatcher(EnvOf(m), matcher, backward, min, max, greedy, first, next, Spec.Emitted))
  {
    hide Implements, Spec.RepeatMatcher, Spec.SeqMatcher, Spec.ClearMatcher, NeedCheckAdvance, Straight, Simple, Reset, SimpleQuant;
    var check := NeedCheckAdvance(a);
    if greedy && max > 0 && SimpleCount(a) > 0 {
      SimpleQuantImplements(m, a, matcher, min, max);
      NothingToReset(m, SimpleQuant(a, min, max), first, backward, Spec.RepeatMatcher(EnvOf(m), matcher, false, min, max, true));
    } else if min == 0 {
      if max == 1 {
        OnceImplements(m, a, check, greedy, backward, matcher);
        ResetThenImplements(m, first, next, Iteration(a, check, greedy, 0), backward,
                            Spec.RepeatMatcher(EnvOf(m), matcher, backward, 0, 1, greedy));
      } else {
        OptionalImplements(m, a, check, greedy, max, max == Spec.INFINITE, backward, matcher);
        ResetThenImplements(m, first, next, Optional(a, check, greedy, max, max == Spec.INFINITE), backward,
                            Spec.RepeatMatcher(EnvOf(m), matcher, backward, 0, max, greedy));
      }
    } else if min == 1 && max == Spec.INFINITE && !check {
      PlusImplements(m, a, greedy, backward, matcher);
    } else {
      BoundedImplements(m, a, check, min, max, greedy, backward, matcher);
    }
  }

  // ---------------------------------------------------------------------------
  // Simple code comes from patterns that move by a fixed number of characters

  lemma {:induction false} NotSimple(a: Asm, i: int)
    requires 0 <= i < |a| && !IsCharInstr(a[i]) && !IsAssertion(a[i])
    ensures !Simple(a)
  {
  }

  lemma {:induction false} SimpleConcat(a: Asm, b: Asm)
    ensures Simple(a + b) <==> Simple(a) && Simple(b)
  {
    if Simple(a + b) {
      assert forall i :: 0 <= i < |a| ==> a[i] == (a + b)[i];
      assert forall i :: 0 <= i < |b| ==> b[i] == (a + b)[|a| + i];
    }
  }

  lemma {:induction false} SimpleQuantAsm(a: Asm, min: int, max: int, greedy: bool, first: nat, next: nat)
    requires 0 <= min <= max && Simple(QuantAsm(a, min, max, greedy, first, next))
    ensures (min == 0 && max == 0 && first == next && QuantAsm(a, min, max, greedy, first, next) == [])
            || (min == 1 && max == 1 && QuantAsm(a, min, max, greedy, first, next) == a)
  {
    hide Simple, NeedCheckAdvance, CharCount, Length;
    var q := QuantAsm(a, min, max, greedy, first, next);
    var check := NeedCheckAdvance(a);
    if greedy && max > 0 && SimpleCount(a) > 0 {
      NotSimple(q, 0);
    } else if min == 0 {
      var tail := if max == 1 then Iteration(a, check, greedy, 0) else Optional(a, check, greedy, max, max == Spec.INFINITE);
      SimpleConcat(Reset(first, next), tail);
      if first != next {
        NotSimple(Reset(first, next), 0);
      }
      if max > 0 {
        NotSimple(tail, 0);
      }
      assert max == 0 ==> tail == [];
    } else if min == 1 && max == Spec.INFINITE && !check {
      NotSimple(q, |a|);
    } else {
      var tail := Optional(a, check, greedy, max - min, max == Spec.INFINITE);
      SimpleConcat(Mandatory(a, min), tail);
      if min != 1 {
        NotSimple(Mandatory(a, min), 0);
      } else if max > 1 {
        NotSimple(tail, 0);
      } else {
        assert a + [] == a;
      }
    }
  }

  lemma {:induction false} QuantStraight(m: Machine, a: Asm, min: int, max: int, greedy: bool, first: nat, next: nat,
                                         backward: bool, matcher: Spec.Matcher)
    requires 0 <= min <= max && Simple(QuantAsm(a, min, max, greedy, first, next)) && Spec.Local(EnvOf(m), backward, matcher)
    requires Simple(a) ==> Straight(m, a, matcher) && (backward ==> CharCount(a) == 0) && first == next
    ensures Straight(m, QuantAsm(a, min, max, greedy, first, next),
                     Spec.QuantMatcher(EnvOf(m), matcher, backward, min, max, greedy, first, next, Spec.Emitted))
    ensures (backward ==> CharCount(QuantAsm(a, min, max, greedy, first, next)) == 0) && first == next
  {
    hide Straight, Simple, QuantAsm;
    SimpleQuantAsm(a, min, max, greedy, first, next);
    var matcher' := Spec.QuantMatcher(EnvOf(m), matcher, backward, min, max, greedy, first, next, Spec.Emitted);
    if max == 0 {
      forall x: nat, captures: seq<int>, k: Spec.Cont | x <= Len(m)
        ensures matcher'(x, captures, k) == k(x, captures)
      {
        var loop := Spec.RepeatMatcher(EnvOf(m), matcher, backward, 0, 0, greedy);
        assert Spec.Clear(captures, first, next) == captures;
        assert matcher'(x, captures, k) == Spec.ClearMatcher(first, next)(x, captures, Spec.Then(loop, k)) == loop(x, captures, k);
      }
      StraightEmpty(m, matcher');
    } else {
      forall x: nat, captures: seq<int>, k: Spec.Cont | x <= Len(m)
        ensures matcher'(x, captures, k) == matcher(x, captures, k)
      {
        var d := Spec.RepeatCont(EnvOf(m), matcher, backward, 1, 1, greedy, x, k);
        assert forall y: nat, c: seq<int> :: Spec.Repeat(EnvOf(m), matcher, backward, 0, 0, greedy, y, c, k) == k(y, c);
        assert Spec.AgreeAhead(EnvOf(m), backward, x, d, k);
      }
      StraightSame(m, a, matcher, matcher');
    }
  }

  lemma {:induction false} SimpleStraight(m: Machine, encode: Encoder, r: Node, f: Flags, backward: bool, capture: nat)
    requires Spec.WellFormed(r) && Spec.CanonOk(m.canon) && Encodes(m, encode) && EncodesChars(encode)
    requires Simple(Emit(encode, r, f, backward, capture))
    ensures Straight(m, Emit(encode, r, f, backward, capture), Spec.Compile(EnvOf(m), r, f, backward, capture, Spec.Emitted))
    ensures (backward ==> CharCount(Emit(encode, r, f, backward, capture)) == 0) && Spec.Captures(r) == 0
    decreases r
  {
    hide Straight, Simple, QuantAsm, AltAsm, CaptureAsm, LookAsm, Directed, Encodes, EncodesChars, Spec.CanonOk, Spec.AssertionMatcher,
         Spec.CharMatcher, Spec.LookMatcher, Spec.SeqMatcher, Spec.AltMatcher, Spec.QuantMatcher, Spec.CaptureMatcher, Emit, Spec.Compile;
    var a := Emit(encode, r, f, backward, capture);
    EmitLeaf(encode, r, f, backward, capture);
    Spec.CompileLeaf(EnvOf(m), r, f, backward, capture, Spec.Emitted);
    match r
    case Empty => SimpleEmpty(m, encode, f, backward, capture);
    case Literal(_) => SimpleDirected(m, encode, r, f, backward);
    case Dot => SimpleDirected(m, encode, r, f, backward);
    case Class(_, _) => SimpleDirected(m, encode, r, f, backward);
    case LineStart => StraightAssertion(m, r, f); assert a[1..] == [];
    case LineEnd => StraightAssertion(m, r, f); assert a[1..] == [];
    case WordBoundary(_) => StraightAssertion(m, r, f); assert a[1..] == [];
    case Seq(x, y) => SimpleSeqStraight(m, encode, x, y, f, backward, capture);
    case Alt(x, y) => EmitAlt(encode, x, y, f, backward, capture); StartsComplex(a, r, backward, capture);
    case Group(x) =>
      EmitNested(encode, x, f, backward, capture);
      Spec.CompileNested(EnvOf(m), x, f, backward, capture, Spec.Emitted);
      SimpleStraight(m, encode, x, f, backward, capture);
    case Capture(x) => EmitNested(encode, x, f, backward, capture); StartsComplex(a, r, backward, capture);
    case Modifiers(add, remove, x) =>
      EmitModifiers(encode, x, add, remove, f, backward, capture);
      Spec.CompileModifiers(EnvOf(m), x, add, remove, f, backward, capture, Spec.Emitted);
      SimpleStraight(m, encode, x, Spec.UpdateFlags(f, add, remove), backward, capture);
    case Look(negative, behind, x) => EmitLook(encode, x, negative, behind, f, backward, capture); StartsComplex(a, r, backward, capture);
    case Quant(x, min, max, greedy) =>
      EmitQuant(encode, x, min, max, greedy, f, backward, capture);
      Spec.CompileQuant(EnvOf(m), x, min, max, greedy, f, backward, capture, Spec.Emitted);
      var b := Emit(encode, x, f, backward, capture);
      if Simple(b) {
        SimpleStraight(m, encode, x, f, backward, capture);
      }
      Spec.OnlyAhead(EnvOf(m), x, f, backward, capture, Spec.Emitted);
      QuantStraight(m, b, min, max, greedy, capture, capture + Spec.Captures(x), backward, Spec.Compile(EnvOf(m), x, f, backward, capture, Spec.Emitted));
  }

  lemma {:induction false} SimpleEmpty(m: Machine, encode: Encoder, f: Flags, backward: bool, capture: nat)
    ensures Straight(m, Emit(encode, Spec.Empty, f, backward, capture), Spec.Compile(EnvOf(m), Spec.Empty, f, backward, capture, Spec.Emitted))
    ensures CharCount(Emit(encode, Spec.Empty, f, backward, capture)) == 0
  {
    hide Straight;
    StraightEmpty(m, Spec.Compile(EnvOf(m), Spec.Empty, f, backward, capture, Spec.Emitted));
  }

  // The code of these patterns is not simple.
  lemma {:induction false} StartsComplex(a: Asm, r: Node, backward: bool, capture: nat)
    requires (exists b, c :: a == AltAsm(b, c)) || (exists b :: a == CaptureAsm(b, backward, capture)) || (exists b, negative :: a == LookAsm(b, negative))
    ensures !Simple(a)
  {
    hide Simple;
    NotSimple(a, 0);
  }

  lemma {:induction false} SimpleDirected(m: Machine, encode: Encoder, r: Node, f: Flags, backward: bool)
    requires IsOneChar(r) && Spec.WellFormed(r) && Encodes(m, encode) && EncodesChars(encode)
    requires Simple(Directed(backward, encode(r, f)))
    ensures !backward && Straight(m, Directed(backward, encode(r, f)), Spec.CharMatcher(EnvOf(m), r, f, backward))
  {
    hide Straight, Encodes, EncodesChars, Spec.CharMatcher;
    if backward {
      NotSimple(Directed(backward, encode(r, f)), 0);
    } else {
      StraightChar(m, encode, r, f);
    }
  }

  lemma {:induction false} SimpleSeqStraight(m: Machine, encode: Encoder, x: Node, y: Node, f: Flags, backward: bool, capture: nat)
    requires Spec.WellFormed(x) && Spec.WellFormed(y)
    requires Spec.CanonOk(m.canon) && Encodes(m, encode) && EncodesChars(encode)
    requires Simple(Emit(encode, Spec.Seq(x, y), f, backward, capture))
    ensures Straight(m, Emit(encode, Spec.Seq(x, y), f, backward, capture),
                     Spec.Compile(EnvOf(m), Spec.Seq(x, y), f, backward, capture, Spec.Emitted))
    ensures (backward ==> CharCount(Emit(encode, Spec.Seq(x, y), f, backward, capture)) == 0) && Spec.Captures(x) + Spec.Captures(y) == 0
    decreases Spec.Seq(x, y), 0
  {
    hide Straight, Simple, Encodes, EncodesChars, Spec.CanonOk, Emit, Spec.Compile, CharCount, Spec.SeqMatcher;
    EmitSeq(encode, x, y, f, backward, capture);
    Spec.CompileSeq(EnvOf(m), x, y, f, backward, capture, Spec.Emitted);
    var a := Emit(encode, x, f, backward, capture);
    var b := Emit(encode, y, f, backward, capture + Spec.Captures(x));
    var (first, second) := if backward then (b, a) else (a, b);
    SimpleConcat(first, second);
    SimpleStraight(m, encode, x, f, backward, capture);
    SimpleStraight(m, encode, y, f, backward, capture + Spec.Captures(x));
    var mx, my := Spec.Compile(EnvOf(m), x, f, backward, capture, Spec.Emitted), Spec.Compile(EnvOf(m), y, f, backward, capture + Spec.Captures(x), Spec.Emitted);
    if backward {
      StraightSeq(m, b, a, my, mx);
    } else {
      StraightSeq(m, a, b, mx, my);
    }
    CharCountConcat(first, second);
  }

  // ---------------------------------------------------------------------------
  // Patterns

  lemma {:induction false} OneCharImplements(m: Machine, encode: Encoder, r: Node, f: Flags, backward: bool)
    requires IsOneChar(r) && Spec.WellFormed(r) && Encodes(m, encode) && EncodesChars(encode)
    ensures Block(m, Directed(backward, encode(r, f)), backward, Spec.CharMatcher(EnvOf(m), r, f, backward))
  {
    hide At, Assemble, Yields, Placed, Follows, Encodes, Spec.CharMatcher;
    var a := Directed(backward, encode(r, f));
    CharTestIsCharInstr(encode(r, f));
    DirectedNet(encode(r, f), backward);
    forall ctx: Context, p: int, x: nat, stack: seq<int>, captures: seq<int>, s: seq<SavedState>, k: Spec.Cont |
      Applies(m, ctx, a, backward, p, x, stack, captures, s, k)
      ensures Yields(m, ctx, Run(p, Offset(m.subject, x), stack, captures, s),
                     Spec.CharMatcher(EnvOf(m), r, f, backward)(x, captures, k), s)
    {
      if backward {
        BackwardCharCorrect(m, ctx, encode, r, f, a, p, x, stack, captures, s, k);
      } else {
        ForwardCharCorrect(m, ctx, encode, r, f, a, p, x, stack, captures, s, k);
      }
    }
  }

  lemma {:induction false} DirectedNet(i: Instr, backward: bool)
    requires IsCharTest(i)
    ensures Net(Directed(backward, i)) == 0
  {
    WrapNet(Prev, [i], Prev);
    assert [Prev, i, Prev] == [Prev] + [i] + [Prev];
    assert [i][1..] == [];
  }

  lemma {:induction false} AssertionImplements(m: Machine, r: Node, f: Flags, backward: bool)
    requires (r.LineStart? || r.LineEnd? || r.WordBoundary?) && Spec.CanonOk(m.canon)
    ensures Block(m, [AssertionInstr(r, f)], backward, Spec.AssertionMatcher(EnvOf(m), r, f))
  {
    hide At, Assemble, Yields, Placed, Spec.AssertionMatcher, Spec.CanonOk;
    var a := [AssertionInstr(r, f)];
    assert a[1..] == [] && Net(a) == Delta(a[0]) + Net([]) == 0;
    forall ctx: Context, p: int, x: nat, stack: seq<int>, captures: seq<int>, s: seq<SavedState>, k: Spec.Cont |
      Applies(m, ctx, a, backward, p, x, stack, captures, s, k)
      ensures Yields(m, ctx, Run(p, Offset(m.subject, x), stack, captures, s),
                     Spec.AssertionMatcher(EnvOf(m), r, f)(x, captures, k), s)
    {
      AssertionCorrect(m, ctx, r, f, backward, p, x, stack, captures, s, k);
    }
  }

  lemma {:induction false} EmptyPattern(m: Machine, encode: Encoder, f: Flags, backward: bool, capture: nat)
    ensures Block(m, Emit(encode, Spec.Empty, f, backward, capture), backward, Spec.Compile(EnvOf(m), Spec.Empty, f, backward, capture, Spec.Emitted))
  {
    hide Block;
    EmptyImplements(m, backward);
    BlockSame(m, [], backward, Identity(), Spec.Compile(EnvOf(m), Spec.Empty, f, backward, capture, Spec.Emitted));
  }

  // Compiler correctness, pattern by pattern: the emitted code implements the matcher.
  lemma {:induction false} EmitImplements(m: Machine, encode: Encoder, r: Node, f: Flags, backward: bool, capture: nat)
    requires Spec.WellFormed(r) && Spec.CanonOk(m.canon) && Encodes(m, encode) && EncodesChars(encode)
    requires capture + Spec.Captures(r) <= m.captureCount
    ensures Block(m, Emit(encode, r, f, backward, capture), backward, Spec.Compile(EnvOf(m), r, f, backward, capture, Spec.Emitted))
    decreases r
  {
    hide Block, Encodes, EncodesChars, Spec.CanonOk, QuantAsm, AltAsm, LookAsm, Directed, Spec.AssertionMatcher, Spec.CharMatcher,
         Straight, Simple, Spec.LookMatcher, Spec.SeqMatcher, Spec.AltMatcher, Spec.QuantMatcher, Spec.CaptureMatcher, Emit, Spec.Compile, AllValid, Reaches,
         Encode;
    var env := EnvOf(m);
    EmitLeaf(encode, r, f, backward, capture);
    Spec.CompileLeaf(env, r, f, backward, capture, Spec.Emitted);
    match r
    case Empty => EmptyPattern(m, encode, f, backward, capture);
    case Literal(_) => OneCharImplements(m, encode, r, f, backward);
    case Dot => OneCharImplements(m, encode, r, f, backward);
    case Class(_, _) => OneCharImplements(m, encode, r, f, backward);
    case LineStart => AssertionImplements(m, r, f, backward);
    case LineEnd => AssertionImplements(m, r, f, backward);
    case WordBoundary(_) => AssertionImplements(m, r, f, backward);
    case Seq(x, y) =>
      EmitImplements(m, encode, x, f, backward, capture);
      EmitImplements(m, encode, y, f, backward, capture + Spec.Captures(x));
      var a, b := Emit(encode, x, f, backward, capture), Emit(encode, y, f, backward, capture + Spec.Captures(x));
      var mx, my := Spec.Compile(env, x, f, backward, capture, Spec.Emitted), Spec.Compile(env, y, f, backward, capture + Spec.Captures(x), Spec.Emitted);
      EmitSeq(encode, x, y, f, backward, capture);
      Spec.CompileSeq(env, x, y, f, backward, capture, Spec.Emitted);
      if backward {
        SeqImplements(m, b, a, backward, my, mx);
      } else {
        SeqImplements(m, a, b, backward, mx, my);
      }
    case Alt(x, y) =>
      EmitAlt(encode, x, y, f, backward, capture);
      Spec.CompileSeq(env, x, y, f, backward, capture, Spec.Emitted);
      EmitImplements(m, encode, x, f, backward, capture);
      EmitImplements(m, encode, y, f, backward, capture + Spec.Captures(x));
      AltImplements(m, Emit(encode, x, f, backward, capture), Emit(encode, y, f, backward, capture + Spec.Captures(x)),
                    backward, Spec.Compile(env, x, f, backward, capture, Spec.Emitted), Spec.Compile(env, y, f, backward, capture + Spec.Captures(x), Spec.Emitted));
    case Group(x) =>
      EmitNested(encode, x, f, backward, capture);
      Spec.CompileNested(env, x, f, backward, capture, Spec.Emitted);
      EmitImplements(m, encode, x, f, backward, capture);
    case Capture(x) =>
      EmitNested(encode, x, f, backward, capture);
      Spec.CompileNested(env, x, f, backward, capture, Spec.Emitted);
      EmitImplements(m, encode, x, f, backward, capture + 1);
      CaptureImplements(m, Emit(encode, x, f, backward, capture + 1), backward, capture,
                        Spec.Compile(env, x, f, backward, capture + 1, Spec.Emitted));
    case Modifiers(add, remove, x) =>
      EmitModifiers(encode, x, add, remove, f, backward, capture);
      Spec.CompileModifiers(env, x, add, remove, f, backward, capture, Spec.Emitted);
      EmitImplements(m, encode, x, Spec.UpdateFlags(f, add, remove), backward, capture);
    case Look(negative, behind, x) =>
      EmitLook(encode, x, negative, behind, f, backward, capture);
      Spec.CompileLook(env, x, negative, behind, f, backward, capture, Spec.Emitted);
      EmitImplements(m, encode, x, f, behind, capture);
      LookImplements(m, Emit(encode, x, f, behind, capture), backward, behind, negative, Spec.Compile(env, x, f, behind, capture, Spec.Emitted));
    case Quant(x, min, max, greedy) =>
      EmitQuant(encode, x, min, max, greedy, f, backward, capture);
      Spec.CompileQuant(env, x, min, max, greedy, f, backward, capture, Spec.Emitted);
      var a := Emit(encode, x, f, backward, capture);
      EmitImplements(m, encode, x, f, backward, capture);
      Spec.OnlyAhead(env, x, f, backward, capture, Spec.Emitted);
      if Simple(a) {
        SimpleStraight(m, encode, x, f, backward, capture);
      }
      QuantImplements(m, a, min, max, greedy, capture, capture + Spec.Captures(x), backward, Spec.Compile(env, x, f, backward, capture, Spec.Emitted));
  }

  // ---------------------------------------------------------------------------
  // The whole program

  // The code between the search loop and the end: it sets captures 0 and 1.
  function Body(encode: Encoder, r: Node, f: Flags): (a: Asm) {
    [SaveStart(0)] + Emit(encode, r, f, false, 1) + [SaveEnd(0), Match]
  }

  // The group of the whole match, then match.
  lemma {:induction false} BodyIsGroup(encode: Encoder, r: Node, f: Flags)
    ensures Body(encode, r, f) == Emit(encode, Spec.Capture(r), f, false, 0) + [Match]
  {
    EmitNested(encode, r, f, false, 0);
    hide Emit;
    assert Body(encode, r, f) == [SaveStart(0)] + Emit(encode, r, f, false, 1) + [SaveEnd(0)] + [Match];
  }

  // From a start position the body yields what the matcher of the pattern finds there.
  lemma {:induction false} BodyYields(m: Machine, encode: Encoder, r: Node, f: Flags, p: int, x: nat,
                                      captures: seq<int>, s: seq<SavedState>)
    requires Spec.WellFormed(r) && Spec.CanonOk(m.canon) && Encodes(m, encode) && EncodesChars(encode)
    requires 1 + Spec.Captures(r) <= m.captureCount && Placed(m, Body(encode, r, f), p, 0)
    requires x <= Len(m) && CapturesOk(m, captures) && Plain(s)
    ensures Yields(m, [], Run(p, Offset(m.subject, x), [], captures, s),
                   Spec.Compile(EnvOf(m), Spec.Capture(r), f, false, 0, Spec.Emitted)(x, captures, Spec.Accept), s)
  {
    hide At, Assemble, Emit, Reaches, Placed, Encodes, EncodesChars, Spec.Compile, Spec.CanonOk, Implements, Length, CharCount, Linear, Step, Net, Body;
    var a := Emit(encode, Spec.Capture(r), f, false, 0);
    var q := p + Length(a);
    var matcher := Spec.Compile(EnvOf(m), Spec.Capture(r), f, false, 0, Spec.Emitted);
    EmitImplements(m, encode, Spec.Capture(r), f, false, 0);
    BodyIsGroup(encode, r, f);
    PlacedSplit(m, a, [Match], p, 0);
    MatchIsPlaced(m, q);
    forall y: nat, captures': seq<int>, s': seq<SavedState> |
      Lands(m, false, Linear(a), CharCount(a), x, y) && CapturesOk(m, captures') && Above([], s')
      ensures Yields(m, [], Run(q, Offset(m.subject, y), [], captures', s'), Spec.Accept(y, captures'), s')
    {
      MatchReaches(m, q, Offset(m.subject, y), [], captures', s');
      assert Ends(m, [], s', Spec.State(y, captures'));
    }
    assert s[0..] == s;
    UseBlock(m, [], a, false, matcher, p, x, [], captures, s, Spec.Accept);
  }

  lemma {:induction false} MatchIsPlaced(m: Machine, q: int)
    requires Placed(m, [Match], q, 0)
    ensures At(m.code, q, Assemble([Match]))
  {
    hide At, Assemble;
  }

  // The configuration that ends the whole run with the given outcome of the search.
  function Ending(z: Option<Spec.Marks>): (c: Config) {
    match z
    case None => Halt(false, [])
    case Some(captures) => Halt(true, captures)
  }

  // A success skips all remaining alternatives and halts, and so does a failure without any.
  lemma {:induction false} ResultEnds(m: Machine, c: Config, o: Spec.Result)
    requires Yields(m, [], c, o, [])
    ensures o.None? ==> Reaches(m, c, Halt(false, []))
    ensures o.Some? ==> Reaches(m, c, Halt(true, o.value.captures))
  {
    hide Reaches;
    if o.None? {
      ReachesNext(m, Fail([]));
      ReachesTrans(m, c, Fail([]), Halt(false, []));
    } else {
      SuccessEnds(m, c, o.value);
    }
  }

  lemma {:induction false} SuccessEnds(m: Machine, c: Config, z: Spec.State)
    requires Succeeds(m, [], c, z)
    ensures Reaches(m, c, Halt(true, z.captures))
  {
    hide Reaches;
    var captures := z.captures;
    var s :| Ends(m, [], s, z) && Reaches(m, c, Succeed(captures, s));
    SucceedUnwinds(m, [], captures, s);
    ReachesNext(m, Succeed(captures, []));
    ReachesTrans3(m, c, Succeed(captures, s), Succeed(captures, []), Halt(true, captures));
  }

  // What the search finds for a pattern on the subject of the machine.
  ghost function Found(m: Machine, r: Node, f: Flags, sticky: bool, x: nat, how: Spec.Discipline): (z: Option<Spec.Marks>)
    requires x <= Len(m)
  {
    Spec.Find(EnvOf(m), r, f, sticky, x, how)
  }

  lemma {:induction false} FoundIs(m: Machine, r: Node, f: Flags, sticky: bool, x: nat)
    requires x <= Len(m)
    ensures var o := Spec.Compile(EnvOf(m), Spec.Capture(r), f, false, 0, Spec.Emitted)(x, Spec.Unset(1 + Spec.Captures(r)), Spec.Accept);
            Found(m, r, f, sticky, x, Spec.Emitted) ==
            if o.Some? then Some(o.value.captures)
            else if sticky || x == Len(m) then None
            else Found(m, r, f, sticky, x + 1, Spec.Emitted)
  {
    hide Spec.Compile, Spec.Captures;
  }

  lemma {:induction false} StickyRuns(m: Machine, encode: Encoder, r: Node, f: Flags, p: int, x: nat)
    requires Spec.WellFormed(r) && Spec.CanonOk(m.canon) && Encodes(m, encode) && EncodesChars(encode)
    requires 1 + Spec.Captures(r) == m.captureCount && Placed(m, Body(encode, r, f), p, 0)
    requires x <= Len(m)
    ensures Reaches(m, Run(p, Offset(m.subject, x), [], Spec.Unset(m.captureCount), []), Ending(Found(m, r, f, true, x, Spec.Emitted)))
  {
    hide Reaches, Placed, Encodes, EncodesChars, Spec.Compile, Spec.CanonOk, Yields, Found;
    var captures := Spec.Unset(m.captureCount);
    BodyYields(m, encode, r, f, p, x, captures, []);
    ResultEnds(m, Run(p, Offset(m.subject, x), [], captures, []),
               Spec.Compile(EnvOf(m), Spec.Capture(r), f, false, 0, Spec.Emitted)(x, captures, Spec.Accept));
    FoundIs(m, r, f, true, x);
  }

  lemma {:induction false} AnyReaches(m: Machine, p: int, x: nat, captures: seq<int>, s: seq<SavedState>)
    requires At(m.code, p, Assemble([AnyChar])) && x <= Len(m)
    ensures Reaches(m, Run(p, Offset(m.subject, x), [], captures, s),
                    if x < Len(m) then Run(p + 1, Offset(m.subject, x + 1), [], captures, s) else Fail(s))
  {
    StepAt(m, AnyChar, p, Offset(m.subject, x), [], captures, s);
    ReachesNext(m, Run(p, Offset(m.subject, x), [], captures, s));
    if x < Len(m) {
      GetCharAtOffset(m.subject, x);
    } else {
      OffsetAtEnd(m.subject);
    }
  }

  // The lazy loop over start positions in front of the body.
  lemma {:induction false} SearchRuns(m: Machine, encode: Encoder, r: Node, f: Flags, x: nat)
    requires Spec.WellFormed(r) && Spec.CanonOk(m.canon) && Encodes(m, encode) && EncodesChars(encode)
    requires 1 + Spec.Captures(r) == m.captureCount && Placed(m, Body(encode, r, f), 11, 0)
    requires At(m.code, 0, Assemble([Split(true, 6)])) && At(m.code, 5, Assemble([AnyChar])) && At(m.code, 6, Assemble([Goto(-11)]))
    requires x <= Len(m)
    ensures Reaches(m, Run(0, Offset(m.subject, x), [], Spec.Unset(m.captureCount), []), Ending(Found(m, r, f, false, x, Spec.Emitted)))
    decreases Len(m) - x
  {
    hide At, Assemble, Body, Reaches, Placed, Encodes, EncodesChars, Spec.Compile, Spec.CanonOk, Succeeds, Found, Offset;
    var pos, captures := Offset(m.subject, x), Spec.Unset(m.captureCount);
    var start := Run(0, pos, [], captures, []);
    var top := SavedState(SplitState, 0, pos, 5, captures, []);
    var o := Spec.Compile(EnvOf(m), Spec.Capture(r), f, false, 0, Spec.Emitted)(x, captures, Spec.Accept);
    var c, d := Run(11, pos, [], captures, [top]), Run(5, pos, [], captures, []);
    SplitReaches(m, true, 6, 0, pos, [], captures, []);
    assert [] + [top] == [top];
    BodyYields(m, encode, r, f, 11, x, captures, [top]);
    FoundIs(m, r, f, false, x);
    if o.Some? {
      SuccessEnds(m, c, o.value);
      ReachesTrans(m, start, c, Halt(true, o.value.captures));
    } else {
      AnyReaches(m, 5, x, captures, []);
      ReachesTrans3(m, start, c, Fail([top]), d);
      if x < Len(m) {
        var pos' := Offset(m.subject, x + 1);
        var e, next := Run(6, pos', [], captures, []), Run(0, pos', [], captures, []);
        GotoReaches(m, -11, 6, pos', [], captures, []);
        ReachesTrans3(m, start, d, e, next);
        SearchRuns(m, encode, r, f, x + 1);
        ReachesTrans(m, start, next, Ending(Found(m, r, f, false, x + 1, Spec.Emitted)));
      } else {
        ReachesNext(m, Fail([]));
        ReachesTrans3(m, start, d, Fail([]), Halt(false, []));
      }
    }
  }

  lemma {:induction false} ProgramPlaced(m: Machine, encode: Encoder, r: Node, f: Flags, sticky: bool)
    requires m.code == Assemble(Program(encode, r, f, sticky)) && AllValid(Program(encode, r, f, sticky))
    requires Peak(Program(encode, r, f, sticky)) <= m.stackSize
    ensures sticky ==> Placed(m, Body(encode, r, f), 0, 0)
    ensures !sticky ==>
              Placed(m, Body(encode, r, f), 11, 0) && At(m.code, 0, Assemble([Split(true, 6)]))
              && At(m.code, 5, Assemble([AnyChar])) && At(m.code, 6, Assemble([Goto(-11)]))
  {
    hide Assemble, Emit, CharCount, AllValid, At;
    var whole, body := Program(encode, r, f, sticky), Body(encode, r, f);
    WholeIsPlaced(m, whole);
    SearchThenBody(encode, r, f, sticky);
    hide At, Program, Body, Peak;
    if !sticky {
      var w := [Split(true, 6)] + [AnyChar] + [Goto(-11)];
      PlacedSplit(m, w, body, 0, 0);
      WrapPlaced(m, Split(true, 6), [AnyChar], Goto(-11), 0, 0);
      WrapNet(Split(true, 6), [AnyChar], Goto(-11));
      assert [AnyChar][1..] == [];
    }
  }

  lemma {:induction false} SearchThenBody(encode: Encoder, r: Node, f: Flags, sticky: bool)
    ensures Program(encode, r, f, sticky) == if sticky then Body(encode, r, f) else [Split(true, 6)] + [AnyChar] + [Goto(-11)] + Body(encode, r, f)
  {
    hide Emit;
    assert [Split(true, 6)] + [AnyChar] + [Goto(-11)] == [Split(true, 6), AnyChar, Goto(-11)];
    assert Program(encode, r, f, sticky) == (if sticky then [] else [Split(true, 6), AnyChar, Goto(-11)]) + Body(encode, r, f);
  }

  lemma {:induction false} WholeIsPlaced(m: Machine, a: Asm)
    requires m.code == Assemble(a) && AllValid(a) && Peak(a) <= m.stackSize
    ensures Placed(m, a, 0, 0)
  {
    hide Assemble, Peak;
    assert m.code[0..|m.code|] == m.code;
  }

  // The instructions of one-character patterns.
  ghost function CharEncoder(canon: int -> int): (encode: Encoder) {
    (r: Node, f: Flags) =>
      if IsOneChar(r) && Spec.WellFormed(r) && Spec.CanonOk(canon) then OneChar(canon, r, f) else Match
  }

  lemma {:induction false} CharEncoderOk(m: Machine)
    requires Spec.CanonOk(m.canon)
    ensures Encodes(m, CharEncoder(m.canon)) && EncodesChars(CharEncoder(m.canon))
  {
    hide TestChar, Spec.Accepts, OneChar;
    forall r: Node, f: Flags | IsOneChar(r) && Spec.WellFormed(r)
      ensures IsCharTest(CharEncoder(m.canon)(r, f))
    {
      CharInstrCorrect(m, EnvOf(m), r, f, 0);
    }
    forall r: Node, f: Flags, c: int | IsOneChar(r) && Spec.WellFormed(r) && 0 <= c <= 0x10_FFFF
      ensures TestChar(m, CharEncoder(m.canon)(r, f), c) == Spec.Accepts(EnvOf(m), r, f, c)
    {
      CharInstrCorrect(m, EnvOf(m), r, f, c);
    }
  }

  // A subject and a program, ready to run: the program was compiled without error, so its
  // operands fit their fields, and the two sizes are those lre_compile stores in the header.
  ghost predicate Compiled(m: Machine, r: Node, f: Flags, sticky: bool) {
    var a := Program(CharEncoder(m.canon), r, f, sticky);
    && Spec.WellFormed(r) && Spec.CanonOk(m.canon)
    && m.code == Assemble(a) && AllValid(a)
    && m.captureCount == 1 + Spec.Captures(r) && m.stackSize == Peak(a)
  }

  // The start of a run at position x.
  function Start(m: Machine, x: nat): (c: Config)
    requires x <= Len(m)
  {
    Run(0, Offset(m.subject, x), [], Spec.Unset(m.captureCount), [])
  }

  // For every pattern, flags, subject and start position, the machine halts after some number
  // of steps, with the result of the search as the emitted code performs it.
  lemma {:induction false} ExecComputes(m: Machine, r: Node, f: Flags, sticky: bool, x: nat) returns (n: nat)
    requires Compiled(m, r, f, sticky) && x <= Len(m)
    ensures Steps(m, Start(m, x), n) == Ending(Found(m, r, f, sticky, x, Spec.Emitted))
  {
    hide Placed, Encodes, EncodesChars, Found, Spec.CanonOk, Program, Assemble, At, Offset, Step, Emit, Steps;
    var encode := CharEncoder(m.canon);
    var d := Ending(Found(m, r, f, sticky, x, Spec.Emitted));
    CharEncoderOk(m);
    ProgramPlaced(m, encode, r, f, sticky);
    if sticky {
      StickyRuns(m, encode, r, f, 0, x);
    } else {
      SearchRuns(m, encode, r, f, x);
    }
    var t :| IsRun(m, t) && t[0] == Start(m, x) && t[|t| - 1] == d;
    RunIsSteps(m, t, |t| - 1);
    n := |t| - 1;
  }

  // The end of a run with the given outcome of the search, except for the captures of the
  // groups that may be stale.
  predicate IsOutcome(c: Config, z: Option<Spec.Marks>, stale: set<nat>) {
    match z
    case None => c == Halt(false, [])
    case Some(captures) => c.Halt? && c.matched && AgreeOutside(c.captures, captures, stale)
  }

  // Compiler correctness and termination. For every pattern, flags, subject and start
  // position, the machine halts after some number of steps, with the first match the search
  // of the specification finds, or without a match when there is none.
  lemma {:induction false} ExecIsSearch(m: Machine, r: Node, f: Flags, sticky: bool, x: nat) returns (n: nat)
    requires Compiled(m, r, f, sticky) && x <= Len(m)
    ensures IsOutcome(Steps(m, Start(m, x), n), Found(m, r, f, sticky, x, Spec.Standard), StaleGroups(r))
  {
    hide Steps, Start, IsOutcome, Found, StaleGroups, Spec.WellFormed, Spec.CanonOk, Program, Assemble, AllValid, Peak;
    n := ExecComputes(m, r, f, sticky, x);
    EmittedIsOutcome(m, r, f, sticky, x);
  }

  // The captures that are not those of the specification are the marked ones.
  lemma {:induction false} ExecDiffers(m: Machine, r: Node, f: Flags, sticky: bool, x: nat) returns (n: nat)
    requires Compiled(m, r, f, sticky) && x <= Len(m)
    ensures var d := Steps(m, Start(m, x), n);
            DiffersWhereMarked(d, Found(m, r, f, sticky, x, Spec.Standard), Found(m, r, f, sticky, x, Spec.Tracked))
  {
    hide Steps, Start, Found, Spec.WellFormed, Spec.CanonOk, Program, Assemble, AllValid, Peak, StaleGroups;
    n := ExecComputes(m, r, f, sticky, x);
    FoundExactly(m, r, f, sticky, x);
  }

  predicate DiffersWhereMarked(d: Config, z: Option<Spec.Marks>, t: Option<Spec.Marks>) {
    match z
    case None => d == Halt(false, [])
    case Some(captures) =>
      && d.Halt? && d.matched && |d.captures| == |captures|
      && t.Some? && |t.value| == 2 * |captures|
      && forall i {:trigger Marked(t.value, i)} :: 0 <= i < |captures| ==> (d.captures[i] != captures[i] <==> Marked(t.value, i))
  }

  lemma {:induction false} FoundExactly(m: Machine, r: Node, f: Flags, sticky: bool, x: nat)
    requires Spec.WellFormed(r) && x <= Len(m)
    ensures DiffersWhereMarked(Ending(Found(m, r, f, sticky, x, Spec.Emitted)), Found(m, r, f, sticky, x, Spec.Standard),
                               Found(m, r, f, sticky, x, Spec.Tracked))
  {
    hide Spec.Find, StaleGroups;
    FindExactly(EnvOf(m), r, f, sticky, x);
  }

  lemma {:induction false} EmittedIsOutcome(m: Machine, r: Node, f: Flags, sticky: bool, x: nat)
    requires Spec.WellFormed(r) && x <= Len(m)
    ensures IsOutcome(Ending(Found(m, r, f, sticky, x, Spec.Emitted)), Found(m, r, f, sticky, x, Spec.Standard), StaleGroups(r))
  {
    hide Spec.Find, StaleGroups, AgreeOutside;
    FindAgrees(EnvOf(m), r, f, sticky, x);
  }
}
