// Compiler correctness: the machine running the code emitted for a pattern behaves as the
// matcher of the pattern, whatever follows it.
module RegexCorrect {
  import opened Bytes
  import opened RegexOpcode
  import opened RegexInput
  import opened RegexAsm
  import opened RegexMachine
  import opened RegexSteps
  import Spec = RegexSpec

  // A block of code stands ready at p, and what follows it implements k.
  ghost predicate Applies(m: Machine, ctx: Context, a: Asm, backward: bool, p: int, x: nat, stack: seq<int>,
                          captures: seq<int>, s: seq<SavedState>, k: Spec.Cont) {
    Ready(m, ctx, a, p, x, stack, captures, s) && Follows(m, ctx, backward, a, x, p + Length(a), stack, k)
  }

  // The block implements the matcher: wherever it stands and whatever follows it.
  ghost predicate Implements(m: Machine, a: Asm, backward: bool, matcher: Spec.Matcher) {
    forall ctx: Context, p: int, x: nat, stack: seq<int>, captures: seq<int>, s: seq<SavedState>, k: Spec.Cont
      {:trigger Applies(m, ctx, a, backward, p, x, stack, captures, s, k)} ::
      Applies(m, ctx, a, backward, p, x, stack, captures, s, k) ==>
        Yields(m, ctx, Run(p, Offset(m.subject, x), stack, captures, s), matcher(x, captures, k), s)
  }

  lemma {:induction false} UseBlock(m: Machine, ctx: Context, a: Asm, backward: bool, matcher: Spec.Matcher,
                 p: int, x: nat, stack: seq<int>, captures: seq<int>, s: seq<SavedState>, k: Spec.Cont)
    requires Implements(m, a, backward, matcher)
    requires Ready(m, ctx, a, p, x, stack, captures, s) && Follows(m, ctx, backward, a, x, p + Length(a), stack, k)
    ensures Yields(m, ctx, Run(p, Offset(m.subject, x), stack, captures, s), matcher(x, captures, k), s)
  {
    assert Applies(m, ctx, a, backward, p, x, stack, captures, s, k);
  }

  // Implementing code that leaves the depth of the integer stack unchanged.
  ghost predicate Block(m: Machine, a: Asm, backward: bool, matcher: Spec.Matcher) {
    Net(a) == 0 && Implements(m, a, backward, matcher)
  }

  lemma {:induction false} WrapNet(i: Instr, a: Asm, j: Instr)
    ensures Net([i] + a + [j]) == Delta(i) + Net(a) + Delta(j)
  {
    NetConcat([i] + a, [j]);
    NetConcat([i], a);
    assert [i][1..] == [] && [j][1..] == [];
  }

  lemma {:induction false} WrapPlaced(m: Machine, i: Instr, a: Asm, j: Instr, p: int, depth: int)
    requires Placed(m, [i] + a + [j], p, depth)
    ensures ValidInstr(i) && At(m.code, p, Assemble([i]))
    ensures Placed(m, a, p + Size(i), depth + Delta(i))
    ensures ValidInstr(j) && At(m.code, p + Size(i) + Length(a), Assemble([j]))
    ensures Length([i] + a + [j]) == Size(i) + Length(a) + Size(j)
  {
    hide At, Assemble;
    PlacedSplit(m, [i] + a, [j], p, depth);
    PlacedSplit(m, [i], a, p, depth);
    AssembleOne(i);
    AssembleOne(j);
    assert [i][1..] == [];
    assert ValidInstr([i][0]) && ValidInstr([j][0]);
  }

  lemma {:induction false} WrapScan(i: Instr, a: Asm, j: Instr)
    requires !IsCharInstr(i) && !IsCharInstr(j)
    ensures Linear([i] + a + [j]) <==> IsNeutral(i) && Linear(a) && IsNeutral(j)
    ensures CharCount([i] + a + [j]) == CharCount(a)
  {
    LinearConcat([i] + a, [j]);
    LinearConcat([i], a);
    CharCountConcat([i] + a, [j]);
    CharCountConcat([i], a);
    assert [i][1..] == [] && [j][1..] == [];
    assert [i][0] == i && [j][0] == j;
  }

  // ---------------------------------------------------------------------------
  // Sequences

  lemma {:induction false} SeqYields(m: Machine, ctx: Context, a: Asm, b: Asm, backward: bool, first: Spec.Matcher, second: Spec.Matcher,
                  p: int, x: nat, stack: seq<int>, captures: seq<int>, s: seq<SavedState>, k: Spec.Cont)
    requires Implements(m, a, backward, first) && Implements(m, b, backward, second) && Net(a) == 0
    requires Ready(m, ctx, a + b, p, x, stack, captures, s)
    requires Follows(m, ctx, backward, a + b, x, p + Length(a + b), stack, k)
    ensures Yields(m, ctx, Run(p, Offset(m.subject, x), stack, captures, s), first(x, captures, Spec.Then(second, k)), s)
  {
    hide At, Assemble, Placed, Reaches;
    PlacedSplit(m, a, b, p, |stack|);
    var k' := Spec.Then(second, k);
    var q := p + Length(a);
    forall y: nat, captures': seq<int>, s': seq<SavedState> |
      Lands(m, backward, Linear(a), CharCount(a), x, y) && CapturesOk(m, captures') && Above(ctx, s')
      ensures Yields(m, ctx, Run(q, Offset(m.subject, y), stack, captures', s'), k'(y, captures'), s')
    {
      FollowsSecond(m, ctx, backward, a, b, x, y, p + Length(a + b), stack, k);
      UseBlock(m, ctx, b, backward, second, q, y, stack, captures', s', k);
    }
    UseBlock(m, ctx, a, backward, first, p, x, stack, captures, s, k');
  }

  lemma {:induction false} SeqImplements(m: Machine, a: Asm, b: Asm, backward: bool, first: Spec.Matcher, second: Spec.Matcher)
    requires Block(m, a, backward, first) && Block(m, b, backward, second)
    ensures Block(m, a + b, backward, Spec.SeqMatcher(first, second))
  {
    NetConcat(a, b);
    forall ctx: Context, p: int, x: nat, stack: seq<int>, captures: seq<int>, s: seq<SavedState>, k: Spec.Cont |
      Applies(m, ctx, a + b, backward, p, x, stack, captures, s, k)
      ensures Yields(m, ctx, Run(p, Offset(m.subject, x), stack, captures, s), Spec.SeqMatcher(first, second)(x, captures, k), s)
    {
      SeqYields(m, ctx, a, b, backward, first, second, p, x, stack, captures, s, k);
    }
  }

  // ---------------------------------------------------------------------------
  // Disjunctions

  lemma {:induction false} AltNet(a: Asm, b: Asm)
    requires Net(a) == 0 && Net(b) == 0
    ensures Net(AltAsm(a, b)) == 0
  {
    WrapNet(Split(false, Length(a) + 5), a, Goto(Length(b)));
    NetConcat([Split(false, Length(a) + 5)] + a + [Goto(Length(b))], b);
  }

  lemma {:induction false} AltPlaced(m: Machine, a: Asm, b: Asm, p: int, depth: int)
    requires Placed(m, AltAsm(a, b), p, depth) && Net(a) == 0
    ensures ValidOffset(Length(a) + 5) && At(m.code, p, Assemble([Split(false, Length(a) + 5)]))
    ensures ValidOffset(Length(b)) && At(m.code, p + 5 + Length(a), Assemble([Goto(Length(b))]))
    ensures Placed(m, a, p + 5, depth) && Placed(m, b, p + 10 + Length(a), depth)
    ensures Length(AltAsm(a, b)) == 10 + Length(a) + Length(b)
    ensures !Linear(AltAsm(a, b))
  {
    hide At, Assemble;
    var i, j := Split(false, Length(a) + 5), Goto(Length(b));
    PlacedSplit(m, [i] + a + [j], b, p, depth);
    WrapPlaced(m, i, a, j, p, depth);
    WrapNet(i, a, j);
    NotLinear(AltAsm(a, b), 0);
  }

  lemma {:induction false} FollowsOfAll(m: Machine, ctx: Context, backward: bool, a: Asm, x: nat, q: int, stack: seq<int>, k: Spec.Cont)
    requires FollowsAll(m, ctx, backward, x, q, stack, k)
    ensures Follows(m, ctx, backward, a, x, q, stack, k)
  {
  }

  lemma {:induction false} FollowsViaGoto(m: Machine, ctx: Context, backward: bool, a: Asm, x: nat, q: int, off: int, end: int,
                       stack: seq<int>, k: Spec.Cont)
    requires FollowsAll(m, ctx, backward, x, end, stack, k)
    requires ValidOffset(off) && At(m.code, q, Assemble([Goto(off)])) && end == q + 5 + off
    ensures Follows(m, ctx, backward, a, x, q, stack, k)
  {
    forall y: nat, captures: seq<int>, s: seq<SavedState> |
      Lands(m, backward, Linear(a), CharCount(a), x, y) && CapturesOk(m, captures) && Above(ctx, s)
      ensures Yields(m, ctx, Run(q, Offset(m.subject, y), stack, captures, s), k(y, captures), s)
    {
      var pos := Offset(m.subject, y);
      GotoReaches(m, off, q, pos, stack, captures, s);
      assert Yields(m, ctx, Run(end, pos, stack, captures, s), k(y, captures), s);
      YieldsAfter(m, ctx, Run(q, pos, stack, captures, s), Run(end, pos, stack, captures, s), k(y, captures), s);
    }
  }

  // A split with the two branches it leads to, in either order of priority.
  lemma {:induction false} SplitYields(m: Machine, ctx: Context, gotoFirst: bool, off: int, p: int, x: nat,
                    stack: seq<int>, captures: seq<int>, s: seq<SavedState>, o: Spec.Result, o': Spec.Result)
    requires x <= Len(m) && ValidOffset(off) && At(m.code, p, Assemble([Split(gotoFirst, off)])) && Above(ctx, s)
    requires var (first, second) := if gotoFirst then (p + 5 + off, p + 5) else (p + 5, p + 5 + off);
             var pos := Offset(m.subject, x);
             && (forall s': seq<SavedState> {:trigger Run(first, pos, stack, captures, s')} ::
                   Above(ctx, s') ==> Yields(m, ctx, Run(first, pos, stack, captures, s'), o, s'))
             && Yields(m, ctx, Run(second, pos, stack, captures, s), o', s)
    ensures Yields(m, ctx, Run(p, Offset(m.subject, x), stack, captures, s), Spec.OrElse(o, o'), s)
  {
    var (first, second) := if gotoFirst then (p + 5 + off, p + 5) else (p + 5, p + 5 + off);
    var pos := Offset(m.subject, x);
    var top := SavedState(SplitState, 0, pos, second, captures, stack);
    SplitReaches(m, gotoFirst, off, p, pos, stack, captures, s);
    AbovePush(ctx, s, top);
    var c := Run(first, pos, stack, captures, s + [top]);
    assert Yields(m, ctx, c, o, s + [top]);
    YieldsChoice(m, ctx, c, Run(second, pos, stack, captures, s), o, o', s, top);
    YieldsAfter(m, ctx, Run(p, pos, stack, captures, s), c, Spec.OrElse(o, o'), s);
  }

  lemma {:induction false} AltYields(m: Machine, ctx: Context, a: Asm, b: Asm, backward: bool,
                                     left: Spec.Matcher, right: Spec.Matcher, p: int, q: int, x: nat,
                                     stack: seq<int>, captures: seq<int>, s: seq<SavedState>, k: Spec.Cont)
    requires Implements(m, a, backward, left) && Implements(m, b, backward, right)
    requires x <= Len(m) && CapturesOk(m, captures) && Above(ctx, s)
    requires ValidOffset(q - (p + 5)) && At(m.code, p, Assemble([Split(false, q - (p + 5))]))
    requires Placed(m, a, p + 5, |stack|) && Placed(m, b, q, |stack|)
    requires Follows(m, ctx, backward, a, x, p + 5 + Length(a), stack, k)
    requires Follows(m, ctx, backward, b, x, q + Length(b), stack, k)
    ensures Yields(m, ctx, Run(p, Offset(m.subject, x), stack, captures, s), Spec.OrElse(left(x, captures, k), right(x, captures, k)), s)
  {
    hide At, Assemble, Placed, Reaches;
    forall s': seq<SavedState> | Above(ctx, s')
      ensures Yields(m, ctx, Run(p + 5, Offset(m.subject, x), stack, captures, s'), left(x, captures, k), s')
    {
      UseBlock(m, ctx, a, backward, left, p + 5, x, stack, captures, s', k);
    }
    UseBlock(m, ctx, b, backward, right, q, x, stack, captures, s, k);
    SplitYields(m, ctx, false, q - (p + 5), p, x, stack, captures, s, left(x, captures, k), right(x, captures, k));
  }

  lemma {:induction false} AltApplied(m: Machine, ctx: Context, a: Asm, b: Asm, backward: bool,
                                      left: Spec.Matcher, right: Spec.Matcher, p: int, x: nat,
                                      stack: seq<int>, captures: seq<int>, s: seq<SavedState>, k: Spec.Cont)
    requires Implements(m, a, backward, left) && Implements(m, b, backward, right) && Net(a) == 0
    requires Applies(m, ctx, AltAsm(a, b), backward, p, x, stack, captures, s, k)
    ensures Yields(m, ctx, Run(p, Offset(m.subject, x), stack, captures, s), Spec.AltMatcher(left, right)(x, captures, k), s)
  {
    hide At, Assemble, Placed, Reaches, Yields;
    var end, q := p + Length(AltAsm(a, b)), p + 10 + Length(a);
    AltPlaced(m, a, b, p, |stack|);
    assert FollowsAll(m, ctx, backward, x, end, stack, k);
    FollowsViaGoto(m, ctx, backward, a, x, p + 5 + Length(a), Length(b), end, stack, k);
    FollowsOfAll(m, ctx, backward, b, x, end, stack, k);
    AltYields(m, ctx, a, b, backward, left, right, p, q, x, stack, captures, s, k);
  }

  lemma {:induction false} AltImplements(m: Machine, a: Asm, b: Asm, backward: bool, left: Spec.Matcher, right: Spec.Matcher)
    requires Block(m, a, backward, left) && Block(m, b, backward, right)
    ensures Block(m, AltAsm(a, b), backward, Spec.AltMatcher(left, right))
  {
    AltNet(a, b);
    forall ctx: Context, p: int, x: nat, stack: seq<int>, captures: seq<int>, s: seq<SavedState>, k: Spec.Cont |
      Applies(m, ctx, AltAsm(a, b), backward, p, x, stack, captures, s, k)
      ensures Yields(m, ctx, Run(p, Offset(m.subject, x), stack, captures, s), Spec.AltMatcher(left, right)(x, captures, k), s)
    {
      AltApplied(m, ctx, a, b, backward, left, right, p, x, stack, captures, s, k);
    }
  }

  // ---------------------------------------------------------------------------
  // Capture groups

  // The instruction sets the capture to the position.
  lemma {:induction false} SaveImplements(m: Machine, i: Instr, backward: bool)
    requires (i.SaveStart? || i.SaveEnd?) && 0 <= i.group < m.captureCount
    ensures Block(m, [i], backward, Spec.PutMatcher(EnvOf(m), Slot(i)))
  {
    hide At, Assemble, Yields, Placed, Follows, Reaches, Spec.Put, Slot;
    assert [i][1..] == [] && Net([i]) == Delta(i) + Net([]) == 0;
    forall ctx: Context, p: int, x: nat, stack: seq<int>, captures: seq<int>, s: seq<SavedState>, k: Spec.Cont |
      Applies(m, ctx, [i], backward, p, x, stack, captures, s, k)
      ensures Yields(m, ctx, Run(p, Offset(m.subject, x), stack, captures, s), Spec.PutMatcher(EnvOf(m), Slot(i))(x, captures, k), s)
    {
      SaveYields(m, ctx, i, backward, p, x, stack, captures, s, k);
    }
  }

  lemma {:induction false} SaveYields(m: Machine, ctx: Context, i: Instr, backward: bool, p: int, x: nat,
                                      stack: seq<int>, captures: seq<int>, s: seq<SavedState>, k: Spec.Cont)
    requires (i.SaveStart? || i.SaveEnd?) && 0 <= i.group < m.captureCount
    requires Applies(m, ctx, [i], backward, p, x, stack, captures, s, k)
    ensures Yields(m, ctx, Run(p, Offset(m.subject, x), stack, captures, s), k(x, Spec.Put(captures, Slot(i), EnvOf(m).mark(x))), s)
  {
    hide At, Assemble, Yields, Reaches;
    assert [i][1..] == [] && ValidInstr([i][0]) && Length([i]) == Size(i) + Length([]) == 2;
    var captures' := Spec.Put(captures, Slot(i), EnvOf(m).mark(x));
    SaveReaches(m, i, p, x, stack, captures, s);
    assert Lands(m, backward, Linear([i]), CharCount([i]), x, x);
    YieldsAfter(m, ctx, Run(p, Offset(m.subject, x), stack, captures, s), Run(p + 2, Offset(m.subject, x), stack, captures', s),
                k(x, captures'), s);
  }

  lemma {:induction false} CaptureImplements(m: Machine, a: Asm, backward: bool, g: nat, matcher: Spec.Matcher)
    requires g < m.captureCount && Block(m, a, backward, matcher)
    ensures Block(m, CaptureAsm(a, backward, g), backward, Spec.CaptureMatcher(EnvOf(m), matcher, backward, g, Spec.Emitted))
  {
    hide Block, Spec.SeqMatcher, Spec.PutMatcher;
    var (i, j) := if backward then (SaveEnd(g), SaveStart(g)) else (SaveStart(g), SaveEnd(g));
    SaveImplements(m, i, backward);
    SaveImplements(m, j, backward);
    var first := Spec.PutMatcher(EnvOf(m), Slot(i));
    SeqImplements(m, [i], a, backward, first, matcher);
    SeqImplements(m, [i] + a, [j], backward, Spec.SeqMatcher(first, matcher), Spec.PutMatcher(EnvOf(m), Slot(j)));
  }

  // ---------------------------------------------------------------------------
  // Lookarounds

  // The body runs in a context of its own, above the saved state, and ends at a match opcode.
  lemma {:induction false} LookBody(m: Machine, ctx: Context, a: Asm, behind: bool, matcher: Spec.Matcher, p: int, x: nat,
                                    stack: seq<int>, captures: seq<int>, s: seq<SavedState>, top: SavedState)
    requires Implements(m, a, behind, matcher) && Placed(m, a, p, |stack|)
    requires At(m.code, p + Length(a), Assemble([Match]))
    requires x <= Len(m) && CapturesOk(m, captures)
    ensures Yields(m, s + [top], Run(p, Offset(m.subject, x), stack, captures, s + [top]),
                   matcher(x, captures, Spec.Accept), s + [top])
  {
    var inner := s + [top];
    var q := p + Length(a);
    forall y: nat, captures': seq<int>, s': seq<SavedState> |
      Lands(m, behind, Linear(a), CharCount(a), x, y) && CapturesOk(m, captures') && Above(inner, s')
      ensures Yields(m, inner, Run(q, Offset(m.subject, y), stack, captures', s'), Spec.Accept(y, captures'), s')
    {
      MatchReaches(m, q, Offset(m.subject, y), stack, captures', s');
      assert Ends(m, inner, s', Spec.State(y, captures'));
    }
    assert Above(inner, s + [top]);
    UseBlock(m, inner, a, behind, matcher, p, x, stack, captures, s + [top], Spec.Accept);
  }

  lemma {:induction false} LookYields(m: Machine, ctx: Context, negative: bool, off: int, p: int, x: nat,
                                      stack: seq<int>, captures: seq<int>, s: seq<SavedState>, top: SavedState,
                                      o: Spec.Result, k: Spec.Cont)
    requires ValidOffset(off) && At(m.code, p, Assemble([Look(negative, off)])) && x <= Len(m)
    requires CapturesOk(m, captures) && Above(ctx, s)
    requires top == SavedState(if negative then NegativeLookaheadState else LookaheadState, 0, Offset(m.subject, x),
                               p + 5 + off, captures, stack)
    requires Yields(m, s + [top], Run(p + 5, Offset(m.subject, x), stack, captures, s + [top]),
                    o, s + [top])
    requires forall captures': seq<int> {:trigger Run(p + 5 + off, Offset(m.subject, x), stack, captures', s)} ::
               CapturesOk(m, captures') ==>
                 Yields(m, ctx, Run(p + 5 + off, Offset(m.subject, x), stack, captures', s), k(x, captures'), s)
    ensures Yields(m, ctx, Run(p, Offset(m.subject, x), stack, captures, s), Spec.AfterLook(o, negative, x, captures, k), s)
  {
    var pos := Offset(m.subject, x);
    var inner := s + [top];
    var c, c1 := Run(p, pos, stack, captures, s), Run(p + 5, pos, stack, captures, s + [top]);
    var result := Spec.AfterLook(o, negative, x, captures, k);
    LookReaches(m, negative, off, p, pos, stack, captures, s, top);
    if o.None? {
      ReachesTrans(m, c, c1, Fail(s + [top]));
      var d := if negative then Run(p + 5 + off, pos, stack, captures, s) else Fail(s);
      ReachesTrans(m, c, Fail(s + [top]), d);
      ReachesSelf(m, Fail(s));
      YieldsAfter(m, ctx, c, d, result, s);
    } else {
      var captures' := o.value.captures;
      var s' :| Ends(m, inner, s', o.value) && Reaches(m, c1, Succeed(captures', s'));
      assert Above(inner, s');
      SucceedUnwinds(m, inner, captures', s');
      var d := if negative then Fail(s) else Run(p + 5 + off, pos, stack, captures', s);
      ReachesTrans(m, c, c1, Succeed(captures', s'));
      ReachesTrans3(m, c, Succeed(captures', s'), Succeed(captures', s + [top]), d);
      ReachesSelf(m, Fail(s));
      YieldsAfter(m, ctx, c, d, result, s);
    }
  }

  lemma {:induction false} LookApplied(m: Machine, ctx: Context, a: Asm, backward: bool, behind: bool, negative: bool,
                                       matcher: Spec.Matcher, p: int, x: nat,
                                       stack: seq<int>, captures: seq<int>, s: seq<SavedState>, k: Spec.Cont)
    requires Implements(m, a, behind, matcher)
    requires Applies(m, ctx, LookAsm(a, negative), backward, p, x, stack, captures, s, k)
    ensures Yields(m, ctx, Run(p, Offset(m.subject, x), stack, captures, s), Spec.LookMatcher(matcher, negative)(x, captures, k), s)
  {
    hide At, Assemble, Placed, Reaches, Yields, Length, CharCount, Offset, Linear;
    var i := Look(negative, Length(a) + 1);
    var w := LookAsm(a, negative);
    WrapScan(i, a, Match);
    WrapPlaced(m, i, a, Match, p, |stack|);
    var end := p + 6 + Length(a);
    var kind := if negative then NegativeLookaheadState else LookaheadState;
    var top := SavedState(kind, 0, Offset(m.subject, x), end, captures, stack);
    LookBody(m, ctx, a, behind, matcher, p + 5, x, stack, captures, s, top);
    assert Lands(m, backward, Linear(w), CharCount(w), x, x);
    LookYields(m, ctx, negative, Length(a) + 1, p, x, stack, captures, s, top, matcher(x, captures, Spec.Accept), k);
  }

  lemma {:induction false} LookImplements(m: Machine, a: Asm, backward: bool, behind: bool, negative: bool, matcher: Spec.Matcher)
    requires Block(m, a, behind, matcher)
    ensures Block(m, LookAsm(a, negative), backward, Spec.LookMatcher(matcher, negative))
  {
    WrapNet(Look(negative, Length(a) + 1), a, Match);
    forall ctx: Context, p: int, x: nat, stack: seq<int>, captures: seq<int>, s: seq<SavedState>, k: Spec.Cont |
      Applies(m, ctx, LookAsm(a, negative), backward, p, x, stack, captures, s, k)
      ensures Yields(m, ctx, Run(p, Offset(m.subject, x), stack, captures, s), Spec.LookMatcher(matcher, negative)(x, captures, k), s)
    {
      LookApplied(m, ctx, a, backward, behind, negative, matcher, p, x, stack, captures, s, k);
    }
  }
}
