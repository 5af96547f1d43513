// Correctness of the code emitted for quantifiers.
module RegexQuant {
  import opened Wrappers
  import opened Bytes
  import opened RegexOpcode
  import opened RegexInput
  import opened RegexAsm
  import opened RegexMachine
  import opened RegexSteps
  import opened RegexCorrect
  import Spec = RegexSpec

  // At q with position x, the machine yields o, whatever the states.
  ghost predicate YieldsAt(m: Machine, ctx: Context, q: int, x: nat, stack: seq<int>, captures: seq<int>, o: Spec.Result)
    requires x <= Len(m)
  {
    forall s: seq<SavedState>
      {:trigger Run(q, Offset(m.subject, x), stack, captures, s)} ::
      Above(ctx, s) ==> Yields(m, ctx, Run(q, Offset(m.subject, x), stack, captures, s), o, s)
  }

  // The continuation fails at position x.
  ghost predicate Refuses(d: Spec.Cont, x: nat) {
    forall captures: seq<int> {:trigger d(x, captures)} :: d(x, captures) == None
  }

  // The code at q implements d at every position strictly ahead of x.
  ghost predicate Advances(m: Machine, ctx: Context, backward: bool, x: nat, q: int, stack: seq<int>, d: Spec.Cont) {
    forall y: nat, captures: seq<int>, s: seq<SavedState>
      {:trigger Run(q, Offset(m.subject, y), stack, captures, s)} ::
      Spec.Ahead(EnvOf(m), backward, x, y) && y != x && CapturesOk(m, captures) && Above(ctx, s) ==>
        Yields(m, ctx, Run(q, Offset(m.subject, y), stack, captures, s), d(y, captures), s)
  }

  // ---------------------------------------------------------------------------
  // One guarded iteration

  lemma {:induction false} GuardedNet(a: Asm, check: bool)
    requires Net(a) == 0
    ensures Net(Guarded(a, check)) == 0 && Length(Guarded(a, check)) == Length(a) + (if check then 2 else 0)
  {
    WrapNet(PushCharPos, a, CheckAdvance);
    LengthConcat([PushCharPos] + a, [CheckAdvance]);
    LengthConcat([PushCharPos], a);
    assert [PushCharPos][1..] == [] && [CheckAdvance][1..] == [];
  }

  // With the test: an iteration that did not move fails.
  lemma {:induction false} CheckedYields(m: Machine, ctx: Context, a: Asm, backward: bool, matcher: Spec.Matcher,
                                         p: int, x: nat, stack: seq<int>, captures: seq<int>, s: seq<SavedState>, d: Spec.Cont)
    requires Implements(m, a, backward, matcher)
    requires Ready(m, ctx, Guarded(a, true), p, x, stack, captures, s)
    requires Refuses(d, x) && Advances(m, ctx, backward, x, p + 2 + Length(a), stack, d)
    ensures Yields(m, ctx, Run(p, Offset(m.subject, x), stack, captures, s), matcher(x, captures, d), s)
  {
    hide At, Assemble, Reaches, Yields, Length, CharCount, Linear, Net, Peak, Offset, Implements, AllValid;
    var pos, q := Offset(m.subject, x), p + 1 + Length(a);
    WrapPlaced(m, PushCharPos, a, CheckAdvance, p, |stack|);
    var stack' := stack + [pos];
    forall y: nat, captures': seq<int>, s': seq<SavedState> |
      Lands(m, backward, Linear(a), CharCount(a), x, y) && CapturesOk(m, captures') && Above(ctx, s')
      ensures Yields(m, ctx, Run(q, Offset(m.subject, y), stack', captures', s'), d(y, captures'), s')
    {
      CheckYields(m, ctx, backward, q, x, y, stack, captures', s', d);
    }
    PushReaches(m, PushCharPos, p, pos, stack, captures, s);
    UseBlock(m, ctx, a, backward, matcher, p + 1, x, stack', captures, s, d);
    YieldsAfter(m, ctx, Run(p, pos, stack, captures, s), Run(p + 1, pos, stack', captures, s), matcher(x, captures, d), s);
  }

  // The test behind the atom: fail where it has not moved, go on where it has.
  lemma {:induction false} CheckYields(m: Machine, ctx: Context, backward: bool, q: int, x: nat, y: nat,
                                       stack: seq<int>, captures: seq<int>, s: seq<SavedState>, d: Spec.Cont)
    requires x <= Len(m) && Spec.Ahead(EnvOf(m), backward, x, y) && CapturesOk(m, captures) && Above(ctx, s)
    requires At(m.code, q, Assemble([CheckAdvance])) && Refuses(d, x) && Advances(m, ctx, backward, x, q + 1, stack, d)
    ensures Yields(m, ctx, Run(q, Offset(m.subject, y), stack + [Offset(m.subject, x)], captures, s), d(y, captures), s)
  {
    hide At, Assemble, Reaches, Offset;
    var pos := Offset(m.subject, x);
    var c := Run(q, Offset(m.subject, y), stack + [pos], captures, s);
    CheckReaches(m, q, Offset(m.subject, y), stack, pos, captures, s);
    OffsetInjective(m.subject, x, y);
    if y != x {
      hide Yields;
      YieldsAfter(m, ctx, c, Run(q + 1, Offset(m.subject, y), stack, captures, s), d(y, captures), s);
    }
  }

  // Without it: linear code with a character always moves.
  lemma {:induction false} UncheckedYields(m: Machine, ctx: Context, a: Asm, backward: bool, matcher: Spec.Matcher,
                                           p: int, x: nat, stack: seq<int>, captures: seq<int>, s: seq<SavedState>, d: Spec.Cont)
    requires Implements(m, a, backward, matcher) && !NeedCheckAdvance(a)
    requires Ready(m, ctx, a, p, x, stack, captures, s)
    requires Advances(m, ctx, backward, x, p + Length(a), stack, d)
    ensures Yields(m, ctx, Run(p, Offset(m.subject, x), stack, captures, s), matcher(x, captures, d), s)
  {
    hide At, Assemble, Reaches, Placed;
    assert Follows(m, ctx, backward, a, x, p + Length(a), stack, d);
    UseBlock(m, ctx, a, backward, matcher, p, x, stack, captures, s, d);
  }

  lemma {:induction false} GuardedYields(m: Machine, ctx: Context, a: Asm, check: bool, backward: bool, matcher: Spec.Matcher,
                                         p: int, x: nat, stack: seq<int>, captures: seq<int>, s: seq<SavedState>, d: Spec.Cont)
    requires Implements(m, a, backward, matcher) && Net(a) == 0 && (check || !NeedCheckAdvance(a))
    requires Ready(m, ctx, Guarded(a, check), p, x, stack, captures, s)
    requires Refuses(d, x) && Advances(m, ctx, backward, x, p + Length(Guarded(a, check)), stack, d)
    ensures Yields(m, ctx, Run(p, Offset(m.subject, x), stack, captures, s), matcher(x, captures, d), s)
  {
    hide At, Assemble, Reaches, Placed, Yields;
    GuardedNet(a, check);
    if check {
      CheckedYields(m, ctx, a, backward, matcher, p, x, stack, captures, s, d);
    } else {
      UncheckedYields(m, ctx, a, backward, matcher, p, x, stack, captures, s, d);
    }
  }

  // The choice between one more iteration and leaving.
  function Choose(greedy: bool, again: Spec.Result, leave: Spec.Result): (z: Spec.Result) {
    if greedy then Spec.OrElse(again, leave) else Spec.OrElse(leave, again)
  }

  lemma {:induction false} IterationPlaced(m: Machine, a: Asm, check: bool, greedy: bool, extra: int, p: int, depth: int)
    requires Placed(m, Iteration(a, check, greedy, extra), p, depth) && Net(a) == 0
    ensures var off := Length(a) + (if check then 2 else 0) + extra;
            ValidOffset(off) && At(m.code, p, Assemble([Split(!greedy, off)]))
    ensures Placed(m, Guarded(a, check), p + 5, depth)
    ensures Length(Iteration(a, check, greedy, extra)) == 5 + Length(Guarded(a, check))
    ensures Net(Iteration(a, check, greedy, extra)) == 0
  {
    hide At, Assemble;
    var i := Split(!greedy, Length(a) + (if check then 2 else 0) + extra);
    PlacedSplit(m, [i], Guarded(a, check), p, depth);
    AssembleOne(i);
    GuardedNet(a, check);
    NetConcat([i], Guarded(a, check));
    assert [i][1..] == [];
    assert ValidInstr([i][0]);
  }

  lemma {:induction false} IterationYields(m: Machine, ctx: Context, a: Asm, check: bool, greedy: bool, extra: int, backward: bool,
                                           matcher: Spec.Matcher, p: int, x: nat,
                                           stack: seq<int>, captures: seq<int>, s: seq<SavedState>, d: Spec.Cont, o: Spec.Result)
    requires Implements(m, a, backward, matcher) && Net(a) == 0 && (check || !NeedCheckAdvance(a))
    requires Ready(m, ctx, Iteration(a, check, greedy, extra), p, x, stack, captures, s)
    requires Refuses(d, x) && Advances(m, ctx, backward, x, p + 5 + Length(Guarded(a, check)), stack, d)
    requires YieldsAt(m, ctx, p + 5 + Length(Guarded(a, check)) + extra, x, stack, captures, o)
    ensures Yields(m, ctx, Run(p, Offset(m.subject, x), stack, captures, s), Choose(greedy, matcher(x, captures, d), o), s)
  {
    hide At, Assemble, Reaches, Yields, Placed;
    IterationPlaced(m, a, check, greedy, extra, p, |stack|);
    GuardedNet(a, check);
    var exit := p + 5 + Length(Guarded(a, check)) + extra;
    var off := exit - (p + 5);
    forall s': seq<SavedState> | Above(ctx, s')
      ensures Yields(m, ctx, Run(p + 5, Offset(m.subject, x), stack, captures, s'), matcher(x, captures, d), s')
      ensures Yields(m, ctx, Run(exit, Offset(m.subject, x), stack, captures, s'), o, s')
    {
      GuardedYields(m, ctx, a, check, backward, matcher, p + 5, x, stack, captures, s', d);
    }
    if greedy {
      SplitYields(m, ctx, false, off, p, x, stack, captures, s, matcher(x, captures, d), o);
    } else {
      SplitYields(m, ctx, true, off, p, x, stack, captures, s, o, matcher(x, captures, d));
    }
  }

  // ---------------------------------------------------------------------------
  // Unbounded repetition

  lemma {:induction false} StarPlaced(m: Machine, a: Asm, check: bool, greedy: bool, p: int, depth: int)
    requires Placed(m, Star(a, check, greedy), p, depth) && Net(a) == 0
    ensures Placed(m, Iteration(a, check, greedy, 5), p, depth)
    ensures var q := p + 5 + Length(Guarded(a, check));
            ValidOffset(p - (q + 5)) && At(m.code, q, Assemble([Goto(p - (q + 5))]))
            && p + Length(Star(a, check, greedy)) == q + 5
    ensures Net(Star(a, check, greedy)) == 0 && !Linear(Star(a, check, greedy))
  {
    hide At, Assemble, Length, Linear, Peak, Encode;
    var it := Iteration(a, check, greedy, 5);
    var i := Goto(-(Length(a) + (if check then 2 else 0) + 10));
    PlacedSplit(m, it, [i], p, depth);
    IterationPlaced(m, a, check, greedy, 5, p, depth);
    GuardedNet(a, check);
    AssembleOne(i);
    NetConcat(it, [i]);
    assert [i][1..] == [];
    assert ValidInstr([i][0]);
    NotLinear(Star(a, check, greedy), 0);
  }

  lemma {:induction false} StarYields(m: Machine, ctx: Context, a: Asm, check: bool, greedy: bool, backward: bool,
                                      matcher: Spec.Matcher, p: int, x: nat,
                                      stack: seq<int>, captures: seq<int>, s: seq<SavedState>, k: Spec.Cont)
    requires Implements(m, a, backward, matcher) && Net(a) == 0 && (check || !NeedCheckAdvance(a))
    requires Ready(m, ctx, Star(a, check, greedy), p, x, stack, captures, s)
    requires FollowsAll(m, ctx, backward, x, p + Length(Star(a, check, greedy)), stack, k)
    ensures Yields(m, ctx, Run(p, Offset(m.subject, x), stack, captures, s),
                   Spec.Repeat(EnvOf(m), matcher, backward, 0, Spec.INFINITE, greedy, x, captures, k), s)
    decreases Spec.Room(EnvOf(m), backward, x)
  {
    hide At, Assemble, Reaches, Yields, Length, Placed, Step;
    StarPlaced(m, a, check, greedy, p, |stack|);
    var q := p + 5 + Length(Guarded(a, check));
    var d := Spec.RepeatCont(EnvOf(m), matcher, backward, 0, Spec.INFINITE, greedy, x, k);
    forall y: nat, captures': seq<int>, s': seq<SavedState> |
      Spec.Ahead(EnvOf(m), backward, x, y) && y != x && CapturesOk(m, captures') && Above(ctx, s')
      ensures Yields(m, ctx, Run(q, Offset(m.subject, y), stack, captures', s'), d(y, captures'), s')
    {
      var pos := Offset(m.subject, y);
      FollowsAllFrom(m, ctx, backward, x, y, q + 5, stack, k);
      StarYields(m, ctx, a, check, greedy, backward, matcher, p, y, stack, captures', s', k);
      GotoReaches(m, p - (q + 5), q, pos, stack, captures', s');
      YieldsAfter(m, ctx, Run(q, pos, stack, captures', s'), Run(p, pos, stack, captures', s'), d(y, captures'), s');
    }
    assert Lands(m, backward, false, 0, x, x);
    assert YieldsAt(m, ctx, q + 5, x, stack, captures, k(x, captures));
    IterationYields(m, ctx, a, check, greedy, 5, backward, matcher, p, x, stack, captures, s, d, k(x, captures));
  }

  lemma {:induction false} StarImplements(m: Machine, a: Asm, check: bool, greedy: bool, backward: bool, matcher: Spec.Matcher)
    requires Block(m, a, backward, matcher) && (check || !NeedCheckAdvance(a))
    ensures Block(m, Star(a, check, greedy), backward,
                  Spec.RepeatMatcher(EnvOf(m), matcher, backward, 0, Spec.INFINITE, greedy))
  {
    StarNet(a, check, greedy);
    hide At, Assemble, Reaches, Yields, Applies, Net, Star, Length, Spec.Repeat, NeedCheckAdvance;
    forall ctx: Context, p: int, x: nat, stack: seq<int>, captures: seq<int>, s: seq<SavedState>, k: Spec.Cont |
      Applies(m, ctx, Star(a, check, greedy), backward, p, x, stack, captures, s, k)
      ensures Yields(m, ctx, Run(p, Offset(m.subject, x), stack, captures, s),
                     Spec.RepeatMatcher(EnvOf(m), matcher, backward, 0, Spec.INFINITE, greedy)(x, captures, k), s)
    {
      StarApplied(m, ctx, a, check, greedy, backward, matcher, p, x, stack, captures, s, k);
    }
  }

  lemma {:induction false} StarApplied(m: Machine, ctx: Context, a: Asm, check: bool, greedy: bool, backward: bool, matcher: Spec.Matcher,
                                       p: int, x: nat, stack: seq<int>, captures: seq<int>, s: seq<SavedState>, k: Spec.Cont)
    requires Block(m, a, backward, matcher) && (check || !NeedCheckAdvance(a))
    requires Applies(m, ctx, Star(a, check, greedy), backward, p, x, stack, captures, s, k)
    ensures Yields(m, ctx, Run(p, Offset(m.subject, x), stack, captures, s),
                   Spec.Repeat(EnvOf(m), matcher, backward, 0, Spec.INFINITE, greedy, x, captures, k), s)
  {
    hide At, Assemble, Reaches, Yields, Net, Length, Implements, Spec.Repeat, NeedCheckAdvance, Linear, CharCount, Offset, Placed;
    NotLinear(Star(a, check, greedy), 0);
    StarYields(m, ctx, a, check, greedy, backward, matcher, p, x, stack, captures, s, k);
  }

  lemma {:induction false} StarNet(a: Asm, check: bool, greedy: bool)
    requires Net(a) == 0
    ensures Net(Star(a, check, greedy)) == 0
  {
    var off := Length(a) + (if check then 2 else 0);
    GuardedNet(a, check);
    WrapNet(Split(!greedy, off + 5), Guarded(a, check), Goto(-(off + 10)));
  }

  // ---------------------------------------------------------------------------
  // At most one iteration

  lemma {:induction false} OnceYields(m: Machine, ctx: Context, a: Asm, check: bool, greedy: bool, backward: bool,
                                      matcher: Spec.Matcher, p: int, x: nat,
                                      stack: seq<int>, captures: seq<int>, s: seq<SavedState>, k: Spec.Cont)
    requires Implements(m, a, backward, matcher) && Net(a) == 0 && (check || !NeedCheckAdvance(a))
    requires Ready(m, ctx, Iteration(a, check, greedy, 0), p, x, stack, captures, s)
    requires FollowsAll(m, ctx, backward, x, p + 5 + Length(Guarded(a, check)), stack, k)
    ensures Yields(m, ctx, Run(p, Offset(m.subject, x), stack, captures, s),
                   Spec.Repeat(EnvOf(m), matcher, backward, 0, 1, greedy, x, captures, k), s)
  {
    hide At, Assemble, Reaches, Yields, Placed;
    var q := p + 5 + Length(Guarded(a, check));
    var d := Spec.RepeatCont(EnvOf(m), matcher, backward, 0, 1, greedy, x, k);
    forall y: nat, captures': seq<int>, s': seq<SavedState> |
      Spec.Ahead(EnvOf(m), backward, x, y) && y != x && CapturesOk(m, captures') && Above(ctx, s')
      ensures Yields(m, ctx, Run(q, Offset(m.subject, y), stack, captures', s'), d(y, captures'), s')
    {
      assert Lands(m, backward, false, 0, x, y);
      assert d(y, captures') == Spec.Repeat(EnvOf(m), matcher, backward, 0, 0, greedy, y, captures', k) == k(y, captures');
    }
    assert Lands(m, backward, false, 0, x, x);
    assert YieldsAt(m, ctx, q, x, stack, captures, k(x, captures));
    IterationYields(m, ctx, a, check, greedy, 0, backward, matcher, p, x, stack, captures, s, d, k(x, captures));
  }

  lemma {:induction false} OnceImplements(m: Machine, a: Asm, check: bool, greedy: bool, backward: bool, matcher: Spec.Matcher)
    requires Block(m, a, backward, matcher) && (check || !NeedCheckAdvance(a))
    ensures Block(m, Iteration(a, check, greedy, 0), backward,
                  Spec.RepeatMatcher(EnvOf(m), matcher, backward, 0, 1, greedy))
  {
    OnceNet(a, check, greedy);
    hide At, Assemble, Reaches, Yields, Applies, Net, Iteration, Length, Spec.Repeat, NeedCheckAdvance;
    forall ctx: Context, p: int, x: nat, stack: seq<int>, captures: seq<int>, s: seq<SavedState>, k: Spec.Cont |
      Applies(m, ctx, Iteration(a, check, greedy, 0), backward, p, x, stack, captures, s, k)
      ensures Yields(m, ctx, Run(p, Offset(m.subject, x), stack, captures, s),
                     Spec.RepeatMatcher(EnvOf(m), matcher, backward, 0, 1, greedy)(x, captures, k), s)
    {
      OnceApplied(m, ctx, a, check, greedy, backward, matcher, p, x, stack, captures, s, k);
    }
  }

  lemma {:induction false} OnceNet(a: Asm, check: bool, greedy: bool)
    requires Net(a) == 0
    ensures Net(Iteration(a, check, greedy, 0)) == 0
  {
    var i := Split(!greedy, Length(a) + (if check then 2 else 0) + 0);
    GuardedNet(a, check);
    NetConcat([i], Guarded(a, check));
    assert [i][1..] == [];
  }

  lemma {:induction false} OnceApplied(m: Machine, ctx: Context, a: Asm, check: bool, greedy: bool, backward: bool, matcher: Spec.Matcher,
                                       p: int, x: nat, stack: seq<int>, captures: seq<int>, s: seq<SavedState>, k: Spec.Cont)
    requires Block(m, a, backward, matcher) && (check || !NeedCheckAdvance(a))
    requires Applies(m, ctx, Iteration(a, check, greedy, 0), backward, p, x, stack, captures, s, k)
    ensures Yields(m, ctx, Run(p, Offset(m.subject, x), stack, captures, s),
                   Spec.Repeat(EnvOf(m), matcher, backward, 0, 1, greedy, x, captures, k), s)
  {
    hide At, Assemble, Reaches, Yields, Implements, Spec.Repeat, NeedCheckAdvance, Linear, CharCount, Offset, Placed;
    IterationPlaced(m, a, check, greedy, 0, p, |stack|);
    NotLinear(Iteration(a, check, greedy, 0), 0);
    OnceYields(m, ctx, a, check, greedy, backward, matcher, p, x, stack, captures, s, k);
  }

  // ---------------------------------------------------------------------------
  // At most n iterations, counted on the stack

  lemma {:induction false} LoopTail(m: Machine, b: Asm, off: int, p: int, depth: int)
    requires Placed(m, b + [Loop(off), Drop], p, depth)
    ensures Placed(m, b, p, depth)
    ensures ValidOffset(off) && At(m.code, p + Length(b), Assemble([Loop(off)]))
    ensures At(m.code, p + Length(b) + 5, Assemble([Drop]))
    ensures Length(b + [Loop(off), Drop]) == Length(b) + 6
    ensures Net(b + [Loop(off), Drop]) == Net(b) - 1
  {
    hide At, Assemble, Peak, Encode, Placed, Length, Net;
    assert [Loop(off), Drop] == [Loop(off)] + [Drop];
    PlacedSplit(m, b, [Loop(off)] + [Drop], p, depth);
    PlacedSplit(m, [Loop(off)], [Drop], p + Length(b), depth + Net(b));
    PlacedOne(m, Loop(off), p + Length(b), depth + Net(b));
    NetConcat(b, [Loop(off)] + [Drop]);
    NetConcat([Loop(off)], [Drop]);
    OneOf(Loop(off));
    OneOf(Drop);
    LengthConcat(b, [Loop(off)] + [Drop]);
    LengthConcat([Loop(off)], [Drop]);
    PlacedOne(m, Drop, p + Length(b) + 5, depth + Net(b));
  }

  lemma {:induction false} PlacedOne(m: Machine, i: Instr, p: int, depth: int)
    requires Placed(m, [i], p, depth)
    ensures ValidInstr(i) && At(m.code, p, Assemble([i]))
  {
    hide At, Assemble, Peak;
    assert ValidInstr([i][0]);
  }

  lemma {:induction false} OneOf(i: Instr)
    ensures Length([i]) == Size(i) && Net([i]) == Delta(i)
  {
    assert [i][1..] == [];
  }

  // A counted loop: the counter n and what it counts end in a loop opcode and a drop.
  lemma {:induction false} LoopYields(m: Machine, ctx: Context, off: int, q: int, x: nat,
                                      stack: seq<int>, n: int, captures: seq<int>, s: seq<SavedState>, o: Spec.Result)
    requires x <= Len(m) && n > 0 && ValidOffset(off)
    requires At(m.code, q, Assemble([Loop(off)])) && At(m.code, q + 5, Assemble([Drop]))
    requires if n > 1 then Yields(m, ctx, Run(q + 5 + off, Offset(m.subject, x), stack + [n - 1], captures, s), o, s)
             else Yields(m, ctx, Run(q + 6, Offset(m.subject, x), stack, captures, s), o, s)
    ensures Yields(m, ctx, Run(q, Offset(m.subject, x), stack + [n], captures, s), o, s)
  {
    hide At, Assemble, Reaches;
    var pos := Offset(m.subject, x);
    var c := Run(q, pos, stack + [n], captures, s);
    LoopReaches(m, off, q, pos, stack, n, captures, s);
    if n > 1 {
      YieldsAfter(m, ctx, c, Run(q + 5 + off, pos, stack + [n - 1], captures, s), o, s);
    } else {
      var c1 := Run(q + 5, pos, stack + [0], captures, s);
      DropReaches(m, q + 5, pos, stack, 0, captures, s);
      YieldsAfter(m, ctx, c1, Run(q + 6, pos, stack, captures, s), o, s);
      YieldsAfter(m, ctx, c, c1, o, s);
    }
  }

  lemma {:induction false} UpToLoopYields(m: Machine, ctx: Context, a: Asm, check: bool, greedy: bool, n: int, backward: bool,
                                          matcher: Spec.Matcher, p: int, q: int, x: nat,
                                          stack: seq<int>, captures: seq<int>, s: seq<SavedState>, k: Spec.Cont)
    requires Implements(m, a, backward, matcher) && Net(a) == 0 && (check || !NeedCheckAdvance(a))
    requires 0 < n < Spec.INFINITE && q == p + 5 + Length(Guarded(a, check))
    requires Ready(m, ctx, Iteration(a, check, greedy, 5), p, x, stack + [n], captures, s)
    requires ValidOffset(p - (q + 5)) && At(m.code, q, Assemble([Loop(p - (q + 5))])) && At(m.code, q + 5, Assemble([Drop]))
    requires FollowsAll(m, ctx, backward, x, q + 6, stack, k)
    ensures Yields(m, ctx, Run(p, Offset(m.subject, x), stack + [n], captures, s),
                   Spec.Repeat(EnvOf(m), matcher, backward, 0, n, greedy, x, captures, k), s)
    decreases Spec.Room(EnvOf(m), backward, x)
  {
    hide At, Assemble, Reaches, Yields, Length, Offset, Linear, Peak, AllValid;
    var d := Spec.RepeatCont(EnvOf(m), matcher, backward, 0, n, greedy, x, k);
    forall y: nat, captures': seq<int>, s': seq<SavedState> |
      Spec.Ahead(EnvOf(m), backward, x, y) && y != x && CapturesOk(m, captures') && Above(ctx, s')
      ensures Yields(m, ctx, Run(q, Offset(m.subject, y), stack + [n], captures', s'), d(y, captures'), s')
    {
      FollowsAllFrom(m, ctx, backward, x, y, q + 6, stack, k);
      if n > 1 {
        UpToLoopYields(m, ctx, a, check, greedy, n - 1, backward, matcher, p, q, y, stack, captures', s', k);
      } else {
        assert Lands(m, backward, false, 0, x, y);
        assert d(y, captures') == Spec.Repeat(EnvOf(m), matcher, backward, 0, 0, greedy, y, captures', k) == k(y, captures');
      }
      LoopYields(m, ctx, p - (q + 5), q, y, stack, n, captures', s', d(y, captures'));
    }
    forall s': seq<SavedState> | Above(ctx, s')
      ensures Yields(m, ctx, Run(q + 5, Offset(m.subject, x), stack + [n], captures, s'), k(x, captures), s')
    {
      assert Lands(m, backward, false, 0, x, x);
      DropYields(m, ctx, q + 5, x, stack, n, captures, s', k(x, captures));
    }
    assert YieldsAt(m, ctx, q + 5, x, stack + [n], captures, k(x, captures));
    IterationYields(m, ctx, a, check, greedy, 5, backward, matcher, p, x, stack + [n], captures, s, d, k(x, captures));
  }

  lemma {:induction false} DropYields(m: Machine, ctx: Context, q: int, x: nat, stack: seq<int>, n: int,
                                      captures: seq<int>, s: seq<SavedState>, o: Spec.Result)
    requires x <= Len(m) && At(m.code, q, Assemble([Drop]))
    requires Yields(m, ctx, Run(q + 1, Offset(m.subject, x), stack, captures, s), o, s)
    ensures Yields(m, ctx, Run(q, Offset(m.subject, x), stack + [n], captures, s), o, s)
  {
    hide At, Assemble, Reaches;
    DropReaches(m, q, Offset(m.subject, x), stack, n, captures, s);
    YieldsAfter(m, ctx, Run(q, Offset(m.subject, x), stack + [n], captures, s),
                Run(q + 1, Offset(m.subject, x), stack, captures, s), o, s);
  }

  lemma {:induction false} CounterPlaced(m: Machine, n: int, b: Asm, off: int, p: int, depth: int)
    requires Placed(m, [PushI32(n)] + b + [Loop(off), Drop], p, depth)
    ensures ValidInstr(PushI32(n)) && At(m.code, p, Assemble([PushI32(n)])) && depth < m.stackSize
    ensures Placed(m, b, p + 5, depth + 1)
    ensures ValidOffset(off) && At(m.code, p + 5 + Length(b), Assemble([Loop(off)]))
    ensures At(m.code, p + 10 + Length(b), Assemble([Drop]))
    ensures Length([PushI32(n)] + b + [Loop(off), Drop]) == Length(b) + 11
  {
    hide At, Assemble;
    var w := b + [Loop(off), Drop];
    assert [PushI32(n)] + b + [Loop(off), Drop] == [PushI32(n)] + w;
    PlacedSplit(m, [PushI32(n)], w, p, depth);
    AssembleOne(PushI32(n));
    LoopTail(m, b, off, p + 5, depth + 1);
    assert [PushI32(n)][1..] == [];
    assert ValidInstr([PushI32(n)][0]);
    NetConcat([PushI32(n)], w);
  }

  lemma {:induction false} CounterNet(n: int, b: Asm, off: int)
    requires Net(b) == 0
    ensures Net([PushI32(n)] + b + [Loop(off), Drop]) == 0
    ensures !Linear([PushI32(n)] + b + [Loop(off), Drop])
  {
    var w := [PushI32(n)] + b + [Loop(off)];
    WrapNet(PushI32(n), b, Loop(off));
    NetConcat(w, [Drop]);
    assert [PushI32(n)] + b + [Loop(off), Drop] == w + [Drop];
    assert [Drop][1..] == [];
    NotLinear(w + [Drop], 1 + |b|);
  }

  lemma {:induction false} UpToApplied(m: Machine, ctx: Context, a: Asm, check: bool, greedy: bool, n: int, backward: bool,
                                       matcher: Spec.Matcher, p: int, x: nat,
                                       stack: seq<int>, captures: seq<int>, s: seq<SavedState>, k: Spec.Cont)
    requires Implements(m, a, backward, matcher) && Net(a) == 0 && (check || !NeedCheckAdvance(a)) && 0 < n < Spec.INFINITE
    requires Applies(m, ctx, UpTo(a, check, greedy, n), backward, p, x, stack, captures, s, k)
    ensures Yields(m, ctx, Run(p, Offset(m.subject, x), stack, captures, s),
                   Spec.Repeat(EnvOf(m), matcher, backward, 0, n, greedy, x, captures, k), s)
  {
    hide At, Assemble, Reaches, Yields, Offset, AllValid;
    var it := Iteration(a, check, greedy, 5);
    var off := -(Length(a) + (if check then 2 else 0) + 10);
    CounterPlaced(m, n, it, off, p, |stack|);
    IterationPlaced(m, a, check, greedy, 5, p + 5, |stack| + 1);
    GuardedNet(a, check);
    CounterNet(n, it, off);
    var pos := Offset(m.subject, x);
    PushReaches(m, PushI32(n), p, pos, stack, captures, s);
    UpToLoopYields(m, ctx, a, check, greedy, n, backward, matcher, p + 5, p + 5 + Length(it), x, stack, captures, s, k);
    YieldsAfter(m, ctx, Run(p, pos, stack, captures, s), Run(p + 5, pos, stack + [n], captures, s),
                Spec.Repeat(EnvOf(m), matcher, backward, 0, n, greedy, x, captures, k), s);
  }

  lemma {:induction false} UpToImplements(m: Machine, a: Asm, check: bool, greedy: bool, n: int, backward: bool, matcher: Spec.Matcher)
    requires Block(m, a, backward, matcher) && (check || !NeedCheckAdvance(a)) && 0 < n < Spec.INFINITE
    ensures Block(m, UpTo(a, check, greedy, n), backward,
                  Spec.RepeatMatcher(EnvOf(m), matcher, backward, 0, n, greedy))
  {
    hide At, Assemble, Reaches, Yields, Placed, Follows;
    var i := Split(!greedy, Length(a) + (if check then 2 else 0) + 5);
    GuardedNet(a, check);
    NetConcat([i], Guarded(a, check));
    assert [i][1..] == [];
    CounterNet(n, Iteration(a, check, greedy, 5), -(Length(a) + (if check then 2 else 0) + 10));
    forall ctx: Context, p: int, x: nat, stack: seq<int>, captures: seq<int>, s: seq<SavedState>, k: Spec.Cont |
      Applies(m, ctx, UpTo(a, check, greedy, n), backward, p, x, stack, captures, s, k)
      ensures Yields(m, ctx, Run(p, Offset(m.subject, x), stack, captures, s),
                     Spec.RepeatMatcher(EnvOf(m), matcher, backward, 0, n, greedy)(x, captures, k), s)
    {
      UpToApplied(m, ctx, a, check, greedy, n, backward, matcher, p, x, stack, captures, s, k);
    }
  }

  // ---------------------------------------------------------------------------
  // Exactly n iterations

  lemma {:induction false} ExactlyLoopYields(m: Machine, ctx: Context, a: Asm, n: nat, backward: bool,
                                             matcher: Spec.Matcher, p: int, q: int, x: nat,
                                             stack: seq<int>, captures: seq<int>, s: seq<SavedState>, k: Spec.Cont)
    requires Implements(m, a, backward, matcher) && n > 0 && q == p + Length(a)
    requires Ready(m, ctx, a, p, x, stack + [n], captures, s)
    requires ValidOffset(p - (q + 5)) && At(m.code, q, Assemble([Loop(p - (q + 5))])) && At(m.code, q + 5, Assemble([Drop]))
    requires FollowsAll(m, ctx, backward, x, q + 6, stack, k)
    ensures Yields(m, ctx, Run(p, Offset(m.subject, x), stack + [n], captures, s), Spec.Times(matcher, n, x, captures, k), s)
    decreases n
  {
    hide At, Assemble, Reaches, Yields;
    var d := Spec.TimesCont(matcher, n, k);
    forall y: nat, captures': seq<int>, s': seq<SavedState> |
      Lands(m, backward, Linear(a), CharCount(a), x, y) && CapturesOk(m, captures') && Above(ctx, s')
      ensures Yields(m, ctx, Run(q, Offset(m.subject, y), stack + [n], captures', s'), d(y, captures'), s')
    {
      FollowsAllFrom(m, ctx, backward, x, y, q + 6, stack, k);
      if n > 1 {
        ExactlyLoopYields(m, ctx, a, n - 1, backward, matcher, p, q, y, stack, captures', s', k);
      } else {
        assert Lands(m, backward, false, 0, x, y);
        assert d(y, captures') == Spec.Times(matcher, 0, y, captures', k) == k(y, captures');
      }
      LoopYields(m, ctx, p - (q + 5), q, y, stack, n, captures', s', d(y, captures'));
    }
    UseBlock(m, ctx, a, backward, matcher, p, x, stack + [n], captures, s, d);
  }

  lemma {:induction false} ExactlyApplied(m: Machine, ctx: Context, a: Asm, n: nat, backward: bool,
                                          matcher: Spec.Matcher, p: int, x: nat,
                                          stack: seq<int>, captures: seq<int>, s: seq<SavedState>, k: Spec.Cont)
    requires Implements(m, a, backward, matcher) && Net(a) == 0 && n > 0
    requires Applies(m, ctx, Exactly(a, n), backward, p, x, stack, captures, s, k)
    ensures Yields(m, ctx, Run(p, Offset(m.subject, x), stack, captures, s), Spec.Times(matcher, n, x, captures, k), s)
  {
    hide At, Assemble, Reaches, Yields, Length, Linear, Net, Peak, AllValid, Step;
    var off := -(Length(a) + 5);
    CounterPlaced(m, n, a, off, p, |stack|);
    CounterNet(n, a, off);
    var pos := Offset(m.subject, x);
    PushReaches(m, PushI32(n), p, pos, stack, captures, s);
    ExactlyLoopYields(m, ctx, a, n, backward, matcher, p + 5, p + 5 + Length(a), x, stack, captures, s, k);
    YieldsAfter(m, ctx, Run(p, pos, stack, captures, s), Run(p + 5, pos, stack + [n], captures, s),
                Spec.Times(matcher, n, x, captures, k), s);
  }

  lemma {:induction false} ExactlyImplements(m: Machine, a: Asm, n: nat, backward: bool, matcher: Spec.Matcher)
    requires Block(m, a, backward, matcher) && n > 0
    ensures Block(m, Exactly(a, n), backward, Spec.TimesMatcher(matcher, n))
  {
    hide At, Assemble, Reaches, Yields, Placed, Follows;
    CounterNet(n, a, -(Length(a) + 5));
    forall ctx: Context, p: int, x: nat, stack: seq<int>, captures: seq<int>, s: seq<SavedState>, k: Spec.Cont |
      Applies(m, ctx, Exactly(a, n), backward, p, x, stack, captures, s, k)
      ensures Yields(m, ctx, Run(p, Offset(m.subject, x), stack, captures, s), Spec.TimesMatcher(matcher, n)(x, captures, k), s)
    {
      ExactlyApplied(m, ctx, a, n, backward, matcher, p, x, stack, captures, s, k);
    }
  }

  // ---------------------------------------------------------------------------
  // One or more iterations of code that always advances

  lemma {:induction false} PlusYields(m: Machine, ctx: Context, a: Asm, greedy: bool, backward: bool,
                                      matcher: Spec.Matcher, p: int, q: int, x: nat,
                                      stack: seq<int>, captures: seq<int>, s: seq<SavedState>, k: Spec.Cont, d: Spec.Cont)
    requires Implements(m, a, backward, matcher) && !NeedCheckAdvance(a) && q == p + Length(a)
    requires Ready(m, ctx, a, p, x, stack, captures, s)
    requires ValidOffset(p - (q + 5)) && At(m.code, q, Assemble([Split(greedy, p - (q + 5))]))
    requires FollowsAll(m, ctx, backward, x, q + 5, stack, k)
    requires forall y: nat, c: seq<int> {:trigger d(y, c)} :: Spec.Ahead(EnvOf(m), backward, x, y) && y != x ==>
               d(y, c) == Spec.Repeat(EnvOf(m), matcher, backward, 0, Spec.INFINITE, greedy, y, c, k)
    ensures Yields(m, ctx, Run(p, Offset(m.subject, x), stack, captures, s), matcher(x, captures, d), s)
    decreases Spec.Room(EnvOf(m), backward, x)
  {
    hide At, Assemble, Reaches, Yields;
    forall y: nat, captures': seq<int>, s': seq<SavedState> |
      Spec.Ahead(EnvOf(m), backward, x, y) && y != x && CapturesOk(m, captures') && Above(ctx, s')
      ensures Yields(m, ctx, Run(q, Offset(m.subject, y), stack, captures', s'), d(y, captures'), s')
    {
      var e := Spec.RepeatCont(EnvOf(m), matcher, backward, 0, Spec.INFINITE, greedy, y, k);
      FollowsAllFrom(m, ctx, backward, x, y, q + 5, stack, k);
      forall s'': seq<SavedState> | Above(ctx, s'')
        ensures Yields(m, ctx, Run(p, Offset(m.subject, y), stack, captures', s''), matcher(y, captures', e), s'')
        ensures Yields(m, ctx, Run(q + 5, Offset(m.subject, y), stack, captures', s''), k(y, captures'), s'')
      {
        PlusYields(m, ctx, a, greedy, backward, matcher, p, q, y, stack, captures', s'', k, e);
        assert Lands(m, backward, false, 0, x, y);
      }
      if greedy {
        SplitYields(m, ctx, true, p - (q + 5), q, y, stack, captures', s', matcher(y, captures', e), k(y, captures'));
      } else {
        SplitYields(m, ctx, false, p - (q + 5), q, y, stack, captures', s', k(y, captures'), matcher(y, captures', e));
      }
    }
    UncheckedYields(m, ctx, a, backward, matcher, p, x, stack, captures, s, d);
  }

  lemma {:induction false} PlusPlaced(m: Machine, a: Asm, greedy: bool, p: int, depth: int)
    requires Placed(m, Plus(a, greedy), p, depth)
    ensures Placed(m, a, p, depth)
    ensures ValidOffset(-(Length(a) + 5)) && At(m.code, p + Length(a), Assemble([Split(greedy, -(Length(a) + 5))]))
    ensures Length(Plus(a, greedy)) == Length(a) + 5 && !Linear(Plus(a, greedy))
  {
    hide At, Assemble;
    var i := Split(greedy, -(Length(a) + 5));
    PlacedSplit(m, a, [i], p, depth);
    AssembleOne(i);
    assert ValidInstr([i][0]);
    NotLinear(Plus(a, greedy), |a|);
  }

  lemma {:induction false} PlusImplements(m: Machine, a: Asm, greedy: bool, backward: bool, matcher: Spec.Matcher)
    requires Block(m, a, backward, matcher) && !NeedCheckAdvance(a)
    ensures Block(m, Plus(a, greedy), backward,
                  Spec.RepeatMatcher(EnvOf(m), matcher, backward, 1, Spec.INFINITE, greedy))
  {
    hide At, Assemble, Reaches, Yields;
    var i := Split(greedy, -(Length(a) + 5));
    NetConcat(a, [i]);
    assert [i][1..] == [];
    forall ctx: Context, p: int, x: nat, stack: seq<int>, captures: seq<int>, s: seq<SavedState>, k: Spec.Cont |
      Applies(m, ctx, Plus(a, greedy), backward, p, x, stack, captures, s, k)
      ensures Yields(m, ctx, Run(p, Offset(m.subject, x), stack, captures, s),
                     Spec.RepeatMatcher(EnvOf(m), matcher, backward, 1, Spec.INFINITE, greedy)(x, captures, k), s)
    {
      PlusPlaced(m, a, greedy, p, |stack|);
      var d := Spec.RepeatCont(EnvOf(m), matcher, backward, 1, Spec.INFINITE, greedy, x, k);
      PlusYields(m, ctx, a, greedy, backward, matcher, p, p + Length(a), x, stack, captures, s, k, d);
    }
  }
}
