// Correctness of simple_greedy_quant: the loop that runs a simple atom as often as possible
// and then gives back one iteration at a time explores the positions the general greedy
// repetition explores, in the same order.
module RegexGreedy {
  import opened Wrappers
  import opened Bytes
  import opened RegexOpcode
  import opened RegexInput
  import opened RegexAsm
  import opened RegexMachine
  import opened RegexSteps
  import opened RegexCorrect
  import Spec = RegexSpec

  // ---------------------------------------------------------------------------
  // Simple code: straight-line, and as a matcher deterministic

  // A matcher that moves by a fixed number of characters or fails.
  ghost predicate Moves(matcher: Spec.Matcher, ok: bool, x: nat, y: nat) {
    forall captures: seq<int>, k: Spec.Cont {:trigger matcher(x, captures, k)} :: matcher(x, captures, k) == if ok then k(y, captures) else None
  }

  // Run straight from p, the code a does at x what the matcher does.
  ghost predicate StraightAt(m: Machine, a: Asm, matcher: Spec.Matcher, p: int, x: nat)
    requires x <= Len(m)
  {
    var y := x + CharCount(a);
    if y <= Len(m) && Moves(matcher, true, x, y) then
      RunStraight(m, p, Offset(m.subject, x)) == RunStraight(m, p + Length(a), Offset(m.subject, y))
    else
      Moves(matcher, false, x, x) && RunStraight(m, p, Offset(m.subject, x)) == NoMatch
  }

  ghost predicate Straight(m: Machine, a: Asm, matcher: Spec.Matcher) {
    forall p: int, x: nat {:trigger StraightAt(m, a, matcher, p, x)} ::
      x <= Len(m) && AllValid(a) && At(m.code, p, Assemble(a)) ==> StraightAt(m, a, matcher, p, x)
  }

  lemma {:induction false} StraightEmpty(m: Machine, matcher: Spec.Matcher)
    requires forall x: nat, captures: seq<int>, k: Spec.Cont {:trigger matcher(x, captures, k)} :: x <= Len(m) ==> matcher(x, captures, k) == k(x, captures)
    ensures Straight(m, [], matcher)
  {
    forall p: int, x: nat | x <= Len(m)
      ensures StraightAt(m, [], matcher, p, x)
    {
      assert Moves(matcher, true, x, x);
    }
  }

  lemma {:induction false} RunStraightChar(m: Machine, i: Instr, p: int, x: nat)
    requires ValidInstr(i) && IsCharTest(i) && At(m.code, p, Assemble([i])) && x <= Len(m)
    ensures RunStraight(m, p, Offset(m.subject, x)) ==
            if x < Len(m) && TestChar(m, i, Chars(m.subject)[x])
            then RunStraight(m, p + Size(i), Offset(m.subject, x + 1)) else NoMatch
  {
    hide At, Assemble, Encode, Fetch, Offset, TestChar, GetChar, ValidInstr, Chars;
    AssembleOne(i);
    FetchEncode(m.code, p, i);
    if x < Len(m) {
      GetCharAtOffset(m.subject, x);
    } else {
      OffsetAtEnd(m.subject);
    }
  }

  lemma {:induction false} CharMoves(m: Machine, r: Node, f: Flags, x: nat)
    requires IsOneChar(r) && x <= Len(m)
    ensures var ok := Spec.AcceptsNext(EnvOf(m), r, f, false, x);
            Moves(Spec.CharMatcher(EnvOf(m), r, f, false), ok, x, if ok then x + 1 else x)
  {
  }

  lemma {:induction false} RunStraightAccepts(m: Machine, encode: Encoder, r: Node, f: Flags, p: int, x: nat)
    requires IsOneChar(r) && Spec.WellFormed(r) && Encodes(m, encode) && EncodesChars(encode)
    requires ValidInstr(encode(r, f)) && At(m.code, p, Assemble([encode(r, f)])) && x <= Len(m)
    ensures RunStraight(m, p, Offset(m.subject, x)) ==
            if Spec.AcceptsNext(EnvOf(m), r, f, false, x)
            then RunStraight(m, p + Size(encode(r, f)), Offset(m.subject, x + 1)) else NoMatch
  {
    hide At, Assemble, RunStraight;
    var i := encode(r, f);
    RunStraightChar(m, i, p, x);
    if x < Len(m) {
      assert TestChar(m, i, Chars(m.subject)[x]) == Spec.Accepts(EnvOf(m), r, f, Chars(m.subject)[x]);
    }
  }

  lemma {:induction false} StraightChar(m: Machine, encode: Encoder, r: Node, f: Flags)
    requires IsOneChar(r) && Spec.WellFormed(r) && Encodes(m, encode) && EncodesChars(encode)
    ensures Straight(m, [encode(r, f)], Spec.CharMatcher(EnvOf(m), r, f, false))
  {
    hide At, Assemble, RunStraight, Moves, Spec.CharMatcher;
    var i := encode(r, f);
    var matcher := Spec.CharMatcher(EnvOf(m), r, f, false);
    CharTestIsCharInstr(i);
    OneCharFacts(i);
    forall p: int, x: nat | x <= Len(m) && AllValid([i]) && At(m.code, p, Assemble([i]))
      ensures StraightAt(m, [i], matcher, p, x)
    {
      assert ValidInstr([i][0]);
      RunStraightAccepts(m, encode, r, f, p, x);
      CharMoves(m, r, f, x);
      if !Spec.AcceptsNext(EnvOf(m), r, f, false, x) {
        NotMoves(matcher, x, x + 1);
      }
    }
  }

  // A matcher cannot both fail and move.
  lemma {:induction false} NotMoves(matcher: Spec.Matcher, x: nat, y: nat)
    requires Moves(matcher, false, x, x)
    ensures !Moves(matcher, true, x, y)
  {
    assert matcher(x, [], Spec.Accept) == None;
  }

  lemma {:induction false} RunStraightAssertion(m: Machine, r: Node, f: Flags, p: int, x: nat)
    requires r.LineStart? || r.LineEnd? || r.WordBoundary?
    requires x <= Len(m) && Spec.CanonOk(m.canon) && At(m.code, p, Assemble([AssertionInstr(r, f)]))
    ensures RunStraight(m, p, Offset(m.subject, x)) ==
            if Spec.AssertionHolds(EnvOf(m), r, f, x) then RunStraight(m, p + 1, Offset(m.subject, x)) else NoMatch
  {
    var i := AssertionInstr(r, f);
    AssembleOne(i);
    FetchEncode(m.code, p, i);
    AssertionStep(m, r, f, i, x);
  }

  lemma {:induction false} StraightAssertion(m: Machine, r: Node, f: Flags)
    requires (r.LineStart? || r.LineEnd? || r.WordBoundary?) && Spec.CanonOk(m.canon)
    ensures Straight(m, [AssertionInstr(r, f)], Spec.AssertionMatcher(EnvOf(m), r, f))
  {
    hide StraightAt, At, Assemble, Spec.AssertionMatcher, Spec.CanonOk;
    var i := AssertionInstr(r, f);
    forall p: int, x: nat | x <= Len(m) && AllValid([i]) && At(m.code, p, Assemble([i]))
      ensures StraightAt(m, [i], Spec.AssertionMatcher(EnvOf(m), r, f), p, x)
    {
      StraightAssertionAt(m, r, f, p, x);
    }
    OneNeutral(i);
  }

  lemma {:induction false} OneNeutral(i: Instr)
    ensures CharCount([i]) == if IsCharInstr(i) then 1 else 0
  {
    assert [i][1..] == [];
  }

  lemma {:induction false} StraightAssertionAt(m: Machine, r: Node, f: Flags, p: int, x: nat)
    requires (r.LineStart? || r.LineEnd? || r.WordBoundary?) && Spec.CanonOk(m.canon)
    requires x <= Len(m) && AllValid([AssertionInstr(r, f)]) && At(m.code, p, Assemble([AssertionInstr(r, f)]))
    ensures StraightAt(m, [AssertionInstr(r, f)], Spec.AssertionMatcher(EnvOf(m), r, f), p, x)
  {
    hide At, Assemble, RunStraight, Spec.AssertionHolds, Spec.AssertionMatcher, AllValid, Spec.CanonOk, Length, CharCount, Moves;
    var i := AssertionInstr(r, f);
    OneAssertion(i);
    RunStraightAssertion(m, r, f, p, x);
    AssertionMoves(m, r, f, x);
  }

  lemma {:induction false} AssertionMoves(m: Machine, r: Node, f: Flags, x: nat)
    requires r.LineStart? || r.LineEnd? || r.WordBoundary?
    ensures var matcher := Spec.AssertionMatcher(EnvOf(m), r, f);
            if Spec.AssertionHolds(EnvOf(m), r, f, x) then Moves(matcher, true, x, x)
            else !Moves(matcher, true, x, x) && Moves(matcher, false, x, x)
  {
    hide Spec.AssertionHolds;
    var matcher := Spec.AssertionMatcher(EnvOf(m), r, f);
    if !Spec.AssertionHolds(EnvOf(m), r, f, x) {
      NotMoves(matcher, x, x);
    }
  }

  lemma {:induction false} StraightSeq(m: Machine, a: Asm, b: Asm, first: Spec.Matcher, second: Spec.Matcher)
    requires Straight(m, a, first) && Straight(m, b, second)
    ensures Straight(m, a + b, Spec.SeqMatcher(first, second))
  {
    hide At, Assemble, StraightAt, AllValid;
    var matcher := Spec.SeqMatcher(first, second);
    forall p: int, x: nat | x <= Len(m) && AllValid(a + b) && At(m.code, p, Assemble(a + b))
      ensures StraightAt(m, a + b, matcher, p, x)
    {
      AllValidConcat(a, b);
      PlacedConcat(m.code, p, a, b);
      assert StraightAt(m, a, first, p, x);
      var y := x + CharCount(a);
      if y <= Len(m) {
        assert StraightAt(m, b, second, p + Length(a), y);
        StraightSeqAt(m, a, b, first, second, p, x, y);
      } else {
        StraightPast(m, a, b, first, second, p, x);
      }
    }
  }

  lemma {:induction false} StraightSeqAt(m: Machine, a: Asm, b: Asm, first: Spec.Matcher, second: Spec.Matcher, p: int, x: nat, y: nat)
    requires x <= Len(m) && y == x + CharCount(a) && y <= Len(m)
    requires StraightAt(m, a, first, p, x) && StraightAt(m, b, second, p + Length(a), y)
    ensures StraightAt(m, a + b, Spec.SeqMatcher(first, second), p, x)
  {
    hide Moves, Length, CharCount, RunStraight, Offset;
    LengthConcat(a, b);
    CharCountConcat(a, b);
    var matcher, z := Spec.SeqMatcher(first, second), y + CharCount(b);
    if Moves(first, true, x, y) {
      if z <= Len(m) && Moves(second, true, y, z) {
        SeqMoves(first, second, true, x, y, z);
      } else {
        SeqMoves(first, second, false, x, y, y);
        NotMoves(matcher, x, z);
      }
    } else {
      SeqFails(first, second, x);
      NotMoves(matcher, x, z);
    }
  }

  // The subject ends in the first part.
  lemma {:induction false} StraightPast(m: Machine, a: Asm, b: Asm, first: Spec.Matcher, second: Spec.Matcher, p: int, x: nat)
    requires x <= Len(m) && x + CharCount(a) > Len(m) && StraightAt(m, a, first, p, x)
    ensures StraightAt(m, a + b, Spec.SeqMatcher(first, second), p, x)
  {
    hide Moves, Length, CharCount, RunStraight, Offset;
    CharCountConcat(a, b);
    SeqFails(first, second, x);
  }

  lemma {:induction false} SeqFails(first: Spec.Matcher, second: Spec.Matcher, x: nat)
    requires Moves(first, false, x, x)
    ensures Moves(Spec.SeqMatcher(first, second), false, x, x)
  {
    forall captures: seq<int>, k: Spec.Cont
      ensures Spec.SeqMatcher(first, second)(x, captures, k) == None
    {
      assert first(x, captures, Spec.Then(second, k)) == None;
    }
  }

  lemma {:induction false} SeqMoves(first: Spec.Matcher, second: Spec.Matcher, ok: bool, x: nat, y: nat, z: nat)
    requires Moves(first, true, x, y) && Moves(second, ok, y, z)
    ensures Moves(Spec.SeqMatcher(first, second), ok, x, if ok then z else x)
  {
    forall captures: seq<int>, k: Spec.Cont
      ensures Spec.SeqMatcher(first, second)(x, captures, k) == if ok then k(z, captures) else None
    {
      assert first(x, captures, Spec.Then(second, k)) == Spec.Then(second, k)(y, captures) == second(y, captures, k);
    }
  }

  // Straight depends on the values of the matcher only.
  lemma {:induction false} StraightSame(m: Machine, a: Asm, matcher: Spec.Matcher, matcher': Spec.Matcher)
    requires Straight(m, a, matcher)
    requires forall x: nat, captures: seq<int>, k: Spec.Cont {:trigger matcher'(x, captures, k)} :: x <= Len(m) ==> matcher'(x, captures, k) == matcher(x, captures, k)
    ensures Straight(m, a, matcher')
  {
    hide At, Assemble, RunStraight;
    forall p: int, x: nat | x <= Len(m) && AllValid(a) && At(m.code, p, Assemble(a))
      ensures StraightAt(m, a, matcher', p, x)
    {
      var y := x + CharCount(a);
      assert StraightAt(m, a, matcher, p, x);
      if y <= Len(m) && Moves(matcher, true, x, y) {
        assert Moves(matcher', true, x, y);
      } else {
        assert Moves(matcher', false, x, x);
        NotMoves(matcher', x, y);
      }
    }
  }

  // ---------------------------------------------------------------------------
  // Running the atom greedily

  // The priority order of the greedy repetition: the far end first, position lo last.
  ghost function Tries(k: Spec.Cont, captures: seq<int>, c: nat, lo: nat, n: nat): (z: Spec.Result)
    decreases n
  {
    if n == 0 then k(lo, captures) else Spec.OrElse(Tries(k, captures, c, lo + c, n - 1), k(lo, captures))
  }

  // The order in which the machine comes back to them.
  ghost function Returns(k: Spec.Cont, captures: seq<int>, c: nat, hi: nat, n: nat): (z: Spec.Result)
    requires n * c <= hi
    decreases n
  {
    if n == 0 then k(hi, captures) else Spec.OrElse(k(hi, captures), Returns(k, captures, c, hi - c, n - 1))
  }

  lemma {:induction false} TriesFromTop(k: Spec.Cont, captures: seq<int>, c: nat, lo: nat, n: nat)
    requires n > 0
    ensures Tries(k, captures, c, lo, n) == Spec.OrElse(k(lo + n * c, captures), Tries(k, captures, c, lo, n - 1))
    decreases n
  {
    if n > 1 {
      TriesFromTop(k, captures, c, lo + c, n - 1);
      assert lo + c + (n - 1) * c == lo + n * c;
    }
  }

  lemma {:induction false} ReturnsIsTries(k: Spec.Cont, captures: seq<int>, c: nat, lo: nat, n: nat)
    ensures n * c <= lo + n * c
    ensures Returns(k, captures, c, lo + n * c, n) == Tries(k, captures, c, lo, n)
    decreases n
  {
    if n > 0 {
      assert lo + n * c - c == lo + (n - 1) * c;
      ReturnsIsTries(k, captures, c, lo, n - 1);
      TriesFromTop(k, captures, c, lo, n);
    }
  }

  lemma {:induction false} RunStraightMatch(m: Machine, p: int)
    requires At(m.code, p, Assemble([Match]))
    ensures forall pos: int {:trigger RunStraight(m, p, pos)} :: ValidPos(m.subject, pos) ==> RunStraight(m, p, pos) == Reached(pos)
  {
    AssembleOne(Match);
    FetchEncode(m.code, p, Match);
  }

  lemma {:induction false} MulStep(x: nat, n: nat, c: nat)
    ensures x + c + n * c == x + (n + 1) * c
  {
  }

  // What a greedy repetition of a matcher that moves by c yields when it can move n times.
  ghost function GreedyResult(k: Spec.Cont, captures: seq<int>, c: nat, x: nat, min: nat, n: nat): (z: Spec.Result) {
    if n < min then None else Tries(k, captures, c, x + min * c, n - min)
  }

  lemma {:induction false} GreedyStop(env: Spec.Env, matcher: Spec.Matcher, c: nat, x: nat, min: nat, max: int, captures: seq<int>, k: Spec.Cont)
    requires Moves(matcher, false, x, x) && max > 0
    ensures Spec.Repeat(env, matcher, false, min, max, true, x, captures, k) == GreedyResult(k, captures, c, x, min, 0)
  {
  }

  lemma {:induction false} GreedyStep(env: Spec.Env, matcher: Spec.Matcher, c: nat, x: nat, min: nat, max: int, captures: seq<int>, k: Spec.Cont, n: nat)
    requires Moves(matcher, true, x, x + c) && max > 0 && c > 0 && x + c <= |env.chars|
    requires Spec.Repeat(env, matcher, false, Spec.Max(min - 1, 0), Spec.Less(max), true, x + c, captures, k)
          == GreedyResult(k, captures, c, x + c, Spec.Max(min - 1, 0), n)
    ensures Spec.Repeat(env, matcher, false, min, max, true, x, captures, k) == GreedyResult(k, captures, c, x, min, n + 1)
  {
    var d := Spec.RepeatCont(env, matcher, false, min, max, true, x, k);
    assert matcher(x, captures, d) == d(x + c, captures);
    assert d(x + c, captures) == GreedyResult(k, captures, c, x + c, Spec.Max(min - 1, 0), n);
    if min > 0 {
      MulStep(x, min - 1, c);
    }
  }

  // The loop of simple_greedy_quant moves as often as the matcher can, at most max times;
  // the number of moves determines the result of the repetition.
  lemma {:induction false} RunGreedyRepeats(m: Machine, a: Asm, matcher: Spec.Matcher, p: int, x: nat, q: nat, max: int,
                                            min: nat, captures: seq<int>, k: Spec.Cont) returns (n: nat)
    requires Straight(m, a, matcher) && AllValid(a) && At(m.code, p, Assemble(a + [Match]))
    requires CharCount(a) > 0 && x <= Len(m) && max <= INT32_MAX && (max != INT32_MAX ==> q < max && q + min <= max)
    ensures x + n * CharCount(a) <= Len(m)
    ensures RunGreedy(m, p, Offset(m.subject, x), q, max) == Some((Offset(m.subject, x + n * CharCount(a)), q + n))
    ensures Spec.Repeat(EnvOf(m), matcher, false, min, if max == INT32_MAX then max else max - q, true, x, captures, k)
         == GreedyResult(k, captures, CharCount(a), x, min, n)
    decreases Len(m) - x
  {
    hide Assemble, At, RunStraight, Moves, GreedyResult, Spec.Repeat, Length, CharCount, Net;
    var c := CharCount(a);
    var left := if max == INT32_MAX then max else max - q;
    PlacedConcat(m.code, p, a, [Match]);
    RunStraightMatch(m, p + Length(a));
    assert StraightAt(m, a, matcher, p, x);
    var y := x + c;
    if y <= Len(m) && Moves(matcher, true, x, y) {
      OffsetIncreases(m.subject, x, y);
      var n' := 0;
      assert Spec.Less(left) == if max == INT32_MAX then max else max - (q + 1);
      if q + 1 >= max && max != INT32_MAX {
        LastRepeat(EnvOf(m), matcher, c, y, captures, k);
      } else {
        n' := RunGreedyRepeats(m, a, matcher, p, y, q + 1, max, Spec.Max(min - 1, 0), captures, k);
      }
      MulStep(x, n', c);
      GreedyStep(EnvOf(m), matcher, c, x, min, left, captures, k, n');
      n := n' + 1;
    } else {
      GreedyStop(EnvOf(m), matcher, c, x, min, left, captures, k);
      n := 0;
    }
  }

  lemma {:induction false} LastRepeat(env: Spec.Env, matcher: Spec.Matcher, c: nat, y: nat, captures: seq<int>, k: Spec.Cont)
    ensures Spec.Repeat(env, matcher, false, 0, 0, true, y, captures, k) == GreedyResult(k, captures, c, y, 0, 0)
  {
  }

  // ---------------------------------------------------------------------------
  // Giving iterations back

  lemma {:induction false} StepBackOffset(s: Subject, x: nat, n: nat)
    requires n <= x <= |Chars(s)|
    ensures StepBack(s, Offset(s, x), n) == Some(Offset(s, x - n))
    decreases n
  {
    if n > 0 {
      GetPrevCharAtOffset(s, x);
      StepBackOffset(s, x - 1, n - 1);
    }
  }

  // The state a greedy loop leaves when n iterations can still be given back.
  function GreedyStates(m: Machine, p: int, x: nat, n: nat, captures: seq<int>, stack: seq<int>): (s: seq<SavedState>)
    requires x <= Len(m)
  {
    if n == 0 then [] else [SavedState(GreedyState, n, Offset(m.subject, x), p + 1, captures, stack)]
  }

  lemma {:induction false} QuantOperands(code: seq<Byte>, p: int, off: int, min: int, max: int, count: int)
    requires ValidInstr(SimpleGreedyQuant(off, min, max, count))
    requires At(code, p, Assemble([SimpleGreedyQuant(off, min, max, count)]))
    ensures 0 <= p + 1 && p + 17 <= |code|
    ensures ToSigned(GetU32(code, p + 1)) == off && GetU32(code, p + 13) == count
  {
    var i := SimpleGreedyQuant(off, min, max, count);
    AssembleOne(i);
    AtConcat(code, p, [Opcode(i)], EncodeOperands(i));
    FourWords(code, p + 1, off, min, max, count);
    GetPutU32(code, p + 1, off);
    GetPutU32(code, p + 13, count);
  }

  lemma {:induction false} GiveBack(m: Machine, p: int, off: int, min: int, max: int, c: int, x: nat, n: nat,
                                    captures: seq<int>, stack: seq<int>, s: seq<SavedState>)
    requires ValidInstr(SimpleGreedyQuant(off, min, max, c))
    requires At(m.code, p, Assemble([SimpleGreedyQuant(off, min, max, c)]))
    requires 0 < c <= x <= Len(m) && n > 0
    ensures Reaches(m, Fail(s + GreedyStates(m, p, x, n, captures, stack)),
                    Run(p + 17 + off, Offset(m.subject, x - c), stack, captures,
                        s + GreedyStates(m, p, x - c, n - 1, captures, stack)))
  {
    hide At, Assemble, StepBack, Fetch;
    QuantOperands(m.code, p, off, min, max, c);
    StepBackOffset(m.subject, x, c);
    var states := s + GreedyStates(m, p, x, n, captures, stack);
    assert states[..|states| - 1] == s;
    ReachesNext(m, Fail(states));
  }

  lemma {:induction false} ReturnsYields(m: Machine, ctx: Context, p: int, off: int, min: int, max: int, c: nat, x: nat, lo: nat, n: nat,
                                         stack: seq<int>, captures: seq<int>, s: seq<SavedState>, k: Spec.Cont)
    requires ValidInstr(SimpleGreedyQuant(off, min, max, c))
    requires At(m.code, p, Assemble([SimpleGreedyQuant(off, min, max, c)]))
    requires c > 0 && x <= lo && lo + n * c <= Len(m) && CapturesOk(m, captures) && Above(ctx, s)
    requires FollowsAll(m, ctx, false, x, p + 17 + off, stack, k)
    ensures n * c <= lo + n * c
    ensures Yields(m, ctx, Run(p + 17 + off, Offset(m.subject, lo + n * c), stack, captures,
                               s + GreedyStates(m, p, lo + n * c, n, captures, stack)),
                   Returns(k, captures, c, lo + n * c, n), s)
    decreases n
  {
    hide At, Assemble, Reaches, Yields;
    var hi := lo + n * c;
    var q := p + 17 + off;
    var states := GreedyStates(m, p, hi, n, captures, stack);
    assert Lands(m, false, false, 0, x, hi);
    if n == 0 {
      assert s + states == s;
    } else {
      MulStep(lo, n - 1, c);
      assert hi - c == lo + (n - 1) * c;
      AbovePush(ctx, s, states[0]);
      GiveBack(m, p, off, min, max, c, hi, n, captures, stack, s);
      ReturnsYields(m, ctx, p, off, min, max, c, x, lo, n - 1, stack, captures, s, k);
      YieldsChoice(m, ctx, Run(q, Offset(m.subject, hi), stack, captures, s + states),
                   Run(q, Offset(m.subject, hi - c), stack, captures, s + GreedyStates(m, p, hi - c, n - 1, captures, stack)),
                   k(hi, captures), Returns(k, captures, c, hi - c, n - 1), s, states[0]);
    }
  }

  lemma {:induction false} GreedyReaches(m: Machine, ctx: Context, p: int, off: int, min: nat, max: int, c: nat, x: nat, n: nat,
                                         stack: seq<int>, captures: seq<int>, s: seq<SavedState>)
    requires ValidInstr(SimpleGreedyQuant(off, min, max, c))
    requires At(m.code, p, Assemble([SimpleGreedyQuant(off, min, max, c)]))
    requires x <= x + n * c <= Len(m)
    requires RunGreedy(m, p + 17, Offset(m.subject, x), 0, max) == Some((Offset(m.subject, x + n * c), n))
    ensures Reaches(m, Run(p, Offset(m.subject, x), stack, captures, s),
                    if n < min then Fail(s)
                    else Run(p + 17 + off, Offset(m.subject, x + n * c), stack, captures,
                             s + GreedyStates(m, p, x + n * c, n - min, captures, stack)))
  {
    hide At, Assemble, RunGreedy, Fetch;
    StepAt(m, SimpleGreedyQuant(off, min, max, c), p, Offset(m.subject, x), stack, captures, s);
    ReachesNext(m, Run(p, Offset(m.subject, x), stack, captures, s));
    assert s + [] == s;
  }

  lemma {:induction false} GreedyYields(m: Machine, ctx: Context, p: int, off: int, min: nat, max: int, c: nat, x: nat, n: nat,
                                        stack: seq<int>, captures: seq<int>, s: seq<SavedState>, k: Spec.Cont)
    requires ValidInstr(SimpleGreedyQuant(off, min, max, c)) && c > 0
    requires At(m.code, p, Assemble([SimpleGreedyQuant(off, min, max, c)]))
    requires x <= x + n * c <= Len(m) && CapturesOk(m, captures) && Above(ctx, s)
    requires RunGreedy(m, p + 17, Offset(m.subject, x), 0, max) == Some((Offset(m.subject, x + n * c), n))
    requires FollowsAll(m, ctx, false, x, p + 17 + off, stack, k)
    ensures Yields(m, ctx, Run(p, Offset(m.subject, x), stack, captures, s), GreedyResult(k, captures, c, x, min, n), s)
  {
    hide At, Assemble, Reaches, Yields, RunGreedy, Tries, Returns;
    GreedyReaches(m, ctx, p, off, min, max, c, x, n, stack, captures, s);
    var start := Run(p, Offset(m.subject, x), stack, captures, s);
    if n < min {
      YieldsFail(m, ctx, start, s);
    } else {
      var lo, hi := x + min * c, x + n * c;
      MulSplit(x, min, n, c);
      ReturnsYields(m, ctx, p, off, min, max, c, x, lo, n - min, stack, captures, s, k);
      ReturnsIsTries(k, captures, c, lo, n - min);
      var d := Run(p + 17 + off, Offset(m.subject, hi), stack, captures,
                   s + GreedyStates(m, p, hi, n - min, captures, stack));
      YieldsAfter(m, ctx, start, d, Tries(k, captures, c, lo, n - min), s);
    }
  }

  lemma {:induction false} SimpleQuantYields(m: Machine, ctx: Context, a: Asm, matcher: Spec.Matcher, min: nat, max: int,
                                             p: int, x: nat, stack: seq<int>, captures: seq<int>, s: seq<SavedState>, k: Spec.Cont)
    requires Straight(m, a, matcher) && CharCount(a) > 0 && min <= max <= INT32_MAX && max > 0
    requires Applies(m, ctx, SimpleQuant(a, min, max), false, p, x, stack, captures, s, k)
    ensures Yields(m, ctx, Run(p, Offset(m.subject, x), stack, captures, s),
                   Spec.Repeat(EnvOf(m), matcher, false, min, max, true, x, captures, k), s)
  {
    hide At, Assemble, Reaches, Yields, RunGreedy, Spec.Repeat, Straight, GreedyResult, Length, Offset, Linear, Peak, AllValid;
    var c, off := CharCount(a), Length(a) + 1;
    var i := SimpleGreedyQuant(off, min, max, c);
    WrapPlaced(m, i, a, Match, p, |stack|);
    WrapScan(i, a, Match);
    MatchPlaced(m.code, a, p + 17);
    var n := RunGreedyRepeats(m, a, matcher, p + 17, x, 0, max, min, captures, k);
    GreedyYields(m, ctx, p, off, min, max, c, x, n, stack, captures, s, k);
  }

  lemma {:induction false} MulSplit(x: nat, min: nat, n: nat, c: nat)
    requires min <= n
    ensures x + n * c == x + min * c + (n - min) * c && min * c >= 0
  {
  }

  lemma {:induction false} YieldsFail(m: Machine, ctx: Context, c: Config, s: seq<SavedState>)
    requires Reaches(m, c, Fail(s))
    ensures Yields(m, ctx, c, None, s)
  {
  }

  lemma {:induction false} MatchPlaced(code: seq<Byte>, a: Asm, p: int)
    requires At(code, p, Assemble(a)) && At(code, p + Length(a), Assemble([Match]))
    ensures At(code, p, Assemble(a + [Match]))
  {
    PlacedConcat(code, p, a, [Match]);
  }

  // Main result for simple_greedy_quant.
  lemma {:induction false} SimpleQuantImplements(m: Machine, a: Asm, matcher: Spec.Matcher, min: nat, max: int)
    requires Net(a) == 0 && Straight(m, a, matcher) && CharCount(a) > 0 && min <= max <= INT32_MAX && max > 0
    ensures Block(m, SimpleQuant(a, min, max), false, Spec.RepeatMatcher(EnvOf(m), matcher, false, min, max, true))
  {
    hide At, Assemble, Reaches, Yields, Placed, Follows, Straight;
    WrapNet(SimpleGreedyQuant(Length(a) + 1, min, max, CharCount(a)), a, Match);
    forall ctx: Context, p: int, x: nat, stack: seq<int>, captures: seq<int>, s: seq<SavedState>, k: Spec.Cont |
      Applies(m, ctx, SimpleQuant(a, min, max), false, p, x, stack, captures, s, k)
      ensures Yields(m, ctx, Run(p, Offset(m.subject, x), stack, captures, s),
                     Spec.RepeatMatcher(EnvOf(m), matcher, false, min, max, true)(x, captures, k), s)
    {
      SimpleQuantYields(m, ctx, a, matcher, min, max, p, x, stack, captures, s, k);
    }
  }
}
