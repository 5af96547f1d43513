// The relation between machine runs and matcher results, and what each instruction does to it.
module RegexSteps {
  import opened Wrappers
  import opened Bytes
  import opened RegexOpcode
  import opened RegexInput
  import opened RegexAsm
  import opened RegexMachine
  import Spec = RegexSpec

  type Node = Spec.Node
  type Flags = Spec.Flags

  // ---------------------------------------------------------------------------
  // The relation between machine and matcher

  // Captures are stored as offsets.
  function MarkOf(s: Subject, x: nat): (mark: int) {
    if x <= |Chars(s)| then Offset(s, x) else NULL
  }

  function EnvOf(m: Machine): (env: Spec.Env) {
    Spec.Env(Chars(m.subject), m.canon, (x: nat) => MarkOf(m.subject, x))
  }

  function Len(m: Machine): (n: nat) {
    |Chars(m.subject)|
  }

  // What surrounds a sub-match: the states below it.
  type Context = seq<SavedState>

  // States that a success skips and a failure resumes.
  predicate Plain(s: seq<SavedState>) {
    forall i :: 0 <= i < |s| ==> s[i].kind == SplitState || s[i].kind == GreedyState
  }

  predicate Above(ctx: Context, s: seq<SavedState>) {
    ctx <= s && Plain(s[|ctx|..])
  }

  predicate CapturesOk(m: Machine, captures: seq<int>) {
    |captures| == 2 * m.captureCount
  }

  // How a run that succeeds with the state z looks. (CapturesOk and Above, written out so
  // that they do not trigger the quantifier of Continues.)
  predicate Ends(m: Machine, ctx: Context, s: seq<SavedState>, z: Spec.State) {
    |z.captures| == 2 * m.captureCount && ctx <= s && Plain(s[|ctx|..])
  }

  ghost predicate Succeeds(m: Machine, ctx: Context, c: Config, z: Spec.State) {
    exists s {:trigger Ends(m, ctx, s, z)} :: Ends(m, ctx, s, z) && Reaches(m, c, Succeed(z.captures, s))
  }

  // From c the machine produces the result o: it fails with exactly the states s left, or
  // succeeds above the base of the context.
  ghost predicate Yields(m: Machine, ctx: Context, c: Config, o: Spec.Result, s: seq<SavedState>) {
    if o.None? then Reaches(m, c, Fail(s)) else Succeeds(m, ctx, c, o.value)
  }

  // Positions at which code of this shape can hand over to what follows it.
  predicate Lands(m: Machine, backward: bool, linear: bool, count: nat, x: nat, y: nat) {
    Spec.Ahead(EnvOf(m), backward, x, y) && (linear ==> if backward then x - y == count else y - x == count)
  }

  // The code at "q" implements the continuation k at every position handed over from x.
  ghost predicate Continues(m: Machine, ctx: Context, backward: bool, linear: bool, count: nat, x: nat,
                            q: int, stack: seq<int>, k: Spec.Cont) {
    forall y: nat, captures: seq<int>, s: seq<SavedState>
      {:trigger Run(q, Offset(m.subject, y), stack, captures, s)} ::
      Lands(m, backward, linear, count, x, y) && CapturesOk(m, captures) && Above(ctx, s) ==>
        Yields(m, ctx, Run(q, Offset(m.subject, y), stack, captures, s), k(y, captures), s)
  }

  lemma {:induction false} YieldsAfter(m: Machine, ctx: Context, c: Config, d: Config, o: Spec.Result, s: seq<SavedState>)
    requires Reaches(m, c, d) && Yields(m, ctx, d, o, s)
    ensures Yields(m, ctx, c, o, s)
  {
    if o.None? {
      ReachesTrans(m, c, d, Fail(s));
    } else {
      var t :| Ends(m, ctx, t, o.value) && Reaches(m, d, Succeed(o.value.captures, t));
      ReachesTrans(m, c, d, Succeed(o.value.captures, t));
    }
  }

  // Two alternatives: the first runs above a state that resumes the second.
  lemma {:induction false} YieldsChoice(m: Machine, ctx: Context, c: Config, d: Config, o: Spec.Result, o': Spec.Result,
                     s: seq<SavedState>, top: SavedState)
    requires Yields(m, ctx, c, o, s + [top])
    requires Reaches(m, Fail(s + [top]), d)
    requires Yields(m, ctx, d, o', s)
    ensures Yields(m, ctx, c, Spec.OrElse(o, o'), s)
  {
    if o.None? {
      YieldsAfter(m, ctx, Fail(s + [top]), d, o', s);
      YieldsAfter(m, ctx, c, Fail(s + [top]), o', s);
    }
  }

  lemma {:induction false} AbovePush(ctx: Context, s: seq<SavedState>, top: SavedState)
    requires Above(ctx, s) && (top.kind == SplitState || top.kind == GreedyState)
    ensures Above(ctx, s + [top])
  {
    var n := |ctx|;
    assert (s + [top])[..n] == s[..n];
    assert (s + [top])[n..] == s[n..] + [top];
  }

  // ---------------------------------------------------------------------------
  // Code placement

  lemma {:induction false} PlacedConcat(code: seq<Byte>, p: int, a: Asm, b: Asm)
    ensures At(code, p, Assemble(a + b)) <==> At(code, p, Assemble(a)) && At(code, p + Length(a), Assemble(b))
  {
    AssembleConcat(a, b);
    AtConcat(code, p, Assemble(a), Assemble(b));
  }

  lemma {:induction false} AssembleOne(i: Instr)
    ensures Assemble([i]) == Encode(i) && Length([i]) == Size(i)
  {
    assert [i][1..] == [];
    assert Encode(i) + [] == Encode(i);
  }

  // What a step does at a placed instruction.
  lemma {:induction false} StepAt(m: Machine, i: Instr, p: int, pos: int, stack: seq<int>, captures: seq<int>, s: seq<SavedState>)
    requires ValidInstr(i) && At(m.code, p, Assemble([i])) && ValidPos(m.subject, pos)
    ensures Step(m, Run(p, pos, stack, captures, s)) == StepInstr(m, i, p, pos, stack, captures, s)
  {
    AssembleOne(i);
    FetchEncode(m.code, p, i);
  }

  // ---------------------------------------------------------------------------
  // The integer stack: depth change and highest level of a piece of code

  function Delta(i: Instr): (d: int) {
    if i.PushI32? || i.PushCharPos? then 1 else if i.Drop? || i.CheckAdvance? then -1 else 0
  }

  function Net(a: Asm): (d: int) {
    if a == [] then 0 else Delta(a[0]) + Net(a[1..])
  }

  function Peak(a: Asm): (d: nat) {
    if a == [] then 0 else Spec.Max(0, Delta(a[0]) + Peak(a[1..]))
  }

  lemma {:induction false} NetConcat(a: Asm, b: Asm)
    ensures Net(a + b) == Net(a) + Net(b)
    ensures Peak(a + b) == Spec.Max(Peak(a), Net(a) + Peak(b))
  {
    if a == [] {
      assert a + b == b;
    } else {
      assert (a + b)[1..] == a[1..] + b;
      NetConcat(a[1..], b);
    }
  }

  lemma {:induction false} AllValidConcat(a: Asm, b: Asm)
    ensures AllValid(a + b) <==> AllValid(a) && AllValid(b)
  {
    if AllValid(a + b) {
      assert forall i :: 0 <= i < |a| ==> a[i] == (a + b)[i];
      assert forall i :: 0 <= i < |b| ==> b[i] == (a + b)[|a| + i];
    }
  }

  lemma {:induction false} PlacedSplit(m: Machine, a: Asm, b: Asm, p: int, depth: int)
    requires Placed(m, a + b, p, depth)
    ensures Placed(m, a, p, depth) && Placed(m, b, p + Length(a), depth + Net(a))
    ensures Length(a + b) == Length(a) + Length(b)
  {
    hide Length, Net, Peak, AllValid, At, Assemble;
    PlacedConcat(m.code, p, a, b);
    NetConcat(a, b);
    LengthConcat(a, b);
    AllValidConcat(a, b);
  }

  // ---------------------------------------------------------------------------
  // Hand-over positions

  lemma {:induction false} LinearConcat(a: Asm, b: Asm)
    ensures Linear(a + b) <==> Linear(a) && Linear(b)
  {
    if Linear(a + b) {
      assert forall i :: 0 <= i < |a| ==> a[i] == (a + b)[i];
      assert forall i :: 0 <= i < |b| ==> b[i] == (a + b)[|a| + i];
    }
  }

  lemma {:induction false} LandsTrans(m: Machine, backward: bool, a: Asm, b: Asm, x: nat, y: nat, z: nat)
    requires Lands(m, backward, Linear(a), CharCount(a), x, y) && Lands(m, backward, Linear(b), CharCount(b), y, z)
    ensures Lands(m, backward, Linear(a + b), CharCount(a + b), x, z)
  {
    LinearConcat(a, b);
    CharCountConcat(a, b);
  }

  // Continues for a piece of code, by its text.
  ghost predicate Follows(m: Machine, ctx: Context, backward: bool, a: Asm, x: nat, q: int, stack: seq<int>, k: Spec.Cont) {
    Continues(m, ctx, backward, Linear(a), CharCount(a), x, q, stack, k)
  }

  // Continues at every position ahead.
  ghost predicate FollowsAll(m: Machine, ctx: Context, backward: bool, x: nat, q: int, stack: seq<int>, k: Spec.Cont) {
    Continues(m, ctx, backward, false, 0, x, q, stack, k)
  }

  lemma {:induction false} FollowsSecond(m: Machine, ctx: Context, backward: bool, a: Asm, b: Asm, x: nat, y: nat,
                      q: int, stack: seq<int>, k: Spec.Cont)
    requires Follows(m, ctx, backward, a + b, x, q, stack, k)
    requires Lands(m, backward, Linear(a), CharCount(a), x, y)
    ensures Follows(m, ctx, backward, b, y, q, stack, k)
  {
    forall z: nat, captures: seq<int>, s: seq<SavedState> |
      Lands(m, backward, Linear(b), CharCount(b), y, z) && CapturesOk(m, captures) && Above(ctx, s)
      ensures Yields(m, ctx, Run(q, Offset(m.subject, z), stack, captures, s), k(z, captures), s)
    {
      LandsTrans(m, backward, a, b, x, y, z);
    }
  }

  lemma {:induction false} FollowsAllFrom(m: Machine, ctx: Context, backward: bool, x: nat, y: nat, q: int, stack: seq<int>, k: Spec.Cont)
    requires FollowsAll(m, ctx, backward, x, q, stack, k) && Spec.Ahead(EnvOf(m), backward, x, y)
    ensures FollowsAll(m, ctx, backward, y, q, stack, k)
  {
  }

  lemma {:induction false} NotLinear(a: Asm, i: int)
    requires 0 <= i < |a| && !IsCharInstr(a[i]) && !IsNeutral(a[i])
    ensures !Linear(a)
  {
  }

  // ---------------------------------------------------------------------------
  // One character

  predicate IsOneChar(r: Node) {
    r.Literal? || r.Dot? || r.Class?
  }

  // The encoder gives every one-character pattern an instruction that implements it.
  ghost predicate Encodes(m: Machine, encode: Encoder) {
    forall r: Node, f: Flags, c: int {:trigger TestChar(m, encode(r, f), c)} ::
      IsOneChar(r) && Spec.WellFormed(r) && 0 <= c <= 0x10_FFFF ==>
        IsCharTest(encode(r, f)) && TestChar(m, encode(r, f), c) == Spec.Accepts(EnvOf(m), r, f, c)
  }

  ghost predicate EncodesChars(encode: Encoder) {
    forall r: Node, f: Flags {:trigger encode(r, f)} ::
      IsOneChar(r) && Spec.WellFormed(r) ==> IsCharTest(encode(r, f))
  }

  lemma {:induction false} CharTestIsCharInstr(i: Instr)
    requires IsCharTest(i)
    ensures IsCharInstr(i)
  {
  }

  // Valid code stands at p, and the integer stack has room for it at this depth.
  predicate Placed(m: Machine, a: Asm, p: int, depth: int) {
    AllValid(a) && At(m.code, p, Assemble(a)) && depth + Peak(a) <= m.stackSize
  }

  // The prerequisites common to all correctness lemmas.
  predicate Ready(m: Machine, ctx: Context, a: Asm, p: int, x: nat, stack: seq<int>, captures: seq<int>,
                  s: seq<SavedState>) {
    x <= Len(m) && Placed(m, a, p, |stack|) && CapturesOk(m, captures) && Above(ctx, s)
  }

  lemma {:induction false} CharReaches(m: Machine, encode: Encoder, r: Node, f: Flags, p: int, x: nat,
                    stack: seq<int>, captures: seq<int>, s: seq<SavedState>)
    requires IsOneChar(r) && Spec.WellFormed(r) && Encodes(m, encode) && EncodesChars(encode) && x <= Len(m)
    requires ValidInstr(encode(r, f)) && At(m.code, p, Assemble([encode(r, f)]))
    ensures Reaches(m, Run(p, Offset(m.subject, x), stack, captures, s),
                    if Spec.AcceptsNext(EnvOf(m), r, f, false, x)
                    then Run(p + Size(encode(r, f)), Offset(m.subject, x + 1), stack, captures, s)
                    else Fail(s))
  {
    var i := encode(r, f);
    StepAt(m, i, p, Offset(m.subject, x), stack, captures, s);
    ReachesNext(m, Run(p, Offset(m.subject, x), stack, captures, s));
    if x < Len(m) {
      GetCharAtOffset(m.subject, x);
      assert TestChar(m, i, Chars(m.subject)[x]) == Spec.Accepts(EnvOf(m), r, f, Chars(m.subject)[x]);
    } else {
      OffsetAtEnd(m.subject);
    }
  }

  // From one instruction that moves the cursor, or fails, to the continuation.
  lemma {:induction false} YieldsMove(m: Machine, ctx: Context, backward: bool, a: Asm, ok: bool, p: int, q: int, x: nat, y: nat,
                   stack: seq<int>, captures: seq<int>, s: seq<SavedState>, k: Spec.Cont)
    requires x <= Len(m) && y <= Len(m) && CapturesOk(m, captures) && Above(ctx, s)
    requires Follows(m, ctx, backward, a, x, q, stack, k)
    requires ok ==> Lands(m, backward, Linear(a), CharCount(a), x, y)
    requires Reaches(m, Run(p, Offset(m.subject, x), stack, captures, s),
                     if ok then Run(q, Offset(m.subject, y), stack, captures, s) else Fail(s))
    ensures Yields(m, ctx, Run(p, Offset(m.subject, x), stack, captures, s), if ok then k(y, captures) else None, s)
  {
    if ok {
      YieldsAfter(m, ctx, Run(p, Offset(m.subject, x), stack, captures, s),
                  Run(q, Offset(m.subject, y), stack, captures, s), k(y, captures), s);
    }
  }

  lemma {:induction false} OneCharFacts(i: Instr)
    requires IsCharInstr(i)
    ensures Linear([i]) && CharCount([i]) == 1 && Length([i]) == Size(i)
    ensures Linear([Prev, i, Prev]) && CharCount([Prev, i, Prev]) == 1 && Length([Prev, i, Prev]) == 2 + Size(i)
  {
    assert [i][1..] == [];
    assert [Prev, i, Prev] == [Prev] + ([i] + [Prev]) && [Prev][1..] == [];
    LengthConcat([Prev], [i] + [Prev]);
    LengthConcat([i], [Prev]);
    CharCountConcat([Prev], [i] + [Prev]);
    CharCountConcat([i], [Prev]);
  }

  lemma {:induction false} ForwardCharCorrect(m: Machine, ctx: Context, encode: Encoder, r: Node, f: Flags, a: Asm, p: int, x: nat,
                           stack: seq<int>, captures: seq<int>, s: seq<SavedState>, k: Spec.Cont)
    requires IsOneChar(r) && Spec.WellFormed(r) && Encodes(m, encode) && EncodesChars(encode)
    requires a == [encode(r, f)] && IsCharInstr(a[0])
    requires Ready(m, ctx, a, p, x, stack, captures, s) && Follows(m, ctx, false, a, x, p + Length(a), stack, k)
    ensures Yields(m, ctx, Run(p, Offset(m.subject, x), stack, captures, s), Spec.CharMatcher(EnvOf(m), r, f, false)(x, captures, k), s)
  {
    hide Yields, Reaches, Follows, At, Assemble, Length, CharCount, Linear, Spec.CharMatcher, Spec.WellFormed, Encodes, EncodesChars, Size, Offset, ValidInstr;
    OneCharFacts(a[0]);
    assert ValidInstr(a[0]);
    var accepts := Spec.AcceptsNext(EnvOf(m), r, f, false, x);
    CharReaches(m, encode, r, f, p, x, stack, captures, s);
    YieldsMove(m, ctx, false, a, accepts, p, p + Length(a), x, if accepts then x + 1 else x, stack, captures, s, k);
    Spec.CharMatcherIs(EnvOf(m), r, f, false, x, captures, k);
  }

  lemma {:induction false} PrevReaches(m: Machine, p: int, x: nat, stack: seq<int>, captures: seq<int>, s: seq<SavedState>)
    requires At(m.code, p, Assemble([Prev])) && x <= Len(m)
    ensures Reaches(m, Run(p, Offset(m.subject, x), stack, captures, s),
                    if x == 0 then Fail(s) else Run(p + 1, Offset(m.subject, x - 1), stack, captures, s))
  {
    StepAt(m, Prev, p, Offset(m.subject, x), stack, captures, s);
    ReachesNext(m, Run(p, Offset(m.subject, x), stack, captures, s));
    if x > 0 {
      GetPrevCharAtOffset(m.subject, x);
    }
  }

  lemma {:induction false} BackwardPlaced(code: seq<Byte>, i: Instr, p: int)
    requires At(code, p, Assemble([Prev, i, Prev]))
    ensures At(code, p, Assemble([Prev])) && At(code, p + 1, Assemble([i])) && At(code, p + 1 + Size(i), Assemble([Prev]))
  {
    hide At, Encode;
    assert [Prev, i, Prev] == [Prev] + ([i] + [Prev]);
    PlacedConcat(code, p, [Prev], [i] + [Prev]);
    PlacedConcat(code, p + 1, [i], [Prev]);
    AssembleOne(Prev);
    AssembleOne(i);
  }

  // prev, a character instruction, prev: "accepts" tells whether the middle one accepts.
  lemma {:induction false} BackwardCharReaches(m: Machine, accepts: bool, p: int, p': int, x: nat,
                            stack: seq<int>, captures: seq<int>, s: seq<SavedState>)
    requires x <= Len(m) && At(m.code, p, Assemble([Prev])) && At(m.code, p', Assemble([Prev]))
    requires x > 0 ==> Reaches(m, Run(p + 1, Offset(m.subject, x - 1), stack, captures, s),
                               if accepts then Run(p', Offset(m.subject, x), stack, captures, s) else Fail(s))
    ensures Reaches(m, Run(p, Offset(m.subject, x), stack, captures, s),
                    if x > 0 && accepts then Run(p' + 1, Offset(m.subject, x - 1), stack, captures, s) else Fail(s))
  {
    var c := Run(p, Offset(m.subject, x), stack, captures, s);
    PrevReaches(m, p, x, stack, captures, s);
    if x > 0 {
      var c1 := Run(p + 1, Offset(m.subject, x - 1), stack, captures, s);
      var c2 := Run(p', Offset(m.subject, x), stack, captures, s);
      var c3 := Run(p' + 1, Offset(m.subject, x - 1), stack, captures, s);
      if accepts {
        PrevReaches(m, p', x, stack, captures, s);
        ReachesTrans3(m, c, c1, c2, c3);
      } else {
        ReachesTrans(m, c, c1, Fail(s));
      }
    }
  }

  lemma {:induction false} BackwardCharCorrect(m: Machine, ctx: Context, encode: Encoder, r: Node, f: Flags, a: Asm, p: int, x: nat,
                            stack: seq<int>, captures: seq<int>, s: seq<SavedState>, k: Spec.Cont)
    requires IsOneChar(r) && Spec.WellFormed(r) && Encodes(m, encode) && EncodesChars(encode)
    requires a == [Prev, encode(r, f), Prev] && IsCharInstr(a[1])
    requires Ready(m, ctx, a, p, x, stack, captures, s) && Follows(m, ctx, true, a, x, p + Length(a), stack, k)
    ensures Yields(m, ctx, Run(p, Offset(m.subject, x), stack, captures, s), Spec.CharMatcher(EnvOf(m), r, f, true)(x, captures, k), s)
  {
    hide Yields, Reaches, Follows, At, Assemble, Length, CharCount, Linear, Spec.CharMatcher, Spec.WellFormed, Encodes, EncodesChars, Size, Offset, ValidInstr;
    OneCharFacts(a[1]);
    assert ValidInstr(a[1]);
    BackwardPlaced(m.code, a[1], p);
    var p' := p + 1 + Size(a[1]);
    var accepts := Spec.AcceptsNext(EnvOf(m), r, f, true, x);
    if x > 0 {
      CharReaches(m, encode, r, f, p + 1, x - 1, stack, captures, s);
    }
    BackwardCharReaches(m, accepts, p, p', x, stack, captures, s);
    YieldsMove(m, ctx, true, a, accepts, p, p + Length(a), x, if accepts then x - 1 else x, stack, captures, s, k);
    Spec.CharMatcherIs(EnvOf(m), r, f, true, x, captures, k);
  }

  // ---------------------------------------------------------------------------
  // Assertions

  lemma {:induction false} AssertionStep(m: Machine, r: Node, f: Flags, i: Instr, x: nat)
    requires r.LineStart? || r.LineEnd? || r.WordBoundary?
    requires i == AssertionInstr(r, f) && x <= Len(m) && Spec.CanonOk(m.canon)
    ensures TestPosition(m, i, Offset(m.subject, x)) == Spec.AssertionHolds(EnvOf(m), r, f, x)
  {
    if x > 0 {
      GetPrevCharAtOffset(m.subject, x);
    }
    OffsetAtEnd(m.subject);
    if x < Len(m) {
      GetCharAtOffset(m.subject, x);
    }
  }

  lemma {:induction false} AssertionReaches(m: Machine, r: Node, f: Flags, p: int, x: nat, stack: seq<int>, captures: seq<int>,
                         s: seq<SavedState>)
    requires r.LineStart? || r.LineEnd? || r.WordBoundary?
    requires x <= Len(m) && Spec.CanonOk(m.canon) && At(m.code, p, Assemble([AssertionInstr(r, f)]))
    ensures Reaches(m, Run(p, Offset(m.subject, x), stack, captures, s),
                    if Spec.AssertionHolds(EnvOf(m), r, f, x)
                    then Run(p + 1, Offset(m.subject, x), stack, captures, s) else Fail(s))
  {
    var i := AssertionInstr(r, f);
    StepAt(m, i, p, Offset(m.subject, x), stack, captures, s);
    AssertionStep(m, r, f, i, x);
    ReachesNext(m, Run(p, Offset(m.subject, x), stack, captures, s));
  }

  lemma {:induction false} AssertionCorrect(m: Machine, ctx: Context, r: Node, f: Flags, backward: bool, p: int, x: nat,
                         stack: seq<int>, captures: seq<int>, s: seq<SavedState>, k: Spec.Cont)
    requires r.LineStart? || r.LineEnd? || r.WordBoundary?
    requires Spec.CanonOk(m.canon)
    requires var a := [AssertionInstr(r, f)];
             Ready(m, ctx, a, p, x, stack, captures, s) && Follows(m, ctx, backward, a, x, p + Length(a), stack, k)
    ensures Yields(m, ctx, Run(p, Offset(m.subject, x), stack, captures, s),
                   Spec.AssertionMatcher(EnvOf(m), r, f)(x, captures, k), s)
  {
    hide Yields, Reaches, Follows, At, Assemble, Length, CharCount, Linear, Spec.AssertionMatcher, Spec.AssertionHolds, Spec.CanonOk, Offset;
    var i := AssertionInstr(r, f);
    OneAssertion(i);
    AssertionReaches(m, r, f, p, x, stack, captures, s);
    YieldsMove(m, ctx, backward, [i], Spec.AssertionHolds(EnvOf(m), r, f, x), p, p + 1, x, x, stack, captures, s, k);
    Spec.AssertionMatcherIs(EnvOf(m), r, f, x, captures, k);
  }

  lemma {:induction false} OneAssertion(i: Instr)
    requires Size(i) == 1 && !IsCharInstr(i)
    ensures Length([i]) == 1 && CharCount([i]) == 0
  {
    assert [i][1..] == [];
  }

  // ---------------------------------------------------------------------------
  // The other instructions, one step each

  // Popping the last state.
  lemma {:induction false} Pops(m: Machine, s: seq<SavedState>, top: SavedState, captures: seq<int>)
    ensures top.kind == SplitState || top.kind == NegativeLookaheadState ==>
              Step(m, Fail(s + [top])) == Run(top.pc, top.pos, top.stack, top.captures, s)
    ensures top.kind == LookaheadState ==> Step(m, Fail(s + [top])) == Fail(s)
    ensures top.kind == LookaheadState ==> Step(m, Succeed(captures, s + [top])) == Run(top.pc, top.pos, top.stack, captures, s)
    ensures top.kind == NegativeLookaheadState ==> Step(m, Succeed(captures, s + [top])) == Fail(s)
  {
    hide StepInstr, Fetch, StepBack;
    assert (s + [top])[..|s|] == s;
  }

  lemma {:induction false} StepOfSplit(m: Machine, gotoFirst: bool, off: int, p: int, pos: int, stack: seq<int>, captures: seq<int>, s: seq<SavedState>)
    requires ValidPos(m.subject, pos)
    ensures var (first, second) := if gotoFirst then (p + 5 + off, p + 5) else (p + 5, p + 5 + off);
            StepInstr(m, Split(gotoFirst, off), p, pos, stack, captures, s) ==
            Run(first, pos, stack, captures, s + [SavedState(SplitState, 0, pos, second, captures, stack)])
  {
  }

  lemma {:induction false} StepOfLook(m: Machine, negative: bool, off: int, p: int, pos: int, stack: seq<int>, captures: seq<int>, s: seq<SavedState>)
    requires ValidPos(m.subject, pos)
    ensures var kind := if negative then NegativeLookaheadState else LookaheadState;
            StepInstr(m, Look(negative, off), p, pos, stack, captures, s) ==
            Run(p + 5, pos, stack, captures, s + [SavedState(kind, 0, pos, p + 5 + off, captures, stack)])
  {
  }

  lemma {:induction false} SplitReaches(m: Machine, gotoFirst: bool, off: int, p: int, pos: int, stack: seq<int>, captures: seq<int>,
                     s: seq<SavedState>)
    requires ValidOffset(off) && At(m.code, p, Assemble([Split(gotoFirst, off)])) && ValidPos(m.subject, pos)
    ensures var (first, second) := if gotoFirst then (p + 5 + off, p + 5) else (p + 5, p + 5 + off);
            var top := SavedState(SplitState, 0, pos, second, captures, stack);
            && Reaches(m, Run(p, pos, stack, captures, s), Run(first, pos, stack, captures, s + [top]))
            && Reaches(m, Fail(s + [top]), Run(second, pos, stack, captures, s))
  {
    hide Assemble, At, Step, StepInstr, Reaches;
    var second := if gotoFirst then p + 5 else p + 5 + off;
    var top := SavedState(SplitState, 0, pos, second, captures, stack);
    StepAt(m, Split(gotoFirst, off), p, pos, stack, captures, s);
    StepOfSplit(m, gotoFirst, off, p, pos, stack, captures, s);
    Pops(m, s, top, captures);
    ReachesNext(m, Run(p, pos, stack, captures, s));
    ReachesNext(m, Fail(s + [top]));
  }

  lemma {:induction false} GotoReaches(m: Machine, off: int, p: int, pos: int, stack: seq<int>, captures: seq<int>, s: seq<SavedState>)
    requires ValidOffset(off) && At(m.code, p, Assemble([Goto(off)])) && ValidPos(m.subject, pos)
    ensures Reaches(m, Run(p, pos, stack, captures, s), Run(p + 5 + off, pos, stack, captures, s))
  {
    StepAt(m, Goto(off), p, pos, stack, captures, s);
    ReachesNext(m, Run(p, pos, stack, captures, s));
  }

  lemma {:induction false} SaveReaches(m: Machine, i: Instr, p: int, x: nat, stack: seq<int>, captures: seq<int>, s: seq<SavedState>)
    requires (i.SaveStart? || i.SaveEnd?) && ValidInstr(i) && 0 <= i.group < m.captureCount
    requires At(m.code, p, Assemble([i])) && x <= Len(m) && CapturesOk(m, captures)
    ensures Reaches(m, Run(p, Offset(m.subject, x), stack, captures, s),
                    Run(p + 2, Offset(m.subject, x), stack, Spec.Put(captures, Slot(i), EnvOf(m).mark(x)), s))
  {
    StepAt(m, i, p, Offset(m.subject, x), stack, captures, s);
    ReachesNext(m, Run(p, Offset(m.subject, x), stack, captures, s));
  }

  // The capture that save_start or save_end sets.
  function Slot(i: Instr): (slot: nat)
    requires (i.SaveStart? || i.SaveEnd?) && i.group >= 0
  {
    if i.SaveStart? then 2 * i.group else 2 * i.group + 1
  }

  lemma {:induction false} ResetReaches(m: Machine, first: nat, last: nat, p: int, pos: int, stack: seq<int>,
                     captures: seq<int>, s: seq<SavedState>)
    requires first <= last < m.captureCount && ValidInstr(SaveReset(first, last))
    requires At(m.code, p, Assemble([SaveReset(first, last)])) && ValidPos(m.subject, pos) && CapturesOk(m, captures)
    ensures Reaches(m, Run(p, pos, stack, captures, s), Run(p + 3, pos, stack, Spec.Clear(captures, first, last + 1), s))
  {
    StepAt(m, SaveReset(first, last), p, pos, stack, captures, s);
    ReachesNext(m, Run(p, pos, stack, captures, s));
    assert ResetCaptures(captures, first, last) == Spec.Clear(captures, first, last + 1);
  }

  lemma {:induction false} PushReaches(m: Machine, i: Instr, p: int, pos: int, stack: seq<int>, captures: seq<int>, s: seq<SavedState>)
    requires (i.PushI32? || i.PushCharPos?) && ValidInstr(i) && |stack| < m.stackSize
    requires At(m.code, p, Assemble([i])) && ValidPos(m.subject, pos)
    ensures Reaches(m, Run(p, pos, stack, captures, s),
                    Run(p + Size(i), pos, stack + [if i.PushI32? then i.v else pos], captures, s))
  {
    StepAt(m, i, p, pos, stack, captures, s);
    ReachesNext(m, Run(p, pos, stack, captures, s));
  }

  lemma {:induction false} DropReaches(m: Machine, p: int, pos: int, stack: seq<int>, v: int, captures: seq<int>, s: seq<SavedState>)
    requires At(m.code, p, Assemble([Drop])) && ValidPos(m.subject, pos)
    ensures Reaches(m, Run(p, pos, stack + [v], captures, s), Run(p + 1, pos, stack, captures, s))
  {
    StepAt(m, Drop, p, pos, stack + [v], captures, s);
    ReachesNext(m, Run(p, pos, stack + [v], captures, s));
    assert (stack + [v])[..|stack|] == stack;
  }

  lemma {:induction false} LoopReaches(m: Machine, off: int, p: int, pos: int, stack: seq<int>, v: int, captures: seq<int>, s: seq<SavedState>)
    requires ValidOffset(off) && At(m.code, p, Assemble([Loop(off)])) && ValidPos(m.subject, pos) && v > 0
    ensures Reaches(m, Run(p, pos, stack + [v], captures, s),
                    Run(if v > 1 then p + 5 + off else p + 5, pos, stack + [v - 1], captures, s))
  {
    StepAt(m, Loop(off), p, pos, stack + [v], captures, s);
    ReachesNext(m, Run(p, pos, stack + [v], captures, s));
    assert (stack + [v])[|stack| := v - 1] == stack + [v - 1];
  }

  lemma {:induction false} CheckReaches(m: Machine, p: int, pos: int, stack: seq<int>, v: int, captures: seq<int>, s: seq<SavedState>)
    requires At(m.code, p, Assemble([CheckAdvance])) && ValidPos(m.subject, pos)
    ensures Reaches(m, Run(p, pos, stack + [v], captures, s),
                    if v == pos then Fail(s) else Run(p + 1, pos, stack, captures, s))
  {
    StepAt(m, CheckAdvance, p, pos, stack + [v], captures, s);
    ReachesNext(m, Run(p, pos, stack + [v], captures, s));
    assert (stack + [v])[..|stack|] == stack;
  }

  lemma {:induction false} MatchReaches(m: Machine, p: int, pos: int, stack: seq<int>, captures: seq<int>, s: seq<SavedState>)
    requires At(m.code, p, Assemble([Match])) && ValidPos(m.subject, pos)
    ensures Reaches(m, Run(p, pos, stack, captures, s), Succeed(captures, s))
  {
    StepAt(m, Match, p, pos, stack, captures, s);
    ReachesNext(m, Run(p, pos, stack, captures, s));
  }

  // A lookaround saves its state; its outcome decides whether and where the match resumes.
  lemma {:induction false} LookReaches(m: Machine, negative: bool, off: int, p: int, pos: int, stack: seq<int>, captures: seq<int>,
                    s: seq<SavedState>, top: SavedState)
    requires ValidOffset(off) && At(m.code, p, Assemble([Look(negative, off)])) && ValidPos(m.subject, pos)
    requires top == SavedState(if negative then NegativeLookaheadState else LookaheadState, 0, pos, p + 5 + off, captures, stack)
    ensures Reaches(m, Run(p, pos, stack, captures, s), Run(p + 5, pos, stack, captures, s + [top]))
    ensures Reaches(m, Fail(s + [top]),
                    if negative then Run(p + 5 + off, pos, stack, captures, s) else Fail(s))
    ensures forall captures': seq<int> {:trigger Succeed(captures', s + [top])} ::
              Reaches(m, Succeed(captures', s + [top]),
                      if negative then Fail(s) else Run(p + 5 + off, pos, stack, captures', s))
  {
    hide Assemble, At, Step, StepInstr, Reaches;
    StepAt(m, Look(negative, off), p, pos, stack, captures, s);
    StepOfLook(m, negative, off, p, pos, stack, captures, s);
    ReachesNext(m, Run(p, pos, stack, captures, s));
    Pops(m, s, top, captures);
    ReachesNext(m, Fail(s + [top]));
    forall captures': seq<int>
      ensures Reaches(m, Succeed(captures', s + [top]),
                      if negative then Fail(s) else Run(p + 5 + off, pos, stack, captures', s))
    {
      Pops(m, s, top, captures');
      ReachesNext(m, Succeed(captures', s + [top]));
    }
  }

  // A success drops every alternative left above the base: lookarounds are atomic.
  lemma {:induction false} SucceedUnwinds(m: Machine, ctx: Context, captures: seq<int>, s: seq<SavedState>)
    requires Above(ctx, s)
    ensures Reaches(m, Succeed(captures, s), Succeed(captures, ctx))
    decreases |s|
  {
    if |s| == |ctx| {
      assert s == ctx;
      ReachesSelf(m, Succeed(captures, s));
    } else {
      var n := |s| - 1;
      assert s[|ctx|..][n - |ctx|] == s[n];
      assert s[..n][|ctx|..] == s[|ctx|..][..n - |ctx|];
      ReachesNext(m, Succeed(captures, s));
      SucceedUnwinds(m, ctx, captures, s[..n]);
      ReachesTrans(m, Succeed(captures, s), Succeed(captures, s[..n]), Succeed(captures, ctx));
    }
  }
}
