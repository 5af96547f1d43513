// Two patterns with a group that may be stale: in one it is on some subject, in the other
// it never is.
module RegexStale {
  import opened Wrappers
  import opened RegexSpec
  import opened RegexCaptures
  import opened RegexTracking
  import opened RegexInput
  import opened RegexMachine
  import opened RegexSteps
  import opened RegexTheorem

  const NO_FLAGS := Flags(false, false, false)
  const A := 'a' as int
  const B := 'b' as int

  // (?:(a)|l)*
  function Repeated(l: int): (r: Node) {
    Quant(EitherLetter(l), 0, INFINITE, true)
  }

  function EitherLetter(l: int): (r: Node) {
    Alt(Capture(Literal(A)), Literal(l))
  }

  predicate IsAt(env: Env, x: nat, l: int) {
    x < |env.chars| && env.chars[x] == l
  }

  // The group has matched the character at x.
  function WithGroup(env: Env, c: Marks, x: nat): (d: Marks)
    requires |c| == 4
  {
    c[2 := env.mark(x)][3 := env.mark(x + 1)]
  }

  lemma {:induction false} LetterMatches(env: Env, l: int, x: nat, c: Marks, k: Cont)
    ensures CharMatcher(env, Literal(l), NO_FLAGS, false)(x, c, k) == if IsAt(env, x, l) then k(x + 1, c) else None
  {
    CharMatcherIs(env, Literal(l), NO_FLAGS, false, x, c, k);
  }

  lemma {:induction false} GroupMatches(env: Env, how: Discipline, x: nat, c: Marks, k: Cont)
    requires |c| == 4 && how != Tracked
    ensures Compile(env, Capture(Literal(A)), NO_FLAGS, false, 1, how)(x, c, k) ==
            if IsAt(env, x, A) then k(x + 1, WithGroup(env, c, x)) else None
  {
    hide Compile, CharMatcher;
    CompileNested(env, Literal(A), NO_FLAGS, false, 1, how);
    CompileLeaf(env, Literal(A), NO_FLAGS, false, 2, how);
    var m := CharMatcher(env, Literal(A), NO_FLAGS, false);
    if how == Emitted {
      var l := Then(PutMatcher(env, 3), k);
      EmittedGroup(env, m, false, 1, x, c, k);
      LetterMatches(env, A, x, Put(c, 2, env.mark(x)), l);
      assert l(x + 1, Put(c, 2, env.mark(x))) == k(x + 1, Put(Put(c, 2, env.mark(x)), 3, env.mark(x + 1)));
    } else {
      LetterMatches(env, A, x, c, CaptureCont(env, false, 1, x, k, how));
      CaptureContIs(env, false, 1, x, k, x + 1, c, how);
    }
  }

  lemma {:induction false} EitherLetterMatches(env: Env, l: int, how: Discipline, x: nat, c: Marks, k: Cont)
    requires |c| == 4 && how != Tracked
    ensures Compile(env, EitherLetter(l), NO_FLAGS, false, 1, how)(x, c, k) ==
            OrElse(if IsAt(env, x, A) then k(x + 1, WithGroup(env, c, x)) else None, if IsAt(env, x, l) then k(x + 1, c) else None)
  {
    hide Compile, CharMatcher, WithGroup;
    var a, b := Capture(Literal(A)), Literal(l);
    CompileSeq(env, a, b, NO_FLAGS, false, 1, how);
    CompileLeaf(env, b, NO_FLAGS, false, 1 + Captures(a), how);
    GroupMatches(env, how, x, c, k);
    LetterMatches(env, l, x, c, k);
  }

  ghost function Iteration(env: Env, l: int, how: Discipline): (m: Matcher) {
    IterationOf(Compile(env, EitherLetter(l), NO_FLAGS, false, 1, how), 1, 2, how)
  }

  // One iteration: an a sets the group, another letter does not.
  lemma {:induction false} IterationMatches(env: Env, l: int, how: Discipline, x: nat, c: Marks, k: Cont)
    requires |c| == 4 && how != Tracked
    ensures var d := AtIteration(c, 1, 2, how);
            Iteration(env, l, how)(x, c, k) ==
            OrElse(if IsAt(env, x, A) then k(x + 1, WithGroup(env, d, x)) else None, if IsAt(env, x, l) then k(x + 1, d) else None)
  {
    hide Compile, WithGroup, IterationOf;
    IterationIs(Compile(env, EitherLetter(l), NO_FLAGS, false, 1, how), 1, 2, how, x, c, k);
    EitherLetterMatches(env, l, how, x, AtIteration(c, 1, 2, how), k);
  }

  // One iteration of the loop, then the rest.
  lemma {:induction false} LoopStep(env: Env, l: int, how: Discipline, x: nat, c: Marks, k: Cont)
    requires |c| == 4 && how != Tracked && x <= |env.chars|
    ensures var d := AtIteration(c, 1, 2, how);
            Loop(env, l, how, x, c, k) ==
            OrElse(OrElse(if IsAt(env, x, A) then Loop(env, l, how, x + 1, WithGroup(env, d, x), k) else None,
                          if IsAt(env, x, l) then Loop(env, l, how, x + 1, d, k) else None), k(x, c))
  {
    hide Compile, Iteration, WithGroup, AtIteration;
    var m := Iteration(env, l, how);
    var d := RepeatCont(env, m, false, 0, INFINITE, true, x, k);
    IterationMatches(env, l, how, x, c, d);
    assert x < |env.chars| ==> Ahead(env, false, x, x + 1);
    assert Max(-1, 0) == 0 && Less(INFINITE) == INFINITE;
    assert forall e: Marks {:trigger d(x + 1, e)} :: x < |env.chars| ==> d(x + 1, e) == Loop(env, l, how, x + 1, e, k);
  }

  ghost function Loop(env: Env, l: int, how: Discipline, x: nat, c: Marks, k: Cont): (z: Result) {
    Repeat(env, Iteration(env, l, how), false, 0, INFINITE, true, x, c, k)
  }

  // The loop is the whole pattern as long as the group is not set.
  lemma {:induction false} LoopBegins(env: Env, l: int, how: Discipline, x: nat, c: Marks, k: Cont)
    requires |c| == 4 && c[2] == c[3] == UNSET && how != Tracked
    ensures Compile(env, Repeated(l), NO_FLAGS, false, 1, how)(x, c, k) == Loop(env, l, how, x, c, k)
  {
    hide Compile, Repeat, QuantMatcher, IterationOf;
    CompileQuant(env, EitherLetter(l), 0, INFINITE, true, NO_FLAGS, false, 1, how);
    OneGroup(l);
    QuantIsRepeat(env, Compile(env, EitherLetter(l), NO_FLAGS, false, 1, how), false, 0, INFINITE, true, 1, 2, how, x, c, k);
    assert Clear(c, 1, 2) == c;
  }

  // A continuation that always succeeds.
  ghost predicate Total(k: Cont) {
    forall y: nat, d: Marks {:trigger k(y, d)} :: k(y, d).Some?
  }

  // How the match of the whole pattern begins, and how it goes on behind the loop.
  function AtStart(env: Env, x: nat, how: Discipline): (c: Marks)
    ensures |c| == 4 && c[2] == c[3] == UNSET
  {
    if how == Emitted then Unset(2)[0 := env.mark(x)] else Unset(2)
  }

  ghost function AtEnd(env: Env, x: nat, how: Discipline): (k: Cont) {
    if how == Emitted then Then(PutMatcher(env, 1), Accept) else CaptureCont(env, false, 0, x, Accept, how)
  }

  lemma {:induction false} AtEndIs(env: Env, x: nat, how: Discipline, y: nat, d: Marks)
    requires how != Tracked
    ensures AtEnd(env, x, how)(y, d).Some?
    ensures |d| == 4 && d[0] == AtStart(env, x, how)[0] ==>
              AtEnd(env, x, how)(y, d) == Some(State(y, [env.mark(x), env.mark(y), d[2], d[3]]))
  {
    if how == Emitted {
      assert AtEnd(env, x, how)(y, d) == PutMatcher(env, 1)(y, d, Accept) == Accept(y, Put(d, 1, env.mark(y)));
      if |d| == 4 && d[0] == env.mark(x) {
        assert Put(d, 1, env.mark(y)) == [env.mark(x), env.mark(y), d[2], d[3]];
      }
    } else {
      CaptureContIs(env, false, 0, x, Accept, y, d, how);
      if |d| == 4 {
        assert Grouped(env, false, 0, x, y, d, how) == [env.mark(x), env.mark(y), d[2], d[3]];
      }
    }
  }

  // If the loop ends at y with the captures d, so does the search.
  lemma {:induction false} FindLoop(env: Env, l: int, sticky: bool, x: nat, how: Discipline, y: nat, d: Marks)
    requires x <= |env.chars| && how != Tracked && |d| == 4 && d[0] == AtStart(env, x, how)[0]
    requires Loop(env, l, how, x, AtStart(env, x, how), AtEnd(env, x, how)) == AtEnd(env, x, how)(y, d)
    ensures Find(env, Repeated(l), NO_FLAGS, sticky, x, how) == Some([env.mark(x), env.mark(y), d[2], d[3]])
  {
    hide Compile, Loop, Find, AtEnd;
    FindFirst(env, Repeated(l), NO_FLAGS, sticky, x, how);
    OneGroup(l);
    WholeIsLoop(env, l, x, how);
    AtEndIs(env, x, how, y, d);
  }

  lemma {:induction false} OneGroup(l: int)
    ensures Captures(Repeated(l)) == Captures(EitherLetter(l)) == 1
  {
    assert Captures(Literal(A)) == 0 && Captures(Literal(l)) == 0 && Captures(Capture(Literal(A))) == 1;
  }

  lemma {:induction false} WholeIsLoop(env: Env, l: int, x: nat, how: Discipline)
    requires how != Tracked
    ensures Compile(env, Capture(Repeated(l)), NO_FLAGS, false, 0, how)(x, Unset(2), Accept) ==
            Loop(env, l, how, x, AtStart(env, x, how), AtEnd(env, x, how))
  {
    hide Compile, Loop;
    CompileNested(env, Repeated(l), NO_FLAGS, false, 0, how);
    var m := Compile(env, Repeated(l), NO_FLAGS, false, 1, how);
    LoopBegins(env, l, how, x, AtStart(env, x, how), AtEnd(env, x, how));
    if how == Emitted {
      EmittedGroup(env, m, false, 0, x, Unset(2), Accept);
    } else {
      assert CaptureMatcher(env, m, false, 0, how)(x, Unset(2), Accept) == m(x, Unset(2), AtEnd(env, x, how));
    }
  }

  // A pattern that matches at the start position is found there.
  lemma {:induction false} FindFirst(env: Env, r: Node, f: Flags, sticky: bool, x: nat, how: Discipline)
    requires x <= |env.chars| && how != Tracked
    ensures var o := Compile(env, Capture(r), f, false, 0, how)(x, Unset(1 + Captures(r)), Accept);
            o.Some? ==> Find(env, r, f, sticky, x, how) == Some(o.value.captures)
  {
    hide Compile, Captures;
  }

  lemma {:induction false} GroupMayBeStale(l: int)
    ensures StaleGroups(Repeated(l)) == {2, 3}
  {
    var a, b := Literal(A), Literal(l);
    assert Settable(a, 2) == {} && Settable(b, 2) == {};
    assert Settable(Capture(a), 1) == {2, 3};
    assert Captures(Capture(a)) == 1;
    assert Stale(EitherLetter(l), 1, false) == Settable(EitherLetter(l), 1) == {2, 3};
    assert StaleGroups(Repeated(l)) == Stale(Repeated(l), 1, true);
  }

  // ---------------------------------------------------------------------------
  // (?:(a)|b)* on "ab"

  // The specification leaves the group unset, the code returns the a.
  lemma {:induction false} StaleGroup(env: Env, sticky: bool)
    requires env.chars == [A, B]
    ensures Find(env, Repeated(B), NO_FLAGS, sticky, 0, Standard) == Some([env.mark(0), env.mark(2), UNSET, UNSET])
    ensures Find(env, Repeated(B), NO_FLAGS, sticky, 0, Emitted) == Some([env.mark(0), env.mark(2), env.mark(0), env.mark(1)])
    ensures StaleGroups(Repeated(B)) == {2, 3}
  {
    hide Find;
    BothLetters(env, sticky, Standard);
    BothLetters(env, sticky, Emitted);
    GroupMayBeStale(B);
  }

  // A machine with the compiled pattern halts with the group set to the a.
  lemma {:induction false} StaleRun(m: Machine, sticky: bool) returns (n: nat)
    requires Compiled(m, Repeated(B), NO_FLAGS, sticky) && m.subject.units == [A, B]
    ensures Steps(m, Start(m, 0), n) == Halt(true, [0, 2, 0, 1])
    ensures Found(m, Repeated(B), NO_FLAGS, sticky, 0, Standard) == Some([0, 2, UNSET, UNSET])
  {
    hide Compiled, Steps, Start, Find;
    TwoUnits(m.subject);
    n := ExecComputes(m, Repeated(B), NO_FLAGS, sticky, 0);
    StaleGroup(EnvOf(m), sticky);
  }

  lemma {:induction false} TwoUnits(s: Subject)
    requires s.units == [A, B]
    ensures Chars(s) == [A, B] && Offset(s, 0) == 0 && Offset(s, 1) == 1 && Offset(s, 2) == 2
  {
    assert CharsFrom(s, 2) == [] && CharsFrom(s, 1) == [B] && CharsFrom(s, 0) == [A, B];
  }

  lemma {:induction false} BothLetters(env: Env, sticky: bool, how: Discipline)
    requires env.chars == [A, B] && how != Tracked
    ensures var d := AtIteration(WithGroup(env, AtStart(env, 0, how), 0), 1, 2, how);
            Find(env, Repeated(B), NO_FLAGS, sticky, 0, how) == Some([env.mark(0), env.mark(2), d[2], d[3]])
  {
    hide Loop, Find, AtEnd, WithGroup, AtStart;
    var c, k := AtStart(env, 0, how), AtEnd(env, 0, how);
    var c1 := WithGroup(env, AtIteration(c, 1, 2, how), 0);
    var d := AtIteration(c1, 1, 2, how);
    GroupKept(env, c, 0, how);
    AtEndIs(env, 0, how, 2, d);
    LoopStep(env, B, how, 0, c, k);
    LoopStep(env, B, how, 1, c1, k);
    LoopStep(env, B, how, 2, d, k);
    FindLoop(env, B, sticky, 0, how, 2, d);
  }

  // What an iteration sets does not depend on what was set before; the rest is kept.
  lemma {:induction false} GroupKept(env: Env, c: Marks, x: nat, how: Discipline)
    requires |c| == 4
    ensures WithGroup(env, AtIteration(c, 1, 2, how), x) == WithGroup(env, c, x)
    ensures |WithGroup(env, c, x)| == 4 && WithGroup(env, c, x)[0] == c[0] && AtIteration(WithGroup(env, c, x), 1, 2, how)[0] == c[0]
  {
  }

  // ---------------------------------------------------------------------------
  // (?:(a)|a)*: the second branch is never taken

  // The first position from x without an a.
  function EndOfAs(env: Env, x: nat): (y: nat)
    ensures x <= y
    decreases |env.chars| - x
  {
    if IsAt(env, x, A) then EndOfAs(env, x + 1) else x
  }

  function LastA(env: Env, c: Marks, x: nat, y: nat): (d: Marks)
    requires |c| == 4 && x <= y
  {
    if x == y then c else WithGroup(env, c, y - 1)
  }

  lemma {:induction false} LoopOfAs(env: Env, how: Discipline, x: nat, c: Marks, k: Cont)
    requires |c| == 4 && how != Tracked && x <= |env.chars| && Total(k)
    ensures var y := EndOfAs(env, x); Loop(env, A, how, x, c, k) == k(y, LastA(env, c, x, y))
    decreases |env.chars| - x
  {
    hide Loop, AtIteration;
    LoopStep(env, A, how, x, c, k);
    if IsAt(env, x, A) {
      var y, c1 := EndOfAs(env, x + 1), WithGroup(env, c, x);
      GroupKept(env, c, x, how);
      LoopOfAs(env, how, x + 1, c1, k);
      assert LastA(env, c1, x + 1, y) == LastA(env, c, x, y);
    }
  }

  // Listed as possibly stale, the group is that of the specification on every subject.
  lemma {:induction false} NeverStale(env: Env, sticky: bool, x: nat)
    requires x <= |env.chars|
    ensures Find(env, Repeated(A), NO_FLAGS, sticky, x, Emitted) == Find(env, Repeated(A), NO_FLAGS, sticky, x, Standard)
    ensures StaleGroups(Repeated(A)) == {2, 3}
  {
    hide Find;
    OnlyAs(env, sticky, x, Standard);
    OnlyAs(env, sticky, x, Emitted);
    GroupMayBeStale(A);
  }

  lemma {:induction false} OnlyAs(env: Env, sticky: bool, x: nat, how: Discipline)
    requires x <= |env.chars| && how != Tracked
    ensures var y := EndOfAs(env, x);
            Find(env, Repeated(A), NO_FLAGS, sticky, x, how) ==
            Some([env.mark(x), env.mark(y), if x == y then UNSET else env.mark(y - 1), if x == y then UNSET else env.mark(y)])
  {
    hide Loop, Find, AtEnd;
    var c, k, y := AtStart(env, x, how), AtEnd(env, x, how), EndOfAs(env, x);
    forall z: nat, d: Marks
      ensures k(z, d).Some?
    {
      AtEndIs(env, x, how, z, d);
    }
    LoopOfAs(env, how, x, c, k);
    FindLoop(env, A, sticky, x, how, y, LastA(env, c, x, y));
  }
}
