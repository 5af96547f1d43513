// The machine with its explicit stack of saved states, compared with a recursive backtracking
// matcher on the same bytecode. Nothing is assumed about the code.
module RegexBacktrack {
  import opened Bytes
  import opened RegexOpcode
  import opened RegexMachine
  import opened RegexSteps

  // What a position of the code yields: the captures of the first match, no match, or no
  // answer, because the code leaves the defined behaviour or the depth was not enough.
  datatype Outcome = Matched(captures: seq<int>) | Failed | Broken | Unfinished

  // The recursive matcher. Alternatives are tried one after the other, each from the same
  // position, stack and captures; a lookaround asks for one match of its body, and a negative
  // one goes on with the captures it started with.
  function Explore(m: Machine, pc: int, pos: int, stack: seq<int>, captures: seq<int>, depth: nat): (o: Outcome)
    decreases depth, 0
  {
    var f := Fetch(m.code, pc);
    if depth == 0 then Unfinished
    else if f.None? || !ValidPos(m.subject, pos) then Broken
    else
      var next := pc + Size(f.value);
      match f.value
      case Match => Matched(captures)
      case Split(gotoFirst, off) =>
        var o := Explore(m, if gotoFirst then next + off else next, pos, stack, captures, depth - 1);
        if o != Failed then o
        else Explore(m, if gotoFirst then next else next + off, pos, stack, captures, depth - 1)
      case Look(negative, off) =>
        var o := Explore(m, next, pos, stack, captures, depth - 1);
        if o.Broken? || o.Unfinished? then o
        else if o.Matched? == negative then Failed
        else Explore(m, next + off, pos, stack, if negative then captures else o.captures, depth - 1)
      case SimpleGreedyQuant(off, min, max, count) =>
        var r := RunGreedy(m, next, pos, 0, max);
        if r.None? || count < 0 then Broken
        else if r.value.1 < min then Failed
        else GiveBack(m, next + off, r.value.0, r.value.1 - min, count, stack, captures, depth - 1)
      case i =>
        var c := StepInstr(m, i, pc, pos, stack, captures, []);
        if c.Run? then Explore(m, c.pc, c.pos, c.stack, c.captures, depth - 1)
        else if c.Fail? then Failed
        else Broken
  }

  // Going on from "pos", or from up to n iterations of "count" characters before it.
  function GiveBack(m: Machine, pc: int, pos: int, n: nat, count: nat, stack: seq<int>, captures: seq<int>, depth: nat): (o: Outcome)
    requires ValidPos(m.subject, pos)
    decreases depth, n + 1
  {
    var o := Explore(m, pc, pos, stack, captures, depth);
    if o != Failed || n == 0 then o
    else
      var back := StepBack(m.subject, pos, count);
      if back.None? then Broken
      else GiveBack(m, pc, back.value, n - 1, count, stack, captures, depth)
  }

  // ---------------------------------------------------------------------------
  // Steps of the machine

  predicate Ended(c: Config) {
    c.Halt? || c == Stuck
  }

  lemma {:induction false} StepsAdd(m: Machine, c: Config, j: nat, k: nat)
    ensures Steps(m, c, j + k) == Steps(m, Steps(m, c, j), k)
    decreases k
  {
    hide Step;
    if k > 0 {
      StepsAdd(m, c, j, k - 1);
    }
  }

  // A run that has ended stays as it is.
  lemma {:induction false} EndedStays(m: Machine, c: Config, j: nat, k: nat)
    requires j <= k && Ended(Steps(m, c, j))
    ensures Steps(m, c, k) == Steps(m, c, j)
    decreases k
  {
    if j < k {
      EndedStays(m, c, j, k - 1);
    }
  }

  lemma {:induction false} ReachesInSteps(m: Machine, c: Config, d: Config) returns (n: nat)
    requires Reaches(m, c, d)
    ensures Steps(m, c, n) == d
  {
    hide Step;
    var t :| IsRun(m, t) && t[0] == c && t[|t| - 1] == d;
    n := |t| - 1;
    RunIsSteps(m, t, n);
  }

  // The machine does not end within n steps.
  ghost predicate RunsFor(m: Machine, c: Config, n: nat) {
    !Ended(Steps(m, c, n))
  }

  lemma {:induction false} RunsForMore(m: Machine, c: Config, d: Config, n: nat)
    requires Reaches(m, c, d) && RunsFor(m, d, n)
    ensures RunsFor(m, c, n)
  {
    hide Step;
    var j := ReachesInSteps(m, c, d);
    StepsAdd(m, c, j, n);
    if Ended(Steps(m, c, n)) {
      EndedStays(m, c, n, j + n);
    }
  }

  lemma {:induction false} RunsForStep(m: Machine, c: Config, n: nat)
    requires RunsFor(m, Step(m, c), n)
    ensures RunsFor(m, c, n + 1)
  {
    hide Step;
    StepsAdd(m, c, 1, n);
    assert Steps(m, c, 1) == Step(m, Steps(m, c, 0));
  }

  // ---------------------------------------------------------------------------
  // The machine does what the recursive matcher does

  // From c the machine comes to the outcome, above the states s, which it leaves alone; if
  // there is no outcome yet it goes on for as many steps as the depth.
  ghost predicate Arrives(m: Machine, c: Config, o: Outcome, s: seq<SavedState>, depth: nat) {
    match o
    case Matched(captures) => exists t :: Plain(t) && Reaches(m, c, Succeed(captures, s + t))
    case Failed => Reaches(m, c, Fail(s))
    case Broken => Reaches(m, c, Stuck)
    case Unfinished => RunsFor(m, c, depth)
  }

  lemma {:induction false} ArrivesAfter(m: Machine, c: Config, d: Config, o: Outcome, s: seq<SavedState>, depth: nat)
    requires Reaches(m, c, d) && Arrives(m, d, o, s, depth)
    ensures Arrives(m, c, o, s, depth)
  {
    hide RunsFor, Reaches, Plain;
    match o
    case Matched(captures) =>
      var t :| Plain(t) && Reaches(m, d, Succeed(captures, s + t));
      ReachesTrans(m, c, d, Succeed(captures, s + t));
    case Failed => ReachesTrans(m, c, d, Fail(s));
    case Broken => ReachesTrans(m, c, d, Stuck);
    case Unfinished => RunsForMore(m, c, d, depth);
  }

  lemma {:induction false} ArrivesStep(m: Machine, c: Config, o: Outcome, s: seq<SavedState>, depth: nat)
    requires depth > 0 && Arrives(m, Step(m, c), o, s, depth - 1)
    ensures Arrives(m, c, o, s, depth)
  {
    hide Step, RunsFor;
    if o.Unfinished? {
      RunsForStep(m, c, depth - 1);
    } else {
      ReachesNext(m, c);
      ArrivesAfter(m, c, Step(m, c), o, s, depth - 1);
    }
  }

  // A success above one more plain state is a success above the states below it.
  lemma {:induction false} ArrivesBelow(m: Machine, c: Config, o: Outcome, s: seq<SavedState>, top: SavedState, depth: nat)
    requires Arrives(m, c, o, s + [top], depth) && o != Failed && (top.kind == SplitState || top.kind == GreedyState)
    ensures Arrives(m, c, o, s, depth)
  {
    hide RunsFor, Reaches;
    if o.Matched? {
      var t :| Plain(t) && Reaches(m, c, Succeed(o.captures, s + [top] + t));
      assert s + [top] + t == s + ([top] + t);
      assert Plain([top] + t);
    }
  }

  lemma {:induction false} Unwinds(m: Machine, captures: seq<int>, s: seq<SavedState>, t: seq<SavedState>)
    requires Plain(t)
    ensures Reaches(m, Succeed(captures, s + t), Succeed(captures, s))
  {
    hide Reaches;
    assert (s + t)[|s|..] == t;
    SucceedUnwinds(m, s, captures, s + t);
  }

  // After a failure the top state is resumed.
  lemma {:induction false} Resumes(m: Machine, c: Config, s: seq<SavedState>, top: SavedState)
    requires Reaches(m, c, Fail(s + [top]))
    ensures Reaches(m, c, Backtrack(m, s + [top]))
  {
    hide Reaches, Backtrack;
    ReachesNext(m, Fail(s + [top]));
    assert Step(m, Fail(s + [top])) == Backtrack(m, s + [top]);
    ReachesTrans(m, c, Fail(s + [top]), Backtrack(m, s + [top]));
  }

  // Main lemma, by induction on the depth.
  lemma {:induction false} ExploreArrives(m: Machine, pc: int, pos: int, stack: seq<int>, captures: seq<int>, depth: nat, s: seq<SavedState>)
    ensures Arrives(m, Run(pc, pos, stack, captures, s), Explore(m, pc, pos, stack, captures, depth), s, depth)
    decreases depth, 1
  {
    hide Arrives, Reaches, StepInstr;
    var c, f := Run(pc, pos, stack, captures, s), Fetch(m.code, pc);
    if depth == 0 {
      NotEnded(m, c, s);
    } else if f.None? || !ValidPos(m.subject, pos) {
      StepsStuck(m, c, s, depth);
    } else if f.value.Match? {
      MatchArrives(m, c, s, depth);
    } else if f.value.Split? {
      SplitArrives(m, pc, pos, stack, captures, depth, s);
    } else if f.value.Look? {
      LookArrives(m, pc, pos, stack, captures, depth, s);
    } else if f.value.SimpleGreedyQuant? {
      QuantArrives(m, pc, pos, stack, captures, depth, s);
    } else {
      PlainArrives(m, pc, pos, stack, captures, depth, s);
    }
  }

  lemma {:induction false} NotEnded(m: Machine, c: Config, s: seq<SavedState>)
    requires c.Run?
    ensures Arrives(m, c, Unfinished, s, 0)
  {
  }

  lemma {:induction false} StepsStuck(m: Machine, c: Config, s: seq<SavedState>, depth: nat)
    requires Step(m, c) == Stuck
    ensures Arrives(m, c, Broken, s, depth)
  {
    hide Step;
    ReachesNext(m, c);
  }

  lemma {:induction false} StepsFail(m: Machine, c: Config, s: seq<SavedState>, depth: nat)
    requires Step(m, c) == Fail(s)
    ensures Arrives(m, c, Failed, s, depth)
  {
    hide Step;
    ReachesNext(m, c);
  }

  lemma {:induction false} MatchArrives(m: Machine, c: Config, s: seq<SavedState>, depth: nat)
    requires c.Run? && c.states == s && Fetch(m.code, c.pc).Some? && Fetch(m.code, c.pc).value.Match? && ValidPos(m.subject, c.pos)
    ensures Arrives(m, c, Matched(c.captures), s, depth)
  {
    hide Reaches;
    ReachesNext(m, c);
    assert s + [] == s && Plain([]);
  }

  lemma {:induction false} SplitArrives(m: Machine, pc: int, pos: int, stack: seq<int>, captures: seq<int>, depth: nat, s: seq<SavedState>)
    requires depth > 0 && Fetch(m.code, pc).Some? && Fetch(m.code, pc).value.Split? && ValidPos(m.subject, pos)
    ensures Arrives(m, Run(pc, pos, stack, captures, s), Explore(m, pc, pos, stack, captures, depth), s, depth)
    decreases depth, 0
  {
    hide Arrives, Reaches, Explore, Step, Fetch, Size;
    var i := Fetch(m.code, pc).value;
    var next := pc + Size(i);
    var first, second := if i.gotoFirst then next + i.off else next, if i.gotoFirst then next else next + i.off;
    var top := SavedState(SplitState, 0, pos, second, captures, stack);
    var c, c1, d := Run(pc, pos, stack, captures, s), Run(first, pos, stack, captures, s + [top]), Run(second, pos, stack, captures, s);
    var o := Explore(m, first, pos, stack, captures, depth - 1);
    SplitStarts(m, pc, pos, stack, captures, depth, s);
    ExploreArrives(m, first, pos, stack, captures, depth - 1, s + [top]);
    if o != Failed {
      ArrivesBelow(m, c1, o, s, top, depth - 1);
    } else {
      var o' := Explore(m, second, pos, stack, captures, depth - 1);
      ExploreArrives(m, second, pos, stack, captures, depth - 1, s);
      FailedReaches(m, c1, s + [top], depth - 1);
      Pops(m, s, top, captures);
      ReachesNext(m, Fail(s + [top]));
      ReachesTrans(m, c1, Fail(s + [top]), d);
      ArrivesAfter(m, c1, d, o', s, depth - 1);
    }
    ArrivesStep(m, c, Explore(m, pc, pos, stack, captures, depth), s, depth);
  }

  // The first alternative is run above a state for the second, and the outcome is that of the
  // first that does not fail.
  lemma {:induction false} SplitStarts(m: Machine, pc: int, pos: int, stack: seq<int>, captures: seq<int>, depth: nat, s: seq<SavedState>)
    requires depth > 0 && Fetch(m.code, pc).Some? && Fetch(m.code, pc).value.Split? && ValidPos(m.subject, pos)
    ensures var i := Fetch(m.code, pc).value;
            var next := pc + Size(i);
            var (first, second) := if i.gotoFirst then (next + i.off, next) else (next, next + i.off);
            var o := Explore(m, first, pos, stack, captures, depth - 1);
            && Step(m, Run(pc, pos, stack, captures, s)) ==
               Run(first, pos, stack, captures, s + [SavedState(SplitState, 0, pos, second, captures, stack)])
            && Explore(m, pc, pos, stack, captures, depth) ==
               if o != Failed then o else Explore(m, second, pos, stack, captures, depth - 1)
  {
    hide Fetch, RunGreedy, GiveBack;
  }

  lemma {:induction false} FailedReaches(m: Machine, c: Config, s: seq<SavedState>, depth: nat)
    requires Arrives(m, c, Failed, s, depth)
    ensures Reaches(m, c, Fail(s))
  {
  }

  // A match of the body of a lookaround: its alternatives are dropped.
  lemma {:induction false} BodyMatched(m: Machine, c: Config, cs: seq<int>, s: seq<SavedState>, top: SavedState, depth: nat)
    requires Arrives(m, c, Matched(cs), s + [top], depth)
    ensures Reaches(m, c, Step(m, Succeed(cs, s + [top])))
  {
    hide Step, Reaches;
    var t :| Plain(t) && Reaches(m, c, Succeed(cs, s + [top] + t));
    Unwinds(m, cs, s + [top], t);
    ReachesNext(m, Succeed(cs, s + [top]));
    ReachesTrans3(m, c, Succeed(cs, s + [top] + t), Succeed(cs, s + [top]), Step(m, Succeed(cs, s + [top])));
  }

  lemma {:induction false} LookArrives(m: Machine, pc: int, pos: int, stack: seq<int>, captures: seq<int>, depth: nat, s: seq<SavedState>)
    requires depth > 0 && Fetch(m.code, pc).Some? && Fetch(m.code, pc).value.Look? && ValidPos(m.subject, pos)
    ensures Arrives(m, Run(pc, pos, stack, captures, s), Explore(m, pc, pos, stack, captures, depth), s, depth)
    decreases depth, 0
  {
    hide Arrives, Reaches, Explore, Step, Fetch, Size;
    var i := Fetch(m.code, pc).value;
    var next := pc + Size(i);
    var top := SavedState(if i.neg then NegativeLookaheadState else LookaheadState, 0, pos, next + i.off, captures, stack);
    var c, c1 := Run(pc, pos, stack, captures, s), Run(next, pos, stack, captures, s + [top]);
    var o, all := Explore(m, next, pos, stack, captures, depth - 1), Explore(m, pc, pos, stack, captures, depth);
    LookStarts(m, pc, pos, stack, captures, depth, s);
    ExploreArrives(m, next, pos, stack, captures, depth - 1, s + [top]);
    if o.Broken? || o.Unfinished? {
      NoAnswer(m, c1, o, s, top, depth - 1);
    } else {
      var after := if o.Matched? && !i.neg then o.captures else captures;
      var d := if o.Matched? == i.neg then Fail(s) else Run(next + i.off, pos, stack, after, s);
      LookAnswered(m, c1, o, s, top, depth - 1);
      if o.Matched? == i.neg {
        ReachesFails(m, c1, s, depth - 1);
      } else {
        ExploreArrives(m, next + i.off, pos, stack, after, depth - 1, s);
        ArrivesAfter(m, c1, d, all, s, depth - 1);
      }
    }
    ArrivesStep(m, c, all, s, depth);
  }

  // The body of a lookaround is run above a state for it, and the outcome is decided by its own.
  lemma {:induction false} LookStarts(m: Machine, pc: int, pos: int, stack: seq<int>, captures: seq<int>, depth: nat, s: seq<SavedState>)
    requires depth > 0 && Fetch(m.code, pc).Some? && Fetch(m.code, pc).value.Look? && ValidPos(m.subject, pos)
    ensures var i := Fetch(m.code, pc).value;
            var next := pc + Size(i);
            var top := SavedState(if i.neg then NegativeLookaheadState else LookaheadState, 0, pos, next + i.off, captures, stack);
            var o := Explore(m, next, pos, stack, captures, depth - 1);
            && Step(m, Run(pc, pos, stack, captures, s)) == Run(next, pos, stack, captures, s + [top])
            && Explore(m, pc, pos, stack, captures, depth) ==
               if o.Broken? || o.Unfinished? then o
               else if o.Matched? == i.neg then Failed
               else Explore(m, next + i.off, pos, stack, if i.neg then captures else o.captures, depth - 1)
  {
    hide Fetch, RunGreedy, GiveBack;
  }

  // When the body has an answer, the state for the lookaround is resumed.
  lemma {:induction false} LookAnswered(m: Machine, c: Config, o: Outcome, s: seq<SavedState>, top: SavedState, depth: nat)
    requires top.kind == NegativeLookaheadState || top.kind == LookaheadState
    requires Arrives(m, c, o, s + [top], depth) && (o.Matched? || o == Failed)
    ensures var negative := top.kind == NegativeLookaheadState;
            Reaches(m, c, if o.Matched? == negative then Fail(s)
                          else Run(top.pc, top.pos, top.stack, if negative then top.captures else o.captures, s))
  {
    hide Arrives, Reaches;
    assert (s + [top])[..|s|] == s;
    if o.Matched? {
      BodyMatched(m, c, o.captures, s, top, depth);
    } else {
      FailedReaches(m, c, s + [top], depth);
      Resumes(m, c, s, top);
    }
  }

  lemma {:induction false} ReachesFails(m: Machine, c: Config, s: seq<SavedState>, depth: nat)
    requires Reaches(m, c, Fail(s))
    ensures Arrives(m, c, Failed, s, depth)
  {
  }

  lemma {:induction false} NoAnswer(m: Machine, c: Config, o: Outcome, s: seq<SavedState>, top: SavedState, depth: nat)
    requires Arrives(m, c, o, s + [top], depth) && (o.Broken? || o.Unfinished?)
    ensures Arrives(m, c, o, s, depth)
  {
  }

  lemma {:induction false} QuantFields(m: Machine, pc: int)
    requires Fetch(m.code, pc).Some? && Fetch(m.code, pc).value.SimpleGreedyQuant?
    ensures var i := Fetch(m.code, pc).value;
            && 0 <= pc && pc + 17 <= |m.code| && Size(i) == 17
            && i.off == ToSigned(GetU32(m.code, pc + 1)) && i.count == GetU32(m.code, pc + 13)
  {
  }

  lemma {:induction false} QuantArrives(m: Machine, pc: int, pos: int, stack: seq<int>, captures: seq<int>, depth: nat, s: seq<SavedState>)
    requires depth > 0 && Fetch(m.code, pc).Some? && Fetch(m.code, pc).value.SimpleGreedyQuant? && ValidPos(m.subject, pos)
    ensures Arrives(m, Run(pc, pos, stack, captures, s), Explore(m, pc, pos, stack, captures, depth), s, depth)
    decreases depth, 0
  {
    hide Arrives, Reaches, Fetch;
    var i := Fetch(m.code, pc).value;
    var next := pc + Size(i);
    var c := Run(pc, pos, stack, captures, s);
    QuantFields(m, pc);
    var r := RunGreedy(m, next, pos, 0, i.max);
    if r.None? {
      StepsStuck(m, c, s, depth);
    } else if r.value.1 < i.min {
      StepsFail(m, c, s, depth);
    } else {
      var n := r.value.1 - i.min;
      GiveBackArrives(m, pc, r.value.0, n, stack, captures, depth - 1, s);
      assert s + [] == s;
      ArrivesStep(m, c, Explore(m, pc, pos, stack, captures, depth), s, depth);
    }
  }

  // The state that gives iterations back.
  function GreedyTop(pc: int, pos: int, n: nat, stack: seq<int>, captures: seq<int>): (t: seq<SavedState>) {
    if n == 0 then [] else [SavedState(GreedyState, n, pos, pc + 1, captures, stack)]
  }

  lemma {:induction false} GiveBackArrives(m: Machine, pc: int, pos: int, n: nat, stack: seq<int>, captures: seq<int>, depth: nat, s: seq<SavedState>)
    requires Fetch(m.code, pc).Some? && Fetch(m.code, pc).value.SimpleGreedyQuant? && ValidPos(m.subject, pos)
    requires Fetch(m.code, pc).value.count >= 0
    ensures var i := Fetch(m.code, pc).value; var target := pc + 17 + i.off;
            Arrives(m, Run(target, pos, stack, captures, s + GreedyTop(pc, pos, n, stack, captures)),
                    GiveBack(m, target, pos, n, i.count, stack, captures, depth), s, depth)
    decreases depth, n + 2
  {
    hide Arrives, Reaches, Fetch, Explore;
    QuantFields(m, pc);
    var i := Fetch(m.code, pc).value;
    var target := pc + 17 + i.off;
    var c := Run(target, pos, stack, captures, s + GreedyTop(pc, pos, n, stack, captures));
    var o := Explore(m, target, pos, stack, captures, depth);
    ExploreArrives(m, target, pos, stack, captures, depth, s + GreedyTop(pc, pos, n, stack, captures));
    if n == 0 {
      assert s + [] == s;
    } else {
      var top := GreedyTop(pc, pos, n, stack, captures)[0];
      if o != Failed {
        ArrivesBelow(m, c, o, s, top, depth);
      } else {
        FailedReaches(m, c, s + [top], depth);
        Resumes(m, c, s, top);
        assert (s + [top])[..|s|] == s;
        var back := StepBack(m.subject, pos, i.count);
        if back.None? {
          ReachesStuck(m, c, s, depth);
        } else {
          var d := Run(target, back.value, stack, captures, s + GreedyTop(pc, back.value, n - 1, stack, captures));
          GiveBackArrives(m, pc, back.value, n - 1, stack, captures, depth, s);
          assert Backtrack(m, s + [top]) == d;
          ArrivesAfter(m, c, d, GiveBack(m, target, pos, n, i.count, stack, captures, depth), s, depth);
        }
      }
    }
  }

  lemma {:induction false} ReachesStuck(m: Machine, c: Config, s: seq<SavedState>, depth: nat)
    requires Reaches(m, c, Stuck)
    ensures Arrives(m, c, Broken, s, depth)
  {
  }

  // The other instructions do not touch the saved states.
  lemma {:induction false} PlainStep(m: Machine, i: Instr, pc: int, pos: int, stack: seq<int>, captures: seq<int>, s: seq<SavedState>)
    requires ValidPos(m.subject, pos) && !i.Match? && !i.Split? && !i.Look? && !i.SimpleGreedyQuant?
    ensures var c, d := StepInstr(m, i, pc, pos, stack, captures, []), StepInstr(m, i, pc, pos, stack, captures, s);
            if c.Run? then d == Run(c.pc, c.pos, c.stack, c.captures, s)
            else if c.Fail? then d == Fail(s)
            else d == Stuck
  {
  }

  lemma {:induction false} PlainArrives(m: Machine, pc: int, pos: int, stack: seq<int>, captures: seq<int>, depth: nat, s: seq<SavedState>)
    requires depth > 0 && Fetch(m.code, pc).Some? && ValidPos(m.subject, pos)
    requires var i := Fetch(m.code, pc).value; !i.Match? && !i.Split? && !i.Look? && !i.SimpleGreedyQuant?
    ensures Arrives(m, Run(pc, pos, stack, captures, s), Explore(m, pc, pos, stack, captures, depth), s, depth)
    decreases depth, 0
  {
    hide Arrives, Reaches, StepInstr, Fetch;
    var i := Fetch(m.code, pc).value;
    var c := Run(pc, pos, stack, captures, s);
    PlainStep(m, i, pc, pos, stack, captures, s);
    var d := StepInstr(m, i, pc, pos, stack, captures, []);
    if d.Run? {
      ExploreArrives(m, d.pc, d.pos, d.stack, d.captures, depth - 1, s);
      ArrivesStep(m, c, Explore(m, d.pc, d.pos, d.stack, d.captures, depth - 1), s, depth);
    } else if d.Fail? {
      StepsFail(m, c, s, depth);
    } else {
      StepsStuck(m, c, s, depth);
    }
  }

  // ---------------------------------------------------------------------------
  // Refinement, in both directions

  ghost predicate HaltsWith(m: Machine, c: Config, matched: bool, captures: seq<int>) {
    exists n: nat {:trigger Steps(m, c, n)} :: Steps(m, c, n) == Halt(matched, captures)
  }

  // An outcome is what the machine halts with, and only one is possible.
  lemma {:induction false} OutcomeHalts(m: Machine, c: Config, o: Outcome, depth: nat)
    requires Arrives(m, c, o, [], depth)
    ensures o.Matched? ==> HaltsWith(m, c, true, o.captures)
    ensures o == Failed ==> HaltsWith(m, c, false, [])
  {
    hide Step, Reaches;
    Halting(m, if o.Matched? then o.captures else []);
    if o.Matched? {
      var t :| Plain(t) && Reaches(m, c, Succeed(o.captures, [] + t));
      Unwinds(m, o.captures, [], t);
      HaltAfter(m, c, Succeed(o.captures, [] + t), Succeed(o.captures, []), Halt(true, o.captures));
    } else if o == Failed {
      ReachesSelf(m, Fail([]));
      HaltAfter(m, c, Fail([]), Fail([]), Halt(false, []));
    }
  }

  lemma {:induction false} Halting(m: Machine, cs: seq<int>)
    ensures Step(m, Succeed(cs, [])) == Halt(true, cs) && Step(m, Fail([])) == Halt(false, [])
  {
  }

  lemma {:induction false} HaltAfter(m: Machine, c: Config, d: Config, e: Config, h: Config)
    requires Reaches(m, c, d) && Reaches(m, d, e) && Step(m, e) == h && h.Halt?
    ensures HaltsWith(m, c, h.matched, h.captures)
  {
    hide Step, Reaches;
    ReachesNext(m, e);
    ReachesTrans3(m, c, d, e, h);
    var n := ReachesInSteps(m, c, h);
  }

  lemma {:induction false} HaltUnique(m: Machine, c: Config, j: nat, k: nat)
    requires Ended(Steps(m, c, j)) && Ended(Steps(m, c, k))
    ensures Steps(m, c, j) == Steps(m, c, k)
  {
    hide Step, Steps;
    if j <= k {
      EndedStays(m, c, j, k);
    } else {
      EndedStays(m, c, k, j);
    }
  }

  // If the machine halts, the recursive matcher finds the same with a depth of as many calls
  // as the machine takes steps.
  lemma {:induction false} HaltIsOutcome(m: Machine, c: Config, n: nat, o: Outcome)
    requires Ended(Steps(m, c, n)) && Steps(m, c, n).Halt? && Arrives(m, c, o, [], n)
    ensures Steps(m, c, n) == if o.Matched? then Halt(true, o.captures) else Halt(false, [])
    ensures o.Matched? || o == Failed
  {
    hide Step, Steps;
    OutcomeHalts(m, c, o, n);
    if o.Matched? {
      var j: nat :| Steps(m, c, j) == Halt(true, o.captures);
      HaltUnique(m, c, j, n);
    } else if o == Failed {
      var j: nat :| Steps(m, c, j) == Halt(false, []);
      HaltUnique(m, c, j, n);
    } else if o == Broken {
      var j := ReachesInSteps(m, c, Stuck);
      HaltUnique(m, c, j, n);
    }
  }

  // For all code: the machine halts without a match exactly if the recursive matcher fails
  // at some depth, and with a match and its captures exactly if the recursive matcher finds
  // this match first.
  lemma {:induction false} MachineIsExplore(m: Machine, pc: int, pos: int, stack: seq<int>, captures: seq<int>, cs: seq<int>)
    ensures HaltsWith(m, Run(pc, pos, stack, captures, []), false, []) <==>
            exists depth: nat :: Explore(m, pc, pos, stack, captures, depth) == Failed
    ensures HaltsWith(m, Run(pc, pos, stack, captures, []), true, cs) <==>
            exists depth: nat :: Explore(m, pc, pos, stack, captures, depth) == Matched(cs)
  {
    hide Explore, Step, Steps, Arrives;
    var c := Run(pc, pos, stack, captures, []);
    if depth: nat :| Explore(m, pc, pos, stack, captures, depth) == Failed {
      ExploreArrives(m, pc, pos, stack, captures, depth, []);
      OutcomeHalts(m, c, Failed, depth);
    }
    if depth: nat :| Explore(m, pc, pos, stack, captures, depth) == Matched(cs) {
      ExploreArrives(m, pc, pos, stack, captures, depth, []);
      OutcomeHalts(m, c, Matched(cs), depth);
    }
    if n: nat :| Steps(m, c, n) == Halt(false, []) {
      ExploreArrives(m, pc, pos, stack, captures, n, []);
      HaltIsOutcome(m, c, n, Explore(m, pc, pos, stack, captures, n));
    }
    if n: nat :| Steps(m, c, n) == Halt(true, cs) {
      ExploreArrives(m, pc, pos, stack, captures, n, []);
      HaltIsOutcome(m, c, n, Explore(m, pc, pos, stack, captures, n));
    }
  }
}
