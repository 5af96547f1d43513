// The backtracking machine of lre_exec_backtrack as a step function on configurations.
module RegexMachine {
  import opened Wrappers
  import opened Bytes
  import opened RegexOpcode
  import opened RegexInput
  import Spec = RegexSpec

  // What the machine runs on: the code after the header, the subject, the Canonicalize
  // operation, and the sizes of the capture array and of the integer stack.
  datatype Machine = Machine(code: seq<Byte>, subject: Subject, canon: int -> int, captureCount: nat, stackSize: nat)

  datatype StateKind = SplitState | LookaheadState | NegativeLookaheadState | GreedyState

  // REExecState: what push_state saves.
  datatype SavedState =
    SavedState(kind: StateKind, count: int, pos: int, pc: int, captures: seq<int>, stack: seq<int>)

  datatype Config =
    | Run(pc: int, pos: int, stack: seq<int>, captures: seq<int>, states: seq<SavedState>)
    | Fail(states: seq<SavedState>)                          // unwinding with ret = 0
    | Succeed(captures: seq<int>, states: seq<SavedState>)   // unwinding with ret = 1
    | Halt(matched: bool, captures: seq<int>)
    | Stuck                                                  // outside the defined behaviour of the C code

  // A capture that is not set.
  const NULL := Spec.UNSET

  const WORD_MAX := 0xffff_ffff_ffff_ffff

  predicate ValidPos(s: Subject, x: int) {
    0 <= x <= |s.units|
  }

  // ---------------------------------------------------------------------------
  // Instructions that only read characters

  function Fold(m: Machine, icase: bool, c: int): (r: int) {
    if icase then m.canon(c) else c
  }

  // The binary search of the range opcodes. The comparison with the first low bound comes
  // first, so that the unsigned idx_max never wraps.
  function RangeSearch(t: seq<Interval>, c: int, lo: int, hi: int): (found: bool)
    requires 0 <= lo && hi < |t| && |t| > 0 && t[0].0 <= c
    decreases hi - lo
  {
    if lo > hi then false
    else
      var mid := (lo + hi) / 2;
      if c < t[mid].0 then RangeSearch(t, c, lo, mid - 1)
      else if c > t[mid].1 then RangeSearch(t, c, mid + 1, hi)
      else true
  }

  // In the 16-bit form a last bound of 0xffff stands for infinity.
  function RangeHas(t: seq<Interval>, c: int, wide: bool): (found: bool)
    requires |t| > 0
  {
    var high := t[|t| - 1].1;
    if c < t[0].0 then false
    else if !wide && c >= 0xffff && high == 0xffff then true
    else if c > high then false
    else RangeSearch(t, c, 0, |t| - 1)
  }

  predicate IsCharTest(i: Instr) {
    i.Char? || i.Char32? || i.Dot? || i.AnyChar? || ((i.Range? || i.Range32?) && |i.table| > 0)
  }

  // Whether a character instruction accepts the character c.
  predicate TestChar(m: Machine, i: Instr, c: int)
    requires IsCharTest(i)
  {
    match i
    case Char(v, icase) => v == Fold(m, icase, c)
    case Char32(v, icase) => v == Fold(m, icase, c)
    case Dot => !Spec.IsLineTerminator(c)
    case AnyChar => true
    case Range(icase, t) => RangeHas(t, Fold(m, icase, c), false)
    case Range32(icase, t) => RangeHas(t, Fold(m, icase, c), true)
  }

  predicate IsPositionTest(i: Instr) {
    i.LineStart? || i.LineEnd? || i.WordBoundary?
  }

  predicate WordBefore(m: Machine, pos: int, icase: bool)
    requires ValidPos(m.subject, pos)
  {
    pos > 0 && Spec.IsWordChar(Fold(m, icase, GetPrevChar(m.subject, pos).0))
  }

  predicate WordAfter(m: Machine, pos: int, icase: bool)
    requires ValidPos(m.subject, pos)
  {
    pos < |m.subject.units| && Spec.IsWordChar(Fold(m, icase, GetChar(m.subject, pos).0))
  }

  predicate TestPosition(m: Machine, i: Instr, pos: int)
    requires IsPositionTest(i) && ValidPos(m.subject, pos)
  {
    match i
    case LineStart(multi) => pos == 0 || (multi && Spec.IsLineTerminator(GetPrevChar(m.subject, pos).0))
    case LineEnd(multi) =>
      pos == |m.subject.units| || (multi && Spec.IsLineTerminator(GetChar(m.subject, pos).0))
    case WordBoundary(neg, icase) => (WordBefore(m, pos, icase) != WordAfter(m, pos, icase)) != neg
  }

  // ---------------------------------------------------------------------------
  // simple_greedy_quant: the atom is run by a nested call that stops at its match opcode

  datatype StraightRun = Reached(pos: int) | NoMatch | Undefined

  function RunStraight(m: Machine, pc: int, pos: int): (r: StraightRun)
    requires ValidPos(m.subject, pos)
    ensures r.Reached? ==> pos <= r.pos <= |m.subject.units|
    decreases |m.code| - pc
  {
    var f := Fetch(m.code, pc);
    if f.None? then Undefined
    else
      var i := f.value;
      var next := pc + Size(i);
      if i.Match? then Reached(pos)
      else if IsCharTest(i) then
        if pos == |m.subject.units| then NoMatch
        else
          var (c, pos') := GetChar(m.subject, pos);
          if TestChar(m, i, c) then RunStraight(m, next, pos') else NoMatch
      else if IsPositionTest(i) then
        if TestPosition(m, i, pos) then RunStraight(m, next, pos) else NoMatch
      else Undefined
  }

  // Repeat the atom at "pc" as often as possible, "q" times so far and at most "max" times:
  // the position reached and the count. None if the C loop would not end.
  function RunGreedy(m: Machine, pc: int, pos: int, q: nat, max: int): (r: Option<(int, nat)>)
    requires ValidPos(m.subject, pos)
    ensures r.Some? ==> pos <= r.value.0 <= |m.subject.units|
    decreases |m.subject.units| - pos
  {
    var s := RunStraight(m, pc, pos);
    if s.Undefined? then None
    else if s.NoMatch? then Some((pos, q))
    else if s.pos == pos then None
    else if q + 1 >= max && max != INT32_MAX then Some((s.pos, q + 1))
    else RunGreedy(m, pc, s.pos, q + 1, max)
  }

  // "n" steps back with PREV_CHAR.
  function StepBack(s: Subject, pos: int, n: nat): (r: Option<int>)
    requires ValidPos(s, pos)
    ensures r.Some? ==> ValidPos(s, r.value)
    decreases n
  {
    if n == 0 then Some(pos)
    else if pos == 0 then None
    else StepBack(s, GetPrevChar(s, pos).1, n - 1)
  }

  // ---------------------------------------------------------------------------
  // One step

  function Step(m: Machine, c: Config): (d: Config) {
    match c
    case Run(pc, pos, stack, captures, states) =>
      var f := Fetch(m.code, pc);
      if f.None? || !ValidPos(m.subject, pos) then Stuck
      else StepInstr(m, f.value, pc, pos, stack, captures, states)
    case Fail(states) =>
      if states == [] then Halt(false, []) else Backtrack(m, states)
    case Succeed(captures, states) =>
      if states == [] then Halt(true, captures)
      else
        var rest := states[..|states| - 1];
        var s := states[|states| - 1];
        if s.kind == LookaheadState then Run(s.pc, s.pos, s.stack, captures, rest)
        else if s.kind == NegativeLookaheadState then Fail(rest)
        else Succeed(captures, rest)
    case _ => c
  }

  // Pop the last state after a failure.
  function Backtrack(m: Machine, states: seq<SavedState>): (d: Config)
    requires states != []
  {
    var rest := states[..|states| - 1];
    var s := states[|states| - 1];
    match s.kind
    case SplitState => Run(s.pc, s.pos, s.stack, s.captures, rest)
    case LookaheadState => Fail(rest)
    case NegativeLookaheadState => Run(s.pc, s.pos, s.stack, s.captures, rest)
    case GreedyState =>
      // s.pc is the start of the operands of a simple_greedy_quant
      if !(0 <= s.pc && s.pc + 16 <= |m.code|) || !ValidPos(m.subject, s.pos) then Stuck
      else
        var back := StepBack(m.subject, s.pos, GetU32(m.code, s.pc + 12));
        if back.None? then Stuck
        else
          var next := s.pc + 16 + ToSigned(GetU32(m.code, s.pc));
          var kept := if s.count == 1 then [] else [s.(pos := back.value, count := s.count - 1)];
          Run(next, back.value, s.stack, s.captures, rest + kept)
  }

  function StepInstr(m: Machine, i: Instr, pc: int, pos: int, stack: seq<int>, captures: seq<int>,
                     states: seq<SavedState>): (d: Config)
    requires ValidPos(m.subject, pos)
  {
    var next := pc + Size(i);
    if IsCharTest(i) then
      if pos == |m.subject.units| then Fail(states)
      else
        var (c, pos') := GetChar(m.subject, pos);
        if TestChar(m, i, c) then Run(next, pos', stack, captures, states) else Fail(states)
    else if IsPositionTest(i) then
      if TestPosition(m, i, pos) then Run(next, pos, stack, captures, states) else Fail(states)
    else
      match i
      case Goto(off) => Run(next + off, pos, stack, captures, states)
      case Split(gotoFirst, off) =>
        var (first, second) := if gotoFirst then (next + off, next) else (next, next + off);
        Run(first, pos, stack, captures, states + [SavedState(SplitState, 0, pos, second, captures, stack)])
      case Match => Succeed(captures, states)
      case SaveStart(g) =>
        if g >= m.captureCount || |captures| != 2 * m.captureCount || g < 0 then Stuck
        else Run(next, pos, stack, captures[2 * g := pos], states)
      case SaveEnd(g) =>
        if g >= m.captureCount || |captures| != 2 * m.captureCount || g < 0 then Stuck
        else Run(next, pos, stack, captures[2 * g + 1 := pos], states)
      case SaveReset(first, last) =>
        if last >= m.captureCount || |captures| != 2 * m.captureCount || first < 0 then Stuck
        else Run(next, pos, stack, ResetCaptures(captures, first, last), states)
      case Loop(off) =>
        if stack == [] then Stuck
        else
          var top := |stack| - 1;
          var v := if stack[top] == 0 then WORD_MAX else stack[top] - 1;
          Run(if v != 0 then next + off else next, pos, stack[top := v], captures, states)
      case PushI32(v) => if |stack| >= m.stackSize then Stuck else Run(next, pos, stack + [v], captures, states)
      case PushCharPos => if |stack| >= m.stackSize then Stuck else Run(next, pos, stack + [pos], captures, states)
      case Drop => if stack == [] then Stuck else Run(next, pos, stack[..|stack| - 1], captures, states)
      case CheckAdvance =>
        if stack == [] then Stuck
        else if stack[|stack| - 1] == pos then Fail(states)
        else Run(next, pos, stack[..|stack| - 1], captures, states)
      case Look(neg, off) =>
        var kind := if neg then NegativeLookaheadState else LookaheadState;
        Run(next, pos, stack, captures, states + [SavedState(kind, 0, pos, next + off, captures, stack)])
      case Prev =>
        if pos == 0 then Fail(states) else Run(next, GetPrevChar(m.subject, pos).1, stack, captures, states)
      case SimpleGreedyQuant(off, min, max, _) =>
        var r := RunGreedy(m, next, pos, 0, max);
        if r.None? then Stuck
        else
          var (pos', q) := r.value;
          if q < min then Fail(states)
          else if q > min then
            Run(next + off, pos', stack, captures,
                states + [SavedState(GreedyState, q - min, pos', pc + 1, captures, stack)])
          else Run(next + off, pos', stack, captures, states)
      case _ => Stuck
  }

  // save_reset: groups first to last are cleared.
  function ResetCaptures(captures: seq<int>, first: int, last: int): (r: seq<int>)
    requires 0 <= first && 2 * last + 1 < |captures|
    ensures |r| == |captures|
    ensures forall j :: 0 <= j < |r| ==> r[j] == if 2 * first <= j <= 2 * last + 1 then NULL else captures[j]
    decreases last - first
  {
    if first > last then captures
    else ResetCaptures(captures[2 * first := NULL][2 * first + 1 := NULL], first + 1, last)
  }

  // ---------------------------------------------------------------------------
  // Runs

  // Successive configurations of a run.
  predicate IsRun(m: Machine, t: seq<Config>) {
    |t| > 0 && forall i {:trigger Step(m, t[i])} :: 0 <= i < |t| - 1 ==> t[i + 1] == Step(m, t[i])
  }

  ghost predicate Reaches(m: Machine, c: Config, d: Config) {
    exists t {:trigger IsRun(m, t)} :: IsRun(m, t) && t[0] == c && t[|t| - 1] == d
  }

  lemma {:induction false} ReachesSelf(m: Machine, c: Config)
    ensures Reaches(m, c, c)
  {
    assert IsRun(m, [c]);
  }

  lemma {:induction false} ReachesNext(m: Machine, c: Config)
    ensures Reaches(m, c, Step(m, c))
  {
    var t := [c, Step(m, c)];
    assert IsRun(m, t);
    assert t[0] == c && t[|t| - 1] == Step(m, c);
  }

  lemma {:induction false} ReachesTrans(m: Machine, a: Config, b: Config, c: Config)
    requires Reaches(m, a, b) && Reaches(m, b, c)
    ensures Reaches(m, a, c)
  {
    var t :| IsRun(m, t) && t[0] == a && t[|t| - 1] == b;
    var u :| IsRun(m, u) && u[0] == b && u[|u| - 1] == c;
    var w := t[..|t| - 1] + u;
    forall i | 0 <= i < |w| - 1
      ensures w[i + 1] == Step(m, w[i])
    {
      if i < |t| - 1 {
        assert w[i] == t[i] && w[i + 1] == t[i + 1];
      } else {
        assert w[i] == u[i - (|t| - 1)] && w[i + 1] == u[i + 1 - (|t| - 1)];
      }
    }
    assert IsRun(m, w) && w[0] == a && w[|w| - 1] == c;
  }

  lemma {:induction false} ReachesTrans3(m: Machine, a: Config, b: Config, c: Config, d: Config)
    requires Reaches(m, a, b) && Reaches(m, b, c) && Reaches(m, c, d)
    ensures Reaches(m, a, d)
  {
    ReachesTrans(m, a, b, c);
    ReachesTrans(m, a, c, d);
  }

  function Steps(m: Machine, c: Config, n: nat): (d: Config)
    decreases n
  {
    if n == 0 then c else Step(m, Steps(m, c, n - 1))
  }

  lemma {:induction false} RunIsSteps(m: Machine, t: seq<Config>, n: nat)
    requires IsRun(m, t) && n < |t|
    ensures Steps(m, t[0], n) == t[n]
  {
    hide Step;
    if n > 0 {
      RunIsSteps(m, t, n - 1);
      assert t[n] == Step(m, t[n - 1]);
    }
  }
}
