// lre_exec_backtrack and lre_exec: the machine as it runs, with its captures, integer stack
// and state stack updated in place. Its loop is proved to follow the steps of RegexMachine.
module RegexExec {
  import opened Wrappers
  import opened Bytes
  import opened RegexOpcode
  import opened RegexInput
  import opened RegexMachine
  import opened RegexSteps
  import opened RegexCaptures
  import opened RegexTheorem
  import opened RegexCompiler
  import Spec = RegexSpec

  // ---------------------------------------------------------------------------
  // Runs that end

  ghost predicate EndsAt(m: Machine, c: Config, n: nat) {
    Steps(m, c, n).Halt?
  }

  lemma {:induction false} HaltStays(m: Machine, c: Config, n: nat, k: nat)
    requires EndsAt(m, c, n) && n <= k
    ensures Steps(m, c, k) == Steps(m, c, n)
    decreases k
  {
    hide Size, StepInstr;
    if n < k {
      HaltStays(m, c, n, k - 1);
    }
  }

  lemma {:induction false} StuckStays(m: Machine, c: Config, n: nat, k: nat)
    requires Steps(m, c, n).Stuck? && n <= k
    ensures Steps(m, c, k).Stuck?
    decreases k
  {
    hide Size, StepInstr;
    if n < k {
      StuckStays(m, c, n, k - 1);
    }
  }

  // A run that ends never gets stuck, and has not ended before its end.
  lemma {:induction false} BeforeTheEnd(m: Machine, c: Config, n: nat, k: nat)
    requires EndsAt(m, c, n)
    ensures !Steps(m, c, k).Stuck?
    ensures !Steps(m, c, k).Halt? ==> k < n
  {
    if Steps(m, c, k).Stuck? {
      StuckStays(m, c, k, if k <= n then n else k);
      HaltStays(m, c, n, if k <= n then n else k);
    }
    if n <= k {
      HaltStays(m, c, n, k);
    }
  }

  // ---------------------------------------------------------------------------
  // Loops inside single instructions

  // The search of the range opcodes. The indices are unsigned; idxMax never goes below zero
  // because c has been compared with the first bound.
  method SearchRanges(t: seq<Interval>, c: int, wide: bool) returns (found: bool)
    requires |t| > 0
    ensures found == RangeHas(t, c, wide)
  {
    var n := |t|;
    var idxMin := 0;
    var low := t[0].0;
    if c < low {
      return false;
    }
    var idxMax := n - 1;
    var high := t[idxMax].1;
    if !wide && c >= 0xffff && high == 0xffff {
      return true;
    }
    if c > high {
      return false;
    }
    while idxMin <= idxMax
      invariant 0 <= idxMin <= idxMax + 1 <= n
      invariant RangeSearch(t, c, idxMin, idxMax) == RangeSearch(t, c, 0, n - 1)
      decreases idxMax - idxMin
    {
      var idx := (idxMin + idxMax) / 2;
      low := t[idx].0;
      high := t[idx].1;
      if c < low {
        assert idx > 0;
        idxMax := idx - 1;
      } else if c > high {
        idxMin := idx + 1;
      } else {
        return true;
      }
    }
    return false;
  }

  method TestCharacter(m: Machine, i: Instr, c: int) returns (ok: bool)
    requires IsCharTest(i)
    ensures ok == TestChar(m, i, c)
  {
    match i
    case Range(icase, t) => ok := SearchRanges(t, Fold(m, icase, c), false);
    case Range32(icase, t) => ok := SearchRanges(t, Fold(m, icase, c), true);
    case _ => ok := TestChar(m, i, c);
  }

  // The nested run of an atom of simple_greedy_quant (no_recurse): to its match opcode.
  method RunAtom(m: Machine, start: int, cptr0: int) returns (reached: bool, cptr: int)
    requires ValidPos(m.subject, cptr0) && !RunStraight(m, start, cptr0).Undefined?
    ensures RunStraight(m, start, cptr0) == if reached then Reached(cptr) else NoMatch
  {
    hide Fetch, TestChar, TestPosition;
    var pc := start;
    cptr := cptr0;
    while true
      invariant ValidPos(m.subject, cptr)
      invariant RunStraight(m, pc, cptr) == RunStraight(m, start, cptr0)
      decreases |m.code| - pc
    {
      FetchInside(m.code, pc);
      var i := Fetch(m.code, pc).value;
      pc := pc + Size(i);
      if i.Match? {
        return true, cptr;
      } else if IsCharTest(i) {
        if cptr == |m.subject.units| {
          return false, cptr;
        }
        var (c, next) := GetChar(m.subject, cptr);
        cptr := next;
        var ok := TestCharacter(m, i, c);
        if !ok {
          return false, cptr;
        }
      } else {
        if !TestPosition(m, i, cptr) {
          return false, cptr;
        }
      }
    }
  }

  lemma {:induction false} FetchInside(code: seq<Byte>, pc: int)
    ensures Fetch(code, pc).Some? ==> 0 <= pc < |code|
  {
  }

  // The loop of simple_greedy_quant: the atom as often as possible.
  method RunGreedily(m: Machine, pc1: int, cptr0: int, max: int) returns (cptr: int, q: nat)
    requires ValidPos(m.subject, cptr0) && RunGreedy(m, pc1, cptr0, 0, max).Some?
    ensures RunGreedy(m, pc1, cptr0, 0, max) == Some((cptr, q))
  {
    hide RunStraight;
    q, cptr := 0, cptr0;
    while true
      invariant ValidPos(m.subject, cptr)
      invariant RunGreedy(m, pc1, cptr, q, max) == RunGreedy(m, pc1, cptr0, 0, max)
      decreases |m.subject.units| - cptr
    {
      var reached, res := RunAtom(m, pc1, cptr);
      if !reached {
        return;
      }
      assert cptr < res <= |m.subject.units|;
      cptr := res;
      q := q + 1;
      if q >= max && max != INT32_MAX {
        return;
      }
    }
  }

  // "n" times PREV_CHAR.
  method GoBack(s: Subject, cptr0: int, n: nat) returns (cptr: int)
    requires ValidPos(s, cptr0) && StepBack(s, cptr0, n).Some?
    ensures StepBack(s, cptr0, n) == Some(cptr)
  {
    cptr := cptr0;
    var i := 0;
    while i < n
      invariant 0 <= i <= n && ValidPos(s, cptr)
      invariant StepBack(s, cptr, n - i) == StepBack(s, cptr0, n)
    {
      cptr := GetPrevChar(s, cptr).1;
      i := i + 1;
    }
  }

  class ExecContext {
    const m: Machine
    const capture: array<int>
    const stack: array<int>
    var stackLen: nat
    var pc: int
    var cptr: int
    var states: seq<SavedState>

    ghost predicate Valid()
      reads this
    {
      && capture != stack && capture.Length == 2 * m.captureCount && stack.Length == m.stackSize && stackLen <= stack.Length
      && forall k :: 0 <= k < |states| ==> |states[k].captures| == capture.Length && |states[k].stack| <= stack.Length
    }

    // The configuration between two instructions.
    ghost function Now(): (c: Config)
      reads this, capture, stack
      requires Valid()
    {
      Run(pc, cptr, stack[..stackLen], capture[..], states)
    }

    constructor (m: Machine)
      ensures Valid() && fresh(capture) && fresh(stack) && this.m == m && states == [] && stackLen == 0
      ensures forall k :: 0 <= k < capture.Length ==> capture[k] == NULL
    {
      this.m := m;
      capture := new int[2 * m.captureCount](_ => NULL);
      stack := new int[m.stackSize](_ => 0);
      stackLen, pc, cptr, states := 0, 0, 0, [];
    }

    // push_state
    method PushState(kind: StateKind, pc1: int, count: int)
      requires Valid()
      modifies `states
      ensures Valid() && states == old(states) + [SavedState(kind, count, cptr, pc1, capture[..], stack[..stackLen])]
    {
      states := states + [SavedState(kind, count, cptr, pc1, capture[..], stack[..stackLen])];
    }

    // memcpy from a saved state: the captures, or only the integer stack.
    method RestoreCaptures(s: SavedState)
      requires Valid() && |s.captures| == capture.Length
      modifies capture
      ensures capture[..] == s.captures
    {
      var i := 0;
      while i < capture.Length
        invariant 0 <= i <= capture.Length && capture[..i] == s.captures[..i]
      {
        capture[i] := s.captures[i];
        i := i + 1;
      }
    }

    method RestoreStack(s: SavedState)
      requires Valid() && |s.stack| <= stack.Length
      modifies stack, `stackLen
      ensures Valid() && stack[..stackLen] == s.stack
    {
      stackLen := |s.stack|;
      var i := 0;
      while i < stackLen
        invariant 0 <= i <= stackLen == |s.stack| <= stack.Length && stack[..i] == s.stack[..i]
      {
        stack[i] := s.stack[i];
        i := i + 1;
      }
    }

    // The configuration while the states are unwound.
    ghost function Unwinding(ret: bool): (c: Config)
      reads this, capture
    {
      if ret then Succeed(capture[..], states) else Fail(states)
    }

    // Unwind the state stack after a success (ret) or a failure, until a state is resumed or
    // none is left.
    method Unwind(ret0: bool, ghost c0: Config, ghost end: nat, ghost n0: nat) returns (done: bool, ret: bool, ghost n: nat)
      requires Valid() && EndsAt(m, c0, end) && Steps(m, c0, n0) == Unwinding(ret0)
      modifies this, capture, stack
      ensures Valid() && n0 < n
      ensures Steps(m, c0, n) == if done then Halt(ret, if ret then capture[..] else []) else Now()
    {
      hide Steps, Fetch, StepInstr, EndsAt;
      ret, n := ret0, n0;
      while true
        invariant Valid() && n0 <= n && Steps(m, c0, n) == Unwinding(ret)
        decreases |states|
      {
        BeforeTheEnd(m, c0, end, n + 1);
        StepsNext(m, c0, n);
        n := n + 1;
        if |states| == 0 {
          return true, ret, n;
        }
        var top := |states| - 1;
        var rs := states[top];
        if rs.kind == SplitState {
          if !ret {
            RestoreCaptures(rs);
            pc, cptr := rs.pc, rs.pos;
            RestoreStack(rs);
            states := states[..top];
            return false, ret, n;
          }
        } else if rs.kind == GreedyState {
          if !ret {
            GiveBack(rs, top);
            return false, ret, n;
          }
        } else {
          ret := (rs.kind == LookaheadState && ret) || (rs.kind == NegativeLookaheadState && !ret);
          if ret {
            // the captures are kept in case of a positive lookahead
            if rs.kind == NegativeLookaheadState {
              RestoreCaptures(rs);
            }
            pc, cptr := rs.pc, rs.pos;
            RestoreStack(rs);
            states := states[..top];
            return false, ret, n;
          }
        }
        states := states[..top];
      }
    }

    // Resume a state of simple_greedy_quant with one repetition less.
    method GiveBack(rs: SavedState, top: int)
      requires Valid() && 0 <= top == |states| - 1 && rs == states[top] && rs.kind == GreedyState
      requires !Backtrack(m, states).Stuck?
      modifies this, capture, stack
      ensures Valid() && Now() == Backtrack(m, old(states))
    {
      hide StepBack;
      RestoreCaptures(rs);
      RestoreStack(rs);
      var charCount := GetU32(m.code, rs.pc + 12);
      cptr := GoBack(m.subject, rs.pos, charCount);
      pc := rs.pc + 16 + ToSigned(GetU32(m.code, rs.pc));
      if rs.count == 1 {
        states := states[..top];
        assert states + [] == states;
      } else {
        states := states[..top] + [rs.(pos := cptr, count := rs.count - 1)];
      }
    }

    // save_reset
    method ClearCaptures(first: int, last: int)
      requires Valid() && 0 <= first && last < m.captureCount
      modifies capture
      ensures capture[..] == ResetCaptures(old(capture[..]), first, last)
    {
      ghost var c := capture[..];
      var val := first;
      while val <= last
        invariant first <= val && (val <= last + 1 || val == first)
        invariant forall j :: 0 <= j < capture.Length ==> capture[j] == if 2 * first <= j < 2 * val then NULL else c[j]
        decreases last - val
      {
        capture[2 * val] := NULL;
        capture[2 * val + 1] := NULL;
        val := val + 1;
      }
    }

    // What StepInstr says about an instruction at the current configuration.
    ghost function StepOf(i: Instr): (c: Config)
      requires Valid() && ValidPos(m.subject, cptr)
      reads this, capture, stack
    {
      StepInstr(m, i, pc, cptr, stack[..stackLen], capture[..], states)
    }

    // The opcodes that test a character or a position.
    method DispatchTest(i: Instr) returns (r: Verdict)
      requires Valid() && ValidPos(m.subject, cptr) && (IsCharTest(i) || IsPositionTest(i))
      modifies `pc, `cptr
      ensures Valid() && r != Matched
      ensures old(StepOf(i)) == if r == Continue then Now() else Fail(states)
    {
      hide TestChar, TestPosition, GetChar;
      var next := pc + Size(i);
      if IsCharTest(i) {
        if cptr == |m.subject.units| {
          return Mismatch;
        }
        var (c, cptr') := GetChar(m.subject, cptr);
        var ok := TestCharacter(m, i, c);
        if !ok {
          return Mismatch;
        }
        pc, cptr := next, cptr';
      } else {
        if !TestPosition(m, i, cptr) {
          return Mismatch;
        }
        pc := next;
      }
      return Continue;
    }

    // stack[stack_len++] = v
    method Push(v: int)
      requires Valid() && stackLen < stack.Length
      modifies `stackLen, stack
      ensures Valid() && stack[..stackLen] == old(stack[..stackLen]) + [v]
    {
      stack[stackLen] := v;
      stackLen := stackLen + 1;
    }

    // stack[--stack_len]
    method Pop() returns (v: int)
      requires Valid() && stackLen > 0
      modifies `stackLen
      ensures Valid() && stackLen == old(stackLen) - 1 && old(stack[..stackLen]) == stack[..stackLen] + [v]
    {
      stackLen := stackLen - 1;
      v := stack[stackLen];
    }

    // The opcodes that work on the integer stack.
    method DispatchStack(i: Instr) returns (r: Verdict)
      requires Valid() && ValidPos(m.subject, cptr) && !StepOf(i).Stuck?
      requires i.Loop? || i.PushI32? || i.PushCharPos? || i.Drop? || i.CheckAdvance?
      modifies `pc, `stackLen, stack
      ensures Valid() && r != Matched
      ensures old(StepOf(i)) == if r == Continue then Now() else Fail(states)
    {
      hide Offset, Size, GetChar;
      if i.Loop? {
        DispatchLoop(i);
        r := Continue;
      } else if i.PushI32? || i.PushCharPos? {
        pc := pc + Size(i);
        Push(if i.PushI32? then i.v else cptr);
        r := Continue;
      } else {
        r := DispatchDrop(i);
      }
    }

    method DispatchLoop(i: Instr)
      requires Valid() && ValidPos(m.subject, cptr) && !StepOf(i).Stuck? && i.Loop?
      modifies `pc, stack
      ensures Valid() && old(StepOf(i)) == Now()
    {
      hide Offset, Size, GetChar;
      ghost var s := stack[..stackLen];
      pc := pc + Size(i);
      stack[stackLen - 1] := if stack[stackLen - 1] == 0 then WORD_MAX else stack[stackLen - 1] - 1;
      if stack[stackLen - 1] != 0 {
        pc := pc + i.off;
      }
      assert stack[..stackLen] == s[stackLen - 1 := stack[stackLen - 1]];
    }

    method DispatchDrop(i: Instr) returns (r: Verdict)
      requires Valid() && ValidPos(m.subject, cptr) && !StepOf(i).Stuck? && (i.Drop? || i.CheckAdvance?)
      modifies `pc, `stackLen
      ensures Valid() && r != Matched
      ensures old(StepOf(i)) == if r == Continue then Now() else Fail(states)
    {
      hide Offset, Size, GetChar;
      ghost var s := stack[..stackLen];
      pc := pc + Size(i);
      var v := Pop();
      assert stack[..stackLen] == s[..|s| - 1];
      r := if i.CheckAdvance? && v == cptr then Mismatch else Continue;
    }

    // The opcodes that write captures.
    method DispatchSave(i: Instr)
      requires Valid() && ValidPos(m.subject, cptr) && !StepOf(i).Stuck?
      requires i.SaveStart? || i.SaveEnd? || i.SaveReset?
      modifies `pc, capture
      ensures Valid() && old(StepOf(i)) == Now()
    {
      pc := pc + Size(i);
      match i {
        case SaveStart(g) => capture[2 * g] := cptr;
        case SaveEnd(g) => capture[2 * g + 1] := cptr;
        case SaveReset(first, last) => ClearCaptures(first, last);
      }
    }

    // The opcodes that move pc or the cursor, or push a state.
    method DispatchJump(i: Instr) returns (r: Verdict)
      requires Valid() && ValidPos(m.subject, cptr) && !StepOf(i).Stuck?
      requires i.Goto? || i.Split? || i.Look? || i.Prev? || i.SimpleGreedyQuant?
      modifies this
      ensures Valid() && r != Matched
      ensures old(StepOf(i)) == if r == Continue then Now() else Fail(states)
    {
      hide RunGreedy, GetChar;
      var next := pc + Size(i);
      r := Continue;
      match i {
        case Goto(off) => pc := next + off;
        case Split(gotoFirst, off) =>
          var pc1 := if gotoFirst then next else next + off;
          PushState(SplitState, pc1, 0);
          pc := if gotoFirst then next + off else next;
        case Look(neg, off) =>
          PushState(if neg then NegativeLookaheadState else LookaheadState, next + off, 0);
          pc := next;
        case Prev =>
          if cptr == 0 {
            return Mismatch;
          }
          pc, cptr := next, GetPrevChar(m.subject, cptr).1;
        case SimpleGreedyQuant(off, min, max, _) =>
          ghost var was := states;
          r := Quantified(off, min, max, next);
          assert was + [] == was;
      }
    }

    // One instruction of the main loop, at pc.
    method Dispatch() returns (r: Verdict)
      requires Valid() && !Step(m, Now()).Stuck?
      modifies this, capture, stack
      ensures Valid()
      ensures Step(m, old(Now()))
           == if r == Continue then Now() else if r == Mismatch then Fail(states) else Succeed(capture[..], states)
    {
      hide Fetch, StepInstr, IsCharTest;
      var i := Fetch(m.code, pc).value;
      StepOfMatch(m, i, pc, cptr, stack[..stackLen], capture[..], states);
      if IsCharTest(i) || IsPositionTest(i) {
        r := DispatchTest(i);
      } else if i.Match? {
        r := Matched;
      } else if i.SaveStart? || i.SaveEnd? || i.SaveReset? {
        DispatchSave(i);
        r := Continue;
      } else if i.Goto? || i.Split? || i.Look? || i.Prev? || i.SimpleGreedyQuant? {
        r := DispatchJump(i);
      } else {
        r := DispatchStack(i);
      }
    }

    // simple_greedy_quant
    method Quantified(off: int, min: int, max: int, next: int) returns (r: Verdict)
      requires Valid() && ValidPos(m.subject, cptr) && RunGreedy(m, next, cptr, 0, max).Some?
      modifies this
      ensures Valid() && r != Matched
      ensures var (pos', q) := RunGreedy(m, next, old(cptr), 0, max).value;
              && (r == Mismatch <==> q < min)
              && (r == Mismatch ==> states == old(states))
              && (r == Continue ==>
                    && pc == next + off && cptr == pos' && stackLen == old(stackLen)
                    && states == old(states)
                       + if q > min then [SavedState(GreedyState, q - min, pos', next - 16, capture[..], stack[..stackLen])] else [])
    {
      var q;
      cptr, q := RunGreedily(m, next, cptr, max);
      if q < min {
        return Mismatch;
      }
      if q > min {
        PushState(GreedyState, next - 16, q - min);
      }
      pc := next + off;
      return Continue;
    }

    // lre_exec_backtrack: the machine runs to its end.
    method Backtracking(start: int, pos: int, ghost end: nat) returns (matched: bool, ghost n: nat)
      requires Valid() && states == [] && stackLen == 0
      requires EndsAt(m, Run(start, pos, [], capture[..], []), end)
      modifies this, capture, stack
      ensures Valid()
      ensures Steps(m, Run(start, pos, [], old(capture[..]), []), n) == Halt(matched, if matched then capture[..] else [])
    {
      hide Steps, Step, EndsAt;
      ghost var c0 := Run(start, pos, [], capture[..], []);
      pc, cptr := start, pos;
      assert stack[..stackLen] == [];
      n := 0;
      StepsStart(m, c0);
      while true
        invariant Valid() && Steps(m, c0, n) == Now()
        decreases end - n
      {
        BeforeTheEnd(m, c0, end, n);
        BeforeTheEnd(m, c0, end, n + 1);
        StepsNext(m, c0, n);
        n := n + 1;
        var r := Dispatch();
        if r != Continue {
          var done, ret;
          done, ret, n := Unwind(r == Matched, c0, end, n);
          if done {
            return ret, n;
          }
        }
      }
    }
  }

  datatype Verdict = Continue | Mismatch | Matched

  lemma {:induction false} StepOfMatch(m: Machine, i: Instr, pc: int, pos: int, stack: seq<int>, captures: seq<int>, states: seq<SavedState>)
    requires ValidPos(m.subject, pos)
    ensures i.Match? ==> StepInstr(m, i, pc, pos, stack, captures, states) == Succeed(captures, states)
    ensures !StepInstr(m, i, pc, pos, stack, captures, states).Stuck? ==> IsCharTest(i) || (!i.Range? && !i.Range32?)
    ensures i.Char? || i.Char32? || i.Dot? || i.AnyChar? ==> IsCharTest(i)
  {
  }

  lemma {:induction false} StepsNext(m: Machine, c: Config, n: nat)
    ensures Steps(m, c, n + 1) == Step(m, Steps(m, c, n))
  {
  }

  lemma {:induction false} StepsStart(m: Machine, c: Config)
    ensures Steps(m, c, 0) == c
  {
  }

  // ---------------------------------------------------------------------------
  // lre_exec

  // The start position: a cursor inside a surrogate pair moves back to its beginning.
  function StartOf(s: Subject, cindex: int): (x: int)
    requires 0 <= cindex <= |s.units|
  {
    if PairAt(s, cindex - 1) then cindex - 1 else cindex
  }

  // The number of characters between two offsets.
  function CharsBetween(s: Subject, y: int, x: int): (k: nat)
    requires 0 <= y <= x <= |s.units| && !PairAt(s, x - 1)
    ensures k <= |CharsFrom(s, y)| && OffsetFrom(s, y, k) == x
    decreases x - y
  {
    if x == y then 0 else 1 + CharsBetween(s, GetChar(s, y).1, x)
  }

  // The index of the character at an offset that is not inside a surrogate pair.
  function IndexAt(s: Subject, x: int): (k: nat)
    requires 0 <= x <= |s.units| && !PairAt(s, x - 1)
    ensures k <= |Chars(s)| && Offset(s, k) == x
  {
    CharsBetween(s, 0, x)
  }

  // The start position is always the beginning of a character.
  lemma {:induction false} StartIsBoundary(s: Subject, cindex: int)
    requires 0 <= cindex <= |s.units|
    ensures 0 <= StartOf(s, cindex) <= |s.units| && !PairAt(s, StartOf(s, cindex) - 1)
  {
  }

  // For every pattern that lre_compile accepted, every subject and every start index,
  // lre_exec ends and returns the first match of the specification, counted from the
  // beginning of the character at the start index: with the captures the emitted code
  // computes, and with those of the specification for all groups that cannot be stale.
  method LreExec(code: seq<Byte>, subject: Subject, canon: int -> int, cindex: int,
                 ghost r: Spec.Node, ghost f: Spec.Flags, ghost sticky: bool)
    returns (matched: bool, captures: seq<int>)
    requires |code| >= HEADER_LEN && Compiled(MachineOf(code, subject, canon), r, f, sticky) && 0 <= cindex <= |subject.units|
    ensures var m := MachineOf(code, subject, canon);
            var x := StartOf(subject, cindex);
            var d := Halt(matched, if matched then captures else []);
            && !PairAt(subject, x - 1)
            && d == Ending(Found(m, r, f, sticky, IndexAt(subject, x), Spec.Emitted))
            && IsOutcome(d, Found(m, r, f, sticky, IndexAt(subject, x), Spec.Standard), StaleGroups(r))
  {
    hide Compiled, Steps, Found, IsOutcome;
    var m := MachineOf(code, subject, canon);
    var context := new ExecContext(m);
    var cptr := StartOf(subject, cindex);
    StartIsBoundary(subject, cindex);
    ghost var k := IndexAt(subject, cptr);
    assert context.capture[..] == Spec.Unset(m.captureCount);
    ghost var end := EndOf(m, r, f, sticky, k);
    ghost var n;
    matched, n := context.Backtracking(0, cptr, end);
    captures := context.capture[..];
    SameHalt(m, Start(m, k), end, n);
  }

  lemma {:induction false} EndOf(m: Machine, r: Spec.Node, f: Spec.Flags, sticky: bool, k: nat) returns (end: nat)
    requires Compiled(m, r, f, sticky) && k <= Len(m)
    ensures EndsAt(m, Start(m, k), end)
    ensures var d := Steps(m, Start(m, k), end);
            && d == Ending(Found(m, r, f, sticky, k, Spec.Emitted))
            && IsOutcome(d, Found(m, r, f, sticky, k, Spec.Standard), StaleGroups(r))
  {
    hide Steps, Found, Start, Spec.CanonOk, Spec.WellFormed, IsOutcome, StaleGroups;
    end := ExecComputes(m, r, f, sticky, k);
    EmittedIsOutcome(m, r, f, sticky, k);
  }

  // A run has only one end.
  lemma {:induction false} SameHalt(m: Machine, c: Config, n: nat, k: nat)
    requires EndsAt(m, c, n) && EndsAt(m, c, k)
    ensures Steps(m, c, n) == Steps(m, c, k)
  {
    if n <= k {
      HaltStays(m, c, n, k);
    } else {
      HaltStays(m, c, k, n);
    }
  }
}
