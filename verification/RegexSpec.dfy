// Regular expressions as trees, and the matchers of section 22.2.2 of ECMA-262 for them.
// A matcher takes a match state, that is a position and the captures, and a continuation.
// The same matchers, with captures saved and cleared where the emitted code does it,
// describe what the code computes.
module RegexSpec {
  import opened Wrappers

  // The largest repetition count; it stands for infinity, as INT32_MAX does in the C code.
  const INFINITE := 0x7fff_ffff

  datatype Flags = Flags(ignoreCase: bool, multiLine: bool, dotAll: bool)

  // One item of a bracketed class: a character or a range lo-hi.
  datatype ClassItem = Single(c: int) | Span(lo: int, hi: int)

  datatype Node =
    | Empty
    | Literal(c: int)
    | Dot
    | Class(items: seq<ClassItem>, negated: bool)
    | LineStart
    | LineEnd
    | WordBoundary(negated: bool)
    | Seq(first: Node, second: Node)
    | Alt(left: Node, right: Node)
    | Group(body: Node)
    | Capture(body: Node)
    | Modifiers(add: Flags, remove: Flags, body: Node)
    | Look(negative: bool, behind: bool, body: Node)
    | Quant(body: Node, min: int, max: int, greedy: bool)

  // The input as a list of characters, the Canonicalize operation, and how the index of a
  // character is reported.
  datatype Env = Env(chars: seq<int>, canon: int -> int, mark: nat -> int)

  // Captures: where group g starts at 2 * g, where it ends at 2 * g + 1.
  type Marks = seq<int>

  // A position that is not set.
  const UNSET := -1

  datatype State = State(end: nat, captures: Marks)

  type Result = Option<State>
  type Cont = (nat, Marks) -> Result
  type Matcher = (nat, Marks, Cont) -> Result

  // When captures change: as the specification says, as the emitted code does it, or as the
  // code does it, with a mark on every capture that the specification would have cleared.
  datatype Discipline = Standard | Emitted | Tracked

  // The limits the parser enforces on the numbers in a pattern.
  predicate WellFormed(r: Node) {
    match r
    case Literal(c) => 0 <= c <= 0x10_FFFF
    case Class(items, _) => forall i :: 0 <= i < |items| ==> WellFormedItem(items[i])
    case Seq(a, b) => WellFormed(a) && WellFormed(b)
    case Alt(a, b) => WellFormed(a) && WellFormed(b)
    case Group(a) => WellFormed(a)
    case Capture(a) => WellFormed(a)
    case Modifiers(_, _, a) => WellFormed(a)
    case Look(_, _, a) => WellFormed(a)
    case Quant(a, min, max, _) => WellFormed(a) && 0 <= min <= max <= INFINITE
    case _ => true
  }

  predicate WellFormedItem(i: ClassItem) {
    match i
    case Single(c) => 0 <= c <= 0x10_FFFF
    case Span(lo, hi) => 0 <= lo <= hi <= 0x10_FFFF
  }

  // Number of capture groups.
  function Captures(r: Node): (n: nat) {
    match r
    case Seq(a, b) => Captures(a) + Captures(b)
    case Alt(a, b) => Captures(a) + Captures(b)
    case Group(a) => Captures(a)
    case Capture(a) => 1 + Captures(a)
    case Modifiers(_, _, a) => Captures(a)
    case Look(_, _, a) => Captures(a)
    case Quant(a, _, _, _) => Captures(a)
    case _ => 0
  }

  predicate IsLineTerminator(c: int) {
    c == 0x0A || c == 0x0D || c == 0x2028 || c == 0x2029
  }

  predicate IsWordChar(c: int) {
    '0' as int <= c <= '9' as int || 'a' as int <= c <= 'z' as int || 'A' as int <= c <= 'Z' as int || c == '_' as int
  }

  // What the specification requires of Canonicalize: it maps characters to characters
  // and word characters to word characters.
  ghost predicate CanonOk(canon: int -> int) {
    forall c: int {:trigger canon(c)} ::
      (0 <= c <= 0x10_FFFF ==> 0 <= canon(c) <= 0x10_FFFF) && (IsWordChar(c) ==> IsWordChar(canon(c)))
  }

  function UpdateFlags(f: Flags, add: Flags, remove: Flags): (g: Flags) {
    Flags((f.ignoreCase || add.ignoreCase) && !remove.ignoreCase,
          (f.multiLine || add.multiLine) && !remove.multiLine,
          (f.dotAll || add.dotAll) && !remove.dotAll)
  }

  predicate InItem(i: ClassItem, a: int) {
    match i
    case Single(c) => a == c
    case Span(lo, hi) => lo <= a <= hi
  }

  predicate InItems(items: seq<ClassItem>, a: int) {
    exists i :: 0 <= i < |items| && InItem(items[i], a)
  }

  // CharacterSetMatcher (22.2.2.7): some member of the class has the canonical form of c.
  ghost predicate ClassHas(env: Env, f: Flags, items: seq<ClassItem>, c: int) {
    if f.ignoreCase then exists a :: InItems(items, a) && env.canon(a) == env.canon(c)
    else InItems(items, c)
  }

  // Whether a one-character pattern accepts the character c.
  ghost predicate Accepts(env: Env, r: Node, f: Flags, c: int)
    requires r.Literal? || r.Dot? || r.Class?
  {
    match r
    case Literal(l) => if f.ignoreCase then env.canon(l) == env.canon(c) else l == c
    case Dot => f.dotAll || !IsLineTerminator(c)
    case Class(items, negated) => ClassHas(env, f, items, c) != negated
  }

  // WordCharacters (22.2.2.9.3): with ignoreCase, also what case folds to a word character.
  predicate IsWordAt(env: Env, f: Flags, x: int) {
    0 <= x < |env.chars| &&
    (IsWordChar(env.chars[x]) || (f.ignoreCase && IsWordChar(env.canon(env.chars[x]))))
  }

  predicate AssertionHolds(env: Env, r: Node, f: Flags, x: nat)
    requires r.LineStart? || r.LineEnd? || r.WordBoundary?
  {
    match r
    case LineStart => x == 0 || (f.multiLine && x <= |env.chars| && IsLineTerminator(env.chars[x - 1]))
    case LineEnd => x == |env.chars| || (f.multiLine && x < |env.chars| && IsLineTerminator(env.chars[x]))
    case WordBoundary(negated) => (IsWordAt(env, f, x - 1) != IsWordAt(env, f, x)) != negated
  }

  // Position y can be reached from x by a matcher of the given direction.
  predicate Ahead(env: Env, backward: bool, x: nat, y: nat) {
    x <= |env.chars| && if backward then y <= x else x <= y <= |env.chars|
  }

  // How far a matcher can still move.
  function Room(env: Env, backward: bool, x: nat): (d: int) {
    if backward then x else |env.chars| - x
  }

  // CompileSubpattern (22.2.2.3) and its relatives: the matcher of a pattern whose first
  // group has the number g.
  ghost function Compile(env: Env, r: Node, f: Flags, backward: bool, g: nat, how: Discipline): (m: Matcher)
    decreases r
  {
    match r
    case Empty => (x: nat, c: Marks, k: Cont) => k(x, c)
    case Literal(_) => CharMatcher(env, r, f, backward)
    case Dot => CharMatcher(env, r, f, backward)
    case Class(_, _) => CharMatcher(env, r, f, backward)
    case LineStart => AssertionMatcher(env, r, f)
    case LineEnd => AssertionMatcher(env, r, f)
    case WordBoundary(_) => AssertionMatcher(env, r, f)
    case Seq(a, b) =>
      var m := Compile(env, a, f, backward, g, how);
      var m' := Compile(env, b, f, backward, g + Captures(a), how);
      if backward then SeqMatcher(m', m) else SeqMatcher(m, m')
    case Alt(a, b) => AltMatcher(Compile(env, a, f, backward, g, how), Compile(env, b, f, backward, g + Captures(a), how))
    case Group(a) => Compile(env, a, f, backward, g, how)
    case Capture(a) => CaptureMatcher(env, Compile(env, a, f, backward, g + 1, how), backward, g, how)
    case Modifiers(add, remove, a) => Compile(env, a, UpdateFlags(f, add, remove), backward, g, how)
    case Look(negative, behind, a) => LookMatcher(Compile(env, a, f, behind, g, how), negative)
    case Quant(a, min, max, greedy) =>
      QuantMatcher(env, Compile(env, a, f, backward, g, how), backward, min, max, greedy, g, g + Captures(a), how)
  }

  // The matcher of each kind of pattern, one at a time.
  lemma {:induction false} CompileSeq(env: Env, a: Node, b: Node, f: Flags, backward: bool, g: nat, how: Discipline)
    ensures var ma, mb := Compile(env, a, f, backward, g, how), Compile(env, b, f, backward, g + Captures(a), how);
            && Compile(env, Seq(a, b), f, backward, g, how) == (if backward then SeqMatcher(mb, ma) else SeqMatcher(ma, mb))
            && Compile(env, Alt(a, b), f, backward, g, how) == AltMatcher(ma, mb)
  {
    hide CharMatcher, AssertionMatcher, SeqMatcher, AltMatcher, LookMatcher, CaptureMatcher, QuantMatcher, UpdateFlags, Captures;
  }

  lemma {:induction false} CompileNested(env: Env, a: Node, f: Flags, backward: bool, g: nat, how: Discipline)
    ensures Compile(env, Group(a), f, backward, g, how) == Compile(env, a, f, backward, g, how)
    ensures Compile(env, Capture(a), f, backward, g, how) ==
            CaptureMatcher(env, Compile(env, a, f, backward, g + 1, how), backward, g, how)
  {
    hide CharMatcher, AssertionMatcher, SeqMatcher, AltMatcher, LookMatcher, CaptureMatcher, QuantMatcher, UpdateFlags, Captures;
  }

  lemma {:induction false} CompileModifiers(env: Env, a: Node, add: Flags, remove: Flags, f: Flags, backward: bool, g: nat, how: Discipline)
    ensures Compile(env, Modifiers(add, remove, a), f, backward, g, how) ==
            Compile(env, a, UpdateFlags(f, add, remove), backward, g, how)
  {
    hide CharMatcher, AssertionMatcher, SeqMatcher, AltMatcher, LookMatcher, CaptureMatcher, QuantMatcher, UpdateFlags, Captures;
  }

  lemma {:induction false} CompileLook(env: Env, a: Node, negative: bool, behind: bool, f: Flags, backward: bool, g: nat, how: Discipline)
    ensures Compile(env, Look(negative, behind, a), f, backward, g, how) == LookMatcher(Compile(env, a, f, behind, g, how), negative)
  {
    hide CharMatcher, AssertionMatcher, SeqMatcher, AltMatcher, LookMatcher, CaptureMatcher, QuantMatcher, UpdateFlags, Captures;
  }

  lemma {:induction false} CompileQuant(env: Env, a: Node, min: int, max: int, greedy: bool, f: Flags, backward: bool, g: nat, how: Discipline)
    ensures Compile(env, Quant(a, min, max, greedy), f, backward, g, how) ==
            QuantMatcher(env, Compile(env, a, f, backward, g, how), backward, min, max, greedy, g, g + Captures(a), how)
  {
    hide CharMatcher, AssertionMatcher, SeqMatcher, AltMatcher, LookMatcher, CaptureMatcher, QuantMatcher, UpdateFlags, Captures;
  }

  lemma {:induction false} CompileLeaf(env: Env, r: Node, f: Flags, backward: bool, g: nat, how: Discipline)
    ensures r.Literal? || r.Dot? || r.Class? ==> Compile(env, r, f, backward, g, how) == CharMatcher(env, r, f, backward)
    ensures r.LineStart? || r.LineEnd? || r.WordBoundary? ==> Compile(env, r, f, backward, g, how) == AssertionMatcher(env, r, f)
  {
    hide CharMatcher, AssertionMatcher, SeqMatcher, AltMatcher, LookMatcher, CaptureMatcher, QuantMatcher, UpdateFlags, Captures;
  }

  // CharacterSetMatcher (22.2.2.7): consume one character in the direction of the match.
  ghost function CharMatcher(env: Env, r: Node, f: Flags, backward: bool): (m: Matcher)
    requires r.Literal? || r.Dot? || r.Class?
  {
    (x: nat, c: Marks, k: Cont) =>
      if AcceptsNext(env, r, f, backward, x) then (if backward then k(x - 1, c) else k(x + 1, c)) else None
  }

  lemma {:induction false} CharMatcherIs(env: Env, r: Node, f: Flags, backward: bool, x: nat, c: Marks, k: Cont)
    requires r.Literal? || r.Dot? || r.Class?
    ensures AcceptsNext(env, r, f, backward, x) ==>
              (backward ==> x > 0) && CharMatcher(env, r, f, backward)(x, c, k) == if backward then k(x - 1, c) else k(x + 1, c)
    ensures !AcceptsNext(env, r, f, backward, x) ==> CharMatcher(env, r, f, backward)(x, c, k) == None
  {
  }

  // Whether there is a next character in the direction of the match and it is accepted.
  ghost predicate AcceptsNext(env: Env, r: Node, f: Flags, backward: bool, x: nat)
    requires r.Literal? || r.Dot? || r.Class?
  {
    if backward then 0 < x <= |env.chars| && Accepts(env, r, f, env.chars[x - 1])
    else x < |env.chars| && Accepts(env, r, f, env.chars[x])
  }

  ghost function AssertionMatcher(env: Env, r: Node, f: Flags): (m: Matcher)
    requires r.LineStart? || r.LineEnd? || r.WordBoundary?
  {
    (x: nat, c: Marks, k: Cont) => if AssertionHolds(env, r, f, x) then k(x, c) else None
  }

  lemma {:induction false} AssertionMatcherIs(env: Env, r: Node, f: Flags, x: nat, c: Marks, k: Cont)
    requires r.LineStart? || r.LineEnd? || r.WordBoundary?
    ensures AssertionMatcher(env, r, f)(x, c, k) == if AssertionHolds(env, r, f, x) then k(x, c) else None
  {
    hide AssertionHolds;
  }

  // MatchSequence (22.2.2.3.3)
  ghost function SeqMatcher(m: Matcher, m': Matcher): (r: Matcher) {
    (x: nat, c: Marks, k: Cont) => m(x, c, Then(m', k))
  }

  ghost function Then(m: Matcher, k: Cont): (k': Cont) {
    (y: nat, c: Marks) => m(y, c, k)
  }

  // MatchTwoAlternatives (22.2.2.3.2)
  ghost function AltMatcher(m: Matcher, m': Matcher): (r: Matcher) {
    (x: nat, c: Marks, k: Cont) => OrElse(m(x, c, k), m'(x, c, k))
  }

  function OrElse(a: Result, b: Result): (z: Result) {
    if a.Some? then a else b
  }

  // Lookarounds (22.2.2.4): one attempt of the body, whose end is forgotten. The captures of
  // a positive one are kept.
  ghost function LookMatcher(m: Matcher, negative: bool): (r: Matcher) {
    (x: nat, c: Marks, k: Cont) => AfterLook(m(x, c, Accept), negative, x, c, k)
  }

  function AfterLook(o: Result, negative: bool, x: nat, c: Marks, k: Cont): (z: Result) {
    if negative then (if o.None? then k(x, c) else None)
    else if o.Some? then k(x, o.value.captures) else None
  }

  function Accept(y: nat, c: Marks): (z: Result) {
    Some(State(y, c))
  }

  // ---------------------------------------------------------------------------
  // Captures

  function Put(c: Marks, i: nat, mark: int): (d: Marks) {
    if i < |c| then c[i := mark] else c
  }

  // No group from "first" up to but not including "next" is set.
  function Clear(c: Marks, first: nat, next: nat): (d: Marks)
    ensures |d| == |c|
    ensures forall i :: 0 <= i < |c| ==> d[i] == if 2 * first <= i < 2 * next then UNSET else c[i]
  {
    seq(|c|, i requires 0 <= i < |c| => if 2 * first <= i < 2 * next then UNSET else c[i])
  }

  ghost function PutMatcher(env: Env, i: nat): (r: Matcher) {
    (x: nat, c: Marks, k: Cont) => k(x, Put(c, i, env.mark(x)))
  }

  ghost function ClearMatcher(first: nat, next: nat): (r: Matcher) {
    (x: nat, c: Marks, k: Cont) => k(x, Clear(c, first, next))
  }

  // Tracked captures are followed by a mark for each of them.
  const CLEARED := 1

  // Instead of clearing: the captures of these groups are marked if they are set.
  function MarkCleared(c: Marks, first: nat, next: nat): (d: Marks) {
    var n := |c| / 2;
    seq(|c|, i requires 0 <= i < |c| => if n <= i && 2 * first <= i - n < 2 * next && c[i - n] != UNSET then CLEARED else c[i])
  }

  function Unmark(c: Marks, first: nat, next: nat): (d: Marks) {
    var n := |c| / 2;
    seq(|c|, i requires 0 <= i < |c| => if n <= i && 2 * first <= i - n < 2 * next then 0 else c[i])
  }

  ghost function MarkMatcher(first: nat, next: nat): (r: Matcher) {
    (x: nat, c: Marks, k: Cont) => k(x, MarkCleared(c, first, next))
  }

  ghost function UnmarkMatcher(first: nat, next: nat): (r: Matcher) {
    (x: nat, c: Marks, k: Cont) => k(x, Unmark(c, first, next))
  }

  // A group (22.2.2.7) sets its captures once its body has matched. The code sets the one
  // before the body and the other after it.
  ghost function CaptureMatcher(env: Env, m: Matcher, backward: bool, g: nat, how: Discipline): (r: Matcher) {
    match how
    case Emitted =>
      if backward then SeqMatcher(SeqMatcher(PutMatcher(env, 2 * g + 1), m), PutMatcher(env, 2 * g))
      else SeqMatcher(SeqMatcher(PutMatcher(env, 2 * g), m), PutMatcher(env, 2 * g + 1))
    case _ => (x: nat, c: Marks, k: Cont) => m(x, c, CaptureCont(env, backward, g, x, k, how))
  }

  ghost function CaptureCont(env: Env, backward: bool, g: nat, x: nat, k: Cont, how: Discipline): (d: Cont) {
    (y: nat, c: Marks) => k(y, Grouped(env, backward, g, x, y, c, how))
  }

  // The captures when group g has matched from x to y.
  function Grouped(env: Env, backward: bool, g: nat, x: nat, y: nat, c: Marks, how: Discipline): (d: Marks) {
    var (start, end) := if backward then (y, x) else (x, y);
    var both := Put(Put(c, 2 * g, env.mark(start)), 2 * g + 1, env.mark(end));
    if how == Tracked then Unmark(both, g, g + 1) else both
  }

  // A quantified atom. RepeatMatcher clears the captures of the atom before every iteration,
  // the code once before all of them, and only where there need not be an iteration.
  ghost function QuantMatcher(env: Env, m: Matcher, backward: bool, min: int, max: int, greedy: bool,
                              first: nat, next: nat, how: Discipline): (r: Matcher) {
    match how
    case Standard => RepeatMatcher(env, SeqMatcher(ClearMatcher(first, next), m), backward, min, max, greedy)
    case Emitted =>
      var loop := RepeatMatcher(env, m, backward, min, max, greedy);
      if min == 0 then SeqMatcher(ClearMatcher(first, next), loop) else loop
    case Tracked =>
      var loop := RepeatMatcher(env, SeqMatcher(MarkMatcher(first, next), m), backward, min, max, greedy);
      if min == 0 then SeqMatcher(SeqMatcher(ClearMatcher(first, next), UnmarkMatcher(first, next)), loop) else loop
  }

  // RepeatMatcher (22.2.2.3.1)
  ghost function RepeatMatcher(env: Env, m: Matcher, backward: bool, min: int, max: int, greedy: bool): (r: Matcher) {
    (x: nat, c: Marks, k: Cont) => Repeat(env, m, backward, Max(min, 0), max, greedy, x, c, k)
  }

  ghost function Repeat(env: Env, m: Matcher, backward: bool, min: nat, max: int, greedy: bool,
                        x: nat, c: Marks, k: Cont): (z: Result)
    decreases min, Room(env, backward, x), 1
  {
    if max <= 0 then k(x, c)
    else
      var d := RepeatCont(env, m, backward, min, max, greedy, x, k);
      if min > 0 then m(x, c, d)
      else if greedy then OrElse(m(x, c, d), k(x, c))
      else OrElse(k(x, c), m(x, c, d))
  }

  // The continuation of one iteration. An iteration beyond the minimum must advance. The
  // test Ahead only gives the recursion its measure: by OnlyAhead it is never false.
  ghost function RepeatCont(env: Env, m: Matcher, backward: bool, min: nat, max: int, greedy: bool,
                            x: nat, k: Cont): (d: Cont)
    decreases min, Room(env, backward, x), 0
  {
    (y: nat, c: Marks) =>
      if min == 0 && y == x then None
      else if !Ahead(env, backward, x, y) then None
      else Repeat(env, m, backward, Max(min - 1, 0), Less(max), greedy, y, c, k)
  }

  function Less(max: int): (m: int) {
    if max == INFINITE then max else max - 1
  }

  function Max(a: int, b: int): (m: int) {
    if a >= b then a else b
  }

  // RegExpBuiltinExec (22.2.7.2) for a pattern that is itself group 0: the captures of the
  // match at the first start position from x that has one; c is what they are at first.
  ghost function Search(env: Env, m: Matcher, sticky: bool, c: Marks, x: nat): (z: Option<Marks>)
    requires x <= |env.chars|
    decreases |env.chars| - x
  {
    var r := m(x, c, Accept);
    if r.Some? then Some(r.value.captures)
    else if sticky || x == |env.chars| then None
    else Search(env, m, sticky, c, x + 1)
  }

  function Unset(n: nat): (c: Marks)
    ensures |c| == 2 * n && forall i :: 0 <= i < |c| ==> c[i] == UNSET
  {
    seq(2 * n, _ => UNSET)
  }

  // No capture of n groups is set, and none is marked.
  function Initial(n: nat, how: Discipline): (c: Marks) {
    if how == Tracked then Unset(n) + seq(2 * n, _ => 0) else Unset(n)
  }

  // The search for a pattern.
  ghost function Find(env: Env, r: Node, f: Flags, sticky: bool, x: nat, how: Discipline): (z: Option<Marks>)
    requires x <= |env.chars|
  {
    Search(env, Compile(env, Capture(r), f, false, 0, how), sticky, Initial(1 + Captures(r), how), x)
  }

  // ---------------------------------------------------------------------------
  // A matcher depends on its continuation only at positions ahead in its direction.

  ghost predicate AgreeAhead(env: Env, backward: bool, x: nat, k: Cont, k': Cont) {
    forall y: nat, c: Marks :: Ahead(env, backward, x, y) ==> k(y, c) == k'(y, c)
  }

  ghost predicate Local(env: Env, backward: bool, m: Matcher) {
    forall x: nat, c: Marks, k: Cont, k': Cont :: x <= |env.chars| && AgreeAhead(env, backward, x, k, k') ==> m(x, c, k) == m(x, c, k')
  }

  lemma {:induction false} OnlyAhead(env: Env, r: Node, f: Flags, backward: bool, g: nat, how: Discipline)
    ensures Local(env, backward, Compile(env, r, f, backward, g, how))
    decreases r
  {
    hide Compile, Local, CaptureMatcher, QuantMatcher, SeqMatcher, AltMatcher, LookMatcher, UpdateFlags, Captures;
    match r
    case Seq(a, b) =>
      CompileSeq(env, a, b, f, backward, g, how);
      OnlyAhead(env, a, f, backward, g, how);
      OnlyAhead(env, b, f, backward, g + Captures(a), how);
      var m, m' := Compile(env, a, f, backward, g, how), Compile(env, b, f, backward, g + Captures(a), how);
      SeqOnlyAhead(env, backward, m, m');
      SeqOnlyAhead(env, backward, m', m);
    case Alt(a, b) =>
      OnlyAhead(env, a, f, backward, g, how);
      OnlyAhead(env, b, f, backward, g + Captures(a), how);
      CompileSeq(env, a, b, f, backward, g, how);
      AltOnlyAhead(env, backward, Compile(env, a, f, backward, g, how), Compile(env, b, f, backward, g + Captures(a), how));
    case Group(a) =>
      CompileNested(env, a, f, backward, g, how);
      OnlyAhead(env, a, f, backward, g, how);
    case Capture(a) =>
      CompileNested(env, a, f, backward, g, how);
      OnlyAhead(env, a, f, backward, g + 1, how);
      CaptureOnlyAhead(env, Compile(env, a, f, backward, g + 1, how), backward, g, how);
    case Modifiers(add, remove, a) =>
      CompileModifiers(env, a, add, remove, f, backward, g, how);
      OnlyAhead(env, a, UpdateFlags(f, add, remove), backward, g, how);
    case Quant(a, min, max, greedy) =>
      CompileQuant(env, a, min, max, greedy, f, backward, g, how);
      OnlyAhead(env, a, f, backward, g, how);
      QuantOnlyAhead(env, Compile(env, a, f, backward, g, how), backward, min, max, greedy, g, g + Captures(a), how);
    case Look(negative, behind, a) =>
      CompileLook(env, a, negative, behind, f, backward, g, how);
      LookOnlyAhead(env, Compile(env, a, f, behind, g, how), negative, backward);
    case _ => LeafOnlyAhead(env, r, f, backward, g, how);
  }

  lemma {:induction false} LeafOnlyAhead(env: Env, r: Node, f: Flags, backward: bool, g: nat, how: Discipline)
    requires r.Empty? || r.Literal? || r.Dot? || r.Class? || r.LineStart? || r.LineEnd? || r.WordBoundary?
    ensures Local(env, backward, Compile(env, r, f, backward, g, how))
  {
    hide Accepts, AssertionHolds;
    var m := Compile(env, r, f, backward, g, how);
    forall x: nat, c: Marks, k: Cont, k': Cont | x <= |env.chars| && AgreeAhead(env, backward, x, k, k')
      ensures m(x, c, k) == m(x, c, k')
    {
      assert Ahead(env, backward, x, x) && k(x, c) == k'(x, c);
    }
  }

  lemma {:induction false} AltOnlyAhead(env: Env, backward: bool, m: Matcher, m': Matcher)
    requires Local(env, backward, m) && Local(env, backward, m')
    ensures Local(env, backward, AltMatcher(m, m'))
  {
    hide AgreeAhead;
  }

  lemma {:induction false} LookOnlyAhead(env: Env, m: Matcher, negative: bool, backward: bool)
    ensures Local(env, backward, LookMatcher(m, negative))
  {
    forall x: nat, c: Marks, k: Cont, k': Cont | x <= |env.chars| && AgreeAhead(env, backward, x, k, k')
      ensures LookMatcher(m, negative)(x, c, k) == LookMatcher(m, negative)(x, c, k')
    {
      assert Ahead(env, backward, x, x);
      assert k(x, c) == k'(x, c);
      var o := m(x, c, Accept);
      if o.Some? {
        assert k(x, o.value.captures) == k'(x, o.value.captures);
      }
    }
  }

  lemma {:induction false} SeqOnlyAhead(env: Env, backward: bool, m: Matcher, m': Matcher)
    requires Local(env, backward, m) && Local(env, backward, m')
    ensures Local(env, backward, SeqMatcher(m, m'))
  {
    forall x: nat, c: Marks, k: Cont, k': Cont | x <= |env.chars| && AgreeAhead(env, backward, x, k, k')
      ensures SeqMatcher(m, m')(x, c, k) == SeqMatcher(m, m')(x, c, k')
    {
      forall y: nat, d: Marks | Ahead(env, backward, x, y)
        ensures Then(m', k)(y, d) == Then(m', k')(y, d)
      {
        assert AgreeAhead(env, backward, y, k, k');
      }
      assert AgreeAhead(env, backward, x, Then(m', k), Then(m', k'));
    }
  }

  lemma {:induction false} PutOnlyAhead(env: Env, backward: bool, i: nat)
    ensures Local(env, backward, PutMatcher(env, i))
  {
    hide Put;
    forall x: nat, c: Marks, k: Cont, k': Cont | x <= |env.chars| && AgreeAhead(env, backward, x, k, k')
      ensures PutMatcher(env, i)(x, c, k) == PutMatcher(env, i)(x, c, k')
    {
      var d := Put(c, i, env.mark(x));
      assert Ahead(env, backward, x, x) && k(x, d) == k'(x, d);
    }
  }

  lemma {:induction false} ClearOnlyAhead(env: Env, backward: bool, first: nat, next: nat)
    ensures Local(env, backward, ClearMatcher(first, next))
  {
    forall x: nat, c: Marks, k: Cont, k': Cont | x <= |env.chars| && AgreeAhead(env, backward, x, k, k')
      ensures ClearMatcher(first, next)(x, c, k) == ClearMatcher(first, next)(x, c, k')
    {
      var d := Clear(c, first, next);
      assert Ahead(env, backward, x, x) && k(x, d) == k'(x, d);
    }
  }

  lemma {:induction false} MarkOnlyAhead(env: Env, backward: bool, first: nat, next: nat)
    ensures Local(env, backward, MarkMatcher(first, next))
  {
    hide MarkCleared;
    forall x: nat, c: Marks, k: Cont, k': Cont | x <= |env.chars| && AgreeAhead(env, backward, x, k, k')
      ensures MarkMatcher(first, next)(x, c, k) == MarkMatcher(first, next)(x, c, k')
    {
      var d := MarkCleared(c, first, next);
      assert Ahead(env, backward, x, x) && k(x, d) == k'(x, d);
    }
  }

  lemma {:induction false} UnmarkOnlyAhead(env: Env, backward: bool, first: nat, next: nat)
    ensures Local(env, backward, UnmarkMatcher(first, next))
  {
    hide Unmark;
    forall x: nat, c: Marks, k: Cont, k': Cont | x <= |env.chars| && AgreeAhead(env, backward, x, k, k')
      ensures UnmarkMatcher(first, next)(x, c, k) == UnmarkMatcher(first, next)(x, c, k')
    {
      var d := Unmark(c, first, next);
      assert Ahead(env, backward, x, x) && k(x, d) == k'(x, d);
    }
  }

  lemma {:induction false} CaptureOnlyAhead(env: Env, m: Matcher, backward: bool, g: nat, how: Discipline)
    requires Local(env, backward, m)
    ensures Local(env, backward, CaptureMatcher(env, m, backward, g, how))
  {
    if how == Emitted {
      hide PutMatcher, SeqMatcher, Local;
      PutOnlyAhead(env, backward, 2 * g);
      PutOnlyAhead(env, backward, 2 * g + 1);
      var i := if backward then 2 * g + 1 else 2 * g;
      SeqOnlyAhead(env, backward, PutMatcher(env, i), m);
      SeqOnlyAhead(env, backward, SeqMatcher(PutMatcher(env, i), m), PutMatcher(env, if backward then 2 * g else 2 * g + 1));
    } else {
      GroupOnlyAhead(env, m, backward, g, how);
    }
  }

  lemma {:induction false} GroupOnlyAhead(env: Env, m: Matcher, backward: bool, g: nat, how: Discipline)
    requires how != Emitted && Local(env, backward, m)
    ensures Local(env, backward, CaptureMatcher(env, m, backward, g, how))
  {
    hide Put, AgreeAhead, CaptureCont;
    forall x: nat, c: Marks, k: Cont, k': Cont | x <= |env.chars| && AgreeAhead(env, backward, x, k, k')
      ensures CaptureMatcher(env, m, backward, g, how)(x, c, k) == CaptureMatcher(env, m, backward, g, how)(x, c, k')
    {
      GroupContAgree(env, backward, g, x, k, k', how);
    }
  }

  lemma {:induction false} GroupContAgree(env: Env, backward: bool, g: nat, x: nat, k: Cont, k': Cont, how: Discipline)
    requires AgreeAhead(env, backward, x, k, k')
    ensures AgreeAhead(env, backward, x, CaptureCont(env, backward, g, x, k, how), CaptureCont(env, backward, g, x, k', how))
  {
    hide Put, Ahead, CaptureCont;
    forall y: nat, c: Marks | Ahead(env, backward, x, y)
      ensures CaptureCont(env, backward, g, x, k, how)(y, c) == CaptureCont(env, backward, g, x, k', how)(y, c)
    {
      CaptureContIs(env, backward, g, x, k, y, c, how);
      CaptureContIs(env, backward, g, x, k', y, c, how);
    }
  }

  lemma {:induction false} CaptureContIs(env: Env, backward: bool, g: nat, x: nat, k: Cont, y: nat, c: Marks, how: Discipline)
    ensures CaptureCont(env, backward, g, x, k, how)(y, c) == k(y, Grouped(env, backward, g, x, y, c, how))
  {
  }

  lemma {:induction false} RepeatLocal(env: Env, m: Matcher, backward: bool, min: int, max: int, greedy: bool)
    requires Local(env, backward, m)
    ensures Local(env, backward, RepeatMatcher(env, m, backward, min, max, greedy))
  {
    forall x: nat, c: Marks, k: Cont, k': Cont | x <= |env.chars| && AgreeAhead(env, backward, x, k, k')
      ensures RepeatMatcher(env, m, backward, min, max, greedy)(x, c, k) == RepeatMatcher(env, m, backward, min, max, greedy)(x, c, k')
    {
      RepeatOnlyAhead(env, m, backward, Max(min, 0), max, greedy, x, c, k, k');
    }
  }

  lemma {:induction false} QuantOnlyAhead(env: Env, m: Matcher, backward: bool, min: int, max: int, greedy: bool,
                                          first: nat, next: nat, how: Discipline)
    requires Local(env, backward, m)
    ensures Local(env, backward, QuantMatcher(env, m, backward, min, max, greedy, first, next, how))
  {
    hide Local, ClearMatcher, MarkMatcher, UnmarkMatcher, SeqMatcher, RepeatMatcher;
    var clear, mark, unmark := ClearMatcher(first, next), MarkMatcher(first, next), UnmarkMatcher(first, next);
    ClearOnlyAhead(env, backward, first, next);
    match how
    case Standard =>
      SeqOnlyAhead(env, backward, clear, m);
      RepeatLocal(env, SeqMatcher(clear, m), backward, min, max, greedy);
    case Emitted =>
      RepeatLocal(env, m, backward, min, max, greedy);
      SeqOnlyAhead(env, backward, clear, RepeatMatcher(env, m, backward, min, max, greedy));
    case Tracked =>
      MarkOnlyAhead(env, backward, first, next);
      UnmarkOnlyAhead(env, backward, first, next);
      SeqOnlyAhead(env, backward, mark, m);
      RepeatLocal(env, SeqMatcher(mark, m), backward, min, max, greedy);
      SeqOnlyAhead(env, backward, clear, unmark);
      SeqOnlyAhead(env, backward, SeqMatcher(clear, unmark), RepeatMatcher(env, SeqMatcher(mark, m), backward, min, max, greedy));
  }

  lemma {:induction false} RepeatOnlyAhead(env: Env, m: Matcher, backward: bool, min: nat, max: int, greedy: bool,
                                           x: nat, c: Marks, k: Cont, k': Cont)
    requires Local(env, backward, m) && x <= |env.chars| && AgreeAhead(env, backward, x, k, k')
    ensures Repeat(env, m, backward, min, max, greedy, x, c, k) == Repeat(env, m, backward, min, max, greedy, x, c, k')
    decreases min, Room(env, backward, x)
  {
    if max > 0 {
      var d := RepeatCont(env, m, backward, min, max, greedy, x, k);
      var d' := RepeatCont(env, m, backward, min, max, greedy, x, k');
      forall y: nat, e: Marks | Ahead(env, backward, x, y)
        ensures d(y, e) == d'(y, e)
      {
        if !(min == 0 && y == x) {
          assert AgreeAhead(env, backward, y, k, k');
          RepeatOnlyAhead(env, m, backward, Max(min - 1, 0), Less(max), greedy, y, e, k, k');
        }
      }
      assert AgreeAhead(env, backward, x, d, d');
    }
  }

  // ---------------------------------------------------------------------------
  // A repetition is its mandatory iterations followed by its optional ones.

  ghost function Times(m: Matcher, n: nat, x: nat, c: Marks, k: Cont): (z: Result)
    decreases n, 1
  {
    if n == 0 then k(x, c) else m(x, c, TimesCont(m, n, k))
  }

  ghost function TimesCont(m: Matcher, n: nat, k: Cont): (d: Cont)
    requires n > 0
    decreases n, 0
  {
    (y: nat, c: Marks) => Times(m, n - 1, y, c, k)
  }

  ghost function TimesMatcher(m: Matcher, n: nat): (r: Matcher) {
    (x: nat, c: Marks, k: Cont) => Times(m, n, x, c, k)
  }

  // The maximum that allows "rest" iterations beyond a minimum of n.
  function MaxOf(n: nat, rest: nat, unbounded: bool): (max: int) {
    if unbounded then INFINITE else n + rest
  }

  lemma {:induction false} RepeatSplits(env: Env, m: Matcher, backward: bool, n: nat, rest: nat, unbounded: bool,
                                        greedy: bool, x: nat, c: Marks, k: Cont)
    requires Local(env, backward, m) && x <= |env.chars| && (!unbounded ==> n + rest < INFINITE)
    ensures Repeat(env, m, backward, n, MaxOf(n, rest, unbounded), greedy, x, c, k)
         == Times(m, n, x, c, Then(RepeatMatcher(env, m, backward, 0, MaxOf(0, rest, unbounded), greedy), k))
    decreases n
  {
    var k' := Then(RepeatMatcher(env, m, backward, 0, MaxOf(0, rest, unbounded), greedy), k);
    if n > 0 {
      var d := RepeatCont(env, m, backward, n, MaxOf(n, rest, unbounded), greedy, x, k);
      var d' := TimesCont(m, n, k');
      forall y: nat, e: Marks | Ahead(env, backward, x, y)
        ensures d(y, e) == d'(y, e)
      {
        RepeatSplits(env, m, backward, n - 1, rest, unbounded, greedy, y, e, k);
      }
      assert AgreeAhead(env, backward, x, d, d');
    }
  }
}
