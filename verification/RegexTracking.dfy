// Exactly which captures the emitted code returns other than the specification. The tracked
// matchers do what the code does, and mark a capture where the specification clears it: with
// the marked captures erased they are those of the specification, and without the marks those
// of the code.
module RegexTracking {
  import opened RegexSpec
  import opened RegexCaptures

  // The captures without their marks.
  function Values(t: Marks): (c: Marks) {
    t[..|t| / 2]
  }

  predicate Marked(t: Marks, i: int)
    requires 0 <= i < |t| / 2
  {
    t[|t| / 2 + i] == CLEARED
  }

  // The captures with the marked ones erased.
  function Erase(t: Marks): (c: Marks)
    ensures |c| == |t| / 2
    ensures forall i :: 0 <= i < |c| ==> c[i] == if Marked(t, i) then UNSET else t[i]
  {
    seq(|t| / 2, i requires 0 <= i < |t| / 2 => if Marked(t, i) then UNSET else t[i])
  }

  // Only groups from g up to but not including g + n differ.
  predicate AgreeBeyond(c: Marks, d: Marks, g: nat, n: nat) {
    |c| == |d| && forall i :: 0 <= i < |c| && !(2 * g <= i < 2 * (g + n)) ==> c[i] == d[i]
  }

  // The tracked captures t and those of the other discipline; "open" are the captures of the
  // groups that are being matched.
  ghost predicate Corresponds(how: Discipline, t: Marks, c: Marks, open: set<nat>) {
    && |t| == 2 * |c|
    && if how == Emitted then AgreeOutside(c, Values(t), open)
       else c == Erase(t) && forall i :: 0 <= i < |c| && Marked(t, i) ==> t[i] != UNSET
  }

  // Before and after a match of a pattern with n groups from g.
  ghost predicate Starts(how: Discipline, g: nat, n: nat, t: Marks, c: Marks, open: set<nat>) {
    && Corresponds(how, t, c, open) && 2 * (g + n) <= |c|
    && (how == Standard ==> Blank(c, g, n, {}))
    && forall i :: i in open ==> !(2 * g <= i < 2 * (g + n))
  }

  ghost predicate Finishes(how: Discipline, g: nat, n: nat, c: Marks, u: Marks, d: Marks, open: set<nat>) {
    Corresponds(how, u, d, open) && AgreeBeyond(c, d, g, n)
  }

  ghost predicate GoesOn(how: Discipline, g: nat, n: nat, c: Marks, open: set<nat>, k: Cont, k': Cont, rel: Relation) {
    forall y: nat, u: Marks, d: Marks {:trigger k(y, u), k'(y, d)} ::
      Finishes(how, g, n, c, u, d, open) ==> Matches(k(y, u), k'(y, d), rel)
  }

  lemma {:induction false} GoesOnFrom(how: Discipline, g: nat, n: nat, c: Marks, open: set<nat>, k: Cont, k': Cont, rel: Relation)
    requires forall y: nat, u: Marks, d: Marks {:trigger k(y, u), k'(y, d)} ::
               Finishes(how, g, n, c, u, d, open) ==> Matches(k(y, u), k'(y, d), rel)
    ensures GoesOn(how, g, n, c, open, k, k', rel)
  {
  }

  lemma {:induction false} UseGoesOn(how: Discipline, g: nat, n: nat, c: Marks, u: Marks, d: Marks, open: set<nat>,
                                     y: nat, k: Cont, k': Cont, rel: Relation)
    requires GoesOn(how, g, n, c, open, k, k', rel) && Finishes(how, g, n, c, u, d, open)
    ensures Matches(k(y, u), k'(y, d), rel)
  {
    hide Matches, Finishes;
  }

  // The tracked matcher does what that of the code does, and what that of the specification does.
  lemma {:induction false} Tracks(env: Env, r: Node, f: Flags, backward: bool, g: nat, how: Discipline, x: nat,
                                  t: Marks, c: Marks, open: set<nat>, k: Cont, k': Cont, rel: Relation)
    requires WellFormed(r) && how != Tracked
    requires Starts(how, g, Captures(r), t, c, open) && GoesOn(how, g, Captures(r), c, open, k, k', rel)
    ensures Matches(Compile(env, r, f, backward, g, Tracked)(x, t, k), Compile(env, r, f, backward, g, how)(x, c, k'), rel)
    decreases r, 2, 0, 0
  {
    hide Compile, CharMatcher, AssertionMatcher, LookMatcher, CaptureMatcher, QuantMatcher, SeqMatcher, AltMatcher, Matches,
         Starts, Finishes, GoesOn;
    match r
    case Seq(a, b) =>
      CompileSeq(env, a, b, f, backward, g, Tracked);
      CompileSeq(env, a, b, f, backward, g, how);
      TracksSeq(env, a, b, f, backward, g, how, x, t, c, open, k, k', rel);
    case Alt(a, b) =>
      CompileSeq(env, a, b, f, backward, g, Tracked);
      CompileSeq(env, a, b, f, backward, g, how);
      TracksAlt(env, a, b, f, backward, g, how, x, t, c, open, k, k', rel);
    case Group(a) =>
      CompileNested(env, a, f, backward, g, Tracked);
      CompileNested(env, a, f, backward, g, how);
      Tracks(env, a, f, backward, g, how, x, t, c, open, k, k', rel);
    case Modifiers(add, remove, a) =>
      CompileModifiers(env, a, add, remove, f, backward, g, Tracked);
      CompileModifiers(env, a, add, remove, f, backward, g, how);
      Tracks(env, a, UpdateFlags(f, add, remove), backward, g, how, x, t, c, open, k, k', rel);
    case Capture(a) =>
      CompileNested(env, a, f, backward, g, Tracked);
      CompileNested(env, a, f, backward, g, how);
      TracksCapture(env, a, f, backward, g, how, x, t, c, open, k, k', rel);
    case Look(negative, behind, a) =>
      CompileLook(env, a, negative, behind, f, backward, g, Tracked);
      CompileLook(env, a, negative, behind, f, backward, g, how);
      TracksLook(env, a, f, negative, behind, g, how, x, t, c, open, k, k', rel);
    case Quant(a, min, max, greedy) =>
      CompileQuant(env, a, min, max, greedy, f, backward, g, Tracked);
      CompileQuant(env, a, min, max, greedy, f, backward, g, how);
      TracksQuant(env, a, min, max, greedy, f, backward, g, how, x, t, c, open, k, k', rel);
    case _ => TracksLeaf(env, r, f, backward, g, how, x, t, c, open, k, k', rel);
  }

  lemma {:induction false} TracksLeaf(env: Env, r: Node, f: Flags, backward: bool, g: nat, how: Discipline, x: nat,
                                      t: Marks, c: Marks, open: set<nat>, k: Cont, k': Cont, rel: Relation)
    requires r.Empty? || r.Literal? || r.Dot? || r.Class? || r.LineStart? || r.LineEnd? || r.WordBoundary?
    requires Starts(how, g, 0, t, c, open) && GoesOn(how, g, 0, c, open, k, k', rel)
    ensures Matches(Compile(env, r, f, backward, g, Tracked)(x, t, k), Compile(env, r, f, backward, g, how)(x, c, k'), rel)
  {
    hide Accepts, AssertionHolds, Matches, Corresponds;
    assert Finishes(how, g, 0, c, t, c, open);
    assert forall y: nat :: Matches(k(y, t), k'(y, c), rel);
    NoneMatches(rel);
  }

  // ---------------------------------------------------------------------------
  // Sequences and disjunctions

  // The groups of one part are among those of the whole.
  predicate Within(g: nat, n: nat, h: nat, l: nat) {
    g <= h && h + l <= g + n
  }

  lemma {:induction false} PartBegins(how: Discipline, g: nat, n: nat, h: nat, l: nat, t: Marks, c: Marks, open: set<nat>)
    requires Starts(how, g, n, t, c, open) && Within(g, n, h, l)
    ensures Starts(how, h, l, t, c, open)
  {
    hide Corresponds;
  }

  // After one part has been matched the other one can begin.
  lemma {:induction false} OtherBegins(how: Discipline, g: nat, n: nat, h: nat, l: nat, c: Marks, u: Marks, d: Marks, open: set<nat>)
    requires Finishes(how, g, n, c, u, d, open) && (g + n <= h || h + l <= g) && 2 * (h + l) <= |c|
    requires how == Standard ==> Blank(c, h, l, {})
    requires forall i :: i in open ==> !(2 * h <= i < 2 * (h + l))
    ensures Starts(how, h, l, u, d, open)
  {
    hide Corresponds;
  }

  lemma {:induction false} PartEnds(how: Discipline, g: nat, n: nat, h: nat, l: nat, c: Marks, d: Marks, v: Marks, e: Marks, open: set<nat>)
    requires AgreeBeyond(c, d, g, n) && Finishes(how, h, l, d, v, e, open) && Within(g, n, h, l)
    ensures Finishes(how, g, n, c, v, e, open)
  {
    hide Corresponds;
  }

  lemma {:induction false} BeyondMore(c: Marks, d: Marks, g: nat, n: nat, h: nat, l: nat)
    requires AgreeBeyond(c, d, h, l) && Within(g, n, h, l)
    ensures AgreeBeyond(c, d, g, n)
  {
  }

  lemma {:induction false} TracksSeq(env: Env, a: Node, b: Node, f: Flags, backward: bool, g: nat, how: Discipline, x: nat,
                                     t: Marks, c: Marks, open: set<nat>, k: Cont, k': Cont, rel: Relation)
    requires WellFormed(a) && WellFormed(b) && how != Tracked
    requires Starts(how, g, Captures(a) + Captures(b), t, c, open) && GoesOn(how, g, Captures(a) + Captures(b), c, open, k, k', rel)
    ensures var h := g + Captures(a);
            var ma, mb := Compile(env, a, f, backward, g, Tracked), Compile(env, b, f, backward, h, Tracked);
            var ma', mb' := Compile(env, a, f, backward, g, how), Compile(env, b, f, backward, h, how);
            if backward then Matches(SeqMatcher(mb, ma)(x, t, k), SeqMatcher(mb', ma')(x, c, k'), rel)
            else Matches(SeqMatcher(ma, mb)(x, t, k), SeqMatcher(ma', mb')(x, c, k'), rel)
    decreases Seq(a, b), 1, 0, 0
  {
    hide Compile, Matches, Starts, Finishes, GoesOn;
    var h, n := g + Captures(a), Captures(a) + Captures(b);
    var (p, gp, q, gq) := if backward then (b, h, a, g) else (a, g, b, h);
    var m, m' := Compile(env, p, f, backward, gp, Tracked), Compile(env, p, f, backward, gp, how);
    var l := Then(Compile(env, q, f, backward, gq, Tracked), k);
    var l' := Then(Compile(env, q, f, backward, gq, how), k');
    forall y: nat, u: Marks, d: Marks | Finishes(how, gp, Captures(p), c, u, d, open)
      ensures Matches(l(y, u), l'(y, d), rel)
    {
      SeqBetween(how, g, n, gp, Captures(p), gq, Captures(q), t, c, u, d, open, k, k', rel);
      Tracks(env, q, f, backward, gq, how, y, u, d, open, k, k', rel);
    }
    GoesOnFrom(how, gp, Captures(p), c, open, l, l', rel);
    PartBegins(how, g, n, gp, Captures(p), t, c, open);
    Tracks(env, p, f, backward, gp, how, x, t, c, open, l, l', rel);
  }

  lemma {:induction false} SeqBetween(how: Discipline, g: nat, n: nat, gp: nat, np: nat, gq: nat, nq: nat,
                                      t: Marks, c: Marks, u: Marks, d: Marks, open: set<nat>, k: Cont, k': Cont, rel: Relation)
    requires Starts(how, g, n, t, c, open) && GoesOn(how, g, n, c, open, k, k', rel) && Finishes(how, gp, np, c, u, d, open)
    requires Within(g, n, gp, np) && Within(g, n, gq, nq) && (gp + np <= gq || gq + nq <= gp)
    ensures Starts(how, gq, nq, u, d, open) && GoesOn(how, gq, nq, d, open, k, k', rel)
  {
    hide Matches, Corresponds, AgreeBeyond, GoesOn;
    BeyondMore(c, d, g, n, gp, np);
    OtherBegins(how, gp, np, gq, nq, c, u, d, open);
    forall y: nat, v: Marks, e: Marks | Finishes(how, gq, nq, d, v, e, open)
      ensures Matches(k(y, v), k'(y, e), rel)
    {
      PartEnds(how, g, n, gq, nq, c, d, v, e, open);
      UseGoesOn(how, g, n, c, v, e, open, y, k, k', rel);
    }
    GoesOnFrom(how, gq, nq, d, open, k, k', rel);
  }

  // One branch of a disjunction, or the body of a group.
  lemma {:induction false} BranchGoesOn(how: Discipline, g: nat, n: nat, h: nat, l: nat, t: Marks, c: Marks, open: set<nat>,
                                        k: Cont, k': Cont, rel: Relation)
    requires Starts(how, g, n, t, c, open) && GoesOn(how, g, n, c, open, k, k', rel) && Within(g, n, h, l)
    ensures Starts(how, h, l, t, c, open) && GoesOn(how, h, l, c, open, k, k', rel)
  {
    hide Matches, Corresponds, GoesOn, Starts;
    PartBegins(how, g, n, h, l, t, c, open);
    forall y: nat, u: Marks, d: Marks | Finishes(how, h, l, c, u, d, open)
      ensures Matches(k(y, u), k'(y, d), rel)
    {
      PartEnds(how, g, n, h, l, c, c, u, d, open);
      UseGoesOn(how, g, n, c, u, d, open, y, k, k', rel);
    }
    GoesOnFrom(how, h, l, c, open, k, k', rel);
  }

  lemma {:induction false} TracksAlt(env: Env, a: Node, b: Node, f: Flags, backward: bool, g: nat, how: Discipline, x: nat,
                                     t: Marks, c: Marks, open: set<nat>, k: Cont, k': Cont, rel: Relation)
    requires WellFormed(a) && WellFormed(b) && how != Tracked
    requires Starts(how, g, Captures(a) + Captures(b), t, c, open) && GoesOn(how, g, Captures(a) + Captures(b), c, open, k, k', rel)
    ensures var h := g + Captures(a);
            Matches(AltMatcher(Compile(env, a, f, backward, g, Tracked), Compile(env, b, f, backward, h, Tracked))(x, t, k),
                    AltMatcher(Compile(env, a, f, backward, g, how), Compile(env, b, f, backward, h, how))(x, c, k'), rel)
    decreases Alt(a, b), 1, 0, 0
  {
    hide Compile, Matches, Starts, Finishes, GoesOn;
    var h, n := g + Captures(a), Captures(a) + Captures(b);
    BranchGoesOn(how, g, n, g, Captures(a), t, c, open, k, k', rel);
    BranchGoesOn(how, g, n, h, Captures(b), t, c, open, k, k', rel);
    Tracks(env, a, f, backward, g, how, x, t, c, open, k, k', rel);
    Tracks(env, b, f, backward, h, how, x, t, c, open, k, k', rel);
    MatchesOrElse(Compile(env, a, f, backward, g, Tracked)(x, t, k), Compile(env, a, f, backward, g, how)(x, c, k'),
                  Compile(env, b, f, backward, h, Tracked)(x, t, k), Compile(env, b, f, backward, h, how)(x, c, k'), rel);
  }

  // ---------------------------------------------------------------------------
  // Groups

  lemma {:induction false} TracksCapture(env: Env, a: Node, f: Flags, backward: bool, g: nat, how: Discipline, x: nat,
                                         t: Marks, c: Marks, open: set<nat>, k: Cont, k': Cont, rel: Relation)
    requires WellFormed(a) && how != Tracked
    requires Starts(how, g, 1 + Captures(a), t, c, open) && GoesOn(how, g, 1 + Captures(a), c, open, k, k', rel)
    ensures Matches(CaptureMatcher(env, Compile(env, a, f, backward, g + 1, Tracked), backward, g, Tracked)(x, t, k),
                    CaptureMatcher(env, Compile(env, a, f, backward, g + 1, how), backward, g, how)(x, c, k'), rel)
    decreases Capture(a), 1, 0, 0
  {
    hide Compile, Matches, Starts, Finishes, GoesOn, Grouped, Put;
    var n := Captures(a);
    var m := Compile(env, a, f, backward, g + 1, how);
    var (i, j) := if backward then (2 * g + 1, 2 * g) else (2 * g, 2 * g + 1);
    var first := if how == Emitted then Put(c, i, env.mark(x)) else c;
    var open' := if how == Emitted then open + {2 * g, 2 * g + 1} else open;
    var l := CaptureCont(env, backward, g, x, k, Tracked);
    var l' := BehindGroup(env, backward, g, x, k', how);
    forall y: nat, u: Marks, d: Marks | Finishes(how, g + 1, n, first, u, d, open')
      ensures Matches(l(y, u), l'(y, d), rel)
    {
      var d' := if how == Emitted then Put(d, j, env.mark(y)) else Grouped(env, backward, g, x, y, d, how);
      GroupEnds(env, backward, g, n, how, x, y, t, c, u, d, open);
      UseGoesOn(how, g, 1 + n, c, Grouped(env, backward, g, x, y, u, Tracked), d', open, y, k, k', rel);
    }
    GoesOnFrom(how, g + 1, n, first, open', l, l', rel);
    GroupBegins(how, g, n, i, env.mark(x), t, c, open);
    Tracks(env, a, f, backward, g + 1, how, x, t, first, open', l, l', rel);
    if how == Emitted {
      EmittedGroup(env, m, backward, g, x, c, k');
    }
  }

  // What follows the body of a group.
  ghost function BehindGroup(env: Env, backward: bool, g: nat, x: nat, k: Cont, how: Discipline): (d: Cont) {
    if how == Emitted then Then(PutMatcher(env, if backward then 2 * g else 2 * g + 1), k)
    else CaptureCont(env, backward, g, x, k, how)
  }

  lemma {:induction false} GroupBegins(how: Discipline, g: nat, n: nat, i: nat, mark: int, t: Marks, c: Marks, open: set<nat>)
    requires Starts(how, g, 1 + n, t, c, open) && 2 * g <= i <= 2 * g + 1
    ensures how == Emitted ==> Starts(how, g + 1, n, t, Put(c, i, mark), open + {2 * g, 2 * g + 1})
    ensures how != Emitted ==> Starts(how, g + 1, n, t, c, open)
  {
  }

  lemma {:induction false} GroupEnds(env: Env, backward: bool, g: nat, n: nat, how: Discipline, x: nat, y: nat,
                                     t: Marks, c: Marks, u: Marks, d: Marks, open: set<nat>)
    requires how != Tracked && Starts(how, g, 1 + n, t, c, open)
    requires var i := if backward then 2 * g + 1 else 2 * g;
             if how == Emitted then Finishes(how, g + 1, n, Put(c, i, env.mark(x)), u, d, open + {2 * g, 2 * g + 1})
             else Finishes(how, g + 1, n, c, u, d, open)
    ensures var j := if backward then 2 * g else 2 * g + 1;
            var d' := if how == Emitted then Put(d, j, env.mark(y)) else Grouped(env, backward, g, x, y, d, how);
            Finishes(how, g, 1 + n, c, Grouped(env, backward, g, x, y, u, Tracked), d', open)
  {
    hide Corresponds;
    if how == Emitted {
      EmittedGroupEnds(env, backward, g, n, x, y, c, u, d, open);
    } else {
      StandardGroupEnds(env, backward, g, x, y, u, d, open);
    }
  }

  lemma {:induction false} EmittedGroupEnds(env: Env, backward: bool, g: nat, n: nat, x: nat, y: nat,
                                            c: Marks, u: Marks, d: Marks, open: set<nat>)
    requires 2 * (g + 1) <= |c|
    requires var i := if backward then 2 * g + 1 else 2 * g;
             Finishes(Emitted, g + 1, n, Put(c, i, env.mark(x)), u, d, open + {2 * g, 2 * g + 1})
    ensures var j := if backward then 2 * g else 2 * g + 1;
            Corresponds(Emitted, Grouped(env, backward, g, x, y, u, Tracked), Put(d, j, env.mark(y)), open)
  {
  }

  lemma {:induction false} StandardGroupEnds(env: Env, backward: bool, g: nat, x: nat, y: nat, u: Marks, d: Marks, open: set<nat>)
    requires 2 * (g + 1) <= |d| && Corresponds(Standard, u, d, open)
    ensures Corresponds(Standard, Grouped(env, backward, g, x, y, u, Tracked), Grouped(env, backward, g, x, y, d, Standard), open)
  {
    var v, e := Grouped(env, backward, g, x, y, u, Tracked), Grouped(env, backward, g, x, y, d, Standard);
    GroupSet(env, backward, g, x, y, d);
    GroupTracked(env, backward, g, x, y, u);
    hide Grouped;
    assert e == Erase(v);
  }

  function GroupMark(env: Env, backward: bool, g: nat, x: nat, y: nat, i: int): (mark: int) {
    env.mark(if backward == (i == 2 * g) then y else x)
  }

  lemma {:induction false} GroupSet(env: Env, backward: bool, g: nat, x: nat, y: nat, c: Marks)
    requires 2 * (g + 1) <= |c|
    ensures var d := Grouped(env, backward, g, x, y, c, Standard);
            |d| == |c| && forall i :: 0 <= i < |c| ==> d[i] == if 2 * g <= i <= 2 * g + 1 then GroupMark(env, backward, g, x, y, i) else c[i]
  {
  }

  lemma {:induction false} GroupTracked(env: Env, backward: bool, g: nat, x: nat, y: nat, t: Marks)
    requires |t| % 2 == 0 && 2 * (g + 1) <= |t| / 2
    ensures var u := Grouped(env, backward, g, x, y, t, Tracked);
            && |u| == |t|
            && forall i {:trigger Marked(u, i)} :: 0 <= i < |t| / 2 ==>
                 if 2 * g <= i <= 2 * g + 1 then u[i] == GroupMark(env, backward, g, x, y, i) && !Marked(u, i)
                 else u[i] == t[i] && (Marked(u, i) <==> Marked(t, i))
  {
    hide GroupMark;
    GroupSet(env, backward, g, x, y, t);
    var both := Grouped(env, backward, g, x, y, t, Standard);
    assert Grouped(env, backward, g, x, y, t, Tracked) == Unmark(both, g, g + 1);
    hide Grouped;
  }

  // ---------------------------------------------------------------------------
  // Lookarounds

  lemma {:induction false} TracksLook(env: Env, a: Node, f: Flags, negative: bool, behind: bool, g: nat, how: Discipline, x: nat,
                                      t: Marks, c: Marks, open: set<nat>, k: Cont, k': Cont, rel: Relation)
    requires WellFormed(a) && how != Tracked
    requires Starts(how, g, Captures(a), t, c, open) && GoesOn(how, g, Captures(a), c, open, k, k', rel)
    ensures Matches(LookMatcher(Compile(env, a, f, behind, g, Tracked), negative)(x, t, k),
                    LookMatcher(Compile(env, a, f, behind, g, how), negative)(x, c, k'), rel)
    decreases Look(negative, behind, a), 1, 0, 0
  {
    hide Compile, Starts, Finishes, GoesOn;
    var n := Captures(a);
    var inner := (s: State, s': State) => Finishes(how, g, n, c, s.captures, s'.captures, open);
    GoesOnFrom(how, g, n, c, open, Accept, Accept, inner);
    Tracks(env, a, f, behind, g, how, x, t, c, open, Accept, Accept, inner);
    var o, o' := Compile(env, a, f, behind, g, Tracked)(x, t, Accept), Compile(env, a, f, behind, g, how)(x, c, Accept);
    if negative {
      if o.None? {
        EndsAtOnce(how, g, n, t, c, open);
        UseGoesOn(how, g, n, c, t, c, open, x, k, k', rel);
      }
    } else if o.Some? {
      UseGoesOn(how, g, n, c, o.value.captures, o'.value.captures, open, x, k, k', rel);
    }
  }

  lemma {:induction false} EndsAtOnce(how: Discipline, g: nat, n: nat, t: Marks, c: Marks, open: set<nat>)
    requires Starts(how, g, n, t, c, open)
    ensures Finishes(how, g, n, c, t, c, open)
  {
    hide Corresponds;
  }

  // ---------------------------------------------------------------------------
  // Quantifiers

  // What each discipline iterates.
  ghost function IterationOf(m: Matcher, first: nat, next: nat, how: Discipline): (i: Matcher) {
    match how
    case Standard => SeqMatcher(ClearMatcher(first, next), m)
    case Emitted => m
    case Tracked => SeqMatcher(MarkMatcher(first, next), m)
  }

  function AtIteration(c: Marks, first: nat, next: nat, how: Discipline): (d: Marks) {
    match how
    case Standard => Clear(c, first, next)
    case Emitted => c
    case Tracked => MarkCleared(c, first, next)
  }

  lemma {:induction false} IterationIs(m: Matcher, first: nat, next: nat, how: Discipline, x: nat, c: Marks, k: Cont)
    ensures IterationOf(m, first, next, how)(x, c, k) == m(x, AtIteration(c, first, next, how), k)
  {
    hide Clear, MarkCleared;
    match how
    case Standard => ClearedFirst(m, first, next, x, c, k);
    case Emitted =>
    case Tracked =>
      assert SeqMatcher(MarkMatcher(first, next), m)(x, c, k) == MarkMatcher(first, next)(x, c, Then(m, k)) == Then(m, k)(x, MarkCleared(c, first, next));
  }

  // What each discipline does before the first iteration.
  function AtQuant(c: Marks, first: nat, next: nat, min: int, how: Discipline): (d: Marks) {
    if min != 0 || how == Standard then c
    else if how == Emitted then Clear(c, first, next)
    else Unmark(Clear(c, first, next), first, next)
  }

  lemma {:induction false} QuantIsRepeat(env: Env, m: Matcher, backward: bool, min: nat, max: int, greedy: bool,
                                         first: nat, next: nat, how: Discipline, x: nat, c: Marks, k: Cont)
    ensures QuantMatcher(env, m, backward, min, max, greedy, first, next, how)(x, c, k) ==
            Repeat(env, IterationOf(m, first, next, how), backward, min, max, greedy, x, AtQuant(c, first, next, min, how), k)
  {
    hide Repeat, RepeatMatcher, Clear, Unmark, MarkCleared, SeqMatcher, ClearMatcher, UnmarkMatcher, MarkMatcher;
    var d := AtQuant(c, first, next, min, how);
    RepeatIs(env, IterationOf(m, first, next, how), backward, min, max, greedy, x, d, k);
    var loop := RepeatMatcher(env, IterationOf(m, first, next, how), backward, min, max, greedy);
    if how == Emitted {
      QuantIs(env, m, backward, min, max, greedy, first, next, x, c, k);
    } else if how == Tracked {
      ForgottenFirst(loop, first, next, x, c, k);
    }
  }

  lemma {:induction false} ForgottenFirst(m: Matcher, first: nat, next: nat, x: nat, c: Marks, k: Cont)
    ensures SeqMatcher(SeqMatcher(ClearMatcher(first, next), UnmarkMatcher(first, next)), m)(x, c, k) ==
            m(x, Unmark(Clear(c, first, next), first, next), k)
  {
    hide Clear, Unmark, ClearMatcher;
    ClearedFirst(UnmarkMatcher(first, next), first, next, x, c, Then(m, k));
  }

  lemma {:induction false} TracksQuant(env: Env, a: Node, min: int, max: int, greedy: bool, f: Flags, backward: bool, g: nat,
                                       how: Discipline, x: nat, t: Marks, c: Marks, open: set<nat>, k: Cont, k': Cont, rel: Relation)
    requires WellFormed(a) && min >= 0 && how != Tracked
    requires Starts(how, g, Captures(a), t, c, open) && GoesOn(how, g, Captures(a), c, open, k, k', rel)
    ensures var next := g + Captures(a);
            Matches(QuantMatcher(env, Compile(env, a, f, backward, g, Tracked), backward, min, max, greedy, g, next, Tracked)(x, t, k),
                    QuantMatcher(env, Compile(env, a, f, backward, g, how), backward, min, max, greedy, g, next, how)(x, c, k'), rel)
    decreases Quant(a, min, max, greedy), 1, 0, 0
  {
    hide Compile, Matches, Starts, Finishes, GoesOn, Repeat, QuantMatcher, IterationOf, AtQuant;
    var n, next := Captures(a), g + Captures(a);
    var t1, c1 := AtQuant(t, g, next, min, Tracked), AtQuant(c, g, next, min, how);
    QuantBegins(how, g, n, min, t, c, open);
    TracksLoop(env, a, f, backward, g, how, min, max, greedy, x, c, t1, c1, open, k, k', rel);
    QuantIsRepeat(env, Compile(env, a, f, backward, g, Tracked), backward, min, max, greedy, g, next, Tracked, x, t, k);
    QuantIsRepeat(env, Compile(env, a, f, backward, g, how), backward, min, max, greedy, g, next, how, x, c, k');
  }

  lemma {:induction false} QuantBegins(how: Discipline, g: nat, n: nat, min: int, t: Marks, c: Marks, open: set<nat>)
    requires Starts(how, g, n, t, c, open) && how != Tracked
    ensures Finishes(how, g, n, c, AtQuant(t, g, g + n, min, Tracked), AtQuant(c, g, g + n, min, how), open)
    ensures 2 * (g + n) <= |c| && forall i :: i in open ==> !(2 * g <= i < 2 * (g + n))
  {
  }

  lemma {:induction false} TracksLoop(env: Env, a: Node, f: Flags, backward: bool, g: nat, how: Discipline, min: nat, max: int, greedy: bool,
                                      x: nat, c0: Marks, t: Marks, c: Marks, open: set<nat>, k: Cont, k': Cont, rel: Relation)
    requires WellFormed(a) && how != Tracked && 2 * (g + Captures(a)) <= |c0|
    requires forall i :: i in open ==> !(2 * g <= i < 2 * (g + Captures(a)))
    requires Finishes(how, g, Captures(a), c0, t, c, open) && GoesOn(how, g, Captures(a), c0, open, k, k', rel)
    ensures var next := g + Captures(a);
            var m, m' := Compile(env, a, f, backward, g, Tracked), Compile(env, a, f, backward, g, how);
            Matches(Repeat(env, IterationOf(m, g, next, Tracked), backward, min, max, greedy, x, t, k),
                    Repeat(env, IterationOf(m', g, next, how), backward, min, max, greedy, x, c, k'), rel)
    decreases a, 3, min, Room(env, backward, x)
  {
    hide Compile, Matches, Starts, Finishes, GoesOn, IterationOf, AtIteration, WellFormed, Captures;
    var n := Captures(a);
    var next := g + n;
    UseGoesOn(how, g, n, c0, t, c, open, x, k, k', rel);
    if max > 0 {
      var m, m' := Compile(env, a, f, backward, g, Tracked), Compile(env, a, f, backward, g, how);
      var i, i' := IterationOf(m, g, next, Tracked), IterationOf(m', g, next, how);
      var d := RepeatCont(env, i, backward, min, max, greedy, x, k);
      var d' := RepeatCont(env, i', backward, min, max, greedy, x, k');
      var t1, c1 := AtIteration(t, g, next, Tracked), AtIteration(c, g, next, how);
      IterationBegins(how, g, n, c0, t, c, open);
      forall y: nat, u: Marks, e: Marks | Finishes(how, g, n, c1, u, e, open)
        ensures Matches(d(y, u), d'(y, e), rel)
      {
        NoneMatches(rel);
        if !(min == 0 && y == x) && Ahead(env, backward, x, y) {
          IterationEnds(how, g, n, c0, c1, u, e, open);
          TracksLoop(env, a, f, backward, g, how, Max(min - 1, 0), Less(max), greedy, y, c0, u, e, open, k, k', rel);
        }
      }
      GoesOnFrom(how, g, n, c1, open, d, d', rel);
      Tracks(env, a, f, backward, g, how, x, t1, c1, open, d, d', rel);
      IterationIs(m, g, next, Tracked, x, t, d);
      IterationIs(m', g, next, how, x, c, d');
      if min == 0 {
        MatchesOrElse(i(x, t, d), i'(x, c, d'), k(x, t), k'(x, c), rel);
        MatchesOrElse(k(x, t), k'(x, c), i(x, t, d), i'(x, c, d'), rel);
      }
    }
  }

  lemma {:induction false} IterationBegins(how: Discipline, g: nat, n: nat, c0: Marks, t: Marks, c: Marks, open: set<nat>)
    requires how != Tracked && 2 * (g + n) <= |c0| && Finishes(how, g, n, c0, t, c, open)
    requires forall i :: i in open ==> !(2 * g <= i < 2 * (g + n))
    ensures Starts(how, g, n, AtIteration(t, g, g + n, Tracked), AtIteration(c, g, g + n, how), open)
    ensures AgreeBeyond(c0, AtIteration(c, g, g + n, how), g, n)
  {
    if how == Emitted {
      hide Clear;
      assert Values(MarkCleared(t, g, g + n)) == Values(t);
    } else {
      hide AgreeOutside, MarkCleared;
      MarkedIsCleared(t, g, n);
      assert Clear(c, g, g + n) == Erase(MarkCleared(t, g, g + n));
    }
  }

  // Marking erases what clearing clears.
  lemma {:induction false} MarkedIsCleared(t: Marks, g: nat, n: nat)
    requires |t| % 2 == 0
    ensures var u := MarkCleared(t, g, g + n);
            && |u| == |t|
            && forall i {:trigger Marked(u, i)} :: 0 <= i < |t| / 2 ==>
                 u[i] == t[i] && (Marked(u, i) <==> Marked(t, i) || (2 * g <= i < 2 * (g + n) && t[i] != UNSET))
  {
  }

  lemma {:induction false} IterationEnds(how: Discipline, g: nat, n: nat, c0: Marks, c: Marks, u: Marks, d: Marks, open: set<nat>)
    requires AgreeBeyond(c0, c, g, n) && Finishes(how, g, n, c, u, d, open)
    ensures Finishes(how, g, n, c0, u, d, open)
  {
    hide Corresponds;
  }

  // ---------------------------------------------------------------------------
  // The whole search

  lemma {:induction false} FindTracks(env: Env, r: Node, f: Flags, sticky: bool, x: nat, how: Discipline)
    requires x <= |env.chars| && WellFormed(r) && how != Tracked
    ensures var z, z' := Find(env, r, f, sticky, x, Tracked), Find(env, r, f, sticky, x, how);
            z.Some? == z'.Some? && (z.Some? ==> Corresponds(how, z.value, z'.value, {}))
    decreases |env.chars| - x
  {
    hide Compile, Captures, WellFormed, Corresponds, GoesOn, Initial;
    var n := 1 + Captures(r);
    var t, c, whole := Initial(n, Tracked), Initial(n, how), Capture(r);
    WholeBegins(r, how);
    var rel := (s: State, s': State) => Corresponds(how, s.captures, s'.captures, {});
    forall y: nat, u: Marks, d: Marks | Finishes(how, 0, n, c, u, d, {})
      ensures Matches(Accept(y, u), Accept(y, d), rel)
    {
    }
    GoesOnFrom(how, 0, n, c, {}, Accept, Accept, rel);
    Tracks(env, whole, f, false, 0, how, x, t, c, {}, Accept, Accept, rel);
    if x < |env.chars| && !sticky {
      FindTracks(env, r, f, sticky, x + 1, how);
    }
  }

  lemma {:induction false} WholeBegins(r: Node, how: Discipline)
    requires how != Tracked
    ensures var n := 1 + Captures(r); Starts(how, 0, n, Initial(n, Tracked), Initial(n, how), {})
    ensures Captures(Capture(r)) == 1 + Captures(r) && (WellFormed(r) ==> WellFormed(Capture(r)))
  {
  }

  // A capture of the code is not that of the specification if and only if it is marked when
  // the tracked match ends.
  lemma {:induction false} FindExactly(env: Env, r: Node, f: Flags, sticky: bool, x: nat)
    requires x <= |env.chars| && WellFormed(r)
    ensures var z, code, spec := Find(env, r, f, sticky, x, Tracked), Find(env, r, f, sticky, x, Emitted), Find(env, r, f, sticky, x, Standard);
            && z.Some? == code.Some? == spec.Some?
            && (z.Some? ==>
                  && |z.value| == 2 * |spec.value| && code.value == Values(z.value) && spec.value == Erase(z.value)
                  && forall i {:trigger Marked(z.value, i)} :: 0 <= i < |z.value| / 2 ==>
                       (code.value[i] != spec.value[i] <==> Marked(z.value, i)) && (Marked(z.value, i) ==> i in StaleGroups(r)))
  {
    hide Find, StaleGroups;
    FindTracks(env, r, f, sticky, x, Emitted);
    FindTracks(env, r, f, sticky, x, Standard);
    FindAgrees(env, r, f, sticky, x);
  }
}
