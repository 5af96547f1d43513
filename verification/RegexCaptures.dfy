// Where the captures that the emitted code computes are those of the specification. The
// specification clears the groups of a quantified atom before every iteration, the code at
// most once; so a group in an alternative may keep what an earlier iteration has set.
module RegexCaptures {
  import opened Wrappers
  import opened RegexSpec

  // The captures of the groups of r, numbered from g, that a match can set: those outside
  // negative lookarounds.
  function Settable(r: Node, g: nat): (s: set<nat>)
    ensures forall i :: i in s ==> 2 * g <= i < 2 * (g + Captures(r))
    decreases r
  {
    match r
    case Seq(a, b) => Settable(a, g) + Settable(b, g + Captures(a))
    case Alt(a, b) => Settable(a, g) + Settable(b, g + Captures(a))
    case Group(a) => Settable(a, g)
    case Capture(a) => {2 * g, 2 * g + 1} + Settable(a, g + 1)
    case Modifiers(_, _, a) => Settable(a, g)
    case Look(negative, _, a) => if negative then {} else Settable(a, g)
    case Quant(a, _, _, _) => Settable(a, g)
    case _ => {}
  }

  // The captures that may be left as an earlier iteration around r has set them; with
  // "clean", none of them is set when the match of r begins.
  function Stale(r: Node, g: nat, clean: bool): (s: set<nat>)
    ensures s <= Settable(r, g)
    decreases r
  {
    hide Captures;
    match r
    case Seq(a, b) => Stale(a, g, clean) + Stale(b, g + Captures(a), clean)
    case Alt(a, b) => if clean then Stale(a, g, true) + Stale(b, g + Captures(a), true) else Settable(r, g)
    case Group(a) => Stale(a, g, clean)
    case Capture(a) => Stale(a, g + 1, clean)
    case Modifiers(_, _, a) => Stale(a, g, clean)
    case Look(negative, _, a) => if negative then {} else Stale(a, g, clean)
    case Quant(a, min, max, _) => if max <= 0 then {} else Stale(a, g, max == 1 && (clean || min == 0))
    case _ => {}
  }

  // The captures of a pattern and of its whole match, group 0.
  function StaleGroups(r: Node): (s: set<nat>)
    ensures 0 !in s && 1 !in s
  {
    Stale(Capture(r), 0, true)
  }

  predicate AgreeOutside(c: Marks, c': Marks, stale: set<nat>) {
    |c| == |c'| && forall i :: 0 <= i < |c| && i !in stale ==> c[i] == c'[i]
  }

  // No group from g up to but not including g + n is set, except those listed.
  predicate Blank(c: Marks, g: nat, n: nat, except: set<nat>) {
    forall i :: 0 <= i < |c| && 2 * g <= i < 2 * (g + n) && i !in except ==> c[i] == UNSET
  }

  // ---------------------------------------------------------------------------
  // A simulation between the two disciplines

  // c is what the code has and c' what the specification has when the match of r begins.
  ghost predicate Enters(r: Node, g: nat, clean: bool, c: Marks, c': Marks, stale: set<nat>) {
    && AgreeOutside(c, c', stale) && Blank(c', g, Captures(r), {})
    && forall i :: i in stale && 2 * g <= i < 2 * (g + Captures(r)) ==> !clean && i in Settable(r, g)
  }

  // d and d' are what they have when r has matched.
  ghost predicate Leaves(r: Node, g: nat, clean: bool, c: Marks, c': Marks, d: Marks, d': Marks, stale: set<nat>) {
    && AgreeOutside(c, d, Settable(r, g)) && AgreeOutside(c', d', Settable(r, g))
    && AgreeOutside(d, d', (stale - Settable(r, g)) + Stale(r, g, clean))
  }

  type Relation = (State, State) -> bool

  ghost predicate Matches(o: Result, o': Result, rel: Relation) {
    (o.None? && o'.None?) || (o.Some? && o'.Some? && rel(o.value, o'.value))
  }

  ghost predicate Related(r: Node, g: nat, clean: bool, c: Marks, c': Marks, stale: set<nat>, k: Cont, k': Cont, rel: Relation) {
    forall y: nat, d: Marks, d': Marks {:trigger k(y, d), k'(y, d')} ::
      Leaves(r, g, clean, c, c', d, d', stale) ==> Matches(k(y, d), k'(y, d'), rel)
  }

  lemma {:induction false} MatchesOrElse(o1: Result, o1': Result, o2: Result, o2': Result, rel: Relation)
    requires Matches(o1, o1', rel) && Matches(o2, o2', rel)
    ensures Matches(OrElse(o1, o2), OrElse(o1', o2'), rel)
  {
  }

  // Whatever begins in corresponding states ends in corresponding ones.
  lemma {:induction false} Simulates(env: Env, r: Node, f: Flags, backward: bool, g: nat, clean: bool, x: nat,
                                     c: Marks, c': Marks, stale: set<nat>, k: Cont, k': Cont, rel: Relation)
    requires WellFormed(r)
    requires Enters(r, g, clean, c, c', stale) && Related(r, g, clean, c, c', stale, k, k', rel)
    ensures Matches(Compile(env, r, f, backward, g, Emitted)(x, c, k), Compile(env, r, f, backward, g, Standard)(x, c', k'), rel)
    decreases r, 2, 0, 0
  {
    hide Compile, CharMatcher, AssertionMatcher, LookMatcher, CaptureMatcher, QuantMatcher, SeqMatcher, AltMatcher, Matches,
         Enters, Leaves, Related;
    match r
    case Seq(a, b) =>
      CompileSeq(env, a, b, f, backward, g, Emitted);
      CompileSeq(env, a, b, f, backward, g, Standard);
      SimulatesSeq(env, a, b, f, backward, g, clean, x, c, c', stale, k, k', rel);
    case Alt(a, b) =>
      CompileSeq(env, a, b, f, backward, g, Emitted);
      CompileSeq(env, a, b, f, backward, g, Standard);
      SimulatesAlt(env, a, b, f, backward, g, clean, x, c, c', stale, k, k', rel);
    case Group(a) =>
      CompileNested(env, a, f, backward, g, Emitted);
      CompileNested(env, a, f, backward, g, Standard);
      SameShape(r, a, g, clean, c, c', stale, k, k', rel);
      Simulates(env, a, f, backward, g, clean, x, c, c', stale, k, k', rel);
    case Modifiers(add, remove, a) =>
      CompileModifiers(env, a, add, remove, f, backward, g, Emitted);
      CompileModifiers(env, a, add, remove, f, backward, g, Standard);
      SameShape(r, a, g, clean, c, c', stale, k, k', rel);
      Simulates(env, a, UpdateFlags(f, add, remove), backward, g, clean, x, c, c', stale, k, k', rel);
    case Capture(a) =>
      CompileNested(env, a, f, backward, g, Emitted);
      CompileNested(env, a, f, backward, g, Standard);
      SimulatesCapture(env, a, f, backward, g, clean, x, c, c', stale, k, k', rel);
    case Look(negative, behind, a) =>
      CompileLook(env, a, negative, behind, f, backward, g, Emitted);
      CompileLook(env, a, negative, behind, f, backward, g, Standard);
      SimulatesLook(env, a, f, negative, behind, g, clean, x, c, c', stale, k, k', rel);
    case Quant(a, min, max, greedy) =>
      CompileQuant(env, a, min, max, greedy, f, backward, g, Emitted);
      CompileQuant(env, a, min, max, greedy, f, backward, g, Standard);
      SimulatesQuant(env, a, min, max, greedy, f, backward, g, clean, x, c, c', stale, k, k', rel);
    case _ => SimulatesLeaf(env, r, f, backward, g, clean, x, c, c', stale, k, k', rel);
  }

  lemma {:induction false} SimulatesLeaf(env: Env, r: Node, f: Flags, backward: bool, g: nat, clean: bool, x: nat,
                                         c: Marks, c': Marks, stale: set<nat>, k: Cont, k': Cont, rel: Relation)
    requires r.Empty? || r.Literal? || r.Dot? || r.Class? || r.LineStart? || r.LineEnd? || r.WordBoundary?
    requires Enters(r, g, clean, c, c', stale) && Related(r, g, clean, c, c', stale, k, k', rel)
    ensures Matches(Compile(env, r, f, backward, g, Emitted)(x, c, k), Compile(env, r, f, backward, g, Standard)(x, c', k'), rel)
  {
    hide Accepts, AssertionHolds, Matches;
    assert Leaves(r, g, clean, c, c', c, c', stale);
    assert forall y: nat :: Matches(k(y, c), k'(y, c'), rel);
    assert Matches(None, None, rel) by { NoneMatches(rel); }
  }

  lemma {:induction false} NoneMatches(rel: Relation)
    ensures Matches(None, None, rel)
  {
  }

  // A pattern that has the groups of another one, and treats them as that does.
  lemma {:induction false} SameShape(r: Node, a: Node, g: nat, clean: bool, c: Marks, c': Marks, stale: set<nat>,
                                     k: Cont, k': Cont, rel: Relation)
    requires Captures(r) == Captures(a) && Settable(r, g) == Settable(a, g) && Stale(r, g, clean) == Stale(a, g, clean)
    requires Enters(r, g, clean, c, c', stale) && Related(r, g, clean, c, c', stale, k, k', rel)
    ensures Enters(a, g, clean, c, c', stale) && Related(a, g, clean, c, c', stale, k, k', rel)
  {
    hide Matches;
    forall y: nat, d: Marks, d': Marks | Leaves(a, g, clean, c, c', d, d', stale)
      ensures Matches(k(y, d), k'(y, d'), rel)
    {
      assert Leaves(r, g, clean, c, c', d, d', stale);
    }
  }

  // ---------------------------------------------------------------------------
  // Sequences: p is matched before q

  lemma {:induction false} SimulatesSeq(env: Env, a: Node, b: Node, f: Flags, backward: bool, g: nat, clean: bool, x: nat,
                                        c: Marks, c': Marks, stale: set<nat>, k: Cont, k': Cont, rel: Relation)
    requires WellFormed(a) && WellFormed(b)
    requires Enters(Seq(a, b), g, clean, c, c', stale) && Related(Seq(a, b), g, clean, c, c', stale, k, k', rel)
    ensures var h := g + Captures(a);
            var ma, mb := Compile(env, a, f, backward, g, Emitted), Compile(env, b, f, backward, h, Emitted);
            var ma', mb' := Compile(env, a, f, backward, g, Standard), Compile(env, b, f, backward, h, Standard);
            if backward then Matches(SeqMatcher(mb, ma)(x, c, k), SeqMatcher(mb', ma')(x, c', k'), rel)
            else Matches(SeqMatcher(ma, mb)(x, c, k), SeqMatcher(ma', mb')(x, c', k'), rel)
    decreases Seq(a, b), 1, 0, 0
  {
    hide Compile, Matches, Enters, Leaves, Related;
    var h := g + Captures(a);
    var (p, gp, q, gq) := if backward then (b, h, a, g) else (a, g, b, h);
    var m, n := Compile(env, p, f, backward, gp, Emitted), Compile(env, q, f, backward, gq, Emitted);
    var m', n' := Compile(env, p, f, backward, gp, Standard), Compile(env, q, f, backward, gq, Standard);
    forall y: nat, d: Marks, d': Marks | Leaves(p, gp, clean, c, c', d, d', stale)
      ensures Matches(Then(n, k)(y, d), Then(n', k')(y, d'), rel)
    {
      SeqBetween(a, b, g, backward, clean, c, c', d, d', stale, k, k', rel);
      Simulates(env, q, f, backward, gq, clean, y, d, d', After(p, gp, clean, stale), k, k', rel);
    }
    RelatedFrom(p, gp, clean, c, c', stale, Then(n, k), Then(n', k'), rel);
    SeqBefore(a, b, g, backward, clean, c, c', stale);
    Simulates(env, p, f, backward, gp, clean, x, c, c', stale, Then(n, k), Then(n', k'), rel);
  }

  // The captures that may differ when r has matched.
  function After(r: Node, g: nat, clean: bool, stale: set<nat>): (s: set<nat>) {
    (stale - Settable(r, g)) + Stale(r, g, clean)
  }

  lemma {:induction false} RelatedFrom(r: Node, g: nat, clean: bool, c: Marks, c': Marks, stale: set<nat>,
                                        k: Cont, k': Cont, rel: Relation)
    requires forall y: nat, d: Marks, d': Marks {:trigger k(y, d), k'(y, d')} ::
               Leaves(r, g, clean, c, c', d, d', stale) ==> Matches(k(y, d), k'(y, d'), rel)
    ensures Related(r, g, clean, c, c', stale, k, k', rel)
  {
  }

  lemma {:induction false} SeqBefore(a: Node, b: Node, g: nat, backward: bool, clean: bool, c: Marks, c': Marks, stale: set<nat>)
    requires Enters(Seq(a, b), g, clean, c, c', stale)
    ensures Enters(a, g, clean, c, c', stale) && Enters(b, g + Captures(a), clean, c, c', stale)
  {
  }

  lemma {:induction false} SeqBetween(a: Node, b: Node, g: nat, backward: bool, clean: bool, c: Marks, c': Marks, d: Marks, d': Marks,
                                      stale: set<nat>, k: Cont, k': Cont, rel: Relation)
    requires Enters(Seq(a, b), g, clean, c, c', stale) && Related(Seq(a, b), g, clean, c, c', stale, k, k', rel)
    requires var h := g + Captures(a);
             var (p, gp) := if backward then (b, h) else (a, g);
             Leaves(p, gp, clean, c, c', d, d', stale)
    ensures var h := g + Captures(a);
            var (p, gp, q, gq) := if backward then (b, h, a, g) else (a, g, b, h);
            && Enters(q, gq, clean, d, d', After(p, gp, clean, stale))
            && Related(q, gq, clean, d, d', After(p, gp, clean, stale), k, k', rel)
  {
    hide Matches, Enters, Leaves, Related, After, Captures, Settable, Stale;
    var h := g + Captures(a);
    var (p, gp, q, gq) := if backward then (b, h, a, g) else (a, g, b, h);
    var stale' := After(p, gp, clean, stale);
    SeqBefore(a, b, g, backward, clean, c, c', stale);
    EntersNext(p, gp, q, gq, clean, c, c', d, d', stale);
    forall y: nat, e: Marks, e': Marks | Leaves(q, gq, clean, d, d', e, e', stale')
      ensures Matches(k(y, e), k'(y, e'), rel)
    {
      SeqLeaves(a, b, g, backward, clean, c, c', d, d', e, e', stale);
      UseRelated(Seq(a, b), g, clean, c, c', e, e', stale, y, k, k', rel);
    }
    RelatedFrom(q, gq, clean, d, d', stale', k, k', rel);
  }

  // Two patterns with different groups.
  lemma {:induction false} EntersNext(p: Node, gp: nat, q: Node, gq: nat, clean: bool, c: Marks, c': Marks, d: Marks, d': Marks,
                                      stale: set<nat>)
    requires Enters(q, gq, clean, c, c', stale) && Leaves(p, gp, clean, c, c', d, d', stale)
    requires gp + Captures(p) <= gq || gq + Captures(q) <= gp
    ensures Enters(q, gq, clean, d, d', After(p, gp, clean, stale))
  {
    hide Captures, Settable, Stale;
  }

  lemma {:induction false} SeqLeaves(a: Node, b: Node, g: nat, backward: bool, clean: bool, c: Marks, c': Marks, d: Marks, d': Marks,
                                     e: Marks, e': Marks, stale: set<nat>)
    requires var h := g + Captures(a);
             var (p, gp, q, gq) := if backward then (b, h, a, g) else (a, g, b, h);
             Leaves(p, gp, clean, c, c', d, d', stale) && Leaves(q, gq, clean, d, d', e, e', After(p, gp, clean, stale))
    ensures Leaves(Seq(a, b), g, clean, c, c', e, e', stale)
  {
    hide Captures, AgreeOutside, Settable, Stale;
    var h := g + Captures(a);
    var (p, gp, q, gq) := if backward then (b, h, a, g) else (a, g, b, h);
    var sp, sq, s := Settable(p, gp), Settable(q, gq), Settable(Seq(a, b), g);
    SeqSets(a, b, g, clean);
    AgreeTrans(c, d, e, sp, sq, s);
    AgreeTrans(c', d', e', sp, sq, s);
    AgreeMore(e, e', (After(p, gp, clean, stale) - sq) + Stale(q, gq, clean), (stale - s) + Stale(Seq(a, b), g, clean));
  }

  lemma {:induction false} SeqSets(a: Node, b: Node, g: nat, clean: bool)
    ensures var h := g + Captures(a);
            && Settable(Seq(a, b), g) == Settable(a, g) + Settable(b, h)
            && Stale(Seq(a, b), g, clean) == Stale(a, g, clean) + Stale(b, h, clean)
  {
    hide Captures;
  }

  lemma {:induction false} AgreeTrans(c: Marks, d: Marks, e: Marks, s: set<nat>, t: set<nat>, u: set<nat>)
    requires AgreeOutside(c, d, s) && AgreeOutside(d, e, t) && s <= u && t <= u
    ensures AgreeOutside(c, e, u)
  {
  }

  lemma {:induction false} AgreeMore(c: Marks, d: Marks, s: set<nat>, t: set<nat>)
    requires AgreeOutside(c, d, s) && s <= t
    ensures AgreeOutside(c, d, t)
  {
  }

  // ---------------------------------------------------------------------------
  // Disjunctions

  lemma {:induction false} SimulatesAlt(env: Env, a: Node, b: Node, f: Flags, backward: bool, g: nat, clean: bool, x: nat,
                                        c: Marks, c': Marks, stale: set<nat>, k: Cont, k': Cont, rel: Relation)
    requires WellFormed(a) && WellFormed(b)
    requires Enters(Alt(a, b), g, clean, c, c', stale) && Related(Alt(a, b), g, clean, c, c', stale, k, k', rel)
    ensures var h := g + Captures(a);
            Matches(AltMatcher(Compile(env, a, f, backward, g, Emitted), Compile(env, b, f, backward, h, Emitted))(x, c, k),
                    AltMatcher(Compile(env, a, f, backward, g, Standard), Compile(env, b, f, backward, h, Standard))(x, c', k'), rel)
    decreases Alt(a, b), 1, 0, 0
  {
    hide Compile, Matches, Enters, Leaves, Related;
    var h := g + Captures(a);
    AltBranches(a, b, g, clean, c, c', stale, k, k', rel);
    Simulates(env, a, f, backward, g, clean, x, c, c', stale, k, k', rel);
    Simulates(env, b, f, backward, h, clean, x, c, c', stale, k, k', rel);
    MatchesOrElse(Compile(env, a, f, backward, g, Emitted)(x, c, k), Compile(env, a, f, backward, g, Standard)(x, c', k'),
                  Compile(env, b, f, backward, h, Emitted)(x, c, k), Compile(env, b, f, backward, h, Standard)(x, c', k'), rel);
  }

  lemma {:induction false} AltBranches(a: Node, b: Node, g: nat, clean: bool, c: Marks, c': Marks, stale: set<nat>,
                                       k: Cont, k': Cont, rel: Relation)
    requires Enters(Alt(a, b), g, clean, c, c', stale) && Related(Alt(a, b), g, clean, c, c', stale, k, k', rel)
    ensures Enters(a, g, clean, c, c', stale) && Related(a, g, clean, c, c', stale, k, k', rel)
    ensures var h := g + Captures(a);
            Enters(b, h, clean, c, c', stale) && Related(b, h, clean, c, c', stale, k, k', rel)
  {
    hide Matches, Enters, Leaves, Related, Captures;
    var h := g + Captures(a);
    AltEnters(a, b, g, clean, c, c', stale);
    forall y: nat, d: Marks, d': Marks | Leaves(a, g, clean, c, c', d, d', stale) || Leaves(b, h, clean, c, c', d, d', stale)
      ensures Matches(k(y, d), k'(y, d'), rel)
    {
      AltLeaves(a, b, g, clean, c, c', d, d', stale);
      UseRelated(Alt(a, b), g, clean, c, c', d, d', stale, y, k, k', rel);
    }
    RelatedFrom(a, g, clean, c, c', stale, k, k', rel);
    RelatedFrom(b, h, clean, c, c', stale, k, k', rel);
  }

  lemma {:induction false} AltEnters(a: Node, b: Node, g: nat, clean: bool, c: Marks, c': Marks, stale: set<nat>)
    requires Enters(Alt(a, b), g, clean, c, c', stale)
    ensures Enters(a, g, clean, c, c', stale) && Enters(b, g + Captures(a), clean, c, c', stale)
  {
  }

  lemma {:induction false} AltLeaves(a: Node, b: Node, g: nat, clean: bool, c: Marks, c': Marks, d: Marks, d': Marks, stale: set<nat>)
    requires Enters(Alt(a, b), g, clean, c, c', stale)
    requires Leaves(a, g, clean, c, c', d, d', stale) || Leaves(b, g + Captures(a), clean, c, c', d, d', stale)
    ensures Leaves(Alt(a, b), g, clean, c, c', d, d', stale)
  {
    hide AgreeOutside, Blank;
    var r, h := Alt(a, b), g + Captures(a);
    var sa, sb, s := Settable(a, g), Settable(b, h), Settable(r, g);
    var ta, tb, t := Stale(a, g, clean), Stale(b, h, clean), Stale(r, g, clean);
    assert s == sa + sb && t == if clean then ta + tb else s;
    assert clean ==> forall i :: i in stale ==> !(2 * g <= i < 2 * (g + Captures(r)));
    assert clean ==> stale - sa == stale && stale - sb == stale && stale - s == stale;
    if Leaves(a, g, clean, c, c', d, d', stale) {
      AgreeMore(c, d, sa, s);
      AgreeMore(c', d', sa, s);
      AgreeMore(d, d', (stale - sa) + ta, (stale - s) + t);
    } else {
      AgreeMore(c, d, sb, s);
      AgreeMore(c', d', sb, s);
      AgreeMore(d, d', (stale - sb) + tb, (stale - s) + t);
    }
  }

  // ---------------------------------------------------------------------------
  // Groups

  lemma {:induction false} SimulatesCapture(env: Env, a: Node, f: Flags, backward: bool, g: nat, clean: bool, x: nat,
                                            c: Marks, c': Marks, stale: set<nat>, k: Cont, k': Cont, rel: Relation)
    requires WellFormed(a)
    requires Enters(Capture(a), g, clean, c, c', stale) && Related(Capture(a), g, clean, c, c', stale, k, k', rel)
    ensures Matches(CaptureMatcher(env, Compile(env, a, f, backward, g + 1, Emitted), backward, g, Emitted)(x, c, k),
                    CaptureMatcher(env, Compile(env, a, f, backward, g + 1, Standard), backward, g, Standard)(x, c', k'), rel)
    decreases Capture(a), 1, 0, 0
  {
    hide Compile, Matches, Enters, Leaves, Related, Put, Grouped;
    var m, m' := Compile(env, a, f, backward, g + 1, Emitted), Compile(env, a, f, backward, g + 1, Standard);
    var (i, j) := if backward then (2 * g + 1, 2 * g) else (2 * g, 2 * g + 1);
    var first := Put(c, i, env.mark(x));
    var stale' := stale + {2 * g, 2 * g + 1};
    var l, l' := Then(PutMatcher(env, j), k), CaptureCont(env, backward, g, x, k', Standard);
    forall y: nat, d: Marks, d': Marks | Leaves(a, g + 1, clean, first, c', d, d', stale')
      ensures Matches(l(y, d), l'(y, d'), rel)
    {
      CaptureLeaves(env, a, backward, g, clean, x, y, c, c', d, d', stale);
      UseRelated(Capture(a), g, clean, c, c', Put(d, j, env.mark(y)), Grouped(env, backward, g, x, y, d', Standard), stale, y, k, k', rel);
    }
    RelatedFrom(a, g + 1, clean, first, c', stale', l, l', rel);
    CaptureEnters(a, g, clean, i, env.mark(x), c, c', stale);
    Simulates(env, a, f, backward, g + 1, clean, x, first, c', stale', l, l', rel);
    EmittedGroup(env, m, backward, g, x, c, k);
  }

  lemma {:induction false} EmittedGroup(env: Env, m: Matcher, backward: bool, g: nat, x: nat, c: Marks, k: Cont)
    ensures var (i, j) := if backward then (2 * g + 1, 2 * g) else (2 * g, 2 * g + 1);
            CaptureMatcher(env, m, backward, g, Emitted)(x, c, k) == m(x, Put(c, i, env.mark(x)), Then(PutMatcher(env, j), k))
  {
    hide Put;
    var (i, j) := if backward then (2 * g + 1, 2 * g) else (2 * g, 2 * g + 1);
    var l := Then(PutMatcher(env, j), k);
    assert CaptureMatcher(env, m, backward, g, Emitted) == SeqMatcher(SeqMatcher(PutMatcher(env, i), m), PutMatcher(env, j));
    assert SeqMatcher(PutMatcher(env, i), m)(x, c, l) == PutMatcher(env, i)(x, c, Then(m, l)) == m(x, Put(c, i, env.mark(x)), l);
  }

  lemma {:induction false} UseRelated(r: Node, g: nat, clean: bool, c: Marks, c': Marks, d: Marks, d': Marks, stale: set<nat>,
                                       y: nat, k: Cont, k': Cont, rel: Relation)
    requires Related(r, g, clean, c, c', stale, k, k', rel) && Leaves(r, g, clean, c, c', d, d', stale)
    ensures Matches(k(y, d), k'(y, d'), rel)
  {
    hide Matches, Leaves;
  }

  lemma {:induction false} CaptureEnters(a: Node, g: nat, clean: bool, i: nat, mark: int, c: Marks, c': Marks, stale: set<nat>)
    requires Enters(Capture(a), g, clean, c, c', stale) && 2 * g <= i <= 2 * g + 1
    ensures Enters(a, g + 1, clean, Put(c, i, mark), c', stale + {2 * g, 2 * g + 1})
  {
  }

  lemma {:induction false} CaptureLeaves(env: Env, a: Node, backward: bool, g: nat, clean: bool, x: nat, y: nat,
                                         c: Marks, c': Marks, d: Marks, d': Marks, stale: set<nat>)
    requires var i := if backward then 2 * g + 1 else 2 * g;
             Leaves(a, g + 1, clean, Put(c, i, env.mark(x)), c', d, d', stale + {2 * g, 2 * g + 1})
    requires Enters(Capture(a), g, clean, c, c', stale)
    ensures var j := if backward then 2 * g else 2 * g + 1;
            Leaves(Capture(a), g, clean, c, c', Put(d, j, env.mark(y)), Grouped(env, backward, g, x, y, d', Standard), stale)
  {
  }

  // ---------------------------------------------------------------------------
  // Lookarounds

  lemma {:induction false} SimulatesLook(env: Env, a: Node, f: Flags, negative: bool, behind: bool, g: nat, clean: bool, x: nat,
                                         c: Marks, c': Marks, stale: set<nat>, k: Cont, k': Cont, rel: Relation)
    requires WellFormed(a)
    requires Enters(Look(negative, behind, a), g, clean, c, c', stale)
    requires Related(Look(negative, behind, a), g, clean, c, c', stale, k, k', rel)
    ensures Matches(LookMatcher(Compile(env, a, f, behind, g, Emitted), negative)(x, c, k),
                    LookMatcher(Compile(env, a, f, behind, g, Standard), negative)(x, c', k'), rel)
    decreases Look(negative, behind, a), 1, 0, 0
  {
    hide Compile, Enters, Leaves, Related;
    var r := Look(negative, behind, a);
    var clean' := negative || clean;
    var inner := (s: State, s': State) => Leaves(a, g, clean', c, c', s.captures, s'.captures, stale);
    RelatedFrom(a, g, clean', c, c', stale, Accept, Accept, inner);
    LookEnters(a, negative, behind, g, clean, c, c', stale);
    Simulates(env, a, f, behind, g, clean', x, c, c', stale, Accept, Accept, inner);
    var o, o' := Compile(env, a, f, behind, g, Emitted)(x, c, Accept), Compile(env, a, f, behind, g, Standard)(x, c', Accept);
    if negative {
      if o.None? {
        UseRelated(r, g, clean, c, c', c, c', stale, x, k, k', rel);
      }
    } else if o.Some? {
      LookLeaves(a, behind, g, clean, c, c', o.value.captures, o'.value.captures, stale);
      UseRelated(r, g, clean, c, c', o.value.captures, o'.value.captures, stale, x, k, k', rel);
    }
  }

  lemma {:induction false} LookEnters(a: Node, negative: bool, behind: bool, g: nat, clean: bool, c: Marks, c': Marks, stale: set<nat>)
    requires Enters(Look(negative, behind, a), g, clean, c, c', stale)
    ensures Enters(a, g, negative || clean, c, c', stale)
    ensures negative ==> Leaves(Look(negative, behind, a), g, clean, c, c', c, c', stale)
  {
  }

  lemma {:induction false} LookLeaves(a: Node, behind: bool, g: nat, clean: bool, c: Marks, c': Marks, d: Marks, d': Marks, stale: set<nat>)
    requires Leaves(a, g, clean, c, c', d, d', stale)
    ensures Leaves(Look(false, behind, a), g, clean, c, c', d, d', stale)
  {
  }

  // ---------------------------------------------------------------------------
  // Quantifiers

  // What the code and the specification have at the beginning of an iteration of a, if they
  // began the first with c0 and c0'.
  ghost predicate AtLoop(a: Node, g: nat, c0: Marks, c0': Marks, c: Marks, c': Marks, stale: set<nat>) {
    var s := Settable(a, g);
    && Blank(c0, g, Captures(a), s) && Blank(c0', g, Captures(a), {})
    && AgreeOutside(c0, c, s) && AgreeOutside(c0', c', s) && AgreeOutside(c, c', stale + s)
    && forall i :: i in stale && 2 * g <= i < 2 * (g + Captures(a)) ==> i in s
  }

  // What they may have when the loop is left; "kept" are the captures that may be stale.
  ghost predicate LeavesLoop(a: Node, g: nat, c0: Marks, c0': Marks, d: Marks, d': Marks, stale: set<nat>, kept: set<nat>) {
    var s := Settable(a, g);
    AgreeOutside(c0, d, s) && AgreeOutside(c0', d', s) && AgreeOutside(d, d', (stale - s) + kept)
  }

  ghost predicate RelatedLoop(a: Node, g: nat, c0: Marks, c0': Marks, stale: set<nat>, kept: set<nat>,
                               k: Cont, k': Cont, rel: Relation) {
    forall y: nat, d: Marks, d': Marks {:trigger k(y, d), k'(y, d')} ::
      LeavesLoop(a, g, c0, c0', d, d', stale, kept) ==> Matches(k(y, d), k'(y, d'), rel)
  }

  // The captures that may be stale when one iteration begins.
  function Inside(a: Node, g: nat, clean: bool, stale: set<nat>): (s: set<nat>) {
    if clean then stale - Settable(a, g) else stale + Settable(a, g)
  }

  lemma {:induction false} SimulatesLoop(env: Env, a: Node, f: Flags, backward: bool, g: nat, min: nat, max: int, greedy: bool,
                                         clean: bool, x: nat, c0: Marks, c0': Marks, c: Marks, c': Marks,
                                         stale: set<nat>, kept: set<nat>, k: Cont, k': Cont, rel: Relation)
    requires WellFormed(a) && min <= max
    requires AtLoop(a, g, c0, c0', c, c', stale) && RelatedLoop(a, g, c0, c0', stale, kept, k, k', rel)
    requires kept <= Settable(a, g)
    requires min == 0 ==> LeavesLoop(a, g, c0, c0', c, c', stale, kept)
    requires max > 0 ==> Stale(a, g, clean) <= kept
    requires max > 0 && clean ==> max == 1 && Blank(c, g, Captures(a), {})
    ensures var m, m' := Compile(env, a, f, backward, g, Emitted), Compile(env, a, f, backward, g, Standard);
            Matches(Repeat(env, m, backward, min, max, greedy, x, c, k),
                    Repeat(env, SeqMatcher(ClearMatcher(g, g + Captures(a)), m'), backward, min, max, greedy, x, c', k'), rel)
    decreases a, 3, min, Room(env, backward, x)
  {
    hide Compile, Matches, Enters, Leaves, Related, AtLoop, LeavesLoop, RelatedLoop, Captures, WellFormed, Settable, Stale, Clear;
    if min == 0 {
      UseRelatedLoop(a, g, c0, c0', c, c', stale, kept, x, k, k', rel);
    }
    if max > 0 {
      var next := g + Captures(a);
      var m, m' := Compile(env, a, f, backward, g, Emitted), Compile(env, a, f, backward, g, Standard);
      var n' := SeqMatcher(ClearMatcher(g, next), m');
      var d := RepeatCont(env, m, backward, min, max, greedy, x, k);
      var d' := RepeatCont(env, n', backward, min, max, greedy, x, k');
      var cleared, stale' := Clear(c', g, next), Inside(a, g, clean, stale);
      forall y: nat, e: Marks, e': Marks | Leaves(a, g, clean, c, cleared, e, e', stale')
        ensures Matches(d(y, e), d'(y, e'), rel)
      {
        NoneMatches(rel);
        if !(min == 0 && y == x) && Ahead(env, backward, x, y) {
          LoopAgain(a, g, clean, c0, c0', c, c', e, e', stale, kept);
          SimulatesLoop(env, a, f, backward, g, Max(min - 1, 0), Less(max), greedy, clean, y, c0, c0', e, e', stale, kept, k, k', rel);
        }
      }
      RelatedFrom(a, g, clean, c, cleared, stale', d, d', rel);
      LoopEnters(a, g, clean, c0, c0', c, c', stale);
      Simulates(env, a, f, backward, g, clean, x, c, cleared, stale', d, d', rel);
      ClearedFirst(m', g, next, x, c', d');
      if min == 0 {
        MatchesOrElse(m(x, c, d), n'(x, c', d'), k(x, c), k'(x, c'), rel);
        MatchesOrElse(k(x, c), k'(x, c'), m(x, c, d), n'(x, c', d'), rel);
      }
    }
  }

  lemma {:induction false} UseRelatedLoop(a: Node, g: nat, c0: Marks, c0': Marks, d: Marks, d': Marks, stale: set<nat>, kept: set<nat>,
                                           y: nat, k: Cont, k': Cont, rel: Relation)
    requires RelatedLoop(a, g, c0, c0', stale, kept, k, k', rel) && LeavesLoop(a, g, c0, c0', d, d', stale, kept)
    ensures Matches(k(y, d), k'(y, d'), rel)
  {
    hide Matches, LeavesLoop;
  }

  lemma {:induction false} LoopEnters(a: Node, g: nat, clean: bool, c0: Marks, c0': Marks, c: Marks, c': Marks, stale: set<nat>)
    requires AtLoop(a, g, c0, c0', c, c', stale) && (clean ==> Blank(c, g, Captures(a), {}))
    ensures Enters(a, g, clean, c, Clear(c', g, g + Captures(a)), Inside(a, g, clean, stale))
  {
    hide Settable;
  }

  lemma {:induction false} LoopAgain(a: Node, g: nat, clean: bool, c0: Marks, c0': Marks, c: Marks, c': Marks, d: Marks, d': Marks,
                                     stale: set<nat>, kept: set<nat>)
    requires AtLoop(a, g, c0, c0', c, c', stale) && Stale(a, g, clean) <= kept <= Settable(a, g)
    requires Leaves(a, g, clean, c, Clear(c', g, g + Captures(a)), d, d', Inside(a, g, clean, stale))
    ensures AtLoop(a, g, c0, c0', d, d', stale) && LeavesLoop(a, g, c0, c0', d, d', stale, kept)
  {
    hide Settable, Stale;
  }

  lemma {:induction false} SimulatesQuant(env: Env, a: Node, min: int, max: int, greedy: bool, f: Flags, backward: bool, g: nat,
                                          clean: bool, x: nat, c: Marks, c': Marks, stale: set<nat>, k: Cont, k': Cont, rel: Relation)
    requires WellFormed(a) && 0 <= min <= max
    requires Enters(Quant(a, min, max, greedy), g, clean, c, c', stale)
    requires Related(Quant(a, min, max, greedy), g, clean, c, c', stale, k, k', rel)
    ensures var next := g + Captures(a);
            Matches(QuantMatcher(env, Compile(env, a, f, backward, g, Emitted), backward, min, max, greedy, g, next, Emitted)(x, c, k),
                    QuantMatcher(env, Compile(env, a, f, backward, g, Standard), backward, min, max, greedy, g, next, Standard)(x, c', k'), rel)
    decreases Quant(a, min, max, greedy), 1, 0, 0
  {
    hide Compile, Matches, Enters, Leaves, Related, AtLoop, LeavesLoop, RelatedLoop, RepeatMatcher, SeqMatcher, Repeat, Clear, Settable, Captures, WellFormed;
    var next, kept := g + Captures(a), Stale(Quant(a, min, max, greedy), g, clean);
    var first := if min == 0 then Clear(c, g, next) else c;
    QuantEnters(a, min, max, greedy, g, clean, c, c', stale, k, k', rel);
    SimulatesLoop(env, a, f, backward, g, min, max, greedy, max == 1 && (clean || min == 0), x, c, c', first, c', stale, kept, k, k', rel);
    var m' := SeqMatcher(ClearMatcher(g, next), Compile(env, a, f, backward, g, Standard));
    RepeatIs(env, m', backward, min, max, greedy, x, c', k');
    QuantIs(env, Compile(env, a, f, backward, g, Emitted), backward, min, max, greedy, g, next, x, c, k);
  }

  lemma {:induction false} ClearedFirst(m: Matcher, first: nat, next: nat, x: nat, c: Marks, k: Cont)
    ensures SeqMatcher(ClearMatcher(first, next), m)(x, c, k) == m(x, Clear(c, first, next), k)
  {
    hide Clear;
    assert SeqMatcher(ClearMatcher(first, next), m)(x, c, k) == ClearMatcher(first, next)(x, c, Then(m, k)) == Then(m, k)(x, Clear(c, first, next));
  }

  lemma {:induction false} RepeatIs(env: Env, m: Matcher, backward: bool, min: nat, max: int, greedy: bool, x: nat, c: Marks, k: Cont)
    ensures RepeatMatcher(env, m, backward, min, max, greedy)(x, c, k) == Repeat(env, m, backward, min, max, greedy, x, c, k)
  {
  }

  lemma {:induction false} QuantIs(env: Env, m: Matcher, backward: bool, min: nat, max: int, greedy: bool, first: nat, next: nat,
                                   x: nat, c: Marks, k: Cont)
    ensures QuantMatcher(env, m, backward, min, max, greedy, first, next, Emitted)(x, c, k) ==
            Repeat(env, m, backward, min, max, greedy, x, if min == 0 then Clear(c, first, next) else c, k)
  {
    hide Repeat, RepeatMatcher, Clear, SeqMatcher, ClearMatcher;
    var loop := RepeatMatcher(env, m, backward, min, max, greedy);
    var c1 := if min == 0 then Clear(c, first, next) else c;
    ClearedFirst(loop, first, next, x, c, k);
    RepeatIs(env, m, backward, min, max, greedy, x, c1, k);
    assert QuantMatcher(env, m, backward, min, max, greedy, first, next, Emitted) ==
           if min == 0 then SeqMatcher(ClearMatcher(first, next), loop) else loop;
  }

  lemma {:induction false} QuantEnters(a: Node, min: nat, max: int, greedy: bool, g: nat, clean: bool, c: Marks, c': Marks,
                                       stale: set<nat>, k: Cont, k': Cont, rel: Relation)
    requires Enters(Quant(a, min, max, greedy), g, clean, c, c', stale)
    requires Related(Quant(a, min, max, greedy), g, clean, c, c', stale, k, k', rel)
    ensures var first := if min == 0 then Clear(c, g, g + Captures(a)) else c;
            var kept := Stale(Quant(a, min, max, greedy), g, clean);
            && AtLoop(a, g, c, c', first, c', stale)
            && (min == 0 ==> LeavesLoop(a, g, c, c', first, c', stale, kept))
            && (max > 0 && max == 1 && (clean || min == 0) ==> Blank(first, g, Captures(a), {}))
            && RelatedLoop(a, g, c, c', stale, kept, k, k', rel)
  {
    hide Matches;
    var r := Quant(a, min, max, greedy);
    assert Captures(r) == Captures(a) && Settable(r, g) == Settable(a, g);
    hide Settable, Stale, Captures;
    var kept := Stale(r, g, clean);
    forall y: nat, d: Marks, d': Marks | LeavesLoop(a, g, c, c', d, d', stale, kept)
      ensures Matches(k(y, d), k'(y, d'), rel)
    {
      assert Leaves(r, g, clean, c, c', d, d', stale);
    }
  }

  // ---------------------------------------------------------------------------
  // The whole search

  // The code finds a match exactly where the specification does, with the same start, the
  // same end and the same captures, except for those that may be stale.
  lemma {:induction false} FindAgrees(env: Env, r: Node, f: Flags, sticky: bool, x: nat)
    requires x <= |env.chars| && WellFormed(r)
    ensures var z, z' := Find(env, r, f, sticky, x, Emitted), Find(env, r, f, sticky, x, Standard);
            z.Some? == z'.Some? && (z.Some? ==> AgreeOutside(z.value, z'.value, StaleGroups(r)))
    decreases |env.chars| - x
  {
    hide Compile, Captures, Stale, Settable, WellFormed, Leaves, Related;
    var n := 1 + Captures(r);
    var c, whole := Unset(n), Capture(r);
    WholeEnters(r, c);
    var rel := (s: State, s': State) => AgreeOutside(s.captures, s'.captures, StaleGroups(r));
    forall y: nat, d: Marks, d': Marks | Leaves(whole, 0, true, c, c, d, d', {})
      ensures Matches(Accept(y, d), Accept(y, d'), rel)
    {
      WholeLeaves(r, c, d, d');
    }
    RelatedFrom(whole, 0, true, c, c, {}, Accept, Accept, rel);
    Simulates(env, whole, f, false, 0, true, x, c, c, {}, Accept, Accept, rel);
    if x < |env.chars| && !sticky {
      FindAgrees(env, r, f, sticky, x + 1);
    }
  }

  lemma {:induction false} WholeEnters(r: Node, c: Marks)
    requires c == Unset(1 + Captures(r))
    ensures Enters(Capture(r), 0, true, c, c, {}) && (WellFormed(r) ==> WellFormed(Capture(r)))
  {
  }

  lemma {:induction false} WholeLeaves(r: Node, c: Marks, d: Marks, d': Marks)
    requires Leaves(Capture(r), 0, true, c, c, d, d', {})
    ensures AgreeOutside(d, d', StaleGroups(r))
  {
    hide Settable, Stale;
  }
}
