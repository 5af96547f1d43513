// The terms and alternatives the parser of libregexp.c meets one after the other, and how
// the code and the limits of a pattern are put together from theirs.
module RegexTerms {
  import opened RegexOpcode
  import opened RegexAsm
  import opened RegexValid
  import Spec = RegexSpec

  // ---------------------------------------------------------------------------
  // Terms of an alternative, alternatives of a disjunction

  function NodeSize(r: Spec.Node): (n: nat)
    ensures n > 0
  {
    match r
    case Seq(x, y) => 1 + NodeSize(x) + NodeSize(y)
    case Alt(x, y) => 1 + NodeSize(x) + NodeSize(y)
    case Group(x) => 1 + NodeSize(x)
    case Capture(x) => 1 + NodeSize(x)
    case Modifiers(_, _, x) => 1 + NodeSize(x)
    case Look(_, _, x) => 1 + NodeSize(x)
    case Quant(x, _, _, _) => 1 + NodeSize(x)
    case _ => 1
  }

  // The terms re_parse_alternative meets one after the other.
  function Terms(r: Spec.Node): (ts: seq<Spec.Node>) {
    match r
    case Empty => []
    case Seq(x, y) => Terms(x) + Terms(y)
    case _ => [r]
  }

  // The alternatives re_parse_disjunction meets one after the other.
  function Alternatives(r: Spec.Node): (rs: seq<Spec.Node>)
    ensures |rs| > 0
  {
    match r
    case Alt(x, y) => Alternatives(x) + [y]
    case _ => [r]
  }

  function CapturesIn(rs: seq<Spec.Node>): (n: nat) {
    if rs == [] then 0 else CapturesIn(rs[..|rs| - 1]) + Spec.Captures(rs[|rs| - 1])
  }

  // The code of a list of terms; in a lookbehind the later terms come first.
  function EmitTerms(encode: Encoder, ts: seq<Spec.Node>, f: Spec.Flags, backward: bool, capture: nat): (a: Asm) {
    if ts == [] then []
    else
      var n := |ts| - 1;
      var a, b := EmitTerms(encode, ts[..n], f, backward, capture), Emit(encode, ts[n], f, backward, capture + CapturesIn(ts[..n]));
      if backward then b + a else a + b
  }

  // The code of a list of alternatives.
  function EmitAlternatives(encode: Encoder, rs: seq<Spec.Node>, f: Spec.Flags, backward: bool, capture: nat): (a: Asm)
    requires |rs| > 0
  {
    var n := |rs| - 1;
    var b := Emit(encode, rs[n], f, backward, capture + CapturesIn(rs[..n]));
    if n == 0 then b else AltAsm(EmitAlternatives(encode, rs[..n], f, backward, capture), b)
  }

  lemma {:induction false} CapturesInConcat(xs: seq<Spec.Node>, ys: seq<Spec.Node>)
    ensures CapturesIn(xs + ys) == CapturesIn(xs) + CapturesIn(ys)
    decreases |ys|
  {
    if ys == [] {
      assert xs + ys == xs;
    } else {
      assert (xs + ys)[..|xs + ys| - 1] == xs + ys[..|ys| - 1];
      CapturesInConcat(xs, ys[..|ys| - 1]);
    }
  }

  lemma {:induction false} EmitTermsConcat(encode: Encoder, xs: seq<Spec.Node>, ys: seq<Spec.Node>, f: Spec.Flags, backward: bool, capture: nat)
    ensures var a, b := EmitTerms(encode, xs, f, backward, capture), EmitTerms(encode, ys, f, backward, capture + CapturesIn(xs));
            EmitTerms(encode, xs + ys, f, backward, capture) == if backward then b + a else a + b
    decreases |ys|
  {
    hide Emit, EmitTerms, CapturesIn;
    var a := EmitTerms(encode, xs, f, backward, capture);
    if ys == [] {
      assert xs + ys == xs;
      NoTerms(encode, f, backward, capture + CapturesIn(xs));
      assert a + [] == a && [] + a == a;
    } else {
      var zs, y := ys[..|ys| - 1], ys[|ys| - 1];
      assert ys == zs + [y] && xs + ys == (xs + zs) + [y];
      EmitLastTerm(encode, xs + zs, y, f, backward, capture);
      EmitLastTerm(encode, zs, y, f, backward, capture + CapturesIn(xs));
      EmitTermsConcat(encode, xs, zs, f, backward, capture);
      CapturesInConcat(xs, zs);
      var b := EmitTerms(encode, zs, f, backward, capture + CapturesIn(xs));
      JoinCode(a, b, Emit(encode, y, f, backward, capture + CapturesIn(xs + zs)));
      assert capture + CapturesIn(xs + zs) == capture + CapturesIn(xs) + CapturesIn(zs);
    }
  }

  lemma {:induction false} JoinCode(a: Asm, b: Asm, c: Asm)
    ensures c + (b + a) == (c + b) + a && (a + b) + c == a + (b + c)
  {
  }

  lemma {:induction false} EmitLastTerm(encode: Encoder, xs: seq<Spec.Node>, y: Spec.Node, f: Spec.Flags, backward: bool, capture: nat)
    ensures var a, b := EmitTerms(encode, xs, f, backward, capture), Emit(encode, y, f, backward, capture + CapturesIn(xs));
            EmitTerms(encode, xs + [y], f, backward, capture) == if backward then b + a else a + b
  {
    hide Emit;
    assert (xs + [y])[..|xs|] == xs;
  }

  // Emitting the terms in turn emits the pattern.
  lemma {:induction false} EmitIsTerms(encode: Encoder, r: Spec.Node, f: Spec.Flags, backward: bool, capture: nat)
    ensures Emit(encode, r, f, backward, capture) == EmitTerms(encode, Terms(r), f, backward, capture)
    ensures Spec.Captures(r) == CapturesIn(Terms(r))
    decreases r
  {
    hide Emit, EmitTerms, CapturesIn;
    match r
    case Empty =>
      EmitEmpty(encode, f, backward, capture);
      NoTerms(encode, f, backward, capture);
    case Seq(x, y) =>
      EmitSeq(encode, x, y, f, backward, capture);
      EmitIsTerms(encode, x, f, backward, capture);
      EmitIsTerms(encode, y, f, backward, capture + Spec.Captures(x));
      EmitTermsConcat(encode, Terms(x), Terms(y), f, backward, capture);
      CapturesInConcat(Terms(x), Terms(y));
    case _ =>
      OneTerm(encode, r, f, backward, capture);
  }

  lemma {:induction false} NoTerms(encode: Encoder, f: Spec.Flags, backward: bool, capture: nat)
    ensures EmitTerms(encode, [], f, backward, capture) == [] && CapturesIn([]) == 0
  {
  }

  lemma {:induction false} OneTerm(encode: Encoder, r: Spec.Node, f: Spec.Flags, backward: bool, capture: nat)
    ensures EmitTerms(encode, [r], f, backward, capture) == Emit(encode, r, f, backward, capture)
    ensures CapturesIn([r]) == Spec.Captures(r)
  {
    hide Emit;
    assert [r][..0] == [];
    var a := Emit(encode, r, f, backward, capture);
    assert a + [] == a && [] + a == a;
  }

  lemma {:induction false} OneMoreAlternative(encode: Encoder, rs: seq<Spec.Node>, y: Spec.Node, f: Spec.Flags, backward: bool, capture: nat)
    requires |rs| > 0
    ensures CapturesIn(rs + [y]) == CapturesIn(rs) + Spec.Captures(y)
    ensures EmitAlternatives(encode, rs + [y], f, backward, capture) ==
            AltAsm(EmitAlternatives(encode, rs, f, backward, capture), Emit(encode, y, f, backward, capture + CapturesIn(rs)))
  {
    hide Emit, AltAsm;
    assert (rs + [y])[..|rs|] == rs;
  }

  lemma {:induction false} OneAlternative(encode: Encoder, r: Spec.Node, f: Spec.Flags, backward: bool, capture: nat)
    ensures EmitAlternatives(encode, [r], f, backward, capture) == Emit(encode, r, f, backward, capture)
    ensures CapturesIn([r]) == Spec.Captures(r)
  {
    hide Emit, AltAsm;
    assert [r][..0] == [];
  }

  lemma {:induction false} EmitIsAlternatives(encode: Encoder, r: Spec.Node, f: Spec.Flags, backward: bool, capture: nat)
    ensures Emit(encode, r, f, backward, capture) == EmitAlternatives(encode, Alternatives(r), f, backward, capture)
    ensures Spec.Captures(r) == CapturesIn(Alternatives(r))
    decreases r
  {
    hide Emit, EmitAlternatives, AltAsm, CapturesIn;
    match r
    case Alt(x, y) =>
      EmitIsAlternatives(encode, x, f, backward, capture);
      EmitAlt(encode, x, y, f, backward, capture);
      OneMoreAlternative(encode, Alternatives(x), y, f, backward, capture);
    case _ =>
      OneAlternative(encode, r, f, backward, capture);
  }

  lemma {:induction false} TermsSmaller(r: Spec.Node, i: int)
    requires 0 <= i < |Terms(r)|
    ensures if r.Seq? || r.Empty? then NodeSize(Terms(r)[i]) < NodeSize(r) else Terms(r)[i] == r
    ensures Spec.WellFormed(r) ==> Spec.WellFormed(Terms(r)[i])
    decreases r
  {
    if r.Seq? {
      if i < |Terms(r.first)| {
        TermsSmaller(r.first, i);
      } else {
        TermsSmaller(r.second, i - |Terms(r.first)|);
      }
    }
  }

  lemma {:induction false} AlternativesSmaller(r: Spec.Node, i: int)
    requires 0 <= i < |Alternatives(r)|
    ensures if r.Alt? then NodeSize(Alternatives(r)[i]) < NodeSize(r) else Alternatives(r)[i] == r
    ensures Spec.WellFormed(r) ==> Spec.WellFormed(Alternatives(r)[i])
    decreases r
  {
    if r.Alt? && i < |Alternatives(r.left)| {
      AlternativesSmaller(r.left, i);
    }
  }

  // ---------------------------------------------------------------------------
  // The limits of a pattern, term by term

  // Neither too many captures nor a class with too many ranges.
  ghost predicate Fits(canon: int -> int, r: Spec.Node, f: Spec.Flags, capture: nat)
    requires Spec.CanonOk(canon) && Spec.WellFormed(r)
  {
    RangesFit(canon, r, f) && capture + Spec.Captures(r) <= CAPTURE_COUNT_MAX
  }

  ghost predicate AllFit(canon: int -> int, rs: seq<Spec.Node>, f: Spec.Flags, capture: nat)
    requires Spec.CanonOk(canon) && forall i :: 0 <= i < |rs| ==> Spec.WellFormed(rs[i])
  {
    (forall i :: 0 <= i < |rs| ==> RangesFit(canon, rs[i], f)) && capture + CapturesIn(rs) <= CAPTURE_COUNT_MAX
  }

  lemma {:induction false} FitsTerms(canon: int -> int, r: Spec.Node, f: Spec.Flags, capture: nat)
    requires Spec.CanonOk(canon) && Spec.WellFormed(r)
    ensures forall i :: 0 <= i < |Terms(r)| ==> Spec.WellFormed(Terms(r)[i])
    ensures Fits(canon, r, f, capture) <==> AllFit(canon, Terms(r), f, capture)
  {
    forall i | 0 <= i < |Terms(r)|
      ensures Spec.WellFormed(Terms(r)[i])
    {
      TermsSmaller(r, i);
    }
    RangesFitTerms(canon, r, f);
    EmitIsTerms((x, g) => Match, r, f, false, 0);
  }

  lemma {:induction false} TermsOfSeq(r: Spec.Node)
    requires r.Seq?
    ensures Terms(r) == Terms(r.first) + Terms(r.second)
  {
  }

  lemma {:induction false} AlternativesOfAlt(r: Spec.Node)
    requires r.Alt?
    ensures Alternatives(r) == Alternatives(r.left) + [r.right]
  {
  }

  lemma {:induction false} RangesFitTerms(canon: int -> int, r: Spec.Node, f: Spec.Flags)
    requires Spec.CanonOk(canon) && Spec.WellFormed(r)
    requires forall i :: 0 <= i < |Terms(r)| ==> Spec.WellFormed(Terms(r)[i])
    ensures RangesFit(canon, r, f) <==> forall i :: 0 <= i < |Terms(r)| ==> RangesFit(canon, Terms(r)[i], f)
    decreases r
  {
    if r.Seq? {
      var xs, ys, ts := Terms(r.first), Terms(r.second), Terms(r);
      TermsOfSeq(r);
      hide Terms;
      forall i | 0 <= i < |xs|
        ensures ts[i] == xs[i]
      {
      }
      forall i | 0 <= i < |ys|
        ensures ts[|xs| + i] == ys[i]
      {
      }
      RangesFitTerms(canon, r.first, f);
      RangesFitTerms(canon, r.second, f);
      assert RangesFit(canon, r, f) <==> RangesFit(canon, r.first, f) && RangesFit(canon, r.second, f);
      hide RangesFit;
      forall i | |xs| <= i < |ts|
        ensures ts[i] == ys[i - |xs|]
      {
      }
    } else if !r.Empty? {
      assert Terms(r)[0] == r;
    }
  }

  lemma {:induction false} FitsAlternatives(canon: int -> int, r: Spec.Node, f: Spec.Flags, capture: nat)
    requires Spec.CanonOk(canon) && Spec.WellFormed(r)
    ensures forall i :: 0 <= i < |Alternatives(r)| ==> Spec.WellFormed(Alternatives(r)[i])
    ensures Fits(canon, r, f, capture) <==> AllFit(canon, Alternatives(r), f, capture)
  {
    forall i | 0 <= i < |Alternatives(r)|
      ensures Spec.WellFormed(Alternatives(r)[i])
    {
      AlternativesSmaller(r, i);
    }
    RangesFitAlternatives(canon, r, f);
    EmitIsAlternatives((x, g) => Match, r, f, false, 0);
  }

  lemma {:induction false} RangesFitAlternatives(canon: int -> int, r: Spec.Node, f: Spec.Flags)
    requires Spec.CanonOk(canon) && Spec.WellFormed(r)
    requires forall i :: 0 <= i < |Alternatives(r)| ==> Spec.WellFormed(Alternatives(r)[i])
    ensures RangesFit(canon, r, f) <==> forall i :: 0 <= i < |Alternatives(r)| ==> RangesFit(canon, Alternatives(r)[i], f)
    decreases r
  {
    if r.Alt? {
      hide Alternatives;
      var xs := Alternatives(r.left);
      AlternativesOfAlt(r);
      assert forall i :: 0 <= i < |xs| ==> xs[i] == (xs + [r.right])[i];
      assert (xs + [r.right])[|xs|] == r.right;
      RangesFitAlternatives(canon, r.left, f);
    } else {
      assert Alternatives(r)[0] == r;
    }
  }

  // One more element: the limits of a prefix, and of the whole list.
  lemma {:induction false} AllFitStep(canon: int -> int, rs: seq<Spec.Node>, f: Spec.Flags, capture: nat, n: nat)
    requires Spec.CanonOk(canon) && (forall i :: 0 <= i < |rs| ==> Spec.WellFormed(rs[i])) && n < |rs|
    ensures AllFit(canon, rs[..n + 1], f, capture)
       <==> AllFit(canon, rs[..n], f, capture) && Fits(canon, rs[n], f, capture + CapturesIn(rs[..n]))
    ensures AllFit(canon, rs, f, capture) ==> AllFit(canon, rs[..n + 1], f, capture)
  {
    hide RangesFit, Spec.WellFormed, Spec.CanonOk;
    assert rs[..n + 1][..n] == rs[..n];
    assert rs == rs[..n + 1] + rs[n + 1..];
    CapturesInConcat(rs[..n + 1], rs[n + 1..]);
    assert rs[..n + 1][n] == rs[n];
    assert forall i :: 0 <= i < n ==> rs[..n + 1][i] == rs[i] == rs[..n][i];
  }
}
