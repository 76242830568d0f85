/**
 Axioms, their meaning under a valuation, and the generation session.

 A session owns the fresh-symbol counter and the append-only axiom log that is
 handed, whole, to the solver. The solver reads the log as a conjunction.
 */
module Axioms {
  import opened Symbols
  import opened Exprs

  /** The three shapes of axiom the generators emit. */
  datatype Axiom =
      /** A quantifier-free formula. */
    | Plain(f: BExpr)
      /** forall qvar in [0, bound). premise ==> body */
    | Universal(qvar: Sym, bound: IExpr, premise: BExpr, body: BExpr)
      /**
       forall x in [univLower, univUpper). premise ==>
         exists k in [existLower, existUpper). needle[k] != haystack[x + k],
       where the existential k is the witness `family` applied to x: one
       witness per start position x.
       */
    | NotContains(univLower: IExpr, univUpper: IExpr, premise: BExpr,
                  existLower: IExpr, existUpper: IExpr,
                  haystack: Sym, needle: Sym, family: Sym)

  ghost predicate Holds(a: Axiom, v: Valuation)
  {
    match a
    case Plain(f) => EvalB(f, v)
    case Universal(q, bound, premise, body) =>
      forall i :: 0 <= i < Eval(bound, v) ==>
        EvalB(premise, v.SetInt(q, i)) ==> EvalB(body, v.SetInt(q, i))
    case NotContains(lo, hi, premise, elo, ehi, s0, s1, w) =>
      forall x :: Eval(lo, v) <= x < Eval(hi, v) ==>
        EvalB(premise, v) ==>
          && Eval(elo, v) <= v.families(w)(x) < Eval(ehi, v)
          && v.strs(s1).at(v.families(w)(x)) != v.strs(s0).at(x + v.families(w)(x))
  }

  /** The log is read as a conjunction. */
  ghost predicate HoldsAll(axs: seq<Axiom>, v: Valuation)
  {
    forall i :: 0 <= i < |axs| ==> Holds(axs[i], v)
  }

  lemma {:induction false} HoldsAllAppend(a: seq<Axiom>, b: seq<Axiom>, v: Valuation)
    ensures HoldsAll(a + b, v) <==> HoldsAll(a, v) && HoldsAll(b, v)
  {
    if HoldsAll(a, v) && HoldsAll(b, v) {
      forall i | 0 <= i < |a + b|
        ensures Holds((a + b)[i], v)
      {
        if i >= |a| {
          assert (a + b)[i] == b[i - |a|];
        }
      }
    }
    if HoldsAll(a + b, v) {
      forall i | 0 <= i < |a|
        ensures Holds(a[i], v)
      {
        assert (a + b)[i] == a[i];
      }
      forall i | 0 <= i < |b|
        ensures Holds(b[i], v)
      {
        assert (a + b)[|a| + i] == b[i];
      }
    }
  }

  // The meaning of short axiom lists, as conjunctions: under one valuation,
  // and under all of them.

  lemma {:induction false} HoldsAll2At(a0: Axiom, a1: Axiom, v: Valuation)
    ensures HoldsAll([a0, a1], v) <==> Holds(a0, v) && Holds(a1, v)
  {
    HoldsAll1(a0, v);
    HoldsAll1(a1, v);
    HoldsAllAppend([a0], [a1], v);
    assert [a0, a1] == [a0] + [a1];
  }

  lemma {:induction false} HoldsAll3At(a0: Axiom, a1: Axiom, a2: Axiom, v: Valuation)
    ensures HoldsAll([a0, a1, a2], v) <==> Holds(a0, v) && Holds(a1, v) && Holds(a2, v)
  {
    HoldsAll1(a0, v);
    HoldsAll2At(a1, a2, v);
    HoldsAllAppend([a0], [a1, a2], v);
    assert [a0, a1, a2] == [a0] + [a1, a2];
  }

  lemma {:induction false} HoldsAll4At(a0: Axiom, a1: Axiom, a2: Axiom, a3: Axiom, v: Valuation)
    ensures HoldsAll([a0, a1, a2, a3], v) <==>
      Holds(a0, v) && Holds(a1, v) && Holds(a2, v) && Holds(a3, v)
  {
    HoldsAll1(a0, v);
    HoldsAll3At(a1, a2, a3, v);
    HoldsAllAppend([a0], [a1, a2, a3], v);
    assert [a0, a1, a2, a3] == [a0] + [a1, a2, a3];
  }

  lemma {:induction false} HoldsAll5At(a0: Axiom, a1: Axiom, a2: Axiom, a3: Axiom, a4: Axiom, v: Valuation)
    ensures HoldsAll([a0, a1, a2, a3, a4], v) <==>
      Holds(a0, v) && Holds(a1, v) && Holds(a2, v) && Holds(a3, v) && Holds(a4, v)
  {
    HoldsAll1(a0, v);
    HoldsAll4At(a1, a2, a3, a4, v);
    HoldsAllAppend([a0], [a1, a2, a3, a4], v);
    assert [a0, a1, a2, a3, a4] == [a0] + [a1, a2, a3, a4];
  }

  lemma {:induction false} HoldsAll2(a0: Axiom, a1: Axiom)
    ensures forall v :: HoldsAll([a0, a1], v) <==> Holds(a0, v) && Holds(a1, v)
  {
    forall v
      ensures HoldsAll([a0, a1], v) <==> Holds(a0, v) && Holds(a1, v)
    {
      HoldsAll2At(a0, a1, v);
    }
  }

  lemma {:induction false} HoldsAll1(a0: Axiom, v: Valuation)
    ensures HoldsAll([a0], v) <==> Holds(a0, v)
  {
    assert [a0][0] == a0;
  }

  /** Every symbol the axiom mentions was created before the counter reached `n`. */
  predicate AxiomBelow(a: Axiom, n: nat)
  {
    match a
    case Plain(f) => BBelow(f, n)
    case Universal(q, bound, premise, body) =>
      q.id < n && IBelow(bound, n) && BBelow(premise, n) && BBelow(body, n)
    case NotContains(lo, hi, premise, elo, ehi, s0, s1, w) =>
      && IBelow(lo, n) && IBelow(hi, n) && BBelow(premise, n)
      && IBelow(elo, n) && IBelow(ehi, n)
      && s0.id < n && s1.id < n && w.id < n
  }

  /** An axiom only depends on the symbols it mentions. */
  lemma {:induction false} AxiomFrame(a: Axiom, v: Valuation, w: Valuation, n: nat)
    requires AxiomBelow(a, n) && Agree(v, w, n)
    ensures Holds(a, v) == Holds(a, w)
  {
    match a
    case Plain(f) => EvalBFrame(f, v, w, n);
    case Universal(q, bound, premise, body) =>
      EvalFrame(bound, v, w, n);
      forall i | 0 <= i < Eval(bound, v)
        ensures (EvalB(premise, v.SetInt(q, i)) ==> EvalB(body, v.SetInt(q, i)))
            == (EvalB(premise, w.SetInt(q, i)) ==> EvalB(body, w.SetInt(q, i)))
      {
        AgreeSetInt(v, w, n, q, i);
        EvalBFrame(premise, v.SetInt(q, i), w.SetInt(q, i), n);
        EvalBFrame(body, v.SetInt(q, i), w.SetInt(q, i), n);
      }
    case NotContains(lo, hi, premise, elo, ehi, s0, s1, wit) =>
      EvalFrame(lo, v, w, n);
      EvalFrame(hi, v, w, n);
      EvalFrame(elo, v, w, n);
      EvalFrame(ehi, v, w, n);
      EvalBFrame(premise, v, w, n);
      assert v.strs(s0) == w.strs(s0) && v.strs(s1) == w.strs(s1);
      assert v.families(wit) == w.families(wit);
  }

  /** The generation session: the fresh-symbol counter and the axiom log. */
  datatype Session = Session(next: nat, axioms: seq<Axiom>)
  {
    /** Appends axioms to the log, in order. */
    function Push(axs: seq<Axiom>): (g: Session)
      ensures g.next == next
      ensures g.axioms == axioms + axs
    {
      this.(axioms := axioms + axs)
    }
  }

  /** Every axiom of the log only mentions symbols created so far. */
  predicate Valid(g: Session)
  {
    forall i :: 0 <= i < |g.axioms| ==> AxiomBelow(g.axioms[i], g.next)
  }

  /** A fresh symbol: distinct from every symbol created before it; the log is untouched. */
  function Fresh(g: Session, kind: Kind, hint: string): (r: (Sym, Session))
    ensures r.0.kind == kind && r.0.hint == hint
    ensures forall x: Sym :: x.id < g.next ==> x != r.0
    ensures r.0.id < r.1.next == g.next + 1
    ensures r.1.axioms == g.axioms
  {
    (Sym(kind, hint, g.next), g.(next := g.next + 1))
  }

  /** `h` continues `g`: the counter did not go back and the log only grew at its end. */
  predicate Extends(g: Session, h: Session)
  {
    g.next <= h.next && |g.axioms| <= |h.axioms| && h.axioms[..|g.axioms|] == g.axioms
  }

  /** The axioms `h` appended to the log of `g`. */
  function Appended(g: Session, h: Session): seq<Axiom>
    requires Extends(g, h)
  {
    h.axioms[|g.axioms|..]
  }

  lemma {:induction false} ExtendsSplit(g: Session, h: Session, v: Valuation)
    requires Extends(g, h)
    ensures HoldsAll(h.axioms, v) <==> HoldsAll(g.axioms, v) && HoldsAll(Appended(g, h), v)
  {
    assert h.axioms == g.axioms + Appended(g, h);
    HoldsAllAppend(g.axioms, Appended(g, h), v);
  }

  /** A model of a valid log stays a model when only symbols created later change. */
  lemma {:induction false} LogFrame(g: Session, v: Valuation, w: Valuation)
    requires Valid(g) && HoldsAll(g.axioms, v) && Agree(v, w, g.next)
    ensures HoldsAll(g.axioms, w)
  {
    forall i | 0 <= i < |g.axioms|
      ensures Holds(g.axioms[i], w)
    {
      AxiomFrame(g.axioms[i], v, w, g.next);
    }
  }

  /** Appending axioms that only mention existing symbols keeps the log valid. */
  lemma {:induction false} ValidPush(g: Session, axs: seq<Axiom>, n: nat)
    requires g.next <= n
    ensures Valid(g) && (forall i :: 0 <= i < |axs| ==> AxiomBelow(axs[i], n)) ==>
      Valid(g.(next := n).Push(axs))
  {
    if !(Valid(g) && (forall i :: 0 <= i < |axs| ==> AxiomBelow(axs[i], n))) {
      return;
    }
    var h := g.(next := n).Push(axs);
    forall i | 0 <= i < |h.axioms|
      ensures AxiomBelow(h.axioms[i], n)
    {
      if i < |g.axioms| {
        AxiomBelowMono(g.axioms[i], g.next, n);
      } else {
        assert h.axioms[i] == axs[i - |g.axioms|];
      }
    }
  }

  lemma {:induction false} AxiomBelowMono(a: Axiom, n: nat, m: nat)
    requires n <= m
    ensures AxiomBelow(a, n) ==> AxiomBelow(a, m)
  {
    match a
    case Plain(f) => BBelowMono(f, n, m);
    case Universal(q, bound, premise, body) =>
      IBelowMono(bound, n, m); BBelowMono(premise, n, m); BBelowMono(body, n, m);
    case NotContains(lo, hi, premise, elo, ehi, s0, s1, w) =>
      IBelowMono(lo, n, m); IBelowMono(hi, n, m); BBelowMono(premise, n, m);
      IBelowMono(elo, n, m); IBelowMono(ehi, n, m);
  }
}
