/**
 Symbolic terms over the string model, and their value under a valuation.

 A string is a pair (length, character accessor). The accessor is total: reads
 outside [0, length) are not constrained by anything and may return any code
 unit. Characters are 16-bit unsigned code units.

 Lemmas about terms, valuations and axiom logs carry {:induction false}
 throughout the model: their proofs are direct, and the induction hypotheses
 Dafny would otherwise add over term trees and valuations only slow them down.
 */
module Exprs {
  import opened Symbols

  /** One UTF-16 code unit: the character sort of the string model. */
  type Unit = c: int | 0 <= c < 0x10000

  /** Divisors of division and remainder terms: the generators only divide by positive literals. */
  type Divisor = d: int | 0 < d witness 1

  /** Integer-valued terms (indices, lengths, characters, code points). */
  datatype IExpr =
    | Lit(n: int)
    | IVar(x: Sym)
    | Length(s: Sym)
    | CharAt(s: Sym, index: IExpr)
    | Plus(a: IExpr, b: IExpr)
    | Minus(a: IExpr, b: IExpr)
    | Mult(a: IExpr, b: IExpr)
    | Quot(a: IExpr, d: Divisor)     // signed bit-vector division: rounds toward zero
    | Rem(a: IExpr, d: Divisor)      // signed bit-vector remainder: sign of the dividend
    | ToChar(a: IExpr)               // cast to the 16-bit character sort

  datatype Rel = EqRel | NeRel | LtRel | LeRel | GtRel | GeRel

  /** Boolean-valued terms. */
  datatype BExpr =
    | BVar(x: Sym)
    | Not(a: BExpr)
    | And(a: BExpr, b: BExpr)
    | Or(a: BExpr, b: BExpr)
    | Implies(a: BExpr, b: BExpr)
    | Cmp(rel: Rel, l: IExpr, r: IExpr)

  /** The value of a string symbol: a length and a total character accessor. */
  datatype StrVal = StrVal(len: int, at: int -> Unit)

  /**
   A valuation of every symbol: integers, Booleans, strings, and the witness
   families of not-contains constraints (one witness per start position).
   */
  datatype Valuation = Valuation(
    ints: Sym -> int,
    bools: Sym -> bool,
    strs: Sym -> StrVal,
    families: Sym -> (int -> int))
  {
    function SetInt(x: Sym, n: int): (w: Valuation)
      ensures w.ints(x) == n
      ensures forall y :: y != x ==> w.ints(y) == ints(y)
      ensures w.bools == bools && w.strs == strs && w.families == families
    {
      this.(ints := y => if y == x then n else ints(y))
    }

    function SetBool(x: Sym, b: bool): (w: Valuation)
      ensures w.bools(x) == b
      ensures forall y :: y != x ==> w.bools(y) == bools(y)
      ensures w.ints == ints && w.strs == strs && w.families == families
    {
      this.(bools := y => if y == x then b else bools(y))
    }

    function SetStr(x: Sym, s: StrVal): (w: Valuation)
      ensures w.strs(x) == s
      ensures forall y :: y != x ==> w.strs(y) == strs(y)
      ensures w.ints == ints && w.bools == bools && w.families == families
    {
      this.(strs := y => if y == x then s else strs(y))
    }

    function SetFamily(x: Sym, f: int -> int): (w: Valuation)
      ensures w.families(x) == f
      ensures forall y :: y != x ==> w.families(y) == families(y)
      ensures w.ints == ints && w.bools == bools && w.strs == strs
    {
      var before := families;
      this.(families := y => if y == x then f else before(y))
    }
  }

  /** Division of signed bit-vectors: the quotient is rounded toward zero. */
  function TDiv(a: int, d: Divisor): int
  {
    if 0 <= a then a / d else -((-a) / d)
  }

  /** Remainder of signed bit-vectors: it takes the sign of the dividend. */
  function TMod(a: int, d: Divisor): int
  {
    if 0 <= a then a % d else -((-a) % d)
  }

  /**
   Truncating division and remainder agree with Euclidean ones on a
   non-negative dividend; on a negative one the quotient is rounded up and
   the remainder is not positive, and they still recompose the dividend.
   */
  lemma TruncatedDivision(a: int, d: Divisor)
    ensures 0 <= a ==> TDiv(a, d) == a / d && TMod(a, d) == a % d
    ensures a < 0 ==> a <= (d as int) * TDiv(a, d) <= 0 && -(d as int) < TMod(a, d) <= 0
    ensures (d as int) * TDiv(a, d) + TMod(a, d) == a
  {
  }

  /** The cast of an integer to the 16-bit character sort keeps its low 16 bits. */
  function CharOf(n: int): (c: Unit)
    ensures 0 <= n < 0x10000 ==> c == n
  {
    n % 0x10000
  }

  function Eval(e: IExpr, v: Valuation): int
  {
    match e
    case Lit(n) => n
    case IVar(x) => v.ints(x)
    case Length(s) => v.strs(s).len
    case CharAt(s, i) => v.strs(s).at(Eval(i, v))
    case Plus(a, b) => Eval(a, v) + Eval(b, v)
    case Minus(a, b) => Eval(a, v) - Eval(b, v)
    case Mult(a, b) => Eval(a, v) * Eval(b, v)
    case Quot(a, d) => TDiv(Eval(a, v), d)
    case Rem(a, d) => TMod(Eval(a, v), d)
    case ToChar(a) => CharOf(Eval(a, v))
  }

  function Compare(rel: Rel, a: int, b: int): bool
  {
    match rel
    case EqRel => a == b
    case NeRel => a != b
    case LtRel => a < b
    case LeRel => a <= b
    case GtRel => a > b
    case GeRel => a >= b
  }

  function EvalB(e: BExpr, v: Valuation): bool
  {
    match e
    case BVar(x) => v.bools(x)
    case Not(a) => !EvalB(a, v)
    case And(a, b) => EvalB(a, v) && EvalB(b, v)
    case Or(a, b) => EvalB(a, v) || EvalB(b, v)
    case Implies(a, b) => EvalB(a, v) ==> EvalB(b, v)
    case Cmp(rel, l, r) => Compare(rel, Eval(l, v), Eval(r, v))
  }

  // Term builders. Each states the value of the term it builds and the symbols
  // it mentions, so that the meaning of a generated axiom follows from the
  // meanings of its parts. They mirror the expression constructors of the
  // generators (implies, and, or, not, equal, plus, index, typecast, ...).

  function ImpliesExpr(a: BExpr, b: BExpr): (f: BExpr)
    ensures forall v :: EvalB(f, v) == (EvalB(a, v) ==> EvalB(b, v))
    ensures forall n: nat :: BBelow(f, n) == (BBelow(a, n) && BBelow(b, n))
  {
    Implies(a, b)
  }

  function AndExpr(a: BExpr, b: BExpr): (f: BExpr)
    ensures forall v :: EvalB(f, v) == (EvalB(a, v) && EvalB(b, v))
    ensures forall n: nat :: BBelow(f, n) == (BBelow(a, n) && BBelow(b, n))
  {
    And(a, b)
  }

  function OrExpr(a: BExpr, b: BExpr): (f: BExpr)
    ensures forall v :: EvalB(f, v) == (EvalB(a, v) || EvalB(b, v))
    ensures forall n: nat :: BBelow(f, n) == (BBelow(a, n) && BBelow(b, n))
  {
    Or(a, b)
  }

  function NotExpr(a: BExpr): (f: BExpr)
    ensures forall v :: EvalB(f, v) == !EvalB(a, v)
    ensures forall n: nat :: BBelow(f, n) == BBelow(a, n)
  {
    Not(a)
  }

  function BoolSymbol(x: Sym): (f: BExpr)
    ensures forall v :: EvalB(f, v) == v.bools(x)
    ensures forall n: nat :: BBelow(f, n) == (x.id < n)
  {
    BVar(x)
  }

  /** A binary relation between two integer terms. */
  function RelExpr(rel: Rel, a: IExpr, b: IExpr): (f: BExpr)
    ensures forall v :: EvalB(f, v) == Compare(rel, Eval(a, v), Eval(b, v))
    ensures forall n: nat :: BBelow(f, n) == (IBelow(a, n) && IBelow(b, n))
  {
    Cmp(rel, a, b)
  }

  function IntSymbol(x: Sym): (e: IExpr)
    ensures forall v :: Eval(e, v) == v.ints(x)
    ensures forall n: nat :: IBelow(e, n) == (x.id < n)
  {
    IVar(x)
  }

  function Const(k: int): (e: IExpr)
    ensures forall v :: Eval(e, v) == k
    ensures forall n: nat :: IBelow(e, n)
  {
    Lit(k)
  }

  function LengthOf(s: Sym): (e: IExpr)
    ensures forall v :: Eval(e, v) == v.strs(s).len
    ensures forall n: nat :: IBelow(e, n) == (s.id < n)
  {
    Length(s)
  }

  /** s[i]: the accessor of `s` read at `i`, in range or not. */
  function Index(s: Sym, i: IExpr): (e: IExpr)
    ensures forall v :: Eval(e, v) == v.strs(s).at(Eval(i, v))
    ensures forall n: nat :: IBelow(e, n) == (s.id < n && IBelow(i, n))
  {
    CharAt(s, i)
  }

  function PlusExpr(a: IExpr, b: IExpr): (e: IExpr)
    ensures forall v :: Eval(e, v) == Eval(a, v) + Eval(b, v)
    ensures forall n: nat :: IBelow(e, n) == (IBelow(a, n) && IBelow(b, n))
  {
    Plus(a, b)
  }

  function MinusExpr(a: IExpr, b: IExpr): (e: IExpr)
    ensures forall v :: Eval(e, v) == Eval(a, v) - Eval(b, v)
    ensures forall n: nat :: IBelow(e, n) == (IBelow(a, n) && IBelow(b, n))
  {
    Minus(a, b)
  }

  function MultExpr(a: IExpr, b: IExpr): (e: IExpr)
    ensures forall v :: Eval(e, v) == Eval(a, v) * Eval(b, v)
    ensures forall n: nat :: IBelow(e, n) == (IBelow(a, n) && IBelow(b, n))
  {
    Mult(a, b)
  }

  function DivExpr(a: IExpr, d: Divisor): (e: IExpr)
    ensures forall v :: Eval(e, v) == TDiv(Eval(a, v), d)
    ensures forall n: nat :: IBelow(e, n) == IBelow(a, n)
  {
    Quot(a, d)
  }

  function ModExpr(a: IExpr, d: Divisor): (e: IExpr)
    ensures forall v :: Eval(e, v) == TMod(Eval(a, v), d)
    ensures forall n: nat :: IBelow(e, n) == IBelow(a, n)
  {
    Rem(a, d)
  }

  /** The cast of an integer term to the character sort. */
  function TypecastChar(a: IExpr): (e: IExpr)
    ensures forall v :: Eval(e, v) == CharOf(Eval(a, v))
    ensures forall n: nat :: IBelow(e, n) == IBelow(a, n)
  {
    ToChar(a)
  }

  // Formula builders of the string model, used as sub-formulas by the generators.

  /** |s| = n */
  function HasLength(s: Sym, k: int): (b: BExpr)
    ensures forall v :: EvalB(b, v) <==> v.strs(s).len == k
    ensures forall n: nat :: BBelow(b, n) == (s.id < n)
  {
    RelExpr(EqRel, LengthOf(s), Const(k))
  }

  /** |s| >= e */
  function IsLongerThan(s: Sym, e: IExpr): (b: BExpr)
    ensures forall v :: EvalB(b, v) <==> v.strs(s).len >= Eval(e, v)
    ensures forall n: nat :: BBelow(b, n) == (s.id < n && IBelow(e, n))
  {
    RelExpr(GeRel, LengthOf(s), e)
  }

  /** |s| > e */
  function IsStrictlyLongerThan(s: Sym, e: IExpr): (b: BExpr)
    ensures forall v :: EvalB(b, v) <==> v.strs(s).len > Eval(e, v)
    ensures forall n: nat :: BBelow(b, n) == (s.id < n && IBelow(e, n))
  {
    RelExpr(GtRel, LengthOf(s), e)
  }

  /** e >= 0 */
  function IsPositiveIndex(e: IExpr): (b: BExpr)
    ensures forall v :: EvalB(b, v) <==> Eval(e, v) >= 0
    ensures forall n: nat :: BBelow(b, n) == IBelow(e, n)
  {
    RelExpr(GeRel, e, Const(0))
  }

  // Scoping: which symbols a term may mention.

  /** Every symbol `e` mentions was created before the counter reached `n`. */
  predicate IBelow(e: IExpr, n: nat)
  {
    match e
    case Lit(_) => true
    case IVar(x) => x.id < n
    case Length(s) => s.id < n
    case CharAt(s, i) => s.id < n && IBelow(i, n)
    case Plus(a, b) => IBelow(a, n) && IBelow(b, n)
    case Minus(a, b) => IBelow(a, n) && IBelow(b, n)
    case Mult(a, b) => IBelow(a, n) && IBelow(b, n)
    case Quot(a, _) => IBelow(a, n)
    case Rem(a, _) => IBelow(a, n)
    case ToChar(a) => IBelow(a, n)
  }

  predicate BBelow(e: BExpr, n: nat)
  {
    match e
    case BVar(x) => x.id < n
    case Not(a) => BBelow(a, n)
    case And(a, b) => BBelow(a, n) && BBelow(b, n)
    case Or(a, b) => BBelow(a, n) && BBelow(b, n)
    case Implies(a, b) => BBelow(a, n) && BBelow(b, n)
    case Cmp(_, l, r) => IBelow(l, n) && IBelow(r, n)
  }

  lemma {:induction false} IBelowMono(e: IExpr, n: nat, m: nat)
    requires n <= m
    ensures IBelow(e, n) ==> IBelow(e, m)
  {
    match e
    case CharAt(_, i) => IBelowMono(i, n, m);
    case Plus(a, b) => IBelowMono(a, n, m); IBelowMono(b, n, m);
    case Minus(a, b) => IBelowMono(a, n, m); IBelowMono(b, n, m);
    case Mult(a, b) => IBelowMono(a, n, m); IBelowMono(b, n, m);
    case Quot(a, _) => IBelowMono(a, n, m);
    case Rem(a, _) => IBelowMono(a, n, m);
    case ToChar(a) => IBelowMono(a, n, m);
    case _ =>
  }

  lemma {:induction false} BBelowMono(e: BExpr, n: nat, m: nat)
    requires n <= m
    ensures BBelow(e, n) ==> BBelow(e, m)
  {
    match e
    case BVar(_) =>
    case Not(a) => BBelowMono(a, n, m);
    case And(a, b) => BBelowMono(a, n, m); BBelowMono(b, n, m);
    case Or(a, b) => BBelowMono(a, n, m); BBelowMono(b, n, m);
    case Implies(a, b) => BBelowMono(a, n, m); BBelowMono(b, n, m);
    case Cmp(_, l, r) => IBelowMono(l, n, m); IBelowMono(r, n, m);
  }

  /** Two valuations agree on every symbol created before the counter reached `n`. */
  ghost predicate Agree(v: Valuation, w: Valuation, n: nat)
  {
    forall x: Sym :: x.id < n ==>
      && v.ints(x) == w.ints(x)
      && v.bools(x) == w.bools(x)
      && v.strs(x) == w.strs(x)
      && v.families(x) == w.families(x)
  }

  lemma {:induction false} AgreeSetInt(v: Valuation, w: Valuation, n: nat, x: Sym, k: int)
    requires Agree(v, w, n)
    ensures Agree(v.SetInt(x, k), w.SetInt(x, k), n)
  {
  }

  lemma {:induction false} AgreeTrans(u: Valuation, v: Valuation, w: Valuation, n: nat)
    requires Agree(u, v, n) && Agree(v, w, n)
    ensures Agree(u, w, n)
  {
  }

  /** A term only depends on the symbols it mentions. */
  lemma {:induction false} EvalFrame(e: IExpr, v: Valuation, w: Valuation, n: nat)
    requires IBelow(e, n) && Agree(v, w, n)
    ensures Eval(e, v) == Eval(e, w)
  {
    match e
    case CharAt(s, i) =>
      EvalFrame(i, v, w, n);
      assert v.strs(s) == w.strs(s);
    case Plus(a, b) => EvalFrame(a, v, w, n); EvalFrame(b, v, w, n);
    case Minus(a, b) => EvalFrame(a, v, w, n); EvalFrame(b, v, w, n);
    case Mult(a, b) => EvalFrame(a, v, w, n); EvalFrame(b, v, w, n);
    case Quot(a, _) => EvalFrame(a, v, w, n);
    case Rem(a, _) => EvalFrame(a, v, w, n);
    case ToChar(a) => EvalFrame(a, v, w, n);
    case _ =>
  }

  lemma {:induction false} EvalBFrame(e: BExpr, v: Valuation, w: Valuation, n: nat)
    requires BBelow(e, n) && Agree(v, w, n)
    ensures EvalB(e, v) == EvalB(e, w)
  {
    match e
    case BVar(_) =>
    case Not(a) => EvalBFrame(a, v, w, n);
    case And(a, b) => EvalBFrame(a, v, w, n); EvalBFrame(b, v, w, n);
    case Or(a, b) => EvalBFrame(a, v, w, n); EvalBFrame(b, v, w, n);
    case Implies(a, b) => EvalBFrame(a, v, w, n); EvalBFrame(b, v, w, n);
    case Cmp(_, l, r) => EvalFrame(l, v, w, n); EvalFrame(r, v, w, n);
  }
}
