/**
 Constraint generators for the Java functions that return a Boolean: the
 prefix test (startsWith), the suffix test (endsWith), isEmpty and contains.

 Each generator creates a fresh Boolean flag, the fresh index symbols its
 axioms quantify over or use as witnesses, and appends its axioms to the
 session's log. A negative fact ("is not a prefix") is expressed with a fresh
 witness index that exhibits the mismatch, never by negating a quantifier.
 */
module Testing {
  import opened Symbols
  import opened Exprs
  import opened Axioms
  import opened JavaString

  // ---------------------------------------------------------------------------
  // Mismatch search, used to build the witnesses of the negative cases

  /** The first index at which two strings of equal length differ, or their length when they are equal. */
  function FirstDiff(a: JString, b: JString): (k: nat)
    requires |a| == |b|
    ensures k <= |a|
    ensures forall i :: 0 <= i < k ==> a[i] == b[i]
    ensures k < |a| ==> a[k] != b[k]
    ensures k == |a| <==> a == b
  {
    if |a| == 0 then 0
    else if a[0] != b[0] then 0
    else
      var k := 1 + FirstDiff(a[1..], b[1..]);
      assert forall i :: 1 <= i < k ==> a[i] == a[1..][i - 1] && b[i] == b[1..][i - 1];
      assert k == |a| ==> a == [a[0]] + a[1..] && b == [b[0]] + b[1..];
      k
  }

  // ---------------------------------------------------------------------------
  // isPrefix

  /**
   The three axioms of the prefix test, for an in-bounds condition
   `inBounds` on str, prefix and offset:
     a1: isprefix ==> inBounds
     a2: forall 0 <= qvar < |prefix|. isprefix ==> str[qvar + offset] = prefix[qvar]
     a3: !isprefix ==> !inBounds
           || (0 <= witness < |prefix| && str[witness + offset] != prefix[witness] && inBounds)
   */
  function PrefixAxioms(flag: Sym, qvar: Sym, wit: Sym, prefix: Sym, str: Sym,
                        offset: IExpr, inBounds: BExpr): (axs: seq<Axiom>)
    ensures |axs| == 3
  {
    [ Plain(ImpliesExpr(BoolSymbol(flag), inBounds)),
      PrefixUniversal(flag, qvar, prefix, str, offset),
      PrefixWitness(flag, wit, prefix, str, offset, inBounds) ]
  }

  /** a2: forall 0 <= qvar < |prefix|. isprefix ==> str[qvar + offset] = prefix[qvar] */
  function PrefixUniversal(flag: Sym, qvar: Sym, prefix: Sym, str: Sym, offset: IExpr): Axiom
  {
    Universal(qvar, LengthOf(prefix), BoolSymbol(flag), PrefixBody(qvar, prefix, str, offset))
  }

  /** str[qvar + offset] = prefix[qvar] */
  function PrefixBody(qvar: Sym, prefix: Sym, str: Sym, offset: IExpr): BExpr
  {
    RelExpr(EqRel, Index(str, PlusExpr(IntSymbol(qvar), offset)), Index(prefix, IntSymbol(qvar)))
  }

  /** a3: !isprefix ==> !inBounds || (0 <= witness < |prefix| && str[witness + offset] != prefix[witness] && inBounds) */
  function PrefixWitness(flag: Sym, wit: Sym, prefix: Sym, str: Sym, offset: IExpr, inBounds: BExpr): Axiom
  {
    var witnessDiff := PrefixDiff(wit, prefix, str, offset);
    Plain(ImpliesExpr(NotExpr(BoolSymbol(flag)), OrExpr(NotExpr(inBounds), AndExpr(witnessDiff, inBounds))))
  }

  /** 0 <= witness < |prefix| && str[witness + offset] != prefix[witness] */
  function PrefixDiff(wit: Sym, prefix: Sym, str: Sym, offset: IExpr): BExpr
  {
    var w := IntSymbol(wit);
    AndExpr(IsPositiveIndex(w), AndExpr(IsStrictlyLongerThan(prefix, w),
      RelExpr(NeRel, Index(str, PlusExpr(w, offset)), Index(prefix, w))))
  }

  lemma {:induction false} PrefixDiffMeaning(wit: Sym, prefix: Sym, str: Sym, offset: IExpr, v: Valuation)
    ensures EvalB(PrefixDiff(wit, prefix, str, offset), v) <==>
      MismatchesAt(v.strs(str), v.strs(prefix), Eval(offset, v), v.ints(wit))
  {
    var w := IntSymbol(wit);
    var k, off := v.ints(wit), Eval(offset, v);
    var sv, pv := v.strs(str), v.strs(prefix);
    var differs := RelExpr(NeRel, Index(str, PlusExpr(w, offset)), Index(prefix, w));
    var inRange := IsStrictlyLongerThan(prefix, w);
    assert Eval(w, v) == k;
    assert Eval(Index(str, PlusExpr(w, offset)), v) == sv.at(k + off);
    assert EvalB(differs, v) == (sv.at(k + off) != pv.at(k));
    assert EvalB(inRange, v) == (pv.len > k);
    assert EvalB(IsPositiveIndex(w), v) == (k >= 0);
    assert PrefixDiff(wit, prefix, str, offset) == AndExpr(IsPositiveIndex(w), AndExpr(inRange, differs));
  }

  /** The in-bounds condition of the generator as written: |str| >= |prefix| + offset. */
  function LengthInBounds(prefix: Sym, str: Sym, offset: IExpr): (b: BExpr)
    ensures forall v :: EvalB(b, v) <==> v.strs(str).len >= v.strs(prefix).len + Eval(offset, v)
    ensures forall n: nat :: prefix.id < n && str.id < n && IBelow(offset, n) ==> BBelow(b, n)
  {
    IsLongerThan(str, PlusExpr(LengthOf(prefix), offset))
  }

  /** The corrected in-bounds condition: offset >= 0 && |str| >= |prefix| + offset. */
  function OffsetInBounds(prefix: Sym, str: Sym, offset: IExpr): (b: BExpr)
    ensures forall v :: EvalB(b, v) <==>
      0 <= Eval(offset, v) && v.strs(str).len >= v.strs(prefix).len + Eval(offset, v)
    ensures forall n: nat :: prefix.id < n && str.id < n && IBelow(offset, n) ==> BBelow(b, n)
  {
    AndExpr(IsPositiveIndex(offset), LengthInBounds(prefix, str, offset))
  }

  /** Every unit of `pv` is read from `sv` shifted by `off`. */
  ghost predicate MatchesAt(sv: StrVal, pv: StrVal, off: int)
  {
    forall i :: 0 <= i < pv.len ==> sv.at(i + off) == pv.at(i)
  }

  /** Position `k` of `pv` differs from `sv` shifted by `off`. */
  predicate MismatchesAt(sv: StrVal, pv: StrVal, off: int, k: int)
  {
    0 <= k < pv.len && sv.at(k + off) != pv.at(k)
  }

  /** What the three prefix axioms say under a valuation, for in-bounds value `inb`. */
  ghost predicate PrefixMeaning(v: Valuation, flag: Sym, wit: Sym, prefix: Sym, str: Sym,
                                off: int, inb: bool)
  {
    var b, sv, pv, w := v.bools(flag), v.strs(str), v.strs(prefix), v.ints(wit);
    && (b ==> inb)
    && (b ==> MatchesAt(sv, pv, off))
    && (!b ==> !inb || (MismatchesAt(sv, pv, off, w) && inb))
  }

  /** The three prefix axioms mean PrefixMeaning, when the offset does not mention the bound variable. */
  lemma {:induction false} PrefixAxiomsMeaning(flag: Sym, qvar: Sym, wit: Sym, prefix: Sym, str: Sym,
                            offset: IExpr, inBounds: BExpr, v: Valuation)
    requires IBelow(offset, qvar.id) && flag.id < qvar.id
    ensures HoldsAll(PrefixAxioms(flag, qvar, wit, prefix, str, offset, inBounds), v) <==>
      PrefixMeaning(v, flag, wit, prefix, str, Eval(offset, v), EvalB(inBounds, v))
  {
    var a0 := Plain(ImpliesExpr(BoolSymbol(flag), inBounds));
    var a1 := PrefixUniversal(flag, qvar, prefix, str, offset);
    var a2 := PrefixWitness(flag, wit, prefix, str, offset, inBounds);
    HoldsAll3At(a0, a1, a2, v);
    assert Holds(a0, v) == (v.bools(flag) ==> EvalB(inBounds, v));
    PrefixUniversalMeaning(flag, qvar, prefix, str, offset, v);
    PrefixWitnessMeaning(flag, wit, prefix, str, offset, inBounds, v);
  }

  lemma {:induction false} PrefixUniversalMeaning(flag: Sym, qvar: Sym, prefix: Sym, str: Sym, offset: IExpr, v: Valuation)
    requires IBelow(offset, qvar.id) && flag.id < qvar.id
    ensures Holds(PrefixUniversal(flag, qvar, prefix, str, offset), v) <==>
      (v.bools(flag) ==> MatchesAt(v.strs(str), v.strs(prefix), Eval(offset, v)))
  {
    var a := PrefixUniversal(flag, qvar, prefix, str, offset);
    var body := PrefixBody(qvar, prefix, str, offset);
    var off, sv, pv := Eval(offset, v), v.strs(str), v.strs(prefix);
    assert Eval(a.bound, v) == pv.len;
    if Holds(a, v) && v.bools(flag) {
      forall i | 0 <= i < pv.len
        ensures sv.at(i + off) == pv.at(i)
      {
        assert EvalB(a.premise, v.SetInt(qvar, i));
        PrefixBodyAt(qvar, prefix, str, offset, v, i);
      }
    }
    if v.bools(flag) ==> MatchesAt(sv, pv, off) {
      forall i | 0 <= i < Eval(a.bound, v)
        ensures EvalB(a.premise, v.SetInt(qvar, i)) ==> EvalB(body, v.SetInt(qvar, i))
      {
        PrefixBodyAt(qvar, prefix, str, offset, v, i);
      }
    }
  }

  /** The body of a2 with the bound variable set to `i`. */
  lemma {:induction false} PrefixBodyAt(qvar: Sym, prefix: Sym, str: Sym, offset: IExpr, v: Valuation, i: int)
    requires IBelow(offset, qvar.id)
    ensures EvalB(PrefixBody(qvar, prefix, str, offset), v.SetInt(qvar, i)) ==
      (v.strs(str).at(i + Eval(offset, v)) == v.strs(prefix).at(i))
  {
    var u := v.SetInt(qvar, i);
    assert Agree(v, u, qvar.id);
    EvalFrame(offset, v, u, qvar.id);
    assert Eval(PlusExpr(IntSymbol(qvar), offset), u) == i + Eval(offset, v);
  }

  lemma {:induction false} PrefixWitnessMeaning(flag: Sym, wit: Sym, prefix: Sym, str: Sym, offset: IExpr, inBounds: BExpr, v: Valuation)
    ensures Holds(PrefixWitness(flag, wit, prefix, str, offset, inBounds), v) <==>
      var w, inb := v.ints(wit), EvalB(inBounds, v);
      !v.bools(flag) ==> (!inb ||
        (MismatchesAt(v.strs(str), v.strs(prefix), Eval(offset, v), w) && inb))
  {
    PrefixDiffMeaning(wit, prefix, str, offset, v);
    var diff := PrefixDiff(wit, prefix, str, offset);
    assert Holds(PrefixWitness(flag, wit, prefix, str, offset, inBounds), v) <==>
      (!v.bools(flag) ==> !EvalB(inBounds, v) || (EvalB(diff, v) && EvalB(inBounds, v)));
  }

  /**
   Shared body of the two prefix generators: fresh isprefix flag, bound
   variable and witness, in this order, then the three axioms.
   */
  function PrefixGenerate(g: Session, prefix: Sym, str: Sym, offset: IExpr, inBounds: BExpr): (r: (Sym, Session))
    ensures r.0.id == g.next && r.0.kind == BooleanFlag && r.1.next == g.next + 3
    ensures Extends(g, r.1)
    ensures Appended(g, r.1) ==
      PrefixAxioms(r.0, Sym(UnivIndex, "QA_isprefix", g.next + 1),
                   Sym(ExistIndex, "witness_not_isprefix", g.next + 2), prefix, str, offset, inBounds)
    ensures (Valid(g) && prefix.id < g.next && str.id < g.next && IBelow(offset, g.next)
      && BBelow(inBounds, g.next)) ==> Valid(r.1)
  {
    var (flag, g1) := Fresh(g, BooleanFlag, "isprefix");
    var (qvar, g2) := Fresh(g1, UnivIndex, "QA_isprefix");
    var (wit, g3) := Fresh(g2, ExistIndex, "witness_not_isprefix");
    var axs := PrefixAxioms(flag, qvar, wit, prefix, str, offset, inBounds);
    IBelowMono(offset, g.next, g3.next);
    BBelowMono(inBounds, g.next, g3.next);
    PrefixAxiomsBelow(flag, qvar, wit, prefix, str, offset, inBounds, g3.next);
    ValidPush(g, axs, g3.next);
    var h := g3.Push(axs);
    assert h.axioms[|g.axioms|..] == axs;
    (flag, h)
  }

  lemma {:induction false} PrefixAxiomsBelow(flag: Sym, qvar: Sym, wit: Sym, prefix: Sym, str: Sym,
                          offset: IExpr, inBounds: BExpr, n: nat)
    requires flag.id < n && qvar.id < n && wit.id < n
    ensures prefix.id < n && str.id < n && IBelow(offset, n) && BBelow(inBounds, n) ==>
      forall i :: 0 <= i < 3 ==> AxiomBelow(PrefixAxioms(flag, qvar, wit, prefix, str, offset, inBounds)[i], n)
  {
    if !(prefix.id < n && str.id < n && IBelow(offset, n) && BBelow(inBounds, n)) {
      return;
    }
    var axs := PrefixAxioms(flag, qvar, wit, prefix, str, offset, inBounds);
    assert AxiomBelow(axs[0], n);
    assert AxiomBelow(axs[1], n);
    assert BBelow(PrefixDiff(wit, prefix, str, offset), n);
    assert AxiomBelow(axs[2], n);
  }

  /** a3 without the re-asserted length bound: !isprefix ==> !inBounds || (0 <= witness < |prefix| && str[witness + offset] != prefix[witness]) */
  function PrefixWitnessSimplified(flag: Sym, wit: Sym, prefix: Sym, str: Sym, offset: IExpr, inBounds: BExpr): Axiom
  {
    Plain(ImpliesExpr(NotExpr(BoolSymbol(flag)), OrExpr(NotExpr(inBounds), PrefixDiff(wit, prefix, str, offset))))
  }

  /**
   The in-bounds condition re-asserted beside the witness changes no model:
   a3 holds exactly when its simplified form does, under every valuation.
   */
  lemma {:induction false} PrefixWitnessRedundancy(flag: Sym, wit: Sym, prefix: Sym, str: Sym, offset: IExpr, inBounds: BExpr, v: Valuation)
    ensures Holds(PrefixWitness(flag, wit, prefix, str, offset, inBounds), v) <==>
      Holds(PrefixWitnessSimplified(flag, wit, prefix, str, offset, inBounds), v)
  {
    var diff := PrefixDiff(wit, prefix, str, offset);
    assert Holds(PrefixWitness(flag, wit, prefix, str, offset, inBounds), v) <==>
      (!v.bools(flag) ==> !EvalB(inBounds, v) || (EvalB(diff, v) && EvalB(inBounds, v)));
    assert Holds(PrefixWitnessSimplified(flag, wit, prefix, str, offset, inBounds), v) <==>
      (!v.bools(flag) ==> !EvalB(inBounds, v) || EvalB(diff, v));
  }

  /** The witness symbol of a prefix test generated at counter value n. */
  function PrefixWitnessSym(n: nat): Sym
  {
    Sym(ExistIndex, "witness_not_isprefix", n + 2)
  }

  /**
   The prefix test as written: the in-bounds condition is
   |str| >= |prefix| + offset, with no condition on the sign of offset.
   */
  function AddIsPrefix(g: Session, prefix: Sym, str: Sym, offset: IExpr): (r: (Sym, Session))
    ensures r.0.id == g.next && r.1.next == g.next + 3
    ensures Extends(g, r.1) && |Appended(g, r.1)| == 3
    ensures (Valid(g) && prefix.id < g.next && str.id < g.next && IBelow(offset, g.next)) ==> Valid(r.1)
  {
    PrefixGenerate(g, prefix, str, offset, LengthInBounds(prefix, str, offset))
  }

  /**
   The corrected prefix test: the in-bounds condition also requires
   offset >= 0, as String.startsWith is false for a negative offset.
   */
  function AddIsPrefixFixed(g: Session, prefix: Sym, str: Sym, offset: IExpr): (r: (Sym, Session))
    ensures r.0.id == g.next && r.1.next == g.next + 3
    ensures Extends(g, r.1) && |Appended(g, r.1)| == 3
    ensures (Valid(g) && prefix.id < g.next && str.id < g.next && IBelow(offset, g.next)) ==> Valid(r.1)
  {
    PrefixGenerate(g, prefix, str, offset, OffsetInBounds(prefix, str, offset))
  }

  /** The axioms of the prefix test as written, read under a valuation. */
  lemma {:induction false} IsPrefixMeaning(g: Session, prefix: Sym, str: Sym, offset: IExpr, v: Valuation)
    requires IBelow(offset, g.next)
    ensures var (flag, h) := AddIsPrefix(g, prefix, str, offset);
      var off := Eval(offset, v);
      HoldsAll(Appended(g, h), v) <==>
        PrefixMeaning(v, flag, PrefixWitnessSym(g.next), prefix, str, off,
                      v.strs(str).len >= v.strs(prefix).len + off)
  {
    var (flag, h) := AddIsPrefix(g, prefix, str, offset);
    var inBounds := LengthInBounds(prefix, str, offset);
    var qvar := Sym(UnivIndex, "QA_isprefix", g.next + 1);
    assert Appended(g, h) == PrefixAxioms(flag, qvar, PrefixWitnessSym(g.next), prefix, str, offset, inBounds);
    assert EvalB(inBounds, v) == (v.strs(str).len >= v.strs(prefix).len + Eval(offset, v));
    IBelowMono(offset, g.next, g.next + 1);
    PrefixAxiomsMeaning(flag, qvar, PrefixWitnessSym(g.next), prefix, str, offset, inBounds, v);
  }

  /** The axioms of the corrected prefix test, read under a valuation. */
  lemma {:induction false} IsPrefixFixedMeaning(g: Session, prefix: Sym, str: Sym, offset: IExpr, v: Valuation)
    requires IBelow(offset, g.next)
    ensures var (flag, h) := AddIsPrefixFixed(g, prefix, str, offset);
      var off := Eval(offset, v);
      HoldsAll(Appended(g, h), v) <==>
        PrefixMeaning(v, flag, PrefixWitnessSym(g.next), prefix, str, off,
                      0 <= off && v.strs(str).len >= v.strs(prefix).len + off)
  {
    var (flag, h) := AddIsPrefixFixed(g, prefix, str, offset);
    var inBounds := OffsetInBounds(prefix, str, offset);
    var qvar := Sym(UnivIndex, "QA_isprefix", g.next + 1);
    assert Appended(g, h) == PrefixAxioms(flag, qvar, PrefixWitnessSym(g.next), prefix, str, offset, inBounds);
    assert EvalB(inBounds, v) == (0 <= Eval(offset, v) && v.strs(str).len >= v.strs(prefix).len + Eval(offset, v));
    IBelowMono(offset, g.next, g.next + 1);
    PrefixAxiomsMeaning(flag, qvar, PrefixWitnessSym(g.next), prefix, str, offset, inBounds, v);
  }

  /**
   On concrete strings, the meaning of the corrected axioms pins the flag to
   String.startsWith: true exactly when `p` occurs in `s` at `off`.
   */
  lemma {:induction false} PrefixMeaningIsStartsWith(v: Valuation, flag: Sym, wit: Sym, prefix: Sym, str: Sym,
                                  s: JString, p: JString, off: int)
    requires Represents(v.strs(str), s) && Represents(v.strs(prefix), p)
    requires PrefixMeaning(v, flag, wit, prefix, str, off, 0 <= off && |s| >= |p| + off)
    ensures v.bools(flag) <==> StartsWith(s, p, off)
  {
    var sv, pv := v.strs(str), v.strs(prefix);
    if v.bools(flag) {
      forall i | 0 <= i < |p|
        ensures s[off..off + |p|][i] == p[i]
      {
        assert sv.at(i + off) == pv.at(i);
      }
    } else if 0 <= off && |s| >= |p| + off {
      var k := v.ints(wit);
      assert s[off..off + |p|][k] == sv.at(k + off);
      assert pv.at(k) == p[k];
    }
  }

  /**
   On concrete strings, the valuation that sets the flag to String.startsWith
   and the witness to the first mismatch meets the corrected axioms' meaning.
   */
  lemma {:induction false} StartsWithMeetsPrefixMeaning(v: Valuation, flag: Sym, wit: Sym, prefix: Sym, str: Sym,
                                     s: JString, p: JString, off: int)
    requires Represents(v.strs(str), s) && Represents(v.strs(prefix), p)
    requires v.bools(flag) == StartsWith(s, p, off)
    requires 0 <= off && |s| >= |p| + off && !StartsWith(s, p, off) ==>
      v.ints(wit) == FirstDiff(s[off..off + |p|], p)
    ensures PrefixMeaning(v, flag, wit, prefix, str, off, 0 <= off && |s| >= |p| + off)
  {
    var sv, pv := v.strs(str), v.strs(prefix);
    if v.bools(flag) {
      forall i | 0 <= i < |p|
        ensures sv.at(i + off) == pv.at(i)
      {
        assert s[off..off + |p|][i] == s[i + off];
      }
    } else if 0 <= off && |s| >= |p| + off {
      var k := v.ints(wit);
      assert s[off..off + |p|][k] == s[k + off];
    }
  }

  /**
   Soundness of the corrected prefix test: in every model of its axioms the
   flag is String.startsWith of the concrete strings at the offset.
   */
  lemma {:induction false} IsPrefixFixedSound(g: Session, prefix: Sym, str: Sym, offset: IExpr, v: Valuation,
                           s: JString, p: JString)
    requires IBelow(offset, g.next)
    requires Represents(v.strs(str), s) && Represents(v.strs(prefix), p)
    ensures var (flag, h) := AddIsPrefixFixed(g, prefix, str, offset);
      HoldsAll(Appended(g, h), v) ==> (v.bools(flag) <==> StartsWith(s, p, Eval(offset, v)))
  {
    var (flag, h) := AddIsPrefixFixed(g, prefix, str, offset);
    IsPrefixFixedMeaning(g, prefix, str, offset, v);
    if HoldsAll(Appended(g, h), v) {
      PrefixMeaningIsStartsWith(v, flag, PrefixWitnessSym(g.next), prefix, str, s, p, Eval(offset, v));
    }
  }

  /**
   Completeness of the corrected prefix test: any model of a valid log
   extends, on the fresh symbols only, to a model of the new log in which
   the flag is String.startsWith.
   */
  lemma {:induction false} IsPrefixFixedComplete(g: Session, prefix: Sym, str: Sym, offset: IExpr, v: Valuation,
                              s: JString, p: JString)
    requires Valid(g) && prefix.id < g.next && str.id < g.next && IBelow(offset, g.next)
    requires HoldsAll(g.axioms, v)
    requires Represents(v.strs(str), s) && Represents(v.strs(prefix), p)
    ensures var (flag, h) := AddIsPrefixFixed(g, prefix, str, offset);
      exists w :: Agree(v, w, g.next) && HoldsAll(h.axioms, w) &&
        (w.bools(flag) <==> StartsWith(s, p, Eval(offset, v)))
  {
    var (flag, h) := AddIsPrefixFixed(g, prefix, str, offset);
    var off := Eval(offset, v);
    var wit := PrefixWitnessSym(g.next);
    var k := if 0 <= off && |s| >= |p| + off then FirstDiff(s[off..off + |p|], p) else 0;
    var w := v.SetBool(flag, StartsWith(s, p, off)).SetInt(wit, k);
    assert Agree(v, w, g.next);
    EvalFrame(offset, v, w, g.next);
    StartsWithMeetsPrefixMeaning(w, flag, wit, prefix, str, s, p, off);
    IsPrefixFixedMeaning(g, prefix, str, offset, w);
    LogFrame(g, v, w);
    ExtendsSplit(g, h, w);
  }

  /**
   The prefix test as written, on an empty prefix and a negative offset:
   its axioms hold with the flag true and only with the flag true, whereas
   String.startsWith is false for every negative offset.
   */
  lemma {:induction false} IsPrefixNegativeOffset(g: Session, prefix: Sym, str: Sym, offset: IExpr, v: Valuation, s: JString)
    requires IBelow(offset, g.next)
    requires Represents(v.strs(str), s) && v.strs(prefix).len == 0 && Eval(offset, v) < 0
    ensures var (flag, h) := AddIsPrefix(g, prefix, str, offset);
      && (HoldsAll(Appended(g, h), v) ==> v.bools(flag))
      && HoldsAll(Appended(g, h), v.SetBool(flag, true))
      && !StartsWith(s, [], Eval(offset, v))
  {
    var (flag, h) := AddIsPrefix(g, prefix, str, offset);
    var w := v.SetBool(flag, true);
    assert Agree(v, w, g.next);
    EvalFrame(offset, v, w, g.next);
    IsPrefixMeaning(g, prefix, str, offset, v);
    IsPrefixMeaning(g, prefix, str, offset, w);
  }

  /** For a non-negative offset the two prefix tests emit equivalent axioms. */
  lemma {:induction false} IsPrefixFixedAgrees(g: Session, prefix: Sym, str: Sym, offset: IExpr, v: Valuation)
    requires IBelow(offset, g.next) && 0 <= Eval(offset, v)
    ensures var (flag1, h1) := AddIsPrefix(g, prefix, str, offset);
      var (flag2, h2) := AddIsPrefixFixed(g, prefix, str, offset);
      flag1 == flag2 && (HoldsAll(Appended(g, h1), v) <==> HoldsAll(Appended(g, h2), v))
  {
    IsPrefixMeaning(g, prefix, str, offset, v);
    IsPrefixFixedMeaning(g, prefix, str, offset, v);
  }

  /**
   Soundness of the prefix test as written, for a non-negative offset: there
   its axioms are those of the corrected test, so the flag is
   String.startsWith. IsPrefixNegativeOffset shows why the sign matters.
   */
  lemma {:induction false} IsPrefixSound(g: Session, prefix: Sym, str: Sym, offset: IExpr, v: Valuation,
                      s: JString, p: JString)
    requires IBelow(offset, g.next) && 0 <= Eval(offset, v)
    requires Represents(v.strs(str), s) && Represents(v.strs(prefix), p)
    ensures var (flag, h) := AddIsPrefix(g, prefix, str, offset);
      HoldsAll(Appended(g, h), v) ==> (v.bools(flag) <==> StartsWith(s, p, Eval(offset, v)))
  {
    IsPrefixFixedAgrees(g, prefix, str, offset, v);
    IsPrefixFixedSound(g, prefix, str, offset, v, s, p);
  }

  /**
   Completeness of the prefix test as written, for a non-negative offset:
   any model of a valid log extends, on the fresh symbols only, to a model
   of the new log in which the flag is String.startsWith.
   */
  lemma {:induction false} IsPrefixComplete(g: Session, prefix: Sym, str: Sym, offset: IExpr, v: Valuation,
                         s: JString, p: JString)
    requires Valid(g) && prefix.id < g.next && str.id < g.next && IBelow(offset, g.next)
    requires HoldsAll(g.axioms, v) && 0 <= Eval(offset, v)
    requires Represents(v.strs(str), s) && Represents(v.strs(prefix), p)
    ensures var (flag, h) := AddIsPrefix(g, prefix, str, offset);
      exists w :: Agree(v, w, g.next) && HoldsAll(h.axioms, w) &&
        (w.bools(flag) <==> StartsWith(s, p, Eval(offset, v)))
  {
    var (flag1, h1) := AddIsPrefix(g, prefix, str, offset);
    var (flag2, h2) := AddIsPrefixFixed(g, prefix, str, offset);
    IsPrefixFixedComplete(g, prefix, str, offset, v, s, p);
    var w :| Agree(v, w, g.next) && HoldsAll(h2.axioms, w) &&
      (w.bools(flag2) <==> StartsWith(s, p, Eval(offset, v)));
    EvalFrame(offset, v, w, g.next);
    IsPrefixFixedAgrees(g, prefix, str, offset, w);
    ExtendsSplit(g, h1, w);
    ExtendsSplit(g, h2, w);
  }

  /** The arguments of a call-level prefix test: (prefix, string, offset). */
  function PrefixArgs(args: seq<Sym>, offset: Option<IExpr>, swap: bool): (r: (Sym, Sym, IExpr))
    requires |args| == 2
    ensures r.0 == args[if swap then 1 else 0] && r.1 == args[if swap then 0 else 1]
    ensures forall v :: Eval(r.2, v) == if offset.Some? then Eval(offset.value, v) else 0
  {
    (args[if swap then 1 else 0], args[if swap then 0 else 1],
     if offset.Some? then offset.value else Const(0))
  }

  /**
   The call-level prefix test: two string arguments and an optional offset
   (0 when absent). The prefix is the second string argument when `swap`
   holds, the first otherwise. It calls the prefix test as written.
   */
  function IsPrefixCall(g: Session, args: seq<Sym>, offset: Option<IExpr>, swap: bool): (r: (Sym, Session))
    requires |args| == 2
    ensures r.0.id == g.next && Extends(g, r.1) && |Appended(g, r.1)| == 3
    ensures (Valid(g) && args[0].id < g.next && args[1].id < g.next
             && (offset.Some? ==> IBelow(offset.value, g.next))) ==> Valid(r.1)
  {
    var (prefix, str, off) := PrefixArgs(args, offset, swap);
    AddIsPrefix(g, prefix, str, off)
  }

  /** The call-level prefix test on the corrected generator. */
  function IsPrefixCallFixed(g: Session, args: seq<Sym>, offset: Option<IExpr>, swap: bool): (r: (Sym, Session))
    requires |args| == 2
    ensures r.0.id == g.next && Extends(g, r.1) && |Appended(g, r.1)| == 3
    ensures (Valid(g) && args[0].id < g.next && args[1].id < g.next
             && (offset.Some? ==> IBelow(offset.value, g.next))) ==> Valid(r.1)
  {
    var (prefix, str, off) := PrefixArgs(args, offset, swap);
    AddIsPrefixFixed(g, prefix, str, off)
  }

  /**
   With `swap`, the call computes args[0].startsWith(args[1], offset), the
   Java receiver first; without it, args[1].startsWith(args[0], offset).
   This holds for a non-negative offset, the only case where the generator
   as written is exact.
   */
  lemma {:induction false} IsPrefixCallSound(g: Session, args: seq<Sym>, offset: Option<IExpr>, swap: bool, v: Valuation,
                          s0: JString, s1: JString)
    requires |args| == 2 && (offset.Some? ==> IBelow(offset.value, g.next) && 0 <= Eval(offset.value, v))
    requires Represents(v.strs(args[0]), s0) && Represents(v.strs(args[1]), s1)
    ensures var (flag, h) := IsPrefixCall(g, args, offset, swap);
      var off := if offset.Some? then Eval(offset.value, v) else 0;
      HoldsAll(Appended(g, h), v) ==>
        (v.bools(flag) <==> if swap then StartsWith(s0, s1, off) else StartsWith(s1, s0, off))
  {
    var (prefix, str, off) := PrefixArgs(args, offset, swap);
    if swap {
      IsPrefixSound(g, prefix, str, off, v, s0, s1);
    } else {
      IsPrefixSound(g, prefix, str, off, v, s1, s0);
    }
  }

  /** The corrected call-level prefix test is String.startsWith for every offset. */
  lemma {:induction false} IsPrefixCallFixedSound(g: Session, args: seq<Sym>, offset: Option<IExpr>, swap: bool, v: Valuation,
                               s0: JString, s1: JString)
    requires |args| == 2 && (offset.Some? ==> IBelow(offset.value, g.next))
    requires Represents(v.strs(args[0]), s0) && Represents(v.strs(args[1]), s1)
    ensures var (flag, h) := IsPrefixCallFixed(g, args, offset, swap);
      var off := if offset.Some? then Eval(offset.value, v) else 0;
      HoldsAll(Appended(g, h), v) ==>
        (v.bools(flag) <==> if swap then StartsWith(s0, s1, off) else StartsWith(s1, s0, off))
  {
    var (prefix, str, off) := PrefixArgs(args, offset, swap);
    if swap {
      IsPrefixFixedSound(g, prefix, str, off, v, s0, s1);
    } else {
      IsPrefixFixedSound(g, prefix, str, off, v, s1, s0);
    }
  }

  /**
   The call-level prefix test as written, with an empty first argument, no
   swap and a negative offset: a true flag satisfies its axioms, although
   String.startsWith is false.
   */
  lemma {:induction false} IsPrefixCallNegativeOffset(g: Session, args: seq<Sym>, offset: IExpr, v: Valuation, s1: JString)
    requires |args| == 2 && IBelow(offset, g.next)
    requires v.strs(args[0]).len == 0 && Represents(v.strs(args[1]), s1) && Eval(offset, v) < 0
    ensures var (flag, h) := IsPrefixCall(g, args, Some(offset), false);
      HoldsAll(Appended(g, h), v.SetBool(flag, true)) && !StartsWith(s1, [], Eval(offset, v))
  {
    IsPrefixNegativeOffset(g, args[0], args[1], offset, v, s1);
  }

  // ---------------------------------------------------------------------------
  // isSuffix

  /**
   The three axioms of the suffix test, for the suffix s0 and the string s1:
     a1: issuffix ==> |s1| >= |s0|
     a2: forall 0 <= qvar < |s0|. issuffix ==> s0[qvar] = s1[qvar + |s1| - |s0|]
     a3: !issuffix ==> |s0| > |s1|
           || (s0[witness] != s1[witness + |s1| - |s0|] && |s0| > witness && witness >= 0)
   */
  function SuffixAxioms(flag: Sym, qvar: Sym, wit: Sym, s0: Sym, s1: Sym): (axs: seq<Axiom>)
    ensures |axs| == 3
  {
    [ Plain(ImpliesExpr(BoolSymbol(flag), IsLongerThan(s1, LengthOf(s0)))),
      SuffixUniversal(flag, qvar, s0, s1),
      SuffixWitness(flag, wit, s0, s1) ]
  }

  /** The shift that aligns the end of s0 with the end of s1: |s1| - |s0|. */
  function Shift(s0: Sym, s1: Sym): (e: IExpr)
    ensures forall v :: Eval(e, v) == v.strs(s1).len - v.strs(s0).len
  {
    MinusExpr(LengthOf(s1), LengthOf(s0))
  }

  /** a2: forall 0 <= qvar < |s0|. issuffix ==> s0[qvar] = s1[qvar + |s1| - |s0|] */
  function SuffixUniversal(flag: Sym, qvar: Sym, s0: Sym, s1: Sym): Axiom
  {
    Universal(qvar, LengthOf(s0), BoolSymbol(flag),
      RelExpr(EqRel, Index(s0, IntSymbol(qvar)), Index(s1, PlusExpr(IntSymbol(qvar), Shift(s0, s1)))))
  }

  /** a3: !issuffix ==> |s0| > |s1| || (s0[witness] != s1[witness + |s1| - |s0|] && |s0| > witness >= 0) */
  function SuffixWitness(flag: Sym, wit: Sym, s0: Sym, s1: Sym): Axiom
  {
    var w := IntSymbol(wit);
    Plain(ImpliesExpr(NotExpr(BoolSymbol(flag)),
      OrExpr(IsStrictlyLongerThan(s0, LengthOf(s1)),
        AndExpr(RelExpr(NeRel, Index(s0, w), Index(s1, PlusExpr(w, Shift(s0, s1)))),
          AndExpr(IsStrictlyLongerThan(s0, w), IsPositiveIndex(w))))))
  }

  /** What the three suffix axioms say under a valuation. */
  ghost predicate SuffixMeaning(v: Valuation, flag: Sym, wit: Sym, s0: Sym, s1: Sym)
  {
    var b, suf, sv, w := v.bools(flag), v.strs(s0), v.strs(s1), v.ints(wit);
    var shift := sv.len - suf.len;
    && (b ==> sv.len >= suf.len)
    && (b ==> forall i :: 0 <= i < suf.len ==> suf.at(i) == sv.at(i + shift))
    && (!b ==> suf.len > sv.len || (0 <= w < suf.len && suf.at(w) != sv.at(w + shift)))
  }

  lemma {:induction false} SuffixAxiomsMeaning(flag: Sym, qvar: Sym, wit: Sym, s0: Sym, s1: Sym, v: Valuation)
    requires flag.id < qvar.id
    ensures HoldsAll(SuffixAxioms(flag, qvar, wit, s0, s1), v) <==> SuffixMeaning(v, flag, wit, s0, s1)
  {
    var axs := SuffixAxioms(flag, qvar, wit, s0, s1);
    HoldsAll3At(axs[0], axs[1], axs[2], v);
    assert axs == [axs[0], axs[1], axs[2]];
    SuffixUniversalMeaning(flag, qvar, s0, s1, v);
    SuffixWitnessMeaning(flag, wit, s0, s1, v);
  }

  lemma {:induction false} SuffixUniversalMeaning(flag: Sym, qvar: Sym, s0: Sym, s1: Sym, v: Valuation)
    requires flag.id < qvar.id
    ensures Holds(SuffixUniversal(flag, qvar, s0, s1), v) <==>
      var suf, sv := v.strs(s0), v.strs(s1);
      v.bools(flag) ==> forall i :: 0 <= i < suf.len ==> suf.at(i) == sv.at(i + (sv.len - suf.len))
  {
    var suf, sv := v.strs(s0), v.strs(s1);
    var body := RelExpr(EqRel, Index(s0, IntSymbol(qvar)), Index(s1, PlusExpr(IntSymbol(qvar), Shift(s0, s1))));
    forall i
      ensures EvalB(BoolSymbol(flag), v.SetInt(qvar, i)) == v.bools(flag)
      ensures EvalB(body, v.SetInt(qvar, i)) == (suf.at(i) == sv.at(i + (sv.len - suf.len)))
    {
      var u := v.SetInt(qvar, i);
      assert Eval(IntSymbol(qvar), u) == i;
      assert Eval(PlusExpr(IntSymbol(qvar), Shift(s0, s1)), u) == i + (sv.len - suf.len);
    }
  }

  lemma {:induction false} SuffixWitnessMeaning(flag: Sym, wit: Sym, s0: Sym, s1: Sym, v: Valuation)
    ensures Holds(SuffixWitness(flag, wit, s0, s1), v) <==>
      var suf, sv, k := v.strs(s0), v.strs(s1), v.ints(wit);
      !v.bools(flag) ==> (suf.len > sv.len || (0 <= k < suf.len && suf.at(k) != sv.at(k + (sv.len - suf.len))))
  {
    var w := IntSymbol(wit);
    var suf, sv, k := v.strs(s0), v.strs(s1), v.ints(wit);
    var differs := RelExpr(NeRel, Index(s0, w), Index(s1, PlusExpr(w, Shift(s0, s1))));
    assert EvalB(differs, v) == (suf.at(k) != sv.at(k + (sv.len - suf.len)));
    var inRange := AndExpr(IsStrictlyLongerThan(s0, w), IsPositiveIndex(w));
    assert EvalB(inRange, v) == (0 <= k < suf.len);
  }

  /** The witness symbol of a suffix test generated at counter value n. */
  function SuffixWitnessSym(n: nat): Sym
  {
    Sym(ExistIndex, "witness_not_suffix", n + 2)
  }

  /**
   String.endsWith as a constraint: two string arguments; the suffix s0 is
   the second one when `swap` holds, the first otherwise. Fresh issuffix flag,
   bound variable and witness, in this order.
   */
  function AddIsSuffix(g: Session, args: seq<Sym>, swap: bool): (r: (Sym, Session))
    requires |args| == 2
    ensures r.0.id == g.next && r.1.next == g.next + 3
    ensures Extends(g, r.1) && |Appended(g, r.1)| == 3
    ensures (Valid(g) && args[0].id < g.next && args[1].id < g.next) ==> Valid(r.1)
  {
    var (flag, g1) := Fresh(g, BooleanFlag, "issuffix");
    var s0 := args[if swap then 1 else 0];
    var s1 := args[if swap then 0 else 1];
    var (qvar, g2) := Fresh(g1, UnivIndex, "QA_suffix");
    var (wit, g3) := Fresh(g2, ExistIndex, "witness_not_suffix");
    var axs := SuffixAxioms(flag, qvar, wit, s0, s1);
    ValidPush(g, axs, g3.next);
    (flag, g3.Push(axs))
  }

  lemma {:induction false} IsSuffixMeaning(g: Session, args: seq<Sym>, swap: bool, v: Valuation)
    requires |args| == 2
    ensures var (flag, h) := AddIsSuffix(g, args, swap);
      HoldsAll(Appended(g, h), v) <==>
        SuffixMeaning(v, flag, SuffixWitnessSym(g.next), args[if swap then 1 else 0], args[if swap then 0 else 1])
  {
    var (flag, h) := AddIsSuffix(g, args, swap);
    var qvar := Sym(UnivIndex, "QA_suffix", g.next + 1);
    var s0, s1 := args[if swap then 1 else 0], args[if swap then 0 else 1];
    assert Appended(g, h) == SuffixAxioms(flag, qvar, SuffixWitnessSym(g.next), s0, s1);
    SuffixAxiomsMeaning(flag, qvar, SuffixWitnessSym(g.next), s0, s1, v);
  }

  /** On concrete strings, the meaning of the suffix axioms pins the flag to String.endsWith. */
  lemma {:induction false} SuffixMeaningIsEndsWith(v: Valuation, flag: Sym, wit: Sym, s0: Sym, s1: Sym, suffix: JString, s: JString)
    requires Represents(v.strs(s0), suffix) && Represents(v.strs(s1), s)
    requires SuffixMeaning(v, flag, wit, s0, s1)
    ensures v.bools(flag) <==> EndsWith(s, suffix)
  {
    var suf, sv := v.strs(s0), v.strs(s1);
    var shift := |s| - |suffix|;
    if v.bools(flag) {
      forall i | 0 <= i < |suffix|
        ensures s[shift..][i] == suffix[i]
      {
        assert suf.at(i) == sv.at(i + shift);
      }
    } else if |suffix| <= |s| {
      var k := v.ints(wit);
      assert s[shift..][k] == sv.at(k + shift);
      assert suf.at(k) == suffix[k];
    }
  }

  /** On concrete strings, String.endsWith with the first mismatch as witness meets the suffix axioms' meaning. */
  lemma {:induction false} EndsWithMeetsSuffixMeaning(v: Valuation, flag: Sym, wit: Sym, s0: Sym, s1: Sym, suffix: JString, s: JString)
    requires Represents(v.strs(s0), suffix) && Represents(v.strs(s1), s)
    requires v.bools(flag) == EndsWith(s, suffix)
    requires |suffix| <= |s| && !EndsWith(s, suffix) ==> v.ints(wit) == FirstDiff(suffix, s[|s| - |suffix|..])
    ensures SuffixMeaning(v, flag, wit, s0, s1)
  {
    var suf, sv := v.strs(s0), v.strs(s1);
    var shift := sv.len - suf.len;
    assert suf.len == |suffix| && sv.len == |s|;
    if v.bools(flag) {
      assert |suffix| <= |s| && s[shift..] == suffix;
      forall i | 0 <= i < suf.len
        ensures suf.at(i) == sv.at(i + shift)
      {
        assert s[shift..][i] == s[i + shift];
      }
    } else if |suffix| <= |s| {
      SuffixMismatch(suf, sv, suffix, s);
    }
  }

  /** Where endsWith fails on a long enough string, the first mismatch is a witness. */
  lemma {:induction false} SuffixMismatch(suf: StrVal, sv: StrVal, suffix: JString, s: JString)
    requires Represents(suf, suffix) && Represents(sv, s)
    requires |suffix| <= |s| && !EndsWith(s, suffix)
    ensures var k := FirstDiff(suffix, s[|s| - |suffix|..]);
      0 <= k < suf.len && suf.at(k) != sv.at(k + (sv.len - suf.len))
  {
    var shift := |s| - |suffix|;
    var tail := s[shift..];
    var k := FirstDiff(suffix, tail);
    assert k < |suffix| && suffix[k] != tail[k];
    assert tail[k] == s[k + shift];
  }

  /**
   Soundness of the suffix test: in every model of its axioms the flag is
   String.endsWith, called on args[0] with args[1] as the suffix when `swap`
   holds, and the other way round otherwise.
   */
  lemma {:induction false} IsSuffixSound(g: Session, args: seq<Sym>, swap: bool, v: Valuation, a0: JString, a1: JString)
    requires |args| == 2
    requires Represents(v.strs(args[0]), a0) && Represents(v.strs(args[1]), a1)
    ensures var (flag, h) := AddIsSuffix(g, args, swap);
      HoldsAll(Appended(g, h), v) ==>
        (v.bools(flag) <==> if swap then EndsWith(a0, a1) else EndsWith(a1, a0))
  {
    var (flag, h) := AddIsSuffix(g, args, swap);
    IsSuffixMeaning(g, args, swap, v);
    if HoldsAll(Appended(g, h), v) {
      if swap {
        SuffixMeaningIsEndsWith(v, flag, SuffixWitnessSym(g.next), args[1], args[0], a1, a0);
      } else {
        SuffixMeaningIsEndsWith(v, flag, SuffixWitnessSym(g.next), args[0], args[1], a0, a1);
      }
    }
  }

  /**
   Completeness of the suffix test: any model of a valid log extends, on the
   fresh symbols only, to a model of the new log whose flag is String.endsWith.
   */
  lemma {:induction false} IsSuffixComplete(g: Session, args: seq<Sym>, swap: bool, v: Valuation, a0: JString, a1: JString)
    requires |args| == 2 && Valid(g) && args[0].id < g.next && args[1].id < g.next
    requires HoldsAll(g.axioms, v)
    requires Represents(v.strs(args[0]), a0) && Represents(v.strs(args[1]), a1)
    ensures var (flag, h) := AddIsSuffix(g, args, swap);
      exists w :: Agree(v, w, g.next) && HoldsAll(h.axioms, w) &&
        (w.bools(flag) <==> if swap then EndsWith(a0, a1) else EndsWith(a1, a0))
  {
    var (flag, h) := AddIsSuffix(g, args, swap);
    var suffix, s := if swap then a1 else a0, if swap then a0 else a1;
    var s0, s1 := args[if swap then 1 else 0], args[if swap then 0 else 1];
    var wit := SuffixWitnessSym(g.next);
    var k := if |suffix| <= |s| then FirstDiff(suffix, s[|s| - |suffix|..]) else 0;
    var w := v.SetBool(flag, EndsWith(s, suffix)).SetInt(wit, k);
    assert Agree(v, w, g.next);
    EndsWithMeetsSuffixMeaning(w, flag, wit, s0, s1, suffix, s);
    IsSuffixMeaning(g, args, swap, w);
    LogFrame(g, v, w);
    ExtendsSplit(g, h, w);
  }

  // ---------------------------------------------------------------------------
  // isEmpty

  /**
   String.isEmpty as a constraint, on the one string argument:
     a1: is_empty ==> |s0| = 0
     a2: |s0| = 0 ==> is_empty
   */
  function AddIsEmpty(g: Session, args: seq<Sym>): (r: (Sym, Session))
    requires |args| == 1
    ensures r.0.id == g.next && r.1.next == g.next + 1
    ensures Extends(g, r.1) && |Appended(g, r.1)| == 2
    ensures (Valid(g) && args[0].id < g.next) ==> Valid(r.1)
    ensures forall v :: HoldsAll(Appended(g, r.1), v) <==> (v.bools(r.0) <==> v.strs(args[0]).len == 0)
  {
    var (flag, g1) := Fresh(g, BooleanFlag, "is_empty");
    var isEmpty := BoolSymbol(flag);
    var a1 := Plain(ImpliesExpr(isEmpty, HasLength(args[0], 0)));
    var a2 := Plain(ImpliesExpr(HasLength(args[0], 0), isEmpty));
    var axs := [a1, a2];
    HoldsAll2(a1, a2);
    ValidPush(g, axs, g1.next);
    (flag, g1.Push(axs))
  }

  /**
   The isEmpty flag is String.isEmpty in every model, and any model of a
   valid log extends, on the flag only, to one of the new log.
   */
  lemma {:induction false} IsEmptyExact(g: Session, args: seq<Sym>, v: Valuation, s: JString)
    requires |args| == 1 && Valid(g) && args[0].id < g.next && HoldsAll(g.axioms, v)
    requires Represents(v.strs(args[0]), s)
    ensures var (flag, h) := AddIsEmpty(g, args);
      && (HoldsAll(Appended(g, h), v) ==> (v.bools(flag) <==> IsEmpty(s)))
      && Agree(v, v.SetBool(flag, IsEmpty(s)), g.next)
      && HoldsAll(h.axioms, v.SetBool(flag, IsEmpty(s)))
  {
    var (flag, h) := AddIsEmpty(g, args);
    var w := v.SetBool(flag, IsEmpty(s));
    assert Agree(v, w, g.next);
    LogFrame(g, v, w);
    ExtendsSplit(g, h, w);
  }

  // ---------------------------------------------------------------------------
  // contains

  /**
   The four axioms of the containment test of s1 in s0; `guarded` selects
   the corrected form of a2:
     a1: contains ==> |s0| >= |s1|
     a2: 0 <= startpos <= |s0| - |s1|              (as written)
         contains ==> 0 <= startpos <= |s0| - |s1| (corrected)
     a3: forall 0 <= qvar < |s1|. contains ==> s1[qvar] = s0[startpos + qvar]
     a4: forall 0 <= x < |s0| - |s1| + 1. (!contains && |s0| >= |s1|) ==>
           exists 0 <= k < |s1|. s1[k] != s0[x + k]
   with the k of a4 given by the witness family applied to x.
   */
  function ContainsAxioms(flag: Sym, startpos: Sym, qvar: Sym, family: Sym, s0: Sym, s1: Sym, guarded: bool)
    : (axs: seq<Axiom>)
    ensures |axs| == 4
  {
    var contains := BoolSymbol(flag);
    var lengthDiff := MinusExpr(LengthOf(s0), LengthOf(s1));
    var startposInRange := AndExpr(IsPositiveIndex(IntSymbol(startpos)), RelExpr(LeRel, IntSymbol(startpos), lengthDiff));
    [ Plain(ImpliesExpr(contains, IsLongerThan(s0, LengthOf(s1)))),
      Plain(if guarded then ImpliesExpr(contains, startposInRange) else startposInRange),
      ContainsUniversal(flag, startpos, qvar, s0, s1),
      NotContains(Const(0), PlusExpr(Const(1), lengthDiff), AndExpr(NotExpr(contains), IsLongerThan(s0, LengthOf(s1))),
                  Const(0), LengthOf(s1), s0, s1, family) ]
  }

  /** a3: forall 0 <= qvar < |s1|. contains ==> s1[qvar] = s0[startpos + qvar] */
  function ContainsUniversal(flag: Sym, startpos: Sym, qvar: Sym, s0: Sym, s1: Sym): Axiom
  {
    Universal(qvar, LengthOf(s1), BoolSymbol(flag),
      RelExpr(EqRel, Index(s1, IntSymbol(qvar)), Index(s0, PlusExpr(IntSymbol(qvar), IntSymbol(startpos)))))
  }

  /** What the four containment axioms say under a valuation. */
  ghost predicate ContainsMeaning(v: Valuation, flag: Sym, startpos: Sym, family: Sym, s0: Sym, s1: Sym, guarded: bool)
  {
    var b, hay, needle, sp, wit := v.bools(flag), v.strs(s0), v.strs(s1), v.ints(startpos), v.families(family);
    && (b ==> hay.len >= needle.len)
    && ((b || !guarded) ==> 0 <= sp <= hay.len - needle.len)
    && (b ==> forall i :: 0 <= i < needle.len ==> needle.at(i) == hay.at(i + sp))
    && (!b && hay.len >= needle.len ==>
          forall x :: 0 <= x < hay.len - needle.len + 1 ==>
            0 <= wit(x) < needle.len && needle.at(wit(x)) != hay.at(x + wit(x)))
  }

  lemma {:induction false} ContainsAxiomsMeaning(flag: Sym, startpos: Sym, qvar: Sym, family: Sym, s0: Sym, s1: Sym, guarded: bool,
                              v: Valuation)
    requires flag.id < qvar.id && startpos.id < qvar.id
    ensures HoldsAll(ContainsAxioms(flag, startpos, qvar, family, s0, s1, guarded), v) <==>
      ContainsMeaning(v, flag, startpos, family, s0, s1, guarded)
  {
    var axs := ContainsAxioms(flag, startpos, qvar, family, s0, s1, guarded);
    HoldsAll4At(axs[0], axs[1], axs[2], axs[3], v);
    assert axs == [axs[0], axs[1], axs[2], axs[3]];
    var hay, needle, sp := v.strs(s0), v.strs(s1), v.ints(startpos);
    var lengthDiff := MinusExpr(LengthOf(s0), LengthOf(s1));
    var startposInRange := AndExpr(IsPositiveIndex(IntSymbol(startpos)), RelExpr(LeRel, IntSymbol(startpos), lengthDiff));
    assert EvalB(startposInRange, v) == (0 <= sp <= hay.len - needle.len);
    ContainsUniversalMeaning(flag, startpos, qvar, s0, s1, v);
    NotContainsMeaning(flag, family, s0, s1, v);
  }

  lemma {:induction false} ContainsUniversalMeaning(flag: Sym, startpos: Sym, qvar: Sym, s0: Sym, s1: Sym, v: Valuation)
    requires flag.id < qvar.id && startpos.id < qvar.id
    ensures Holds(ContainsUniversal(flag, startpos, qvar, s0, s1), v) <==>
      var hay, needle, sp := v.strs(s0), v.strs(s1), v.ints(startpos);
      v.bools(flag) ==> forall i :: 0 <= i < needle.len ==> needle.at(i) == hay.at(i + sp)
  {
    var hay, needle, sp := v.strs(s0), v.strs(s1), v.ints(startpos);
    var body := RelExpr(EqRel, Index(s1, IntSymbol(qvar)), Index(s0, PlusExpr(IntSymbol(qvar), IntSymbol(startpos))));
    forall i
      ensures EvalB(BoolSymbol(flag), v.SetInt(qvar, i)) == v.bools(flag)
      ensures EvalB(body, v.SetInt(qvar, i)) == (needle.at(i) == hay.at(i + sp))
    {
      var u := v.SetInt(qvar, i);
      assert Eval(IntSymbol(qvar), u) == i;
      assert Eval(IntSymbol(startpos), u) == sp;
      assert Eval(PlusExpr(IntSymbol(qvar), IntSymbol(startpos)), u) == i + sp;
    }
  }

  lemma {:induction false} NotContainsMeaning(flag: Sym, family: Sym, s0: Sym, s1: Sym, v: Valuation)
    ensures
      var lengthDiff := MinusExpr(LengthOf(s0), LengthOf(s1));
      var premise := AndExpr(NotExpr(BoolSymbol(flag)), IsLongerThan(s0, LengthOf(s1)));
      Holds(NotContains(Const(0), PlusExpr(Const(1), lengthDiff), premise, Const(0), LengthOf(s1), s0, s1, family), v)
      <==>
      var hay, needle, wit := v.strs(s0), v.strs(s1), v.families(family);
      (!v.bools(flag) && hay.len >= needle.len ==>
        forall x :: 0 <= x < hay.len - needle.len + 1 ==>
          0 <= wit(x) < needle.len && needle.at(wit(x)) != hay.at(x + wit(x)))
  {
    var hay, needle := v.strs(s0), v.strs(s1);
    var lengthDiff := MinusExpr(LengthOf(s0), LengthOf(s1));
    assert Eval(PlusExpr(Const(1), lengthDiff), v) == hay.len - needle.len + 1;
    var premise := AndExpr(NotExpr(BoolSymbol(flag)), IsLongerThan(s0, LengthOf(s1)));
    assert EvalB(premise, v) == (!v.bools(flag) && hay.len >= needle.len);
  }

  /** Shared body of the two containment generators: fresh flag, start position, bound variable and witness family. */
  function ContainsGenerate(g: Session, s0: Sym, s1: Sym, guarded: bool): (r: (Sym, Session))
    ensures r.0.id == g.next && r.0.kind == BooleanFlag && r.1.next == g.next + 4
    ensures Extends(g, r.1)
    ensures Appended(g, r.1) ==
      ContainsAxioms(r.0, StartposSym(g.next), Sym(UnivIndex, "QA_contains", g.next + 2), FamilySym(g.next),
                     s0, s1, guarded)
    ensures (Valid(g) && s0.id < g.next && s1.id < g.next) ==> Valid(r.1)
  {
    var (flag, g1) := Fresh(g, BooleanFlag, "contains");
    var (startpos, g2) := Fresh(g1, ExistIndex, "startpos_contains");
    var (qvar, g3) := Fresh(g2, UnivIndex, "QA_contains");
    var (family, g4) := Fresh(g3, WitnessFamily, "witness_not_contains");
    var axs := ContainsAxioms(flag, startpos, qvar, family, s0, s1, guarded);
    ContainsAxiomsBelow(flag, startpos, qvar, family, s0, s1, guarded, g4.next);
    ValidPush(g, axs, g4.next);
    var h := g4.Push(axs);
    assert h.axioms[|g.axioms|..] == axs;
    (flag, h)
  }

  lemma {:induction false} ContainsAxiomsBelow(flag: Sym, startpos: Sym, qvar: Sym, family: Sym, s0: Sym, s1: Sym, guarded: bool, n: nat)
    requires flag.id < n && startpos.id < n && qvar.id < n && family.id < n
    ensures s0.id < n && s1.id < n ==>
      forall i :: 0 <= i < 4 ==> AxiomBelow(ContainsAxioms(flag, startpos, qvar, family, s0, s1, guarded)[i], n)
  {
    if !(s0.id < n && s1.id < n) {
      return;
    }
    var axs := ContainsAxioms(flag, startpos, qvar, family, s0, s1, guarded);
    assert AxiomBelow(axs[0], n);
    assert AxiomBelow(axs[1], n);
    assert AxiomBelow(axs[2], n);
    assert AxiomBelow(axs[3], n);
  }

  /** The start position symbol of a containment test generated at counter value n. */
  function StartposSym(n: nat): Sym
  {
    Sym(ExistIndex, "startpos_contains", n + 1)
  }

  /** The witness family symbol of a containment test generated at counter value n. */
  function FamilySym(n: nat): Sym
  {
    Sym(WitnessFamily, "witness_not_contains", n + 3)
  }

  /** String.contains as written: s1 is looked for in s0, and a2 is not guarded by the flag. */
  function AddContains(g: Session, args: seq<Sym>): (r: (Sym, Session))
    requires |args| == 2
    ensures r.0.id == g.next && r.1.next == g.next + 4
    ensures Extends(g, r.1) && |Appended(g, r.1)| == 4
    ensures (Valid(g) && args[0].id < g.next && args[1].id < g.next) ==> Valid(r.1)
  {
    ContainsGenerate(g, args[0], args[1], false)
  }

  /** The corrected containment test: the start position is only constrained when the flag holds. */
  function AddContainsFixed(g: Session, args: seq<Sym>): (r: (Sym, Session))
    requires |args| == 2
    ensures r.0.id == g.next && r.1.next == g.next + 4
    ensures Extends(g, r.1) && |Appended(g, r.1)| == 4
    ensures (Valid(g) && args[0].id < g.next && args[1].id < g.next) ==> Valid(r.1)
  {
    ContainsGenerate(g, args[0], args[1], true)
  }

  lemma {:induction false} ContainsGenerateMeaning(g: Session, s0: Sym, s1: Sym, guarded: bool, v: Valuation)
    ensures var (flag, h) := ContainsGenerate(g, s0, s1, guarded);
      HoldsAll(Appended(g, h), v) <==> ContainsMeaning(v, flag, StartposSym(g.next), FamilySym(g.next), s0, s1, guarded)
  {
    var (flag, h) := ContainsGenerate(g, s0, s1, guarded);
    ContainsAxiomsMeaning(flag, StartposSym(g.next), Sym(UnivIndex, "QA_contains", g.next + 2), FamilySym(g.next),
                          s0, s1, guarded, v);
  }

  /** On concrete strings, the meaning of the containment axioms pins the flag to String.contains. */
  lemma {:induction false} ContainsMeaningIsContains(v: Valuation, flag: Sym, startpos: Sym, family: Sym, s0: Sym, s1: Sym,
                                  guarded: bool, hay: JString, needle: JString)
    requires Represents(v.strs(s0), hay) && Represents(v.strs(s1), needle)
    requires ContainsMeaning(v, flag, startpos, family, s0, s1, guarded)
    ensures v.bools(flag) <==> Contains(hay, needle)
  {
    var hv, nv := v.strs(s0), v.strs(s1);
    if v.bools(flag) {
      var sp := v.ints(startpos);
      forall i | 0 <= i < |needle|
        ensures hay[sp..sp + |needle|][i] == needle[i]
      {
        assert nv.at(i) == hv.at(i + sp);
      }
      assert OccursAt(hay, needle, sp);
    } else {
      forall k
        ensures !OccursAt(hay, needle, k)
      {
        if 0 <= k <= |hay| - |needle| {
          var j := v.families(family)(k);
          assert 0 <= j < |needle| ==> hay[k..k + |needle|][j] == hay[k + j];
        }
      }
    }
  }

  /** The first mismatch of the needle against the haystack at start position x (0 outside the start positions). */
  function MismatchAt(hay: JString, needle: JString, x: int): (k: int)
    ensures 0 <= x <= |hay| - |needle| && !OccursAt(hay, needle, x) ==>
      0 <= k < |needle| && needle[k] != hay[x + k]
  {
    if 0 <= x <= |hay| - |needle| then
      var k := FirstDiff(needle, hay[x..x + |needle|]);
      assert k < |needle| ==> hay[x..x + |needle|][k] == hay[x + k];
      k
    else 0
  }

  /** The witness family of the negative case: for each start position, the first mismatch there. */
  function MismatchFamily(hay: JString, needle: JString): int -> int
  {
    x => MismatchAt(hay, needle, x)
  }

  /**
   On concrete strings, String.contains with a start position where the
   needle occurs and the mismatch family as witnesses meets the meaning of
   the containment axioms, when a2 is guarded or the needle is not longer
   than the haystack.
   */
  lemma {:induction false} ContainsMeetsMeaning(v: Valuation, flag: Sym, startpos: Sym, family: Sym, s0: Sym, s1: Sym,
                             guarded: bool, hay: JString, needle: JString)
    requires Represents(v.strs(s0), hay) && Represents(v.strs(s1), needle)
    requires v.bools(flag) == Contains(hay, needle)
    requires v.bools(flag) ==> OccursAt(hay, needle, v.ints(startpos))
    requires !guarded ==> 0 <= v.ints(startpos) <= |hay| - |needle|
    requires v.families(family) == MismatchFamily(hay, needle)
    ensures ContainsMeaning(v, flag, startpos, family, s0, s1, guarded)
  {
    var hv, nv := v.strs(s0), v.strs(s1);
    var wit := v.families(family);
    if v.bools(flag) {
      var sp := v.ints(startpos);
      forall i | 0 <= i < |needle|
        ensures nv.at(i) == hv.at(i + sp)
      {
        assert hay[sp..sp + |needle|][i] == hay[i + sp];
      }
    } else if |hay| >= |needle| {
      forall x | 0 <= x < |hay| - |needle| + 1
        ensures 0 <= wit(x) < |needle| && nv.at(wit(x)) != hv.at(x + wit(x))
      {
        assert !OccursAt(hay, needle, x);
        assert wit(x) == MismatchAt(hay, needle, x);
      }
    }
  }

  /**
   Completeness of the containment axioms, for the corrected test or for a
   needle not longer than the haystack: any model of a valid log extends, on
   the fresh symbols only, to a model of the new log whose flag is
   String.contains.
   */
  lemma {:induction false} ContainsGenerateComplete(g: Session, s0: Sym, s1: Sym, guarded: bool, v: Valuation,
                                 hay: JString, needle: JString)
    requires Valid(g) && s0.id < g.next && s1.id < g.next && HoldsAll(g.axioms, v)
    requires Represents(v.strs(s0), hay) && Represents(v.strs(s1), needle)
    requires guarded || |needle| <= |hay|
    ensures var (flag, h) := ContainsGenerate(g, s0, s1, guarded);
      exists w :: Agree(v, w, g.next) && HoldsAll(h.axioms, w) && (w.bools(flag) <==> Contains(hay, needle))
  {
    var (flag, h) := ContainsGenerate(g, s0, s1, guarded);
    var startpos, family := StartposSym(g.next), FamilySym(g.next);
    var sp := if Contains(hay, needle) then var k :| OccursAt(hay, needle, k); k else 0;
    var w := v.SetBool(flag, Contains(hay, needle)).SetInt(startpos, sp).SetFamily(family, MismatchFamily(hay, needle));
    assert Agree(v, w, g.next);
    ContainsMeetsMeaning(w, flag, startpos, family, s0, s1, guarded, hay, needle);
    ContainsGenerateMeaning(g, s0, s1, guarded, w);
    LogFrame(g, v, w);
    ExtendsSplit(g, h, w);
  }

  /**
   Soundness of the containment test as written: in every model of its
   axioms the flag is String.contains(args[0], args[1]).
   */
  lemma {:induction false} ContainsSound(g: Session, args: seq<Sym>, v: Valuation, hay: JString, needle: JString)
    requires |args| == 2
    requires Represents(v.strs(args[0]), hay) && Represents(v.strs(args[1]), needle)
    ensures var (flag, h) := AddContains(g, args);
      HoldsAll(Appended(g, h), v) ==> (v.bools(flag) <==> Contains(hay, needle))
  {
    var (flag, h) := AddContains(g, args);
    ContainsGenerateMeaning(g, args[0], args[1], false, v);
    if HoldsAll(Appended(g, h), v) {
      ContainsMeaningIsContains(v, flag, StartposSym(g.next), FamilySym(g.next), args[0], args[1], false, hay, needle);
    }
  }

  /**
   The containment test as written, on a needle longer than the haystack:
   a2 asks for 0 <= startpos <= |s0| - |s1| < 0, so no valuation satisfies
   the axioms, whereas String.contains returns false there ("" does not
   contain "a").
   */
  lemma {:induction false} ContainsLongerNeedleUnsat(g: Session, args: seq<Sym>, v: Valuation)
    requires |args| == 2 && v.strs(args[1]).len > v.strs(args[0]).len
    ensures var (flag, h) := AddContains(g, args);
      !HoldsAll(Appended(g, h), v)
    ensures !Contains([], [0x61])
  {
    ContainsGenerateMeaning(g, args[0], args[1], false, v);
  }

  /** Soundness of the corrected containment test: in every model the flag is String.contains(args[0], args[1]). */
  lemma {:induction false} ContainsFixedSound(g: Session, args: seq<Sym>, v: Valuation, hay: JString, needle: JString)
    requires |args| == 2
    requires Represents(v.strs(args[0]), hay) && Represents(v.strs(args[1]), needle)
    ensures var (flag, h) := AddContainsFixed(g, args);
      HoldsAll(Appended(g, h), v) ==> (v.bools(flag) <==> Contains(hay, needle))
  {
    var (flag, h) := AddContainsFixed(g, args);
    ContainsGenerateMeaning(g, args[0], args[1], true, v);
    if HoldsAll(Appended(g, h), v) {
      ContainsMeaningIsContains(v, flag, StartposSym(g.next), FamilySym(g.next), args[0], args[1], true, hay, needle);
    }
  }

  /**
   Completeness of the corrected containment test, whatever the lengths:
   any model of a valid log extends, on the fresh symbols only, to a model
   of the new log whose flag is String.contains(args[0], args[1]).
   */
  lemma {:induction false} ContainsFixedComplete(g: Session, args: seq<Sym>, v: Valuation, hay: JString, needle: JString)
    requires |args| == 2 && Valid(g) && args[0].id < g.next && args[1].id < g.next && HoldsAll(g.axioms, v)
    requires Represents(v.strs(args[0]), hay) && Represents(v.strs(args[1]), needle)
    ensures var (flag, h) := AddContainsFixed(g, args);
      exists w :: Agree(v, w, g.next) && HoldsAll(h.axioms, w) && (w.bools(flag) <==> Contains(hay, needle))
  {
    ContainsGenerateComplete(g, args[0], args[1], true, v, hay, needle);
  }

  /** Completeness of the containment test as written, when the needle is not longer than the haystack. */
  lemma {:induction false} ContainsComplete(g: Session, args: seq<Sym>, v: Valuation, hay: JString, needle: JString)
    requires |args| == 2 && Valid(g) && args[0].id < g.next && args[1].id < g.next && HoldsAll(g.axioms, v)
    requires Represents(v.strs(args[0]), hay) && Represents(v.strs(args[1]), needle)
    requires |needle| <= |hay|
    ensures var (flag, h) := AddContains(g, args);
      exists w :: Agree(v, w, g.next) && HoldsAll(h.axioms, w) && (w.bools(flag) <==> Contains(hay, needle))
  {
    ContainsGenerateComplete(g, args[0], args[1], false, v, hay, needle);
  }
}
