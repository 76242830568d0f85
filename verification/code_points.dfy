/**
 Constraint generators for the Java functions that deal with code points:
 the UTF-16 encoding of one code point, codePointAt, codePointBefore, and the
 approximate codePointCount and offsetByCodePoints.

 Each generator takes symbolic arguments, creates a fresh result symbol and
 appends a fixed list of axioms to the session's log.
 */
module CodePoints {
  import opened Symbols
  import opened Exprs
  import opened Axioms
  import Utf16
  import opened JavaString

  // ---------------------------------------------------------------------------
  // Surrogate tests and pair value

  /** The formula "chr is a high surrogate": 0xD800 <= chr <= 0xDBFF. */
  function IsHighSurrogateExpr(chr: IExpr): (b: BExpr)
    ensures forall v :: EvalB(b, v) <==> Utf16.IsHighSurrogate(Eval(chr, v))
    ensures forall n: nat :: IBelow(chr, n) ==> BBelow(b, n)
  {
    AndExpr(RelExpr(GeRel, chr, Const(0xD800)), RelExpr(LeRel, chr, Const(0xDBFF)))
  }

  /** The formula "chr is a low surrogate": 0xDC00 <= chr <= 0xDFFF. */
  function IsLowSurrogateExpr(chr: IExpr): (b: BExpr)
    ensures forall v :: EvalB(b, v) <==> Utf16.IsLowSurrogate(Eval(chr, v))
    ensures forall n: nat :: IBelow(chr, n) ==> BBelow(b, n)
  {
    AndExpr(RelExpr(GeRel, chr, Const(0xDC00)), RelExpr(LeRel, chr, Const(0xDFFF)))
  }

  /**
   The value the generators give a pair of units:
   0x10000 + (c1 mod 0x800) * 0x400 + c2 mod 0x400.
   On a surrogate pair it is the code point RFC 2781 decodes.
   */
  function PairValue(c1: int, c2: int): (cp: int)
    ensures Utf16.IsHighSurrogate(c1) && Utf16.IsLowSurrogate(c2) ==>
      cp == Utf16.DecodePair(c1, c2) && 0x10000 <= cp <= 0x10FFFF
  {
    0x10000 + TMod(c1, 0x800) * 0x400 + TMod(c2, 0x400)
  }

  /** The pair-value term built from two character terms. */
  function PairValueExpr(c1: IExpr, c2: IExpr): (e: IExpr)
    ensures forall v :: Eval(e, v) == PairValue(Eval(c1, v), Eval(c2, v))
    ensures forall n: nat :: IBelow(c1, n) && IBelow(c2, n) ==> IBelow(e, n)
  {
    PlusExpr(Const(0x10000), PlusExpr(MultExpr(ModExpr(c1, 0x800), Const(0x400)), ModExpr(c2, 0x400)))
  }

  // ---------------------------------------------------------------------------
  // Encoding a code point

  /** The high unit the generator asserts for a code point at or above 0x10000. */
  function HighUnit(c: int): Unit
  {
    CharOf(0xD800 + TDiv(c - 0x10000, 0x400))
  }

  /** The low unit the generator asserts: it uses `c mod 0x400`, not `(c - 0x10000) mod 0x400`. */
  function LowUnit(c: int): Unit
  {
    CharOf(0xDC00 + TMod(c, 0x400))
  }

  /** What the axioms of AddCodePoint say of the string `sv` built for the integer `c`. */
  ghost predicate EncodesAs(sv: StrVal, c: int)
  {
    && (c < 0x10000 ==> sv.len == 1 && sv.at(0) == CharOf(c))
    && (0x10000 <= c ==> sv.len == 2 && sv.at(0) == HighUnit(c) && sv.at(1) == LowUnit(c))
  }

  /**
   Conversion of a code point to a UTF-16 string:
     a1: cp < 0x10000 ==> |res| = 1
     a2: cp >= 0x10000 ==> |res| = 2
     a3: cp < 0x10000 ==> res[0] = (char) cp
     a4: cp >= 0x10000 ==> res[0] = (char) (0xD800 + (cp - 0x10000) / 0x400)
     a5: cp >= 0x10000 ==> res[1] = (char) (0xDC00 + cp mod 0x400)
   Both branches are always emitted; the guard decides which one binds.
   */
  function AddCodePoint(g: Session, cp: IExpr): (r: (Sym, Session))
    ensures r.0.id == g.next && r.1.next == g.next + 1
    ensures Extends(g, r.1) && Appended(g, r.1) == CodePointAxioms(r.0, cp)
    ensures Valid(g) && IBelow(cp, g.next) ==> Valid(r.1)
  {
    var (res, g1) := Fresh(g, StringValue, "string");
    var axs := CodePointAxioms(res, cp);
    CodePointAxiomsBelow(res, cp, g1.next);
    IBelowMono(cp, g.next, g1.next);
    ValidPush(g, axs, g1.next);
    (res, g1.Push(axs))
  }

  /** The five axioms of AddCodePoint for the result string `res`. */
  function CodePointAxioms(res: Sym, cp: IExpr): (axs: seq<Axiom>)
    ensures |axs| == 5
  {
    [ SmallLength(res, cp), LargeLength(res, cp), SmallUnit(res, cp), HighAxiom(res, cp), LowAxiom(res, cp) ]
  }

  /** cp < 0x10000 */
  function Small(cp: IExpr): BExpr
  {
    RelExpr(LtRel, cp, Const(0x10000))
  }

  /** a1: cp < 0x10000 ==> |res| = 1 */
  function SmallLength(res: Sym, cp: IExpr): Axiom
  {
    Plain(ImpliesExpr(Small(cp), HasLength(res, 1)))
  }

  /** a2: cp >= 0x10000 ==> |res| = 2 */
  function LargeLength(res: Sym, cp: IExpr): Axiom
  {
    Plain(ImpliesExpr(NotExpr(Small(cp)), HasLength(res, 2)))
  }

  /** a3: cp < 0x10000 ==> res[0] = (char) cp */
  function SmallUnit(res: Sym, cp: IExpr): Axiom
  {
    Plain(ImpliesExpr(Small(cp), RelExpr(EqRel, Index(res, Const(0)), TypecastChar(cp))))
  }

  /** a4: cp >= 0x10000 ==> res[0] = (char) (0xD800 + (cp - 0x10000) / 0x400) */
  function HighAxiom(res: Sym, cp: IExpr): Axiom
  {
    Plain(ImpliesExpr(NotExpr(Small(cp)), HighUnitIs(res, cp)))
  }

  /** a5: cp >= 0x10000 ==> res[1] = (char) (0xDC00 + cp mod 0x400) */
  function LowAxiom(res: Sym, cp: IExpr): Axiom
  {
    Plain(ImpliesExpr(NotExpr(Small(cp)), LowUnitIs(res, cp)))
  }

  /** res[0] = (char) (0xD800 + (cp - 0x10000) / 0x400) */
  function HighUnitIs(res: Sym, cp: IExpr): BExpr
  {
    RelExpr(EqRel, Index(res, Const(0)),
      TypecastChar(PlusExpr(Const(0xD800), DivExpr(MinusExpr(cp, Const(0x10000)), 0x400))))
  }

  /** res[1] = (char) (0xDC00 + cp mod 0x400) */
  function LowUnitIs(res: Sym, cp: IExpr): BExpr
  {
    RelExpr(EqRel, Index(res, Const(1)), TypecastChar(PlusExpr(Const(0xDC00), ModExpr(cp, 0x400))))
  }

  lemma {:induction false} HighUnitIsMeaning(res: Sym, cp: IExpr, v: Valuation)
    ensures EvalB(HighUnitIs(res, cp), v) == (v.strs(res).at(0) == HighUnit(Eval(cp, v)))
  {
    var c := Eval(cp, v);
    var firstChar := PlusExpr(Const(0xD800), DivExpr(MinusExpr(cp, Const(0x10000)), 0x400));
    assert Eval(MinusExpr(cp, Const(0x10000)), v) == c - 0x10000;
    assert Eval(firstChar, v) == 0xD800 + TDiv(c - 0x10000, 0x400);
  }

  lemma {:induction false} LowUnitIsMeaning(res: Sym, cp: IExpr, v: Valuation)
    ensures EvalB(LowUnitIs(res, cp), v) == (v.strs(res).at(1) == LowUnit(Eval(cp, v)))
  {
    var c := Eval(cp, v);
    assert Eval(PlusExpr(Const(0xDC00), ModExpr(cp, 0x400)), v) == 0xDC00 + TMod(c, 0x400);
  }

  lemma {:induction false} CodePointAxiomsBelow(res: Sym, cp: IExpr, n: nat)
    ensures res.id < n && IBelow(cp, n) ==>
      forall i :: 0 <= i < 5 ==> AxiomBelow(CodePointAxioms(res, cp)[i], n)
  {
  }

  /**
   The meaning of the encoding axioms: they hold exactly when the result
   string has the length and the units the generator computes for the code
   point: one unit below 0x10000, otherwise the two units of HighUnit and
   LowUnit.
   */
  lemma {:induction false} CodePointMeaning(g: Session, cp: IExpr, v: Valuation)
    ensures var (res, h) := AddCodePoint(g, cp);
      HoldsAll(Appended(g, h), v) <==> EncodesAs(v.strs(res), Eval(cp, v))
  {
    var (res, h) := AddCodePoint(g, cp);
    CodePointAxiomsMeaning(res, cp, v);
  }

  lemma {:induction false} CodePointAxiomsMeaning(res: Sym, cp: IExpr, v: Valuation)
    ensures HoldsAll(CodePointAxioms(res, cp), v) <==> EncodesAs(v.strs(res), Eval(cp, v))
  {
    var c, sv := Eval(cp, v), v.strs(res);
    HoldsAll5At(SmallLength(res, cp), LargeLength(res, cp), SmallUnit(res, cp), HighAxiom(res, cp), LowAxiom(res, cp), v);
    LengthAxiomsMeaning(res, cp, v);
    SmallUnitMeaning(res, cp, v);
    PairAxiomsMeaning(res, cp, v);
  }

  lemma {:induction false} LengthAxiomsMeaning(res: Sym, cp: IExpr, v: Valuation)
    ensures Holds(SmallLength(res, cp), v) <==> (Eval(cp, v) < 0x10000 ==> v.strs(res).len == 1)
    ensures Holds(LargeLength(res, cp), v) <==> (0x10000 <= Eval(cp, v) ==> v.strs(res).len == 2)
  {
    assert EvalB(Small(cp), v) == (Eval(cp, v) < 0x10000);
  }

  lemma {:induction false} SmallUnitMeaning(res: Sym, cp: IExpr, v: Valuation)
    ensures Holds(SmallUnit(res, cp), v) <==> (Eval(cp, v) < 0x10000 ==> v.strs(res).at(0) == CharOf(Eval(cp, v)))
  {
    assert EvalB(Small(cp), v) == (Eval(cp, v) < 0x10000);
  }

  lemma {:induction false} PairAxiomsMeaning(res: Sym, cp: IExpr, v: Valuation)
    ensures Holds(HighAxiom(res, cp), v) <==> (0x10000 <= Eval(cp, v) ==> v.strs(res).at(0) == HighUnit(Eval(cp, v)))
    ensures Holds(LowAxiom(res, cp), v) <==> (0x10000 <= Eval(cp, v) ==> v.strs(res).at(1) == LowUnit(Eval(cp, v)))
  {
    HighAxiomMeaning(res, cp, v);
    LowAxiomMeaning(res, cp, v);
  }

  /** An axiom guarded by cp >= 0x10000 binds exactly for the large code points. */
  lemma {:induction false} LargeOnly(cp: IExpr, body: BExpr, v: Valuation)
    ensures Holds(Plain(ImpliesExpr(NotExpr(Small(cp)), body)), v) <==> (0x10000 <= Eval(cp, v) ==> EvalB(body, v))
  {
    var guard := NotExpr(Small(cp));
    assert EvalB(guard, v) == (0x10000 <= Eval(cp, v));
    assert Holds(Plain(ImpliesExpr(guard, body)), v) == (EvalB(guard, v) ==> EvalB(body, v));
  }

  lemma {:induction false} HighAxiomMeaning(res: Sym, cp: IExpr, v: Valuation)
    ensures Holds(HighAxiom(res, cp), v) <==> (0x10000 <= Eval(cp, v) ==> v.strs(res).at(0) == HighUnit(Eval(cp, v)))
  {
    LargeOnly(cp, HighUnitIs(res, cp), v);
    HighUnitIsMeaning(res, cp, v);
  }

  lemma {:induction false} LowAxiomMeaning(res: Sym, cp: IExpr, v: Valuation)
    ensures Holds(LowAxiom(res, cp), v) <==> (0x10000 <= Eval(cp, v) ==> v.strs(res).at(1) == LowUnit(Eval(cp, v)))
  {
    LargeOnly(cp, LowUnitIs(res, cp), v);
    LowUnitIsMeaning(res, cp, v);
  }

  /**
   The low unit computed from the raw code point equals the RFC 2781 low unit,
   because 0x10000 is a multiple of 0x400; so a supplementary code point gets
   exactly its standard surrogate pair.
   */
  lemma GeneratorUnitsAreStandard(c: Utf16.CodePoint)
    requires 0x10000 <= c
    ensures Utf16.Encode(c) == [HighUnit(c), LowUnit(c)]
  {
    var u := c - 0x10000;
    assert c % 0x400 == u % 0x400 by {
      assert c == u + 64 * 0x400;
    }
  }

  /**
   For a code point in [0, 0x110000) the axioms hold exactly when the built
   string is the standard UTF-16 encoding: one unit equal to the code point
   below 0x10000, otherwise a high and a low surrogate.
   */
  lemma {:induction false} CodePointExact(g: Session, cp: IExpr, v: Valuation)
    requires 0 <= Eval(cp, v) < 0x110000
    ensures var (res, h) := AddCodePoint(g, cp);
      HoldsAll(Appended(g, h), v) <==> Represents(v.strs(res), Utf16.Encode(Eval(cp, v)))
  {
    var (res, h) := AddCodePoint(g, cp);
    CodePointMeaning(g, cp, v);
    EncodesAsStandard(v.strs(res), Eval(cp, v));
  }

  /** For a code point, what the axioms say is the standard encoding. */
  lemma {:induction false} EncodesAsStandard(sv: StrVal, c: Utf16.CodePoint)
    ensures EncodesAs(sv, c) <==> Represents(sv, Utf16.Encode(c))
  {
    var e := Utf16.Encode(c);
    if 0x10000 <= c {
      GeneratorUnitsAreStandard(c);
      if Represents(sv, e) {
        assert sv.at(0) == e[0] && sv.at(1) == e[1];
      }
    } else {
      if Represents(sv, e) {
        assert sv.at(0) == e[0];
      }
    }
  }

  /**
   The round trip: the pair value of the two units asserted for a
   supplementary code point is the code point itself, although the low unit
   uses the raw code point.
   */
  lemma CodePointRoundTrip(c: Utf16.CodePoint)
    requires 0x10000 <= c
    ensures Utf16.IsHighSurrogate(HighUnit(c)) && Utf16.IsLowSurrogate(LowUnit(c))
    ensures PairValue(HighUnit(c), LowUnit(c)) == c
  {
    GeneratorUnitsAreStandard(c);
    Utf16.DecodeEncode(c);
  }

  /**
   Appending the encoding axioms to a satisfiable valid log keeps it
   satisfiable: any model of the log extends, on the fresh string only, to a
   model in which the string is the encoding of the code point.
   */
  lemma {:induction false} CodePointComplete(g: Session, cp: IExpr, v: Valuation)
    requires Valid(g) && IBelow(cp, g.next) && HoldsAll(g.axioms, v)
    ensures var (res, h) := AddCodePoint(g, cp);
      exists w :: Agree(v, w, g.next) && HoldsAll(h.axioms, w) &&
        (0 <= Eval(cp, v) < 0x110000 ==> Represents(w.strs(res), Utf16.Encode(Eval(cp, v))))
  {
    var (res, h) := AddCodePoint(g, cp);
    var c := Eval(cp, v);
    var units: JString :=
      if c < 0x10000 then [CharOf(c)] else [HighUnit(c), LowUnit(c)];
    var w := v.SetStr(res, Materialize(units, 0));
    assert Agree(v, w, g.next);
    EvalFrame(cp, v, w, g.next);
    assert EncodesAs(w.strs(res), Eval(cp, w));
    CodePointMeaning(g, cp, w);
    LogFrame(g, v, w);
    ExtendsSplit(g, h, w);
    if 0 <= c < 0x110000 {
      CodePointExact(g, cp, w);
    }
  }

  // ---------------------------------------------------------------------------
  // codePointAt and codePointBefore

  /** What the codePointAt axioms make of position p of `sv`. */
  function CodePointAtOf(sv: StrVal, p: int): int
  {
    if Utf16.IsHighSurrogate(sv.at(p)) && Utf16.IsLowSurrogate(sv.at(p + 1))
    then PairValue(sv.at(p), sv.at(p + 1))
    else sv.at(p)
  }

  /**
   String.codePointAt(str, pos):
     pair(str[pos], str[pos+1]) ==> result = pair_value(str[pos], str[pos+1])
     !pair(str[pos], str[pos+1]) ==> result = str[pos]
   where pair(a, b) is "a is high and b is low". str[pos+1] is read without a
   bounds check.
   */
  function AddCodePointAt(g: Session, str: Sym, pos: IExpr): (r: (Sym, Session))
    ensures r.0.id == g.next && r.1.next == g.next + 1
    ensures Extends(g, r.1) && Appended(g, r.1) == CodePointAtAxioms(r.0, str, pos)
    ensures Valid(g) && str.id < g.next && IBelow(pos, g.next) ==> Valid(r.1)
  {
    var (result, g1) := Fresh(g, ResultValue, "char");
    var char1 := Index(str, pos);
    var char2 := Index(str, PlusExpr(pos, Const(1)));
    PairOrUnitScope(g, result, char1, char2, char1);
    (result, g1.Push(CodePointAtAxioms(result, str, pos)))
  }

  /** The two axioms of AddCodePointAt, on str[pos] and str[pos + 1]. */
  function CodePointAtAxioms(result: Sym, str: Sym, pos: IExpr): (axs: seq<Axiom>)
    ensures |axs| == 2
  {
    var char1 := Index(str, pos);
    PairOrUnitAxioms(result, char1, Index(str, PlusExpr(pos, Const(1))), char1)
  }

  /**
   The meaning of the codePointAt axioms: the result is the code point that
   starts at `pos`, reading str[pos + 1] whatever the length of `str`.
   */
  lemma {:induction false} CodePointAtMeaning(g: Session, str: Sym, pos: IExpr, v: Valuation)
    ensures var (result, h) := AddCodePointAt(g, str, pos);
      HoldsAll(Appended(g, h), v) <==> v.ints(result) == CodePointAtOf(v.strs(str), Eval(pos, v))
  {
    var (result, h) := AddCodePointAt(g, str, pos);
    CodePointAtAxiomsMeaning(result, str, pos, v);
  }

  lemma {:induction false} CodePointAtAxiomsMeaning(result: Sym, str: Sym, pos: IExpr, v: Valuation)
    ensures HoldsAll(CodePointAtAxioms(result, str, pos), v) <==>
      v.ints(result) == CodePointAtOf(v.strs(str), Eval(pos, v))
  {
    var char1 := Index(str, pos);
    var char2 := Index(str, PlusExpr(pos, Const(1)));
    assert CodePointAtAxioms(result, str, pos) == PairOrUnitAxioms(result, char1, char2, char1);
    CodePointAtPair(result, str, pos, v);
  }

  lemma {:induction false} CodePointAtPair(result: Sym, str: Sym, pos: IExpr, v: Valuation)
    ensures var char1 := Index(str, pos);
      HoldsAll(PairOrUnitAxioms(result, char1, Index(str, PlusExpr(pos, Const(1))), char1), v) <==>
        v.ints(result) == CodePointAtOf(v.strs(str), Eval(pos, v))
  {
    var char1 := Index(str, pos);
    var char2 := Index(str, PlusExpr(pos, Const(1)));
    var p, sv := Eval(pos, v), v.strs(str);
    assert Eval(char1, v) == sv.at(p);
    assert Eval(char2, v) == sv.at(p + 1);
    PairOrUnitMeaning(result, char1, char2, char1, v);
    var c1, c2 := sv.at(p), sv.at(p + 1);
    var expected := if Utf16.IsHighSurrogate(c1) && Utf16.IsLowSurrogate(c2) then PairValue(c1, c2) else c1;
    assert CodePointAtOf(sv, p) == expected;
    assert HoldsAll(PairOrUnitAxioms(result, char1, char2, char1), v) <==> v.ints(result) == expected;
  }

  /**
   The two axioms shared by codePointAt and codePointBefore: the result is the
   pair value of (char1, char2) when they form a surrogate pair, and `single`
   otherwise.
   */
  function PairOrUnitAxioms(result: Sym, char1: IExpr, char2: IExpr, single: IExpr): (axs: seq<Axiom>)
    ensures |axs| == 2
  {
    var returnPair := AndExpr(IsHighSurrogateExpr(char1), IsLowSurrogateExpr(char2));
    [ Plain(ImpliesExpr(returnPair, RelExpr(EqRel, IntSymbol(result), PairValueExpr(char1, char2)))),
      Plain(ImpliesExpr(NotExpr(returnPair), RelExpr(EqRel, IntSymbol(result), single))) ]
  }

  lemma {:induction false} PairOrUnitMeaning(result: Sym, char1: IExpr, char2: IExpr, single: IExpr, v: Valuation)
    ensures HoldsAll(PairOrUnitAxioms(result, char1, char2, single), v) <==>
      var c1 := Eval(char1, v);
      var c2 := Eval(char2, v);
      v.ints(result) ==
        if Utf16.IsHighSurrogate(c1) && Utf16.IsLowSurrogate(c2) then PairValue(c1, c2)
        else Eval(single, v)
  {
    var axs := PairOrUnitAxioms(result, char1, char2, single);
    HoldsAll2(axs[0], axs[1]);
    assert axs == [axs[0], axs[1]];
  }

  /** Appending the pair-or-unit axioms after a fresh result keeps the log valid and only appends them. */
  lemma {:induction false} PairOrUnitScope(g: Session, result: Sym, char1: IExpr, char2: IExpr, single: IExpr)
    requires result.id == g.next
    ensures var h := g.(next := g.next + 1).Push(PairOrUnitAxioms(result, char1, char2, single));
      && Extends(g, h)
      && (Valid(g) && IBelow(char1, g.next) && IBelow(char2, g.next) && IBelow(single, g.next) ==> Valid(h))
  {
    var axs := PairOrUnitAxioms(result, char1, char2, single);
    var n := g.next + 1;
    IBelowMono(char1, g.next, n);
    IBelowMono(char2, g.next, n);
    IBelowMono(single, g.next, n);
    PairOrUnitBelow(result, char1, char2, single, n);
    ValidPush(g, axs, n);
    var h := g.(next := n).Push(axs);
    assert h.axioms[..|g.axioms|] == g.axioms;
  }

  lemma {:induction false} PairOrUnitBelow(result: Sym, char1: IExpr, char2: IExpr, single: IExpr, n: nat)
    requires result.id < n
    ensures IBelow(char1, n) && IBelow(char2, n) && IBelow(single, n) ==>
      forall i :: 0 <= i < 2 ==> AxiomBelow(PairOrUnitAxioms(result, char1, char2, single)[i], n)
  {
    if !(IBelow(char1, n) && IBelow(char2, n) && IBelow(single, n)) {
      return;
    }
    var returnPair := AndExpr(IsHighSurrogateExpr(char1), IsLowSurrogateExpr(char2));
    assert BBelow(returnPair, n);
    assert IBelow(PairValueExpr(char1, char2), n);
    var axs := PairOrUnitAxioms(result, char1, char2, single);
    assert AxiomBelow(axs[0], n);
    assert AxiomBelow(axs[1], n);
  }

  /** What the codePointBefore axioms make of position p of `sv`. */
  function CodePointBeforeOf(sv: StrVal, p: int): int
  {
    if Utf16.IsHighSurrogate(sv.at(p - 2)) && Utf16.IsLowSurrogate(sv.at(p - 1))
    then PairValue(sv.at(p - 2), sv.at(p - 1))
    else sv.at(p - 1)
  }

  /**
   String.codePointBefore(str, pos): the mirror of codePointAt on
   str[pos-2] and str[pos-1]; the result is str[pos-1] when they do not form
   a pair. str[pos-2] is read without a bounds check.
   */
  function AddCodePointBefore(g: Session, str: Sym, pos: IExpr): (r: (Sym, Session))
    ensures r.0.id == g.next && r.1.next == g.next + 1
    ensures Extends(g, r.1) && Appended(g, r.1) == CodePointBeforeAxioms(r.0, str, pos)
    ensures Valid(g) && str.id < g.next && IBelow(pos, g.next) ==> Valid(r.1)
  {
    var (result, g1) := Fresh(g, ResultValue, "char");
    var char1 := Index(str, MinusExpr(pos, Const(2)));
    var char2 := Index(str, MinusExpr(pos, Const(1)));
    PairOrUnitScope(g, result, char1, char2, char2);
    (result, g1.Push(CodePointBeforeAxioms(result, str, pos)))
  }

  /** The two axioms of AddCodePointBefore, on str[pos - 2] and str[pos - 1]. */
  function CodePointBeforeAxioms(result: Sym, str: Sym, pos: IExpr): (axs: seq<Axiom>)
    ensures |axs| == 2
  {
    var char2 := Index(str, MinusExpr(pos, Const(1)));
    PairOrUnitAxioms(result, Index(str, MinusExpr(pos, Const(2))), char2, char2)
  }

  /**
   The meaning of the codePointBefore axioms: the result is the code point
   that ends just before `pos`, reading str[pos - 2] whatever its sign.
   */
  lemma {:induction false} CodePointBeforeMeaning(g: Session, str: Sym, pos: IExpr, v: Valuation)
    ensures var (result, h) := AddCodePointBefore(g, str, pos);
      HoldsAll(Appended(g, h), v) <==> v.ints(result) == CodePointBeforeOf(v.strs(str), Eval(pos, v))
  {
    var (result, h) := AddCodePointBefore(g, str, pos);
    CodePointBeforeAxiomsMeaning(result, str, pos, v);
  }

  lemma {:induction false} CodePointBeforeAxiomsMeaning(result: Sym, str: Sym, pos: IExpr, v: Valuation)
    ensures HoldsAll(CodePointBeforeAxioms(result, str, pos), v) <==>
      v.ints(result) == CodePointBeforeOf(v.strs(str), Eval(pos, v))
  {
    var char1 := Index(str, MinusExpr(pos, Const(2)));
    var char2 := Index(str, MinusExpr(pos, Const(1)));
    assert CodePointBeforeAxioms(result, str, pos) == PairOrUnitAxioms(result, char1, char2, char2);
    CodePointBeforePair(result, str, pos, v);
  }

  lemma {:induction false} CodePointBeforePair(result: Sym, str: Sym, pos: IExpr, v: Valuation)
    ensures var char2 := Index(str, MinusExpr(pos, Const(1)));
      HoldsAll(PairOrUnitAxioms(result, Index(str, MinusExpr(pos, Const(2))), char2, char2), v) <==>
        v.ints(result) == CodePointBeforeOf(v.strs(str), Eval(pos, v))
  {
    var char1 := Index(str, MinusExpr(pos, Const(2)));
    var char2 := Index(str, MinusExpr(pos, Const(1)));
    var p, sv := Eval(pos, v), v.strs(str);
    assert Eval(char1, v) == sv.at(p - 2);
    assert Eval(char2, v) == sv.at(p - 1);
    PairOrUnitMeaning(result, char1, char2, char2, v);
    var c1, c2 := sv.at(p - 2), sv.at(p - 1);
    var expected := if Utf16.IsHighSurrogate(c1) && Utf16.IsLowSurrogate(c2) then PairValue(c1, c2) else c2;
    assert CodePointBeforeOf(sv, p) == expected;
    assert HoldsAll(PairOrUnitAxioms(result, char1, char2, char2), v) <==> v.ints(result) == expected;
  }

  /**
   On a concrete string, codePointAt agrees with Java whenever the read of
   str[pos+1] stays inside the string or str[pos] is not a high surrogate.
   */
  lemma {:induction false} CodePointAtAgreesWithJava(sv: StrVal, s: JString, p: int)
    requires Represents(sv, s) && 0 <= p < |s|
    requires p + 1 < |s| || !Utf16.IsHighSurrogate(s[p])
    ensures CodePointAtOf(sv, p) == JavaString.CodePointAt(s, p)
  {
    if p + 1 < |s| {
      assert sv.at(p + 1) == s[p + 1];
    }
  }

  /**
   The unchecked read of str[pos+1] is an over-approximation: for the
   one-unit string made of a high surrogate, some value of the string symbol
   gives a code point Java never returns.
   */
  lemma CodePointAtReadsPastEnd()
    ensures var s: JString := [0xD800];
      exists sv :: Represents(sv, s) && CodePointAtOf(sv, 0) != JavaString.CodePointAt(s, 0)
  {
    var s: JString := [0xD800];
    var sv := Materialize(s, 0xDC00);
    assert CodePointAtOf(sv, 0) == 0x10000;
  }

  /**
   The unchecked read of str[pos-2]: a lone low surrogate at the front of the
   string pairs with whatever the accessor holds before it.
   */
  lemma CodePointBeforeReadsPastStart()
    ensures var s: JString := [0xDC00];
      exists sv :: Represents(sv, s) && CodePointBeforeOf(sv, 1) != JavaString.CodePointBefore(s, 1)
  {
    var s: JString := [0xDC00];
    var sv := Materialize(s, 0xD800);
    assert CodePointBeforeOf(sv, 1) == 0x10000;
  }

  /** On a concrete string, codePointBefore agrees with Java whenever str[pos-2] is inside the string or str[pos-1] is not a low surrogate. */
  lemma {:induction false} CodePointBeforeAgreesWithJava(sv: StrVal, s: JString, p: int)
    requires Represents(sv, s) && 1 <= p <= |s|
    requires 2 <= p || !Utf16.IsLowSurrogate(s[p - 1])
    ensures CodePointBeforeOf(sv, p) == JavaString.CodePointBefore(s, p)
  {
    assert sv.at(p - 1) == s[p - 1];
    if 2 <= p {
      assert sv.at(p - 2) == s[p - 2];
    }
  }

  /**
   Appending the codePointAt axioms to a satisfiable valid log keeps it
   satisfiable, with the result equal to the code point the axioms determine.
   */
  lemma {:induction false} CodePointAtComplete(g: Session, str: Sym, pos: IExpr, v: Valuation)
    requires Valid(g) && str.id < g.next && IBelow(pos, g.next) && HoldsAll(g.axioms, v)
    ensures var (result, h) := AddCodePointAt(g, str, pos);
      exists w :: Agree(v, w, g.next) && HoldsAll(h.axioms, w) &&
        w.ints(result) == CodePointAtOf(v.strs(str), Eval(pos, v))
  {
    var (result, h) := AddCodePointAt(g, str, pos);
    var w := v.SetInt(result, CodePointAtOf(v.strs(str), Eval(pos, v)));
    assert Agree(v, w, g.next);
    EvalFrame(pos, v, w, g.next);
    CodePointAtMeaning(g, str, pos, w);
    LogFrame(g, v, w);
    ExtendsSplit(g, h, w);
  }

  /** The codePointBefore counterpart of CodePointAtComplete. */
  lemma {:induction false} CodePointBeforeComplete(g: Session, str: Sym, pos: IExpr, v: Valuation)
    requires Valid(g) && str.id < g.next && IBelow(pos, g.next) && HoldsAll(g.axioms, v)
    ensures var (result, h) := AddCodePointBefore(g, str, pos);
      exists w :: Agree(v, w, g.next) && HoldsAll(h.axioms, w) &&
        w.ints(result) == CodePointBeforeOf(v.strs(str), Eval(pos, v))
  {
    var (result, h) := AddCodePointBefore(g, str, pos);
    var w := v.SetInt(result, CodePointBeforeOf(v.strs(str), Eval(pos, v)));
    assert Agree(v, w, g.next);
    EvalFrame(pos, v, w, g.next);
    CodePointBeforeMeaning(g, str, pos, w);
    LogFrame(g, v, w);
    ExtendsSplit(g, h, w);
  }

  /**
   Encoding a code point and reading it back with codePointAt at index 0
   gives the code point again, in every model of the two axiom lists, for a
   supplementary code point or a BMP one that is not a high surrogate.
   */
  lemma {:induction false} CodePointAtOfEncoding(g: Session, cp: IExpr, v: Valuation)
    requires var c := Eval(cp, v);
      0 <= c < 0x110000 && (0x10000 <= c || !Utf16.IsHighSurrogate(c))
    ensures var (res, g1) := AddCodePoint(g, cp);
      var (result, g2) := AddCodePointAt(g1, res, Lit(0));
      HoldsAll(g2.axioms, v) ==> v.ints(result) == Eval(cp, v)
  {
    var (res, g1) := AddCodePoint(g, cp);
    var (result, g2) := AddCodePointAt(g1, res, Lit(0));
    if HoldsAll(g2.axioms, v) {
      ExtendsSplit(g1, g2, v);
      ExtendsSplit(g, g1, v);
      CodePointMeaning(g, cp, v);
      CodePointAtMeaning(g1, res, Lit(0), v);
      assert Eval(Lit(0), v) == 0;
      EncodingReadsBack(v.strs(res), Eval(cp, v));
    }
  }

  /** A string the encoding axioms built for `c` reads back `c` at index 0. */
  lemma {:induction false} EncodingReadsBack(sv: StrVal, c: int)
    requires 0 <= c < 0x110000 && (0x10000 <= c || !Utf16.IsHighSurrogate(c))
    requires EncodesAs(sv, c)
    ensures CodePointAtOf(sv, 0) == c
  {
    if 0x10000 <= c {
      CodePointRoundTrip(c);
    }
  }

  // ---------------------------------------------------------------------------
  // Approximate codePointCount and offsetByCodePoints

  /**
   String.codePointCount(str, begin, end), approximated by bounds only:
     result <= end - begin
     result >= (end - begin) / 2
   */
  function AddCodePointCount(g: Session, str: Sym, begin: IExpr, end: IExpr): (r: (Sym, Session))
    ensures r.0.id == g.next && r.0.kind == ResultValue && r.1.next == g.next + 1
    ensures Extends(g, r.1) && Appended(g, r.1) == CountAxioms(r.0, begin, end)
    ensures Valid(g) && IBelow(begin, g.next) && IBelow(end, g.next) ==> Valid(r.1)
  {
    var (result, g1) := Fresh(g, ResultValue, "code_point_count");
    var axs := CountAxioms(result, begin, end);
    IBelowMono(begin, g.next, g1.next);
    IBelowMono(end, g.next, g1.next);
    ValidPush(g, axs, g1.next);
    var h := g1.Push(axs);
    assert h.axioms[|g.axioms|..] == axs;
    (result, h)
  }

  /** The two count axioms for the result symbol `result`. */
  function CountAxioms(result: Sym, begin: IExpr, end: IExpr): seq<Axiom>
  {
    var length := MinusExpr(end, begin);
    [ Plain(RelExpr(LeRel, IntSymbol(result), length)),
      Plain(RelExpr(GeRel, IntSymbol(result), DivExpr(length, 2))) ]
  }

  /**
   The meaning of the count axioms: the result lies between half the length
   of the range, rounded toward zero, and the length itself.
   */
  lemma {:induction false} CodePointCountMeaning(g: Session, str: Sym, begin: IExpr, end: IExpr, v: Valuation)
    ensures var (result, h) := AddCodePointCount(g, str, begin, end);
      var len := Eval(end, v) - Eval(begin, v);
      HoldsAll(Appended(g, h), v) <==> TDiv(len, 2) <= v.ints(result) <= len
  {
    var r := AddCodePointCount(g, str, begin, end);
    CountAxiomsMeaning(r.0, begin, end, v);
  }

  lemma {:induction false} CountAxiomsMeaning(result: Sym, begin: IExpr, end: IExpr, v: Valuation)
    ensures var len := Eval(end, v) - Eval(begin, v);
      HoldsAll(CountAxioms(result, begin, end), v) <==> TDiv(len, 2) <= v.ints(result) <= len
  {
    var length := MinusExpr(end, begin);
    var len := Eval(end, v) - Eval(begin, v);
    assert Eval(length, v) == len;
    assert Eval(DivExpr(length, 2), v) == TDiv(len, 2);
    HoldsAll2At(Plain(RelExpr(LeRel, IntSymbol(result), length)),
                Plain(RelExpr(GeRel, IntSymbol(result), DivExpr(length, 2))), v);
  }

  /**
   The count axioms can be met, on top of any model of a valid log, exactly
   when end >= begin.
   */
  lemma {:induction false} CodePointCountSatisfiable(g: Session, str: Sym, begin: IExpr, end: IExpr, v: Valuation)
    requires Valid(g) && IBelow(begin, g.next) && IBelow(end, g.next) && HoldsAll(g.axioms, v)
    ensures var (result, h) := AddCodePointCount(g, str, begin, end);
      (exists w :: Agree(v, w, g.next) && HoldsAll(h.axioms, w)) <==> Eval(begin, v) <= Eval(end, v)
  {
    var (result, h) := AddCodePointCount(g, str, begin, end);
    forall w | Agree(v, w, g.next) && HoldsAll(h.axioms, w)
      ensures Eval(begin, v) <= Eval(end, v)
    {
      CountModelOrdered(g, str, begin, end, v, w);
    }
    var len := Eval(end, v) - Eval(begin, v);
    if 0 <= len {
      var w := CountModelOfLength(g, str, begin, end, v);
    }
  }

  /** Every model of the count axioms that agrees with `v` has end >= begin under `v`. */
  lemma {:induction false} CountModelOrdered(g: Session, str: Sym, begin: IExpr, end: IExpr, v: Valuation, w: Valuation)
    requires IBelow(begin, g.next) && IBelow(end, g.next) && Agree(v, w, g.next)
    requires HoldsAll(AddCodePointCount(g, str, begin, end).1.axioms, w)
    ensures Eval(begin, v) <= Eval(end, v)
  {
    var r := AddCodePointCount(g, str, begin, end);
    EvalFrame(begin, v, w, g.next);
    EvalFrame(end, v, w, g.next);
    ExtendsSplit(g, r.1, w);
    CountAxiomsOrdered(r.0, begin, end, w);
  }

  lemma {:induction false} CountAxiomsOrdered(result: Sym, begin: IExpr, end: IExpr, w: Valuation)
    requires HoldsAll(CountAxioms(result, begin, end), w)
    ensures Eval(begin, w) <= Eval(end, w)
  {
    CountAxiomsMeaning(result, begin, end, w);
    HalfBelow(Eval(end, w) - Eval(begin, w));
  }

  /** When end >= begin, the model whose result is the length of the range. */
  lemma {:induction false} CountModelOfLength(g: Session, str: Sym, begin: IExpr, end: IExpr, v: Valuation) returns (w: Valuation)
    requires Valid(g) && IBelow(begin, g.next) && IBelow(end, g.next) && HoldsAll(g.axioms, v)
    requires Eval(begin, v) <= Eval(end, v)
    ensures Agree(v, w, g.next) && HoldsAll(AddCodePointCount(g, str, begin, end).1.axioms, w)
  {
    var len := Eval(end, v) - Eval(begin, v);
    HalfBelow(len);
    w := CountModel(g, str, begin, end, v, len);
  }

  /** Half a length, rounded toward zero, is at most the length exactly when the length is not negative. */
  lemma HalfBelow(len: int)
    ensures TDiv(len, 2) <= len <==> 0 <= len
  {
    if len < 0 {
      assert TDiv(len, 2) == -((-len) / 2);
    }
  }

  /**
   Java's count of the code points of str[begin..end] is one of the results
   the count axioms admit, on top of any model of a valid log.
   */
  lemma {:induction false} CodePointCountAdmitsJava(g: Session, str: Sym, begin: IExpr, end: IExpr, v: Valuation, s: JString)
    requires Valid(g) && IBelow(begin, g.next) && IBelow(end, g.next) && HoldsAll(g.axioms, v)
    requires Represents(v.strs(str), s) && 0 <= Eval(begin, v) <= Eval(end, v) <= |s|
    ensures var (result, h) := AddCodePointCount(g, str, begin, end);
      exists w :: Agree(v, w, g.next) && HoldsAll(h.axioms, w) &&
        w.ints(result) == CodePointCount(s[Eval(begin, v)..Eval(end, v)])
  {
    var b, e := Eval(begin, v), Eval(end, v);
    var n := CodePointCount(s[b..e]);
    CodePointCountBounds(s[b..e]);
    assert TDiv(e - b, 2) == (e - b) / 2 <= (e - b + 1) / 2;
    var w := CountModel(g, str, begin, end, v, n);
  }

  /** The model of the count axioms that gives the result `n`, when n is within the bounds. */
  lemma {:induction false} CountModel(g: Session, str: Sym, begin: IExpr, end: IExpr, v: Valuation, n: int)
    returns (w: Valuation)
    requires Valid(g) && IBelow(begin, g.next) && IBelow(end, g.next) && HoldsAll(g.axioms, v)
    requires TDiv(Eval(end, v) - Eval(begin, v), 2) <= n <= Eval(end, v) - Eval(begin, v)
    ensures var (result, h) := AddCodePointCount(g, str, begin, end);
      Agree(v, w, g.next) && HoldsAll(h.axioms, w) && w.ints(result) == n
  {
    var (result, h) := AddCodePointCount(g, str, begin, end);
    w := v.SetInt(result, n);
    assert Agree(v, w, g.next);
    EvalFrame(begin, v, w, g.next);
    EvalFrame(end, v, w, g.next);
    CodePointCountMeaning(g, str, begin, end, w);
    LogFrame(g, v, w);
    ExtendsSplit(g, h, w);
  }

  /**
   String.offsetByCodePoints(str, index, offset), approximated by bounds only:
     result <= index + (offset + offset)
     result >= index + offset
   */
  function AddOffsetByCodePoint(g: Session, str: Sym, index: IExpr, offset: IExpr): (r: (Sym, Session))
    ensures r.0.id == g.next && r.0.kind == ResultValue && r.1.next == g.next + 1
    ensures Extends(g, r.1) && Appended(g, r.1) == OffsetAxioms(r.0, index, offset)
    ensures Valid(g) && IBelow(index, g.next) && IBelow(offset, g.next) ==> Valid(r.1)
  {
    var (result, g1) := Fresh(g, ResultValue, "offset_by_code_point");
    var axs := OffsetAxioms(result, index, offset);
    IBelowMono(index, g.next, g1.next);
    IBelowMono(offset, g.next, g1.next);
    ValidPush(g, axs, g1.next);
    var h := g1.Push(axs);
    assert h.axioms[|g.axioms|..] == axs;
    (result, h)
  }

  /** The two offset axioms for the result symbol `result`. */
  function OffsetAxioms(result: Sym, index: IExpr, offset: IExpr): seq<Axiom>
  {
    [ Plain(RelExpr(LeRel, IntSymbol(result), PlusExpr(index, PlusExpr(offset, offset)))),
      Plain(RelExpr(GeRel, IntSymbol(result), PlusExpr(index, offset))) ]
  }

  /** The meaning of the offset axioms: index + offset <= result <= index + 2 * offset. */
  lemma {:induction false} OffsetByCodePointMeaning(g: Session, str: Sym, index: IExpr, offset: IExpr, v: Valuation)
    ensures var (result, h) := AddOffsetByCodePoint(g, str, index, offset);
      HoldsAll(Appended(g, h), v) <==>
        Eval(index, v) + Eval(offset, v) <= v.ints(result) <= Eval(index, v) + 2 * Eval(offset, v)
  {
    var (result, h) := AddOffsetByCodePoint(g, str, index, offset);
    HoldsAll2At(Plain(RelExpr(LeRel, IntSymbol(result), PlusExpr(index, PlusExpr(offset, offset)))),
                Plain(RelExpr(GeRel, IntSymbol(result), PlusExpr(index, offset))), v);
  }

  /**
   With a non-negative offset, the bounds of AddOffsetByCodePoint admit the
   index Java returns: a satisfiable valid log stays satisfiable with the
   result set to Java's answer.
   */
  lemma {:induction false} OffsetByCodePointAdmitsJava(g: Session, str: Sym, index: IExpr, offset: IExpr, v: Valuation, s: JString)
    requires Valid(g) && IBelow(index, g.next) && IBelow(offset, g.next) && HoldsAll(g.axioms, v)
    requires Represents(v.strs(str), s) && 0 <= Eval(offset, v)
    requires OffsetByCodePoints(s, Eval(index, v), Eval(offset, v)).Some?
    ensures var (result, h) := AddOffsetByCodePoint(g, str, index, offset);
      var w := v.SetInt(result, OffsetByCodePoints(s, Eval(index, v), Eval(offset, v)).value);
      Agree(v, w, g.next) && HoldsAll(h.axioms, w)
  {
    var (result, h) := AddOffsetByCodePoint(g, str, index, offset);
    var w := v.SetInt(result, OffsetByCodePoints(s, Eval(index, v), Eval(offset, v)).value);
    OffsetByCodePointsBounds(s, Eval(index, v), Eval(offset, v));
    assert Agree(v, w, g.next);
    EvalFrame(index, v, w, g.next);
    EvalFrame(offset, v, w, g.next);
    OffsetByCodePointMeaning(g, str, index, offset, w);
    LogFrame(g, v, w);
    ExtendsSplit(g, h, w);
  }

  /**
   The offset bounds can be met, on top of any model of a valid log, exactly
   when the offset is non-negative.
   */
  lemma {:induction false} OffsetByCodePointSatisfiable(g: Session, str: Sym, index: IExpr, offset: IExpr, v: Valuation)
    requires Valid(g) && IBelow(index, g.next) && IBelow(offset, g.next) && HoldsAll(g.axioms, v)
    ensures var (result, h) := AddOffsetByCodePoint(g, str, index, offset);
      (exists w :: Agree(v, w, g.next) && HoldsAll(h.axioms, w)) <==> 0 <= Eval(offset, v)
  {
    var (result, h) := AddOffsetByCodePoint(g, str, index, offset);
    forall w | Agree(v, w, g.next) && HoldsAll(h.axioms, w)
      ensures 0 <= Eval(offset, v)
    {
      EvalFrame(index, v, w, g.next);
      EvalFrame(offset, v, w, g.next);
      ExtendsSplit(g, h, w);
      OffsetByCodePointMeaning(g, str, index, offset, w);
    }
    if 0 <= Eval(offset, v) {
      var w := v.SetInt(result, Eval(index, v) + Eval(offset, v));
      assert Agree(v, w, g.next);
      EvalFrame(index, v, w, g.next);
      EvalFrame(offset, v, w, g.next);
      OffsetByCodePointMeaning(g, str, index, offset, w);
      LogFrame(g, v, w);
      ExtendsSplit(g, h, w);
      assert HoldsAll(h.axioms, w);
    }
  }

  /**
   With a negative offset the bounds index + offset <= result <=
   index + 2 * offset contradict each other, so no valuation satisfies the
   axioms, while Java moves backward: on "ab", offsetByCodePoints(2, -1)
   is 1.
   */
  lemma {:induction false} OffsetByCodePointNegativeUnsat(g: Session, str: Sym, index: IExpr, offset: IExpr, v: Valuation)
    requires Eval(offset, v) < 0
    ensures var (result, h) := AddOffsetByCodePoint(g, str, index, offset);
      !HoldsAll(Appended(g, h), v)
    ensures OffsetByCodePoints([0x61, 0x62], 2, -1) == Some(1)
  {
    OffsetByCodePointMeaning(g, str, index, offset, v);
    var s: JString := [0x61, 0x62];
    assert OffsetBackward(s, 2, 1) == OffsetBackward(s, 1, 0);
  }

  /**
   The corrected bounds: between index + offset and index + 2 * offset in
   the direction of the offset.
     offset >= 0 ==> index + offset <= result <= index + (offset + offset)
     offset < 0 ==> index + (offset + offset) <= result <= index + offset
   */
  function AddOffsetByCodePointSigned(g: Session, str: Sym, index: IExpr, offset: IExpr): (r: (Sym, Session))
    ensures r.0.id == g.next && r.0.kind == ResultValue && r.1.next == g.next + 1
    ensures Extends(g, r.1) && Appended(g, r.1) == SignedOffsetAxioms(r.0, index, offset)
    ensures Valid(g) && IBelow(index, g.next) && IBelow(offset, g.next) ==> Valid(r.1)
  {
    var (result, g1) := Fresh(g, ResultValue, "offset_by_code_point");
    var axs := SignedOffsetAxioms(result, index, offset);
    IBelowMono(index, g.next, g1.next);
    IBelowMono(offset, g.next, g1.next);
    SignedOffsetAxiomsBelow(result, index, offset, g1.next);
    ValidPush(g, axs, g1.next);
    var h := g1.Push(axs);
    assert h.axioms[|g.axioms|..] == axs;
    (result, h)
  }

  /** result lies between `low` and `high`. */
  function Between(result: Sym, low: IExpr, high: IExpr): BExpr
  {
    AndExpr(RelExpr(GeRel, IntSymbol(result), low), RelExpr(LeRel, IntSymbol(result), high))
  }

  /** The two corrected offset axioms for the result symbol `result`. */
  function SignedOffsetAxioms(result: Sym, index: IExpr, offset: IExpr): seq<Axiom>
  {
    var near := PlusExpr(index, offset);
    var far := PlusExpr(index, PlusExpr(offset, offset));
    [ Plain(ImpliesExpr(IsPositiveIndex(offset), Between(result, near, far))),
      Plain(ImpliesExpr(NotExpr(IsPositiveIndex(offset)), Between(result, far, near))) ]
  }

  lemma {:induction false} SignedOffsetAxiomsBelow(result: Sym, index: IExpr, offset: IExpr, n: nat)
    requires result.id < n
    ensures IBelow(index, n) && IBelow(offset, n) ==>
      forall i :: 0 <= i < 2 ==> AxiomBelow(SignedOffsetAxioms(result, index, offset)[i], n)
  {
    if IBelow(index, n) && IBelow(offset, n) {
      var near := PlusExpr(index, offset);
      var far := PlusExpr(index, PlusExpr(offset, offset));
      assert BBelow(Between(result, near, far), n) && BBelow(Between(result, far, near), n);
    }
  }

  /**
   The meaning of the corrected offset axioms: the result lies between
   index + offset and index + 2 * offset, whichever way the offset points.
   */
  lemma {:induction false} OffsetByCodePointSignedMeaning(g: Session, str: Sym, index: IExpr, offset: IExpr, v: Valuation)
    ensures var (result, h) := AddOffsetByCodePointSigned(g, str, index, offset);
      var i, o, n := Eval(index, v), Eval(offset, v), v.ints(result);
      HoldsAll(Appended(g, h), v) <==>
        (0 <= o ==> i + o <= n <= i + 2 * o) && (o < 0 ==> i + 2 * o <= n <= i + o)
  {
    var (result, h) := AddOffsetByCodePointSigned(g, str, index, offset);
    var near := PlusExpr(index, offset);
    var far := PlusExpr(index, PlusExpr(offset, offset));
    HoldsAll2At(Plain(ImpliesExpr(IsPositiveIndex(offset), Between(result, near, far))),
                Plain(ImpliesExpr(NotExpr(IsPositiveIndex(offset)), Between(result, far, near))), v);
    assert EvalB(Between(result, near, far), v) <==> Eval(near, v) <= v.ints(result) <= Eval(far, v);
    assert EvalB(Between(result, far, near), v) <==> Eval(far, v) <= v.ints(result) <= Eval(near, v);
  }

  /**
   Whatever the sign of the offset, the corrected bounds admit the index
   Java returns: a satisfiable valid log stays satisfiable with the result
   set to Java's answer.
   */
  lemma {:induction false} OffsetByCodePointSignedAdmitsJava(g: Session, str: Sym, index: IExpr, offset: IExpr, v: Valuation, s: JString)
    requires Valid(g) && IBelow(index, g.next) && IBelow(offset, g.next) && HoldsAll(g.axioms, v)
    requires Represents(v.strs(str), s)
    requires OffsetByCodePoints(s, Eval(index, v), Eval(offset, v)).Some?
    ensures var (result, h) := AddOffsetByCodePointSigned(g, str, index, offset);
      var w := v.SetInt(result, OffsetByCodePoints(s, Eval(index, v), Eval(offset, v)).value);
      Agree(v, w, g.next) && HoldsAll(h.axioms, w)
  {
    var (result, h) := AddOffsetByCodePointSigned(g, str, index, offset);
    var w := v.SetInt(result, OffsetByCodePoints(s, Eval(index, v), Eval(offset, v)).value);
    OffsetByCodePointsBounds(s, Eval(index, v), Eval(offset, v));
    assert Agree(v, w, g.next);
    EvalFrame(index, v, w, g.next);
    EvalFrame(offset, v, w, g.next);
    OffsetByCodePointSignedMeaning(g, str, index, offset, w);
    LogFrame(g, v, w);
    ExtendsSplit(g, h, w);
  }

  /** On a non-negative offset the corrected bounds are the original ones. */
  lemma {:induction false} OffsetByCodePointSignedAgrees(g: Session, str: Sym, index: IExpr, offset: IExpr, v: Valuation)
    requires 0 <= Eval(offset, v)
    ensures var (r1, h1) := AddOffsetByCodePoint(g, str, index, offset);
      var (r2, h2) := AddOffsetByCodePointSigned(g, str, index, offset);
      r1 == r2 && (HoldsAll(Appended(g, h1), v) <==> HoldsAll(Appended(g, h2), v))
  {
    OffsetByCodePointMeaning(g, str, index, offset, v);
    OffsetByCodePointSignedMeaning(g, str, index, offset, v);
  }
}
