# String-constraint generators of the string-refinement solver, in Dafny

This project models two groups of constraint generators used by CBMC's
string-refinement solver.

A generator translates one call to a `java.lang.String` function into
constraints over symbolic strings. It does three things:

- it receives its arguments as string symbols and integer terms;
- it creates fresh symbols: a result, bound variables and witnesses;
- it appends a fixed list of axioms to the shared axiom list that is later
  given to the solver.

The model has these parts:

- **Symbols** (`symbols.dfy`): a fresh symbol carries its kind, its name hint
  and the value of a session counter.
- **Terms** (`exprs.dfy`): integer and Boolean terms, and their value under a
  valuation.
  - A string is a pair (length, total character accessor), so reads outside
    the string are unconstrained.
  - Characters are 16-bit code units.
  - Signed bit-vector division and remainder round toward zero (`TDiv`, `TMod`).
  - A cast to the character sort keeps the low 16 bits (`CharOf`).
- **Axioms** (`axioms.dfy`): the three axiom shapes the generators emit.
  - a plain formula;
  - a bounded universal `forall qvar < bound. premise ==> body`;
  - the not-contains constraint, whose existential witness is a function of
    the start position.

  `Holds` interprets one axiom. `HoldsAll` reads the log as a conjunction.
  A `Session` carries the symbol counter and the append-only log.
- **References** (`utf16.dfy`, `java_string.dfy`): the standards the
  generators are measured against.
  - UTF-16, as section 2 of RFC 2781 defines it.
  - The `java.lang.String` functions on concrete strings: `startsWith`,
    `endsWith`, `isEmpty`, `contains`, `codePointAt`, `codePointBefore`,
    `codePointCount` and `offsetByCodePoints`.
- **Code-point generators** (`code_points.dfy`, module `CodePoints`):
  encoding one code point, the surrogate tests, the pair value,
  `codePointAt`, `codePointBefore`, and the approximate `codePointCount` and
  `offsetByCodePoints`.
- **Boolean predicates** (`testing.dfy`, module `Testing`): `isPrefix` (both
  entry points), `isSuffix`, `isEmpty` and `contains`.

Each generator is stated in four ways:

1. **What it appends.** A fresh result, the log grows only at its end by
   exactly the generator's axioms, and a log whose axioms mention only
   existing symbols stays that way.
2. **Meaning.** A lemma states what the appended axioms say under any
   valuation, in plain terms.
3. **Soundness.** In every model of the axioms, the result is the library's
   answer on the concrete strings.
4. **Completeness.** Every model of the earlier log extends to a model of the
   new axioms with the library's answer. The extension changes only symbols
   created by this call.

Where a generator as written falls short of the library, its soundness and
completeness lemmas carry the condition under which it is exact. A
counterexample lemma shows what goes wrong outside that condition (see
Findings). Where the generator only over-approximates, the model states the bounds it
asserts and proves that the library's answer lies inside them.

The encoding's second unit is built from the raw code point:
`0xDC00 + cp mod 0x400`. The comment above it says `(cp - 0x10000) / 0x400`.
The model follows the code. `CodePoints.GeneratorUnitsAreStandard` shows that
the code is right: `0x10000` is a multiple of `0x400`.

## Model

| member | source | states |
|---|---|---|
| Utf16.SurrogatesDisjoint | src/solvers/refinement/string_constraint_generator_code_points.cpp:88-115 | no code unit is both a high and a low surrogate |
| CodePoints.IsHighSurrogateExpr | src/solvers/refinement/string_constraint_generator_code_points.cpp:88-93 | the formula holds exactly when the character lies in 0xD800..0xDBFF, and it mentions only the character's symbols |
| CodePoints.IsLowSurrogateExpr | src/solvers/refinement/string_constraint_generator_code_points.cpp:110-115 | the formula holds exactly when the character lies in 0xDC00..0xDFFF, and it mentions only the character's symbols |
| CodePoints.PairValue | src/solvers/refinement/string_constraint_generator_code_points.cpp:135-144 | on a high surrogate followed by a low surrogate, the pair value is the code point RFC 2781 decodes, in 0x10000..0x10FFFF |
| CodePoints.PairValueExpr | src/solvers/refinement/string_constraint_generator_code_points.cpp:135-144 | the term built from two character terms evaluates to the pair value of their values |
| CodePoints.AddCodePoint | src/solvers/refinement/string_constraint_generator_code_points.cpp:25-71 | a fresh result string; the log grows by exactly the five encoding axioms; a well-scoped log stays well scoped |
| CodePoints.CodePointMeaning | src/solvers/refinement/string_constraint_generator_code_points.cpp:46-68 | the five axioms hold iff the result is one unit (char) cp when cp < 0x10000, and otherwise two units: the computed high and low units |
| CodePoints.CodePointAxiomsMeaning | src/solvers/refinement/string_constraint_generator_code_points.cpp:46-68 | the same equivalence, for the five axioms built on any result symbol |
| CodePoints.LengthAxiomsMeaning | src/solvers/refinement/string_constraint_generator_code_points.cpp:46-51 | a1 binds the length to 1 only below 0x10000; a2 binds it to 2 only at or above 0x10000 |
| CodePoints.SmallUnitMeaning | src/solvers/refinement/string_constraint_generator_code_points.cpp:53-55 | a3 makes the first unit the 16-bit cast of cp, only below 0x10000 |
| CodePoints.HighUnitIsMeaning | src/solvers/refinement/string_constraint_generator_code_points.cpp:57-61 | the a4 equation holds iff the first unit is (char)(0xD800 + (cp - 0x10000) / 0x400), with division rounding toward zero |
| CodePoints.LowUnitIsMeaning | src/solvers/refinement/string_constraint_generator_code_points.cpp:64-67 | the a5 equation holds iff the second unit is (char)(0xDC00 + cp mod 0x400), with the remainder signed like cp |
| CodePoints.HighAxiomMeaning | src/solvers/refinement/string_constraint_generator_code_points.cpp:57-62 | a4 constrains the first unit only when cp >= 0x10000 |
| CodePoints.LowAxiomMeaning | src/solvers/refinement/string_constraint_generator_code_points.cpp:64-68 | a5 constrains the second unit only when cp >= 0x10000 |
| CodePoints.PairAxiomsMeaning | src/solvers/refinement/string_constraint_generator_code_points.cpp:57-68 | a4 and a5 together fix the two units of a supplementary code point and nothing else |
| CodePoints.GeneratorUnitsAreStandard | src/solvers/refinement/string_constraint_generator_code_points.cpp:57-68 | for every supplementary code point the two computed units are exactly its RFC 2781 encoding, although the low unit uses cp and not cp - 0x10000 |
| CodePoints.EncodesAsStandard | src/solvers/refinement/string_constraint_generator_code_points.cpp:33-37 | for a code point in 0..0x10FFFF, what the axioms require of the result is exactly that it holds the UTF-16 encoding |
| CodePoints.CodePointExact | src/solvers/refinement/string_constraint_generator_code_points.cpp:25-71 | for cp in 0..0x10FFFF, the axioms hold iff the result string is the UTF-16 encoding of cp |
| CodePoints.CodePointRoundTrip | src/solvers/refinement/string_constraint_generator_code_points.cpp:57-68 | the computed units of a supplementary code point are a high and a low surrogate, and their pair value is the code point again |
| CodePoints.CodePointComplete | src/solvers/refinement/string_constraint_generator_code_points.cpp:25-71 | every model of the earlier log extends to a model of the encoding axioms that changes only the new result, and when cp is in 0..0x10FFFF that result holds the UTF-16 encoding of cp |
| CodePoints.AddCodePointAt | src/solvers/refinement/string_constraint_generator_code_points.cpp:158-180 | a fresh result; the log grows by exactly the two codePointAt axioms; scoping is kept |
| CodePoints.CodePointAtMeaning | src/solvers/refinement/string_constraint_generator_code_points.cpp:166-178 | the two axioms hold iff the result is the pair value of str[pos], str[pos+1] when they are a high and a low surrogate, and str[pos] otherwise: exactly one guard binds |
| CodePoints.CodePointAtAxiomsMeaning | src/solvers/refinement/string_constraint_generator_code_points.cpp:166-178 | the same equivalence, for the axioms built on any result symbol |
| CodePoints.CodePointAtPair | src/solvers/refinement/string_constraint_generator_code_points.cpp:167-178 | the pair-or-unit schema, read at pos and pos + 1, means the codePointAt value |
| CodePoints.PairOrUnitMeaning | src/solvers/refinement/string_constraint_generator_code_points.cpp:172-178 | the pair and non-pair implications fix the result to the pair value under the surrogate test, and to the single unit otherwise |
| CodePoints.PairOrUnitScope | src/solvers/refinement/string_constraint_generator_code_points.cpp:176-178 | pushing the two axioms extends the log and keeps it well scoped |
| CodePoints.CodePointAtAgreesWithJava | src/solvers/refinement/string_constraint_generator_code_points.cpp:158-180 | on a concrete string, when the unit at pos is not a high surrogate in the last position, the constrained value is Java's codePointAt |
| CodePoints.CodePointAtReadsPastEnd | src/solvers/refinement/string_constraint_generator_code_points.cpp:168-174 | a lone high surrogate at the end: the unchecked read of str[pos+1] admits a value other than Java's answer |
| CodePoints.CodePointAtComplete | src/solvers/refinement/string_constraint_generator_code_points.cpp:158-180 | every model of the earlier log extends to a model of the new axioms with the codePointAt value |
| CodePoints.CodePointAtOfEncoding | src/solvers/refinement/string_constraint_generator_code_points.cpp:158-180 | codePointAt at 0 of the string built for a code point gives the code point back, unless that code point is a lone high surrogate |
| CodePoints.EncodingReadsBack | src/solvers/refinement/string_constraint_generator_code_points.cpp:166-178 | a string the encoding axioms accept for cp reads back cp at index 0 |
| CodePoints.AddCodePointBefore | src/solvers/refinement/string_constraint_generator_code_points.cpp:194-219 | a fresh result; the log grows by exactly the two codePointBefore axioms; scoping is kept |
| CodePoints.CodePointBeforeMeaning | src/solvers/refinement/string_constraint_generator_code_points.cpp:204-217 | the axioms hold iff the result is the pair value of str[pos-2], str[pos-1] when they are a high and a low surrogate, and str[pos-1] otherwise |
| CodePoints.CodePointBeforeAxiomsMeaning | src/solvers/refinement/string_constraint_generator_code_points.cpp:204-217 | the same equivalence, for the axioms built on any result symbol |
| CodePoints.CodePointBeforePair | src/solvers/refinement/string_constraint_generator_code_points.cpp:204-217 | the pair-or-unit schema, read at pos - 2 and pos - 1, means the codePointBefore value |
| CodePoints.CodePointBeforeReadsPastStart | src/solvers/refinement/string_constraint_generator_code_points.cpp:204-212 | a lone low surrogate at the front: the unchecked read of str[pos-2] admits a value other than Java's answer |
| CodePoints.CodePointBeforeAgreesWithJava | src/solvers/refinement/string_constraint_generator_code_points.cpp:194-219 | on a concrete string, unless pos is 1 and the unit before it is a low surrogate, the constrained value is Java's codePointBefore |
| CodePoints.CodePointBeforeComplete | src/solvers/refinement/string_constraint_generator_code_points.cpp:194-219 | every model of the earlier log extends to a model of the new axioms with the codePointBefore value |
| CodePoints.AddCodePointCount | src/solvers/refinement/string_constraint_generator_code_points.cpp:234-249 | a fresh integer result; the log grows by exactly the two bound axioms; scoping is kept |
| CodePoints.CodePointCountMeaning | src/solvers/refinement/string_constraint_generator_code_points.cpp:243-246 | the axioms hold iff (end - begin) / 2, rounded toward zero, <= result <= end - begin |
| CodePoints.CountAxiomsMeaning | src/solvers/refinement/string_constraint_generator_code_points.cpp:243-246 | the same bounds, for the axioms built on any result symbol |
| CodePoints.CodePointCountSatisfiable | src/solvers/refinement/string_constraint_generator_code_points.cpp:243-246 | a model of the earlier log extends to one of the count axioms iff end >= begin |
| CodePoints.CountModelOrdered | src/solvers/refinement/string_constraint_generator_code_points.cpp:243-246 | every model of the count axioms has end >= begin |
| CodePoints.CountAxiomsOrdered | src/solvers/refinement/string_constraint_generator_code_points.cpp:245-246 | the two bounds can only hold together when end >= begin |
| CodePoints.CountModel | src/solvers/refinement/string_constraint_generator_code_points.cpp:243-246 | every value between the two bounds is the result of some extension of a model of the earlier log |
| CodePoints.CountModelOfLength | src/solvers/refinement/string_constraint_generator_code_points.cpp:243-246 | when end >= begin, the count axioms have a model that extends the earlier one |
| CodePoints.CodePointCountAdmitsJava | src/solvers/refinement/string_constraint_generator_code_points.cpp:229-246 | for a range inside a concrete string, Java's codePointCount of the range is an admitted result |
| CodePoints.AddOffsetByCodePoint | src/solvers/refinement/string_constraint_generator_code_points.cpp:266-282 | a fresh integer result; the log grows by exactly the two bound axioms; scoping is kept |
| CodePoints.OffsetByCodePointMeaning | src/solvers/refinement/string_constraint_generator_code_points.cpp:276-279 | the axioms hold iff index + offset <= result <= index + 2 * offset |
| CodePoints.OffsetByCodePointAdmitsJava | src/solvers/refinement/string_constraint_generator_code_points.cpp:259-279 | for a non-negative offset, Java's offsetByCodePoints answer is an admitted result whenever Java returns one |
| CodePoints.OffsetByCodePointSatisfiable | src/solvers/refinement/string_constraint_generator_code_points.cpp:276-279 | a model of the earlier log extends to one of the bound axioms iff offset >= 0 |
| CodePoints.OffsetByCodePointNegativeUnsat | src/solvers/refinement/string_constraint_generator_code_points.cpp:276-279 | with a negative offset the bounds cross and no valuation satisfies them, while Java moves "ab" back from index 2 by one code point to index 1 |
| CodePoints.AddOffsetByCodePointSigned | src/solvers/refinement/string_constraint_generator_code_points.cpp:266-282 | the corrected generator: a fresh result, two axioms, scoping kept |
| CodePoints.OffsetByCodePointSignedMeaning | src/solvers/refinement/string_constraint_generator_code_points.cpp:276-279 | the corrected bounds: index + offset .. index + 2 * offset for offset >= 0, index + 2 * offset .. index + offset below |
| CodePoints.OffsetByCodePointSignedAdmitsJava | src/solvers/refinement/string_constraint_generator_code_points.cpp:259-279 | whatever the sign of the offset, Java's offsetByCodePoints answer is admitted whenever Java returns one |
| CodePoints.OffsetByCodePointSignedAgrees | src/solvers/refinement/string_constraint_generator_code_points.cpp:276-279 | for offset >= 0 the corrected generator has the same result symbol and the same models as the original |
| Testing.PrefixGenerate | src/solvers/refinement/string_constraint_generator_testing.cpp:26-69 | flag, bound variable and witness are created in this order, and the log grows by exactly the three prefix axioms |
| Testing.AddIsPrefix | src/solvers/refinement/string_constraint_generator_testing.cpp:26-69 | a fresh flag; exactly three axioms appended; scoping is kept |
| Testing.LengthInBounds | src/solvers/refinement/string_constraint_generator_testing.cpp:40-41 | the in-bounds formula holds iff \|str\| >= \|prefix\| + offset |
| Testing.PrefixAxiomsMeaning | src/solvers/refinement/string_constraint_generator_testing.cpp:39-67 | a1-a3 hold iff: the flag implies in-bounds and a match at the offset, and its negation implies out-of-bounds or an in-bounds mismatch at the witness |
| Testing.PrefixUniversalMeaning | src/solvers/refinement/string_constraint_generator_testing.cpp:44-50 | a2 holds iff the flag implies str[i + offset] = prefix[i] for every i < \|prefix\| |
| Testing.PrefixBodyAt | src/solvers/refinement/string_constraint_generator_testing.cpp:49 | the body of a2 at bound value i compares str[i + offset] with prefix[i], the offset being evaluated outside the binder |
| Testing.PrefixWitnessMeaning | src/solvers/refinement/string_constraint_generator_testing.cpp:52-67 | a3 holds iff a false flag implies out-of-bounds, or in-bounds with 0 <= witness < \|prefix\| and a mismatch there |
| Testing.PrefixDiffMeaning | src/solvers/refinement/string_constraint_generator_testing.cpp:53-57 | the witness formula holds iff the witness is a valid prefix position where str and prefix differ |
| Testing.PrefixWitnessRedundancy | src/solvers/refinement/string_constraint_generator_testing.cpp:58-64 | re-asserting the length bound inside the negative disjunct changes no model |
| Testing.IsPrefixMeaning | src/solvers/refinement/string_constraint_generator_testing.cpp:26-69 | the appended axioms hold iff the prefix meaning holds, with in-bounds \|str\| >= \|prefix\| + offset |
| Testing.IsPrefixNegativeOffset | src/solvers/refinement/string_constraint_generator_testing.cpp:39-41 | empty prefix, negative offset: the axioms force the flag true, and a true flag is a model, while startsWith is false |
| Testing.OffsetInBounds | src/solvers/refinement/string_constraint_generator_testing.cpp:39-41 | the corrected in-bounds formula holds iff offset >= 0 and \|str\| >= \|prefix\| + offset |
| Testing.AddIsPrefixFixed | src/solvers/refinement/string_constraint_generator_testing.cpp:26-69 | the corrected generator: a fresh flag, three axioms, scoping kept |
| Testing.IsPrefixFixedMeaning | src/solvers/refinement/string_constraint_generator_testing.cpp:26-69 | the corrected axioms hold iff the prefix meaning holds, with in-bounds offset >= 0 and \|str\| >= \|prefix\| + offset |
| Testing.PrefixMeaningIsStartsWith | src/solvers/refinement/string_constraint_generator_testing.cpp:20-22 | on concrete strings, the prefix meaning forces the flag to equal startsWith(prefix, offset) |
| Testing.StartsWithMeetsPrefixMeaning | src/solvers/refinement/string_constraint_generator_testing.cpp:20-22 | the flag set to startsWith, with the first mismatch as witness, meets the prefix meaning |
| Testing.IsPrefixFixedSound | src/solvers/refinement/string_constraint_generator_testing.cpp:26-69 | in every model of the corrected axioms the flag is startsWith at the offset |
| Testing.IsPrefixFixedComplete | src/solvers/refinement/string_constraint_generator_testing.cpp:26-69 | every model of the earlier log extends to one of the corrected axioms whose flag is startsWith |
| Testing.IsPrefixFixedAgrees | src/solvers/refinement/string_constraint_generator_testing.cpp:39-67 | for offset >= 0 the corrected and the original axioms have the same flag and the same models |
| Testing.IsPrefixSound | src/solvers/refinement/string_constraint_generator_testing.cpp:26-69 | for offset >= 0, in every model of the axioms as written the flag is startsWith at the offset |
| Testing.IsPrefixComplete | src/solvers/refinement/string_constraint_generator_testing.cpp:26-69 | for offset >= 0, every model of the earlier log extends to one of the axioms as written whose flag is startsWith |
| Testing.IsPrefixCall | src/solvers/refinement/string_constraint_generator_testing.cpp:85-98 | the argument wrapper over the generator as written: the offset is 0 or the third argument, swap picks which argument is the prefix, and three axioms are appended to a well-scoped log |
| Testing.IsPrefixCallSound | src/solvers/refinement/string_constraint_generator_testing.cpp:85-98 | for a non-negative offset, in every model the flag is args[0].startsWith(args[1], offset) with swap, and args[1].startsWith(args[0], offset) without |
| Testing.IsPrefixCallNegativeOffset | src/solvers/refinement/string_constraint_generator_testing.cpp:85-98 | through the wrapper as written, an empty first argument at a negative offset admits a true flag, while startsWith is false |
| Testing.IsPrefixCallFixed | src/solvers/refinement/string_constraint_generator_testing.cpp:85-98 | the same wrapper over the corrected generator: three axioms appended, scoping kept |
| Testing.IsPrefixCallFixedSound | src/solvers/refinement/string_constraint_generator_testing.cpp:85-98 | for every offset, in every model of the corrected wrapper's axioms the flag is startsWith in the order swap selects |
| Testing.AddIsEmpty | src/solvers/refinement/string_constraint_generator_testing.cpp:113-127 | a fresh flag, two axioms, and under every valuation they hold iff the flag is \|s0\| = 0 |
| Testing.IsEmptyExact | src/solvers/refinement/string_constraint_generator_testing.cpp:113-127 | in every model the flag is isEmpty of the concrete string, and setting it so extends any model of the earlier log |
| Testing.AddIsSuffix | src/solvers/refinement/string_constraint_generator_testing.cpp:143-188 | a fresh flag, bound variable and witness; exactly three axioms appended; scoping is kept |
| Testing.Shift | src/solvers/refinement/string_constraint_generator_testing.cpp:168-169 | the shift term evaluates to the length of the string minus the length of the suffix |
| Testing.SuffixAxiomsMeaning | src/solvers/refinement/string_constraint_generator_testing.cpp:164-186 | a1-a3 hold iff the suffix meaning holds: length, match at the shift, or a mismatch witness |
| Testing.SuffixUniversalMeaning | src/solvers/refinement/string_constraint_generator_testing.cpp:167-172 | a2 holds iff the flag implies suffix[i] = str[i + \|str\| - \|suffix\|] for every i < \|suffix\| |
| Testing.SuffixWitnessMeaning | src/solvers/refinement/string_constraint_generator_testing.cpp:174-186 | a3 holds iff a false flag implies a longer suffix, or 0 <= witness < \|suffix\| with a mismatch there |
| Testing.IsSuffixMeaning | src/solvers/refinement/string_constraint_generator_testing.cpp:143-188 | the appended axioms hold iff the suffix meaning holds for the arguments swap selects |
| Testing.SuffixMeaningIsEndsWith | src/solvers/refinement/string_constraint_generator_testing.cpp:155-162 | on concrete strings, the suffix meaning forces the flag to equal endsWith |
| Testing.EndsWithMeetsSuffixMeaning | src/solvers/refinement/string_constraint_generator_testing.cpp:155-162 | the flag set to endsWith, with the first mismatch as witness, meets the suffix meaning |
| Testing.SuffixMismatch | src/solvers/refinement/string_constraint_generator_testing.cpp:159-162 | when endsWith fails on a long enough string, the first mismatch is an in-range witness |
| Testing.IsSuffixSound | src/solvers/refinement/string_constraint_generator_testing.cpp:143-188 | in every model the flag is args[0].endsWith(args[1]) with swap, and args[1].endsWith(args[0]) without |
| Testing.IsSuffixComplete | src/solvers/refinement/string_constraint_generator_testing.cpp:143-188 | every model of the earlier log extends to one of the suffix axioms whose flag is endsWith |
| Testing.ContainsGenerate | src/solvers/refinement/string_constraint_generator_testing.cpp:202-246 | flag, start position, bound variable and witness family are fresh; the log grows by exactly the four axioms |
| Testing.AddContains | src/solvers/refinement/string_constraint_generator_testing.cpp:202-246 | the generator as written: four axioms appended, scoping kept |
| Testing.ContainsAxiomsMeaning | src/solvers/refinement/string_constraint_generator_testing.cpp:219-243 | a1-a4 hold iff the contains meaning holds: length, start position in range, match at the start position, and a per-start mismatch witness when the flag is false |
| Testing.ContainsUniversalMeaning | src/solvers/refinement/string_constraint_generator_testing.cpp:229-233 | a3 holds iff the flag implies s1[i] = s0[startpos + i] for every i < \|s1\| |
| Testing.NotContainsMeaning | src/solvers/refinement/string_constraint_generator_testing.cpp:235-243 | a4 holds iff, when the flag is false and \|s0\| >= \|s1\|, each start position x has a witness k < \|s1\| with s1[k] != s0[x + k] |
| Testing.ContainsGenerateMeaning | src/solvers/refinement/string_constraint_generator_testing.cpp:202-246 | the appended axioms hold iff the contains meaning holds |
| Testing.ContainsMeaningIsContains | src/solvers/refinement/string_constraint_generator_testing.cpp:211-217 | on concrete strings, the contains meaning forces the flag to equal contains |
| Testing.MismatchAt | src/solvers/refinement/string_constraint_generator_testing.cpp:216-217 | where the needle does not occur at x, a position of the needle that differs |
| Testing.ContainsMeetsMeaning | src/solvers/refinement/string_constraint_generator_testing.cpp:211-217 | the flag set to contains, a real occurrence as start position, and the mismatch family as witness meet the contains meaning |
| Testing.ContainsGenerateComplete | src/solvers/refinement/string_constraint_generator_testing.cpp:202-246 | with the guarded a2, or a needle no longer than the string, every model of the earlier log extends to one whose flag is contains |
| Testing.ContainsSound | src/solvers/refinement/string_constraint_generator_testing.cpp:202-246 | in every model of the axioms as written the flag is s0.contains(s1) |
| Testing.ContainsComplete | src/solvers/refinement/string_constraint_generator_testing.cpp:202-246 | when \|s1\| <= \|s0\|, every model of the earlier log extends to one whose flag is contains |
| Testing.ContainsLongerNeedleUnsat | src/solvers/refinement/string_constraint_generator_testing.cpp:222-227 | when the needle is longer than the string, the axioms as written have no model, while "".contains("a") is simply false |
| Testing.AddContainsFixed | src/solvers/refinement/string_constraint_generator_testing.cpp:202-246 | the corrected generator, with a2 guarded by the flag: four axioms appended, scoping kept |
| Testing.ContainsFixedSound | src/solvers/refinement/string_constraint_generator_testing.cpp:202-246 | in every model of the corrected axioms the flag is s0.contains(s1) |
| Testing.ContainsFixedComplete | src/solvers/refinement/string_constraint_generator_testing.cpp:202-246 | for all strings, every model of the earlier log extends to one of the corrected axioms whose flag is contains |

## Left out

- The cast of the Boolean result to the requested `bool` or `c_bool` type is left out. The flag symbol itself is the result, because the cast does not change the truth value.
- The sort assertions of the generators are not checked. These are the signed bit-vector return type and the bool or `c_bool` flag type. The argument-count assertions become preconditions (`|args| == 2`, `|args| == 1`).
- `add_axioms_for_string_expr` and the `args` helper are not part of this model. String arguments arrive as string symbols that already exist in the session.
- Bit-vector widths are not modelled: integers are unbounded and never overflow. Division and remainder round toward zero as signed bit-vector operations do. The cast to the character sort keeps the low 16 bits.
- The solver is not modelled: the refinement loop, instantiation of universal axioms, and the not-contains witness handling. A valuation stands for a solver model, and the not-contains witness is a function of the start position inside the valuation.
- Symbol names are a kind, a hint and the session counter. Freshness comes from the counter, not from a global name generator.
- CodePoints.CodePointAtAgreesWithJava: stated only when the pair does not run past the end of the string. The generator reads `str[pos+1]` without a bounds check, so a high surrogate in the last position may pair with an unconstrained unit. `CodePoints.CodePointAtReadsPastEnd` exhibits this.
- CodePoints.CodePointBeforeAgreesWithJava: stated only when `str[pos-2]` lies inside the string or the unit before `pos` is not a low surrogate, for the same reason at the front. `CodePoints.CodePointBeforeReadsPastStart` exhibits this.
- CodePoints.CodePointCountAdmitsJava: states that Java's count is admitted, not that it is the only value. The generator asserts only bounds, by design.
- Testing.IsPrefixSound: stated only for a non-negative offset, because the generator as written is wrong for a negative one (see Findings). Testing.IsPrefixComplete has the same condition.
- Testing.IsPrefixCallSound: stated only for a non-negative offset, because the wrapper calls the generator as written. `Testing.IsPrefixCallNegativeOffset` shows the negative case, and `Testing.IsPrefixCallFixedSound` states the corrected wrapper for every offset.
- CodePoints.OffsetByCodePointAdmitsJava: states that Java's answer is admitted for a non-negative offset. The generator asserts only bounds, and for a negative offset see Findings.
- The other files of the string-refinement solver are not part of this model: the remaining generators, the solver itself, and the string expression type.

## Findings

| source | as written | input that shows it | evidently intended | confidence | as-written member | corrected member |
|---|---|---|---|---|---|---|
| src/solvers/refinement/string_constraint_generator_testing.cpp:39-41 | the in-bounds condition of `isPrefix` is only `\|str\| >= \|prefix\| + offset`, so a negative offset counts as in bounds | `"ab".startsWith("", -1)`: a3 cannot be met with an empty prefix, so the flag is forced true, but Java answers false | in bounds also requires `offset >= 0`, as Java's startsWith does | not executed | Testing.IsPrefixNegativeOffset | Testing.IsPrefixFixedSound |
| src/solvers/refinement/string_constraint_generator_testing.cpp:224-227 | a2 (`0 <= startpos <= \|s0\| - \|s1\|`) is asserted unconditionally | `"".contains("a")`: a2 asks for 0 <= startpos <= -1, so the axioms have no model at all, and the call's path is lost | a2 is guarded by the flag, like a1 and a3 | not executed | Testing.ContainsLongerNeedleUnsat | Testing.ContainsFixedComplete |
| src/solvers/refinement/string_constraint_generator_code_points.cpp:276-279 | the bounds `index + offset <= result <= index + 2 * offset` are asserted for every offset | `"ab".offsetByCodePoints(2, -1)`: the bounds become 1 <= result <= 0 and have no model, but Java answers 1 | for a negative offset, the bounds are taken the other way round: index + 2 * offset <= result <= index + offset | not executed | CodePoints.OffsetByCodePointNegativeUnsat | CodePoints.OffsetByCodePointSignedAdmitsJava |
