# MIL primitives, closure-definition bookkeeping and external generators

A Dafny model of three self-contained parts of the mil-tools MIL back end.

- **Primitives** (`src/mil/Prim.java`, `src/mil/PrimBinFOp.java`, `src/mil/NonZero.java`):
  - the purity scale and its predicates, and the purity labels;
  - the literal-evaluation rules (`op`) of the word, flag and relational primitives, on Java `long` words (wrap-around modulo 2^64, six-bit shift counts, truncating division);
  - the `bnotDual` table;
  - the growable primitive table with `exec` and `showPrim`;
  - the divide-by-zero checks of `div` and `rem`;
  - the per-primitive specialization cache;
  - the memoized split of `load64`/`store64` into two 32-bit accesses on a 32-bit target;
  - constant folding of flag operators;
  - the invariant of non-zero constants that makes `nzdiv` pure.
- **Closure definitions** (`src/mil/ClosureDefn.java`):
  - the unused-argument analysis (`countUnusedArgs`, `duplicated`, `usedVars`, `removeUnusedTemps`);
  - duplicate detection in a bucket table (`findIn`, `alphaClosureDefn`);
  - the source/join rule of invariant analysis (`updateSources`, `propagateSources`);
  - the cache of closures derived for known constructors (`deriveWithKnownCons`).
- **Externals** (`src/mil/External.java`):
  - generator dispatch (`generateTail`);
  - the `primBitFromLiteral` and `primBitNegate` generators;
  - `topLevelrepTransform`;
  - how externals sit out the other passes.

Words are `int`s in [-2^63, 2^63) with explicit wrap, mask and truncation helpers (module `Words`). Generated MIL is a small `Code`/`Tail` datatype with integer temporaries (module `Mil`). Temporaries come from an explicit counter, so "fresh" is a statement about numbers. A MIL tail whose structure the analyses never inspect is a type parameter. Its `summary`, `alphaTail` and used-variable functions are then function parameters.

Modules:

| file | module | contents |
|---|---|---|
| outcomes.dfy | Outcomes | `Option` and `Result` |
| words.dfy | Words | Java `long` arithmetic |
| decimal.dfy | Decimal | decimal text of integers and its parser |
| prims.dfy | Prims | `Prim.java` except the `load64`/`store64` rewrites |
| mil.dfy | Mil | atoms, tails, code, blocks, closures |
| primrep.dfy | PrimRep | the `load64`/`store64` rewrites and a 32-bit evaluator for them |
| primbinfop.dfy | PrimBinFOp | `fold` |
| nonzero.dfy | NonZero | `NonZero` constants |
| closuredefn.dfy | ClosureDefn | `ClosureDefn.java` |
| external.dfy | External | `External.java` |

## Model

| member | source | states |
|---|---|---|
| Words.ShiftCount | src/mil/Prim.java:627-629 | a Java shift uses its count modulo 64: the result is below 64 and congruent to the count |
| Words.JDiv | src/mil/Prim.java:845-852 | `n / d` on longs truncates toward zero, except that MIN_VALUE / -1 wraps back to MIN_VALUE |
| Words.JRem | src/mil/Prim.java:909-916 | `n % d` on longs is smaller than the divisor in magnitude and is zero or has the dividend's sign |
| Words.DivRemIdentity | src/mil/Prim.java:845-916 | quotient and remainder satisfy Java's identity `(n / d) * d + n % d == n` under wrap-around, for every non-zero divisor |
| Decimal.ShowRoundTrip | src/mil/NonZero.java:40-42 | the decimal text used for words and primitive numbers parses back to the same integer |
| Decimal.ShowInjective | src/mil/Prim.java:1482-1484 | distinct integers print differently, so `?prim_i` names distinct indices distinctly |
| Prims.PurityScale | src/mil/Prim.java:60-84 | pure is purity 0, doesntReturn is purity >= 4, pure implies repeatable implies no effect, and a primitive that does not return has an effect |
| Prims.PurityLabel | src/mil/Prim.java:86-91 | a label exists exactly for purities 0..4 and is one of the five labels |
| Prims.PurityFromLabel | src/mil/Prim.java:93-101 | the result is the first index holding the label, or -1 exactly when the text is no label |
| Prims.PurityLabelRoundTrip | src/mil/Prim.java:86-101 | looking up the label of any valid purity gives that purity back |
| Prims.DivisionPurity | src/mil/Prim.java:838-966 | `div` and `rem` are not repeatable, `nzdiv` is pure, and exactly `halt` and `loop` do not return |
| Prims.UnWordEval | src/mil/Prim.java:172-716 | `not n` and `n` add up to -1 (all ones), and `neg n` and `n` add up to 0 modulo 2^64 |
| Prims.BinWordEval | src/mil/Prim.java:216-816 | `add`, `sub`, `mul` agree with exact arithmetic modulo 2^64; `and`, `or`, `xor` combine the two's complement patterns bit by bit; `shl` multiplies by 2^(count mod 64) modulo 2^64; `ashr` keeps the sign and never grows the magnitude; a shift by a multiple of 64 changes nothing |
| Prims.AddSubInverse | src/mil/Prim.java:758-789 | `sub` undoes `add` on wrapped words |
| Prims.NotIsNegMinusOne | src/mil/Prim.java:172-174 | `not n` equals `neg n` minus one on wrapped words, and `neg` is an involution |
| Prims.XorSelf | src/mil/Prim.java:274-276 | a word xor-ed with itself is zero |
| Prims.ShiftCountMasked | src/mil/Prim.java:620-687 | `shl`, `lshr` and `ashr` depend on their count only modulo 64 |
| Prims.FlagEval | src/mil/Prim.java:472-592 | `blt`, `ble`, `bgt`, `bge`, `beq` and `bxor` are `<`, `<=`, `>`, `>=`, `==` and `!=` under false < true |
| Prims.RelEval | src/mil/Prim.java:1243-1363 | the sign-bit xor formulas of `primUlt`..`primUge` are exactly unsigned comparison of the 64-bit patterns |
| Prims.BnotEval | src/mil/Prim.java:303-305 | `bnot` swaps false and true |
| Prims.FlagToWordEval | src/mil/Prim.java:1398-1400 | `flagToWord` maps false to 0 and true to 1 |
| Prims.BnotDual | src/mil/Prim.java:413-1371 | a dual is a different primitive of the same operand class: flag operators have flag duals and relational operators relational ones |
| Prims.DualNegates | src/mil/Prim.java:413-1371 | whenever `q` is the `bnotDual` of `p`, `q` gives `bnot` of `p` on every input, and the dual of `q` is `p` again |
| Prims.DualDomain | src/mil/Prim.java:1541-1543 | exactly the flag comparisons, `bxor`, `beq` and the relational primitives have a dual; every other primitive has none |
| Prims.Grown | src/mil/Prim.java:1464-1470 | growing the table doubles its capacity and keeps every earlier slot |
| Prims.AddToPrimTable | src/mil/Prim.java:1461-1473 | adding a primitive returns the old count as its index, stores it there, keeps every earlier entry and never shrinks below 40 slots |
| Prims.RegisterAllConsecutive | src/mil/Prim.java:43-48 | primitives registered in order receive consecutive indices from the current count, each holding its own primitive |
| Prims.IndicesFromZero | src/mil/Prim.java:1461-1473 | on an empty table the indices handed out are 0, 1, 2, ... |
| Prims.ShowPrim | src/mil/Prim.java:1482-1484 | `showPrim` gives the primitive's name inside the table and `?prim_i` outside it |
| Prims.ShowPrimStable | src/mil/Prim.java:1461-1484 | registering another primitive never changes the name shown for an existing index |
| Prims.ExecKind | src/mil/Prim.java:845-852 | `div`/`rem` fail exactly on a zero divisor and otherwise store the truncating quotient/remainder in the first slot; `halt` always fails |
| Prims.Exec | src/mil/Prim.java:1475-1480 | running a primitive number outside the table fails with "is not defined"; inside, the primitive's own `exec` runs |
| Prims.DivisionFailsOnlyOnZero | src/mil/Prim.java:909-916 | a zero divisor fails, any other divisor runs and yields results that satisfy the division identity |
| Prims.FindClone | src/mil/Prim.java:1575-1580 | the search returns the first cached clone whose type matches, or none exactly when no clone matches |
| Prims.SpecializePrim | src/mil/Prim.java:1569-1588 | (corrected: the new clone is prepended to the full cached list) the result has the requested type; it is the primitive itself exactly when its own type matches, and otherwise a clone recorded in its cache; the table only grows and the cache stays valid |
| Prims.SpecializeReturnsCached | src/mil/Prim.java:1571-1580 | (corrected definition; the early returns are as written) a primitive or clone that already has the requested type is returned without changing the table or the cache |
| Prims.SpecializeKeepsCache | src/mil/Prim.java:1575-1585 | (corrected: the code as written drops the earlier clones at line 1585, see Findings) specializing never drops an earlier clone of any primitive from the cache |
| Prims.SpecializeIdempotent | src/mil/Prim.java:1569-1588 | (corrected) repeating the same request returns the same primitive and changes nothing |
| Prims.SpecializePrimAsWritten | src/mil/Prim.java:1569-1588 | the code as written returns a primitive of the requested type |
| Prims.SpecializeAsWrittenForgets | src/mil/Prim.java:1575-1585 | as written, requests for types A, B, A create two different clones for A |
| PrimRep.Load64Impl | src/mil/Prim.java:1749-1766 | the split load block takes one parameter and mentions only the four temporaries it takes from the counter |
| PrimRep.Store64Impl | src/mil/Prim.java:1901-1916 | the split store block takes three parameters and mentions only the four temporaries it takes from the counter |
| PrimRep.RepTransformWide | src/mil/Prim.java:1745-1773 | on 64 bits the primitive call stays; on 32 bits it becomes a call of the memoized block, built once; any other word size is an internal error |
| PrimRep.Load64Memoized | src/mil/Prim.java:1748-1766 | two `load64` rewrites on 32 bits call the same block |
| PrimRep.Store64Memoized | src/mil/Prim.java:1900-1916 | two `store64` rewrites on 32 bits call the same block |
| PrimRep.Load64SplitCorrect | src/mil/Prim.java:1749-1765 | the two 32-bit loads return the low and high halves of the little-endian 64-bit word at the address |
| PrimRep.Store64SplitCorrect | src/mil/Prim.java:1901-1914 | the two 32-bit stores leave memory as one little-endian 64-bit store of `lsw + 2^32 * msw` would |
| PrimBinFOp.Fold | src/mil/PrimBinFOp.java:34-37 | folding is code with no bindings that returns exactly one flag constant, the operator's value |
| PrimBinFOp.FoldConnectives | src/mil/Prim.java:347-444 | folded `band`, `bor`, `bxor` and `beq` are boolean and, or, inequality and equality |
| PrimBinFOp.FoldComparisons | src/mil/Prim.java:479-592 | folded flag comparisons order false below true |
| PrimBinFOp.FoldDual | src/mil/Prim.java:413-600 | folding the dual of a flag operator returns the negation of folding the operator |
| NonZero.Make | src/mil/NonZero.java:28-33 | a constant is built exactly when the normalised value is non-zero, and then holds that value; a zero is the internal error "NonZero with zero value" |
| NonZero.SameNonZeroIsEquality | src/mil/NonZero.java:53-55 | `sameNonZero` is reflexive, symmetric, transitive, and coincides with equality of constants |
| NonZero.GetNonZero | src/mil/NonZero.java:67-73 | a non-zero constant yields its stored value |
| NonZero.GetNonZeroRecognises | src/mil/NonZero.java:67-73 | the result is non-zero exactly for non-zero constants, so 0 means "not a NonZero" |
| NonZero.ToString | src/mil/NonZero.java:40-42 | the text is the decimal value followed by `nz` |
| NonZero.ToStringInjective | src/mil/NonZero.java:40-42 | different constants print differently |
| NonZero.InstantiateIsNzdivDivisor | src/mil/NonZero.java:58-60 | a non-zero constant has the type of `nzdiv`'s divisor |
| NonZero.NonZeroDivisorNeverFails | src/mil/Prim.java:964-966 | `div` and `rem` never fail on a non-zero constant divisor, which is why `nzdiv` can be pure |
| ClosureDefn.NoneUsedValid | src/mil/ClosureDefn.java:304-310 | the initial state (no bitmap, count 0) is consistent: nothing is marked used |
| ClosureDefn.CountTrueSet | src/mil/ClosureDefn.java:345-346 | setting one unset flag raises the number of true flags by one, matching the `numUsedArgs++` |
| ClosureDefn.CountTrueFull | src/mil/ClosureDefn.java:336-337 | when the count equals the length, every flag is set, so the scan may be skipped |
| ClosureDefn.Duplicated | src/mil/ClosureDefn.java:363-371 | true exactly when the temporary at position i also occurs at an earlier position |
| ClosureDefn.CountUnusedArgs | src/mil/ClosureDefn.java:330-354 | an entrypoint reports 0 and changes nothing; otherwise the bitmap stays consistent with its count, flags only turn on, a position is newly marked exactly when its temporary is used in the body and not duplicated, and the result is the number of positions left unmarked |
| ClosureDefn.AddArgsFrom | src/mil/ClosureDefn.java:390-394 | the loop adds exactly the variables at flagged positions |
| ClosureDefn.UsedVarsOfCall | src/mil/ClosureDefn.java:386-397 | a call of an entrypoint uses all its argument variables; otherwise exactly those at used positions (none without a bitmap) |
| ClosureDefn.RemoveUnusedTemps | src/mil/ClosureDefn.java:403-417 | an entrypoint, or a definition with all arguments used, keeps its destinations; otherwise exactly the flagged destinations are kept, in order, and there are `numUsedArgs` of them |
| ClosureDefn.KeptCount | src/mil/ClosureDefn.java:405-410 | the number of kept destinations is the number of true flags |
| ClosureDefn.KeptAll | src/mil/ClosureDefn.java:407-410 | when every position is flagged nothing is removed |
| ClosureDefn.KeptNone | src/mil/ClosureDefn.java:408 | without a bitmap every destination is removed |
| ClosureDefn.AlphaClosureDefn | src/mil/ClosureDefn.java:531-551 | alpha-equivalent definitions have equal parameter and argument counts and alpha-equivalent tails over their bound variables |
| ClosureDefn.AlphaClosureDefnSymmetric | src/mil/ClosureDefn.java:531-551 | the test is symmetric whenever the tail test is |
| ClosureDefn.BucketIndex | src/mil/ClosureDefn.java:572-575 | the adjusted `summary % length` always lies in [0, length) and is the Euclidean remainder |
| ClosureDefn.ScanBucket | src/mil/ClosureDefn.java:577-588 | an entrypoint is blocked exactly when some entry matches; a replacement is the first matching entry with a compatible declared type, no earlier entry qualifying; no match means no entry qualifies |
| ClosureDefn.FindIn | src/mil/ClosureDefn.java:570-594 | an entrypoint never receives a replacement; a replacement is the first entry of the bucket that matches summary, alpha-equivalence and declared type; otherwise the definition is prepended to its bucket with its replacement cleared and the other buckets unchanged |
| ClosureDefn.FindComp | src/mil/ClosureDefn.java:485 | the result is the argument index of the first component for the definition, or -1 exactly when there is none |
| ClosureDefn.UpdateSourcesWith | src/mil/ClosureDefn.java:484-491 | only entry i changes: a new component is added when d is absent, an existing component from another argument collapses it to any, and the same argument leaves it unchanged |
| ClosureDefn.UpdateSourcesAccounts | src/mil/ClosureDefn.java:484-491 | an update only moves a source up (a join only gains components, any is top), and afterwards the source is any or names j as d's argument |
| ClosureDefn.PropagateSources | src/mil/ClosureDefn.java:497-508 | every entry is replaced by its propagated value, in order; the result is true exactly when some new source is not identical (`!=` on objects) to the old one, and false only when nothing changed |
| ClosureDefn.FirstWithCons | src/mil/ClosureDefn.java:233-239 | the search finds the first derived closure with the requested pattern, no earlier one having it, or reports that none has it |
| ClosureDefn.DeriveWithKnownCons | src/mil/ClosureDefn.java:231-283 | an existing match is reused, or declined when it is the closure itself; otherwise a new closure is recorded whose fresh arguments number as many as the original's, and the arena stays closed |
| ClosureDefn.DeriveThenReuse | src/mil/ClosureDefn.java:231-256 | after a closure is derived for a pattern, asking again for the same pattern reuses it |
| ClosureDefn.DeriveFromDerivedDeclines | src/mil/ClosureDefn.java:262-265 | a closure derived without new parameters lists itself, so deriving from it for the same pattern declines |
| External.JavaIntMask | src/mil/External.java:335 | the `int` expression `(1 << rem) - 1` always lies in the 32-bit range |
| External.LowMask | src/mil/External.java:330-335 | the intended mask has the `rem` low bits set and fits a long |
| External.JavaIntMaskBelow32 | src/mil/External.java:335 | for shift counts below 32 the `int` expression is the intended mask, `rem == 31` included |
| External.JavaIntMaskFrom32 | src/mil/External.java:335 | for shift counts from 32 to 63 the `int` expression is never the intended mask |
| External.JavaIntMaskAt40 | src/mil/External.java:335 | at `rem == 40` the expression gives 255 instead of 2^40 - 1 |
| External.NegLoop | src/mil/External.java:339-342 | working down from the top, each result temporary is bound to `neg` of a new parameter numbered from the counter, and the bindings built so far follow |
| External.NegateBlock | src/mil/External.java:329-345 | the block binds the n result temporaries in order, each from its own fresh parameter (the top word first when it is partial), and returns all n of them |
| External.NegateWords | src/mil/External.java:326-349 | the closure has no stored fields, n fresh arguments passed straight to a block of n fresh parameters, which returns the n result temporaries bound in order: the partial top word by xor with the mask, every other word by `neg`; every temporary it mentions lies between the counter before and after |
| External.BitNegateAsWritten | src/mil/External.java:322-352 | the generator as written succeeds exactly when the width is a natural |
| External.BitNegateGen | src/mil/External.java:322-352 | the corrected generator succeeds exactly when the width is a natural |
| External.BitNegateMaskCoversUsedBits | src/mil/External.java:330-336 | with the corrected mask, the top-word xor flips exactly the used bits on both word sizes |
| External.BitNegateAsWrittenMaskAt40 | src/mil/External.java:335 | as written, a 40-bit negation on 64-bit words xors its word with 255 |
| External.BitFromLiteralGen | src/mil/External.java:305-315 | succeeds exactly when both type arguments are naturals, giving a closure with no stored fields or arguments that returns the literal's words |
| External.GenerateTail | src/mil/External.java:290-298 | nothing without `ref` or `ts`; a result only from a registered generator with enough type arguments, and then the generator's own result (with the corrected `primBitNegate` mask) |
| External.GenerateTailFresh | src/mil/External.java:290-349 | generated code uses only new temporaries: the counter never moves back and every temporary of the tail lies between the counter before and after; a `primBitFromLiteral` closure mentions none and leaves the counter alone |
| External.TopLevelRepTransform | src/mil/External.java:239-273 | (generating with the corrected `primBitNegate` mask) without generated code: kept, re-declared at the single new representation without `ref`/`ts`, or an internal error for several words; with generated code: a top level with one left-hand side per component, or one for an unchanged representation |
| External.ReplacedExternalNeverGenerates | src/mil/External.java:251 | a re-declared external keeps its name and never yields generated code on a later transformation |
| External.TopLevelLhsCount | src/mil/External.java:255-265 | a generated top level has one left-hand side per representation component, or one |
| External.ExternalsAreInert | src/mil/External.java:83-232 | an external cannot be specialized as an entrypoint, has no unused arguments, no dependencies and is never a duplicate |

## Left out

- LLVM code generation, bytecode generation, the interpreter's frame layout beyond the stack slots read, and all printing and debug logging (`debug.Log`, `MILProgram.report`, `printTable`). These are output formatting and I/O.
- Type inference, canonical types and representation calculation (`canonBlockType`, `canonType`, `repCalc`, `alphaEquiv` on types). These depend on the unseen type machinery. Block types are compared by equality, and the representation of an external's type is a parameter.
- The `exec` bodies of the word, flag and relational operator classes. They are defined outside `Prim.java`, so the model reports them as delegated. The `op` rules they use are modelled.
- The `PrimBinFOp` constructor calls a `Prim` constructor that does not exist in `Prim.java`. Only `op` and `fold` are modelled.
- `Word.fromLong` (the word-size normalisation of a NonZero) is a function parameter. `IntConst.words` (the words of a literal) is a function parameter too.
- `Type.numWords` is not part of this model. It is taken to be the ceiling of width / word size. `Type.WORDSIZE` is a parameter, 32 or 64.
- `Type.getNat` is not part of this model. A type argument is a natural or another type.
- BitNegateGen, BitNegateAsWritten: `BigInteger.intValue` of the width is taken as exact. Widths of 2^31 and above, whose 32-bit truncation would differ, are not modelled.
- BitFromLiteralGen: the width is likewise taken as exact.
- External.GenerateTail, External.TopLevelRepTransform: they dispatch `primBitNegate` to the corrected generator BitNegateGen, whose top-word mask is `2^rem - 1` on longs. The source's `int` mask is modelled by BitNegateAsWritten and shown under Findings.
- External.TopLevelRepTransform: the error message omits the printed declared type, whose text is produced by unseen code.
- External.SpecializeEntry: the text of `ExternalAsEntrypoint` is produced by an unseen class. The model gives its own message.
- ClosureDefn: `Join.find`, `Src.propagate`, `hasKnownCons`, `Call.makeTempsFor`, `mergeParams` and `addInitializers` are not part of this model.
  - `Join.find` is taken to return the argument index of the first component for the definition.
  - Propagation is a parameter.
  - `hasKnownCons` is equality of patterns; the base class answers false, which the model reflects by giving closures without a pattern `None`.
  - The new parameters come from a `merge` parameter.
  - The derived closure's block body and tail are not built.
- ClosureDefn: object identity (`==` on temporaries and definitions) is value equality of their numbers and names. Identity of `Src` objects is the parameter `same` of PropagateSources, which is only required to imply equal contents. Sets of temporaries (`Temps`) are modelled as sets.
- ClosureDefn.BucketIndex: the summary is an unbounded integer. Java's `%` with the negative-index adjustment is stated as the Euclidean remainder, which it equals for every `int`.
- `removeUnusedArgs` and the rewriting of calls after pruning are not modelled.
- PrimRep: the 32-bit evaluator interprets only `load32`, `store32` and `add` on 32-bit values, which is all the two split blocks use.

## Findings

| source | as written | input that shows it | evidently intended | confidence | as-written member | corrected member |
|---|---|---|---|---|---|---|
| src/mil/Prim.java:1575-1585 | the lookup loop advances `ps` until it is null, so line 1585 stores `new Prims(newP, ps)` with `ps` null and earlier clones are dropped | specialize one primitive to type A, then to B, then to A again: the third request makes a second clone for A | prepend the new clone to the full cached list, so repeated requests return the same clone | not executed | Prims.SpecializeAsWrittenForgets | Prims.SpecializeIdempotent |
| src/mil/External.java:335 | the mask `(1 << rem) - 1` is computed on 32-bit `int`s, so the shift count is taken modulo 32 | a 40-bit vector with 64-bit words: `rem = 40`, the mask is 255 | a mask with all `rem` low bits set, `2^rem - 1`, computed on longs | not executed | External.BitNegateAsWrittenMaskAt40 | External.BitNegateMaskCoversUsedBits |
