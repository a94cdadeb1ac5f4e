/** External definitions (`src/mil/External.java`): named primitives
    implemented outside MIL. During representation transformation an
    external whose `ref` names a registered generator is replaced by MIL
    code the generator builds from the external's type arguments; any other
    external is kept, or re-declared at its new single-word representation. */
module External {
  import opened Words
  import opened Prims
  import opened Mil
  import opened Outcomes

  /** A type argument of an external: a type-level natural, or any other type. */
  datatype TypeArg = TNat(n: nat) | TCon(name: string)

  /** `Type.getNat`: the natural a type argument denotes, if any. */
  function GetNat(t: TypeArg): Option<nat>
  {
    match t
    case TNat(n) => Some(n)
    case TCon(_) => None
  }

  datatype Generator = BitFromLiteral | BitNegate

  /** The number of type arguments a generator reads. */
  function Needs(g: Generator): nat
  {
    match g
    case BitFromLiteral => 2
    case BitNegate => 1
  }

  /** The generator table, keyed by `ref`. */
  const Generators: map<string, Generator> :=
    map["primBitFromLiteral" := BitFromLiteral, "primBitNegate" := BitNegate]

  // ---------------------------------------------------------------------
  // Java `int` arithmetic for the partial-word mask

  const TWO31: int := 0x8000_0000
  const TWO32: int := 0x1_0000_0000

  /** Wrap an integer into Java's 32-bit `int` range. */
  function Wrap32(x: int): (r: int)
    ensures -TWO31 <= r < TWO31
    ensures (r - x) % TWO32 == 0
    ensures -TWO31 <= x < TWO31 ==> r == x
  {
    var m := (x + TWO31) % TWO32;
    assert (m - TWO31 - x) % TWO32 == 0 by {
      assert m - TWO31 - x == -TWO32 * ((x + TWO31) / TWO32);
    }
    m - TWO31
  }

  /** `(1 << rem) - 1` evaluated on Java `int`s, as the source writes it:
      the shift count is taken modulo 32 and the subtraction wraps. */
  function JavaIntMask(rem: int): (m: int)
    ensures -TWO31 <= m < TWO31
  {
    Wrap32(Wrap32(Pow2(rem % 32)) - 1)
  }

  /** The mask with the low `rem` bits set: the bits of a partial top word
      that belong to the bit vector. */
  function LowMask(rem: nat): (m: nat)
    requires rem < 64
    ensures m < TWO63
    ensures m + 1 == Pow2(rem)
  {
    Pow2Monotone(rem, 63);
    Pow2Of63And64();
    Pow2(rem) - 1
  }

  /** For a shift count below 32 the `int` expression computes the intended
      mask, the wrapping case `rem == 31` included. */
  lemma JavaIntMaskBelow32(rem: nat)
    requires rem < 32
    ensures JavaIntMask(rem) == LowMask(rem)
  {
    Pow2Of32();
    assert rem % 32 == rem;
    if rem < 31 {
      Pow2Monotone(rem, 30);
      assert Pow2(31) == 2 * Pow2(30);
      assert Pow2(rem) < TWO31;
    } else {
      assert Pow2(rem) == TWO31;
      assert Wrap32(TWO31) == -TWO31;
      assert Wrap32(-TWO31 - 1) == TWO31 - 1;
    }
  }

  /** From 32 bits on, the `int` expression cannot produce the intended mask:
      its value is below 2^31, while the mask has at least 32 bits set. */
  lemma JavaIntMaskFrom32(rem: nat)
    requires 32 <= rem < 64
    ensures JavaIntMask(rem) != LowMask(rem)
  {
    Pow2Of32();
    Pow2Monotone(32, rem);
  }

  /** A concrete case: a 40-bit vector on a 64-bit target has `rem == 40`,
      and the source's mask keeps only the low 8 bits. */
  lemma JavaIntMaskAt40()
    ensures JavaIntMask(40) == 255
    ensures LowMask(40) == 0xFF_FFFF_FFFF
  {
    assert Pow2(8) == 256;
    Pow2Add(8, 32);
    Pow2Of32();
  }

  // ---------------------------------------------------------------------
  // The `primBitNegate` generator

  /** `Type.numWords`: the words needed for a bit vector of `width` bits. */
  function NumWords(width: nat, wordSize: nat): nat
    requires wordSize > 0
  {
    (width + wordSize - 1) / wordSize
  }

  /** A partial top word is one of the words counted. */
  lemma PartialWordCounted(width: nat, wordSize: nat)
    requires wordSize > 0
    ensures width % wordSize != 0 ==> NumWords(width, wordSize) >= 1
  {
    if width % wordSize != 0 {
      var a := width + wordSize - 1;
      assert a >= wordSize;
      assert a == (a / wordSize) * wordSize + a % wordSize;
      assert a % wordSize < wordSize;
    }
  }

  /** The negation step bound at position `i` of the negate block, whose
      parameter is `p`. */
  function NegStep(p: Temp): Tail
  {
    PrimCall(UnWord(NegOp), [Var(p)])
  }

  /** The `while (n > 0)` loop of the generator: working down from position
      `n - 1`, each result temporary `vs[i]` is bound to `neg` of a new
      temporary, which replaces `vs[i]` as the block's parameter. */
  function {:induction false} NegLoop(n: nat, vs: seq<Temp>, code: Code, next: Temp): (r: (seq<Temp>, Code, Temp))
    requires n <= |vs|
    ensures |r.0| == |vs|
    ensures forall i :: n <= i < |vs| ==> r.0[i] == vs[i]
    ensures forall i :: 0 <= i < n ==> r.0[i] == next + (n - 1 - i)
    ensures r.2 == next + n
    ensures |Binds(r.1)| == n + |Binds(code)|
    ensures forall i :: 0 <= i < n ==> Binds(r.1)[i] == ([vs[i]], NegStep(r.0[i]))
    ensures Binds(r.1)[n..] == Binds(code)
    ensures Final(r.1) == Final(code)
    decreases n
  {
    if n == 0 then (vs, code, next)
    else
      var code' := Bind([vs[n - 1]], NegStep(next), code);
      var r := NegLoop(n - 1, vs[n - 1 := next], code', next + 1);
      assert Binds(code') == [([vs[n - 1]], NegStep(next))] + Binds(code);
      assert Binds(r.1)[n - 1] == Binds(code')[0];
      assert Binds(r.1)[n..] == Binds(r.1)[n - 1..][1..];
      r
  }

  /** What the negate block binds at position `i` of `n`: the partial top
      word, when there is one, is xor-ed with `topMask`; every other word
      is negated. */
  function NegateStep(i: nat, n: nat, rem: int, p: Temp, topMask: Long): Tail
  {
    if i == n - 1 && rem != 0 then PrimCall(BinWord(XorOp), [Var(p), WordConst(topMask)])
    else NegStep(p)
  }

  /** The block of a negation over `n` words: it returns the results
      `res, res + 1, ...` and takes parameters numbered from `first`, the
      top word's first; the top word is xor-ed with `topMask` when `rem` is
      non-zero. */
  function NegateBlock(n: nat, rem: int, res: Temp, first: Temp, topMask: Long): (r: (Block, Temp))
    requires rem != 0 ==> n >= 1
    ensures r.1 == first + n
    ensures |r.0.params| == n
    ensures forall i :: 0 <= i < n ==> r.0.params[i] == first + n - 1 - i
    ensures Final(r.0.body) == Return(Vars(MakeTemps(res, n)))
    ensures |Binds(r.0.body)| == n
    ensures forall i :: 0 <= i < n ==>
      Binds(r.0.body)[i] == ([res + i], NegateStep(i, n, rem, r.0.params[i], topMask))
  {
    var vs := MakeTemps(res, n);
    var code := Done(Return(Vars(vs)));
    var top := if rem != 0 then 1 else 0;
    var vs1 := if rem != 0 then vs[n - 1 := first] else vs;
    var code1 :=
      if rem != 0 then Bind([vs[n - 1]], PrimCall(BinWord(XorOp), [Var(first), WordConst(topMask)]), code)
      else code;
    assert Final(code1) == Return(Vars(vs));
    assert |Binds(code1)| == top;
    assert rem != 0 ==> Binds(code1)[0] == ([vs[n - 1]], PrimCall(BinWord(XorOp), [Var(first), WordConst(topMask)]));
    var (ps, body, t2) := NegLoop(n - top, vs1, code1, first + top);
    (Block(ps, body), t2)
  }

  /** The closure `primBitNegate` generates for `n` words whose top word
      uses `rem` bits (all of them when `rem` is zero), with the partial-word
      mask supplied by the caller. Temporaries come from the counter `next`
      in the source's order: the `n` results, the `n` closure arguments,
      then one new block parameter per word, from the top word down. Every
      temporary it mentions is new. */
  function NegateWords(n: nat, rem: int, next: Temp, topMask: Long): (r: (Tail, Temp))
    requires rem != 0 ==> n >= 1
    ensures r.1 == next + 3 * n
    ensures r.0.ClosAlloc? && r.0.cargs == []
    ensures var k := r.0.k;
      && k.stored == [] && k.args == MakeTemps(next + n, n)
      && k.tail.BlockCall? && k.tail.bargs == Vars(k.args)
      && var b := k.tail.b;
      && |b.params| == n
      && (forall i :: 0 <= i < n ==> b.params[i] == next + 3 * n - 1 - i)
      && Final(b.body) == Return(Vars(MakeTemps(next, n)))
      && |Binds(b.body)| == n
      && (forall i :: 0 <= i < n ==>
            Binds(b.body)[i] == ([next + i], NegateStep(i, n, rem, b.params[i], topMask)))
    ensures Within(TailTemps(r.0), next, r.1)
  {
    var ws := MakeTemps(next + n, n);
    var (b, t2) := NegateBlock(n, rem, next, next + 2 * n, topMask);
    NegateBlockFresh(b, n, rem, next, next + 2 * n, topMask);
    MakeTempsWithin(next + n, n);
    ForwardingClosureTemps(ws, b);
    (ClosAlloc(Closure([], ws, BlockCall(b, Vars(ws))), []), t2)
  }

  /** The closure for a `width`-bit vector: `Type.numWords` words, the top
      one using `width % wordSize` bits. */
  function NegateClosure(width: nat, wordSize: nat, next: Temp, topMask: Long): (r: (Tail, Temp))
    requires wordSize > 0
  {
    PartialWordCounted(width, wordSize);
    NegateWords(NumWords(width, wordSize), width % wordSize, next, topMask)
  }

  lemma VarsTemps(ts: seq<Temp>)
    ensures AtomTemps(Vars(ts)) == TempSet(ts)
  {
    assert forall x :: x in TempSet(ts) ==> x in AtomTemps(Vars(ts)) by {
      forall x | x in TempSet(ts) ensures x in AtomTemps(Vars(ts)) {
        var i :| 0 <= i < |ts| && ts[i] == x;
        assert Vars(ts)[i] == Var(x);
      }
    }
  }

  /** A negate step mentions only its parameter. */
  lemma NegateStepTemps(i: nat, n: nat, rem: int, p: Temp, topMask: Long)
    ensures TailTemps(NegateStep(i, n, rem, p, topMask)) == {p}
  {
    var xs := NegateStep(i, n, rem, p, topMask).args;
    assert xs[0] == Var(p);
    assert forall j :: 0 <= j < |xs| && xs[j].Var? ==> xs[j].t == p;
  }

  lemma MakeTempsWithin(lo: Temp, n: nat)
    ensures Within(TempSet(MakeTemps(lo, n)), lo, lo + n)
    ensures Within(AtomTemps(Vars(MakeTemps(lo, n))), lo, lo + n)
  {
    VarsTemps(MakeTemps(lo, n));
  }

  /** A block of the negate block's shape mentions only its results
      `[res, res + n)` and its parameters `[first, first + n)`. */
  lemma NegateBlockFresh(b: Block, n: nat, rem: int, res: Temp, first: Temp, topMask: Long)
    requires res <= first
    requires |b.params| == n && forall i :: 0 <= i < n ==> b.params[i] == first + n - 1 - i
    requires Final(b.body) == Return(Vars(MakeTemps(res, n)))
    requires |Binds(b.body)| == n
    requires forall i :: 0 <= i < n ==> Binds(b.body)[i] == ([res + i], NegateStep(i, n, rem, b.params[i], topMask))
    ensures Within(BlockTemps(b), res, first + n)
  {
    MakeTempsWithin(res, n);
    forall i | 0 <= i < |Binds(b.body)|
      ensures Within(TempSet(Binds(b.body)[i].0), res, first + n)
      ensures Within(TailTemps(Binds(b.body)[i].1), res, first + n)
    {
      assert TempSet([res + i]) == {res + i};
      NegateStepTemps(i, n, rem, b.params[i], topMask);
    }
    CodeTempsWithin(b.body, res, first + n);
  }

  /** A closure with no stored fields that passes its arguments straight
      to a block mentions only the block's and the arguments' temporaries. */
  lemma ForwardingClosureTemps(ws: seq<Temp>, b: Block)
    ensures TailTemps(ClosAlloc(Closure([], ws, BlockCall(b, Vars(ws))), [])) == BlockTemps(b) + TempSet(ws)
  {
    var k := Closure([], ws, BlockCall(b, Vars(ws)));
    VarsTemps(ws);
    assert TempSet([]) == {};
    assert AtomTemps([]) == {};
    assert TailTemps(k.tail) == BlockTemps(b) + TempSet(ws);
    assert ClosureTemps(k) == TempSet(ws) + TailTemps(k.tail);
  }

  /** The generator as the source writes it: the top-word mask is the `int`
      expression `(1 << rem) - 1`. */
  function BitNegateAsWritten(ts: seq<TypeArg>, wordSize: nat, next: Temp): (r: Option<(Tail, Temp)>)
    requires |ts| >= 1 && wordSize > 0
    ensures r.Some? <==> ts[0].TNat?
  {
    match GetNat(ts[0])
    case None => None
    case Some(w) => Some(NegateClosure(w, wordSize, next, JavaIntMask(w % wordSize)))
  }

  /** The generator with the intended mask: all `rem` used bits of the top
      word. */
  function BitNegateGen(ts: seq<TypeArg>, wordSize: nat, next: Temp): (r: Option<(Tail, Temp)>)
    requires |ts| >= 1 && (wordSize == 32 || wordSize == 64)
    ensures r.Some? <==> ts[0].TNat?
  {
    match GetNat(ts[0])
    case None => None
    case Some(w) => Some(NegateClosure(w, wordSize, next, LowMask(w % wordSize)))
  }

  /** The xor constant of the top word in a generated negate closure, if it has one. */
  function TopMaskOf(t: Tail): Option<Long>
  {
    if t.ClosAlloc? && t.k.tail.BlockCall? && |Binds(t.k.tail.b.body)| > 0 then
      var step := Binds(t.k.tail.b.body)[|Binds(t.k.tail.b.body)| - 1].1;
      if step.PrimCall? && step.p == BinWord(XorOp) && |step.args| == 2 && step.args[1].WordConst? then
        Some(step.args[1].w)
      else None
    else None
  }

  /** The top-word xor of a negate closure uses the mask it was given. */
  lemma NegateClosureTopMask(width: nat, wordSize: nat, next: Temp, topMask: Long)
    requires wordSize > 0 && width % wordSize != 0
    ensures TopMaskOf(NegateClosure(width, wordSize, next, topMask).0) == Some(topMask)
  {
    var r := NegateClosure(width, wordSize, next, topMask);
    var n := NumWords(width, wordSize);
    PartialWordCounted(width, wordSize);
    var b := r.0.k.tail.b;
    assert Binds(b.body)[n - 1].1 == NegateStep(n - 1, n, width % wordSize, b.params[n - 1], topMask);
  }

  /** With the intended mask, the generated top-word xor flips exactly the
      `width % wordSize` used bits, on both word sizes. */
  lemma BitNegateMaskCoversUsedBits(w: nat, wordSize: nat, next: Temp)
    requires wordSize == 32 || wordSize == 64
    requires w % wordSize != 0
    ensures var r := BitNegateGen([TNat(w)], wordSize, next);
      && r.Some? && TopMaskOf(r.value.0).Some?
      && TopMaskOf(r.value.0).value + 1 == Pow2(w % wordSize)
  {
    NegateClosureTopMask(w, wordSize, next, LowMask(w % wordSize));
  }

  /** As written, a 40-bit negation on a 64-bit target xors its top word
      with 255 instead of the 40-bit mask. */
  lemma BitNegateAsWrittenMaskAt40(next: Temp)
    ensures var r := BitNegateAsWritten([TNat(40)], 64, next);
      && r.Some? && TopMaskOf(r.value.0) == Some(255)
      && 255 + 1 != Pow2(40)
  {
    JavaIntMaskAt40();
    NegateClosureTopMask(40, 64, next, 255);
  }

  // ---------------------------------------------------------------------
  // The `primBitFromLiteral` generator

  /** A closure with no stored fields and no arguments that returns the
      words of the literal `v` as a `w`-bit vector; `words` stands for
      `IntConst.words`. */
  function BitFromLiteralGen(ts: seq<TypeArg>, words: (nat, nat) -> seq<Long>): (r: Option<Tail>)
    requires |ts| >= 2
    ensures r.Some? <==> ts[0].TNat? && ts[1].TNat?
    ensures r.Some? ==>
      && r.value.ClosAlloc? && r.value.cargs == []
      && r.value.k.stored == [] && r.value.k.args == []
      && r.value.k.tail.Return?
      && |r.value.k.tail.results| == |words(ts[0].n, ts[1].n)|
      && (forall i :: 0 <= i < |r.value.k.tail.results| ==>
            r.value.k.tail.results[i] == WordConst(words(ts[0].n, ts[1].n)[i]))
  {
    match (GetNat(ts[0]), GetNat(ts[1]))
    case (Some(v), Some(w)) =>
      var ws := words(v, w);
      Some(ClosAlloc(Closure([], [], Return(seq(|ws|, i requires 0 <= i < |ws| => WordConst(ws[i])))), []))
    case _ => None
  }

  // ---------------------------------------------------------------------
  // Generator dispatch and the representation transformation

  /** `generateTail`: the generated tail and the temporary counter after it,
      or `None` when `ref` or `ts` is missing, no generator is registered
      under `ref`, there are too few type arguments, or the generator
      declines. */
  function GenerateTail(ref: Option<string>, ts: Option<seq<TypeArg>>, wordSize: nat, next: Temp,
                        words: (nat, nat) -> seq<Long>): (r: Option<(Tail, Temp)>)
    requires wordSize == 32 || wordSize == 64
    ensures ref.None? || ts.None? ==> r.None?
    ensures r.Some? ==> ref.value in Generators && |ts.value| >= Needs(Generators[ref.value])
    ensures ref.Some? && ts.Some? && ref.value in Generators && |ts.value| >= Needs(Generators[ref.value]) ==>
      r == match Generators[ref.value]
           case BitFromLiteral =>
             (match BitFromLiteralGen(ts.value, words)
              case Some(t) => Some((t, next))
              case None => None)
           case BitNegate => BitNegateGen(ts.value, wordSize, next)
  {
    if ref.None? || ts.None? || ref.value !in Generators then None
    else
      var g := Generators[ref.value];
      if |ts.value| < Needs(g) then None
      else
        match g
        case BitFromLiteral =>
          (match BitFromLiteralGen(ts.value, words)
           case Some(t) => Some((t, next))
           case None => None)
        case BitNegate => BitNegateGen(ts.value, wordSize, next)
  }

  /** A closure with no fields or arguments returning constants mentions
      no temporary. */
  lemma LiteralClosureTemps(t: Tail)
    requires t.ClosAlloc? && t.cargs == [] && t.k.stored == [] && t.k.args == [] && t.k.tail.Return?
    requires forall i :: 0 <= i < |t.k.tail.results| ==> t.k.tail.results[i].WordConst?
    ensures TailTemps(t) == {}
  {
    var xs := t.k.tail.results;
    assert forall i :: 0 <= i < |xs| ==> !xs[i].Var?;
    assert AtomTemps(xs) == {};
    assert TempSet([]) == {};
    assert AtomTemps([]) == {};
    assert ClosureTemps(t.k) == TailTemps(t.k.tail);
  }

  /** Generated code uses only new temporaries: the counter never moves
      back, every temporary of the generated tail lies between the counter
      before and after, and a literal mentions no temporary at all. */
  lemma GenerateTailFresh(ref: Option<string>, ts: Option<seq<TypeArg>>, wordSize: nat, next: Temp,
                          words: (nat, nat) -> seq<Long>)
    requires wordSize == 32 || wordSize == 64
    ensures var r := GenerateTail(ref, ts, wordSize, next, words);
      && (r.Some? ==> r.value.1 >= next && Within(TailTemps(r.value.0), next, r.value.1))
      && (r.Some? && ref == Some("primBitFromLiteral") ==> r.value.1 == next && TailTemps(r.value.0) == {})
  {
    var r := GenerateTail(ref, ts, wordSize, next, words);
    if r.Some? {
      match Generators[ref.value]
      case BitNegate =>
      case BitFromLiteral =>
        LiteralClosureTemps(r.value.0);
    }
  }

  /** An external definition: its name, declared type, and the optional
      generator reference with its type arguments. */
  datatype ExternalDefn<Ty> = ExternalDefn(id: string, declared: Ty, ref: Option<string>, ts: Option<seq<TypeArg>>)

  /** What representation transformation does with an external. */
  datatype RepResult<Ty> =
    | KeepExternal
    | ReplaceExternal(e: ExternalDefn<Ty>)
    | NewTopLevel(lhs: seq<Ty>, tail: Tail, next: Temp)
    | InternalError(msg: string)

  /** `topLevelrepTransform`, given the representation `reps` computed for
      the declared type (`None` when it does not change). */
  function TopLevelRepTransform<Ty>(e: ExternalDefn<Ty>, reps: Option<seq<Ty>>, wordSize: nat, next: Temp,
                                    words: (nat, nat) -> seq<Long>): (r: RepResult<Ty>)
    requires wordSize == 32 || wordSize == 64
    ensures var gen := GenerateTail(e.ref, e.ts, wordSize, next, words);
      && (gen.None? && reps.None? ==> r.KeepExternal?)
      && (gen.None? && reps.Some? && |reps.value| != 1 ==> r.InternalError?)
      && (gen.None? && reps.Some? && |reps.value| == 1 ==>
            r == ReplaceExternal(ExternalDefn(e.id, reps.value[0], None, None)))
      && (gen.Some? ==> r.NewTopLevel? && r.tail == gen.value.0 && r.next == gen.value.1)
      && (gen.Some? && reps.None? ==> r.lhs == [e.declared])
      && (gen.Some? && reps.Some? ==> r.lhs == reps.value)
  {
    match GenerateTail(e.ref, e.ts, wordSize, next, words)
    case None =>
      if reps.None? then KeepExternal
      else if |reps.value| != 1 then
        InternalError("Cannot handle change of representation for external " + e.id)
      else ReplaceExternal(ExternalDefn(e.id, reps.value[0], None, None))
    case Some((t, next')) =>
      NewTopLevel(if reps.None? then [e.declared] else reps.value, t, next')
  }

  /** A re-declared external carries no generator reference, so transforming
      it again never generates code: it is kept, re-declared, or rejected. */
  lemma ReplacedExternalNeverGenerates<Ty>(e: ExternalDefn<Ty>, reps: Option<seq<Ty>>, reps2: Option<seq<Ty>>,
                                           wordSize: nat, next: Temp, words: (nat, nat) -> seq<Long>)
    requires wordSize == 32 || wordSize == 64
    requires TopLevelRepTransform(e, reps, wordSize, next, words).ReplaceExternal?
    ensures var e2 := TopLevelRepTransform(e, reps, wordSize, next, words).e;
      && e2.id == e.id
      && !TopLevelRepTransform(e2, reps2, wordSize, next, words).NewTopLevel?
  {
  }

  /** A generated top level has one left-hand side per representation
      component, or one for an unchanged representation. */
  lemma TopLevelLhsCount<Ty>(e: ExternalDefn<Ty>, reps: Option<seq<Ty>>, wordSize: nat, next: Temp,
                             words: (nat, nat) -> seq<Long>)
    requires wordSize == 32 || wordSize == 64
    requires TopLevelRepTransform(e, reps, wordSize, next, words).NewTopLevel?
    ensures |TopLevelRepTransform(e, reps, wordSize, next, words).lhs| == if reps.None? then 1 else |reps.value|
  {
  }

  // ---------------------------------------------------------------------
  // Externals in the other passes

  /** `specializeEntry`: an external can never be specialized as an entrypoint. */
  function SpecializeEntry<Ty>(e: ExternalDefn<Ty>): Result<ExternalDefn<Ty>>
  {
    Fail("ExternalAsEntrypoint: " + e.id)
  }

  /** An external has no arguments to prune. */
  function CountUnusedArgs<Ty>(e: ExternalDefn<Ty>): nat
  {
    0
  }

  /** An external depends on no other definition. */
  function Dependencies<Ty>(e: ExternalDefn<Ty>): seq<string>
  {
    []
  }

  /** An external is never found to duplicate another definition. */
  function SummarizeDefns<Ty>(e: ExternalDefn<Ty>): bool
  {
    false
  }

  /** Externals take no part in specialization, argument pruning,
      dependency analysis or duplicate elimination. */
  lemma ExternalsAreInert<Ty>(e: ExternalDefn<Ty>)
    ensures SpecializeEntry(e).Fail?
    ensures CountUnusedArgs(e) == 0 && Dependencies(e) == [] && !SummarizeDefns(e)
  {
  }
}
