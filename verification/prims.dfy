/** The MIL primitives (`src/mil/Prim.java`): the purity scale, the
    literal-evaluation rule of every word, flag and relational operator, the
    `bnot` duals, the process-wide indexed primitive table with its bounds
    checks, the interpreter bodies defined alongside the table, and the
    per-primitive specialization cache.

    The source's class per operator becomes one tagged variant, `PrimKind`;
    a primitive object is a kind paired with its block type, and its identity
    is its position in the primitive table (every constructor call registers
    exactly one new entry). */
module Prims {
  import opened Words
  import opened Outcomes
  import Decimal

  // ---------------------------------------------------------------------
  // Purity

  const PURE: int := 0
  const OBSERVER: int := 1
  const VOLATILE: int := 2
  const IMPURE: int := 3
  const DOESNTRETURN: int := 4

  predicate IsPure(purity: int) { purity == PURE }

  predicate IsRepeatable(purity: int) { purity <= OBSERVER }

  predicate HasNoEffect(purity: int) { purity <= VOLATILE }

  predicate DoesntReturn(purity: int) { purity >= DOESNTRETURN }

  /** The purity predicates nest, and a primitive that does not return is
      never one without effect. */
  lemma PurityScale(purity: int)
    ensures IsPure(purity) ==> IsRepeatable(purity)
    ensures IsRepeatable(purity) ==> HasNoEffect(purity)
    ensures DoesntReturn(purity) ==> !HasNoEffect(purity)
    ensures IsPure(purity) <==> purity == 0
    ensures DoesntReturn(purity) <==> purity >= 4
  {
  }

  const PurityLabels: seq<string> := ["pure", "observer", "volatile", "impure", "doesntReturn"]

  /** The label of a purity code, or `None` (`null`) outside the scale. */
  function PurityLabel(purity: int): (r: Option<string>)
    ensures r.Some? <==> 0 <= purity < |PurityLabels|
    ensures r.Some? ==> r.value in PurityLabels
  {
    if purity < 0 || purity >= |PurityLabels| then None else Some(PurityLabels[purity])
  }

  /** The purity code of a label: the first position holding it, or -1. */
  function PurityFromLabel(text: string): (r: int)
    ensures -1 <= r < |PurityLabels|
    ensures r >= 0 ==> PurityLabels[r] == text
    ensures r >= 0 ==> forall j :: 0 <= j < r ==> PurityLabels[j] != text
    ensures r == -1 <==> text !in PurityLabels
  {
    LabelSearch(text, 0)
  }

  function {:induction false} LabelSearch(text: string, i: nat): (r: int)
    requires i <= |PurityLabels|
    ensures r == -1 || i <= r < |PurityLabels|
    ensures r >= 0 ==> PurityLabels[r] == text
    ensures r >= 0 ==> forall j :: i <= j < r ==> PurityLabels[j] != text
    ensures r == -1 <==> forall j :: i <= j < |PurityLabels| ==> PurityLabels[j] != text
    decreases |PurityLabels| - i
  {
    if i == |PurityLabels| then -1
    else if text == PurityLabels[i] then i
    else LabelSearch(text, i + 1)
  }

  /** Labels round-trip: every code on the scale is recovered from its label. */
  lemma PurityLabelRoundTrip(purity: int)
    requires 0 <= purity < |PurityLabels|
    ensures PurityFromLabel(PurityLabel(purity).value) == purity
  {
    var r := PurityFromLabel(PurityLabels[purity]);
    assert PurityLabels[0] != PurityLabels[1] && PurityLabels[0] != PurityLabels[2];
    assert PurityLabels[0] != PurityLabels[3] && PurityLabels[0] != PurityLabels[4];
    assert PurityLabels[1] != PurityLabels[2] && PurityLabels[1] != PurityLabels[3];
    assert PurityLabels[1] != PurityLabels[4] && PurityLabels[2] != PurityLabels[3];
    assert PurityLabels[2] != PurityLabels[4] && PurityLabels[3] != PurityLabels[4];
  }

  // ---------------------------------------------------------------------
  // Types of primitives

  /** The fragment of MIL types that primitive signatures mention. */
  datatype MilType =
    | Word
    | NzWord
    | Flag
    | Addr
    | Bit(width: nat)
    | Tuple(items: seq<MilType>)
    | Gen(n: nat)

  /** A block type: a tuple of argument types to a tuple of result types. */
  datatype BlockType = BlockType(dom: MilType, rng: MilType)

  // ---------------------------------------------------------------------
  // The primitives

  datatype UnWordOp = NotOp | NegOp

  datatype BinWordOp = AndOp | OrOp | XorOp | ShlOp | LshrOp | AshrOp | AddOp | SubOp | MulOp

  datatype FlagOp = BAnd | BOr | BXor | BEq | BLt | BLe | BGt | BGe

  datatype RelOp = Eq | Neq | Slt | Sle | Sgt | Sge | Ult | Ule | Ugt | Uge

  datatype MemWidth = W8 | W16 | W32 | W64

  /** One variant per operator class of the source. */
  datatype PrimKind =
    | UnWord(u: UnWordOp)
    | BinWord(b: BinWordOp)
    | BNot
    | BinFlag(f: FlagOp)
    | Rel(r: RelOp)
    | FlagToWord
    | Div
    | Rem
    | NzDiv
    | Halt
    | PrintWord
    | Loop
    | Load(lw: MemWidth)
    | Store(sw: MemWidth)

  function Bits(w: MemWidth): nat
  {
    match w
    case W8 => 8
    case W16 => 16
    case W32 => 32
    case W64 => 64
  }

  /** The name each primitive is registered under. */
  function Id(k: PrimKind): string
  {
    match k
    case UnWord(NotOp) => "not"
    case UnWord(NegOp) => "neg"
    case BinWord(AndOp) => "and"
    case BinWord(OrOp) => "or"
    case BinWord(XorOp) => "xor"
    case BinWord(ShlOp) => "shl"
    case BinWord(LshrOp) => "lshr"
    case BinWord(AshrOp) => "ashr"
    case BinWord(AddOp) => "add"
    case BinWord(SubOp) => "sub"
    case BinWord(MulOp) => "mul"
    case BNot => "bnot"
    case BinFlag(BAnd) => "band"
    case BinFlag(BOr) => "bor"
    case BinFlag(BXor) => "bxor"
    case BinFlag(BEq) => "beq"
    case BinFlag(BLt) => "blt"
    case BinFlag(BLe) => "ble"
    case BinFlag(BGt) => "bgt"
    case BinFlag(BGe) => "bge"
    case Rel(Eq) => "primEq"
    case Rel(Neq) => "primNeq"
    case Rel(Slt) => "primSlt"
    case Rel(Sle) => "primSle"
    case Rel(Sgt) => "primSgt"
    case Rel(Sge) => "primSge"
    case Rel(Ult) => "primUlt"
    case Rel(Ule) => "primUle"
    case Rel(Ugt) => "primUgt"
    case Rel(Uge) => "primUge"
    case FlagToWord => "flagToWord"
    case Div => "div"
    case Rem => "rem"
    case NzDiv => "nzdiv"
    case Halt => "halt"
    case PrintWord => "printWord"
    case Loop => "loop"
    case Load(w) => "load" + Decimal.Show(Bits(w))
    case Store(w) => "store" + Decimal.Show(Bits(w))
  }

  /** The purity code each primitive is constructed with. */
  function PurityOf(k: PrimKind): int
  {
    match k
    case Div => IMPURE
    case Rem => IMPURE
    case PrintWord => IMPURE
    case Load(_) => IMPURE
    case Store(_) => IMPURE
    case Halt => DOESNTRETURN
    case Loop => DOESNTRETURN
    case _ => PURE
  }

  /** Division and remainder may fail, so they are impure; `nzdiv` takes a
      divisor that is nonzero by construction and is pure. Only `halt` and
      `loop` fail to return. */
  lemma DivisionPurity()
    ensures !IsRepeatable(PurityOf(Div)) && !IsRepeatable(PurityOf(Rem))
    ensures IsPure(PurityOf(NzDiv))
    ensures forall k :: DoesntReturn(PurityOf(k)) <==> k == Halt || k == Loop
  {
  }

  const wordTuple: MilType := Tuple([Word])
  const flagTuple: MilType := Tuple([Flag])

  /** The block type each primitive is constructed with. */
  function InitialType(k: PrimKind): BlockType
  {
    match k
    case UnWord(_) => BlockType(wordTuple, wordTuple)
    case BinWord(_) => BlockType(Tuple([Word, Word]), wordTuple)
    case BNot => BlockType(flagTuple, flagTuple)
    case BinFlag(_) => BlockType(Tuple([Flag, Flag]), flagTuple)
    case Rel(_) => BlockType(Tuple([Word, Word]), flagTuple)
    case FlagToWord => BlockType(flagTuple, wordTuple)
    case Div => BlockType(Tuple([Word, Word]), wordTuple)
    case Rem => BlockType(Tuple([Word, Word]), wordTuple)
    case NzDiv => BlockType(Tuple([Word, NzWord]), wordTuple)
    case Halt => BlockType(Tuple([]), Gen(0))
    case Loop => BlockType(Tuple([]), Gen(0))
    case PrintWord => BlockType(wordTuple, Tuple([]))
    case Load(w) => BlockType(Tuple([Addr]), Tuple([Bit(Bits(w))]))
    case Store(w) => BlockType(Tuple([Addr, Bit(Bits(w))]), Tuple([]))
  }

  // ---------------------------------------------------------------------
  // Literal evaluation (`op`), used for constant folding

  /** The rules of `not` and `neg`: a word and its complement add up to
      all ones, and a word and its negation to zero modulo 2^64. */
  function UnWordEval(u: UnWordOp, n: Long): (r: Long)
    ensures u == NotOp ==> r + n == -1
    ensures u == NegOp ==> (r + n) % TWO64 == 0
  {
    match u
    case NotOp => Not(n)
    case NegOp => Neg(n)
  }

  /** The rules of the binary word operators: the arithmetic ones agree
      with exact arithmetic modulo 2^64, the logical ones work bit by bit
      on the two's complement patterns, and the shifts use the count
      modulo 64, an arithmetic shift keeping the sign. */
  function BinWordEval(b: BinWordOp, n: Long, m: Long): (r: Long)
    ensures b == AddOp ==> (r - (n + m)) % TWO64 == 0
    ensures b == SubOp ==> (r - (n - m)) % TWO64 == 0
    ensures b == MulOp ==> (r - n * m) % TWO64 == 0
    ensures b == AndOp ==> Bitwise(BitAnd, r, n, m)
    ensures b == OrOp ==> Bitwise(BitOr, r, n, m)
    ensures b == XorOp ==> Bitwise(BitXor, r, n, m)
    ensures b == ShlOp ==> (r - n * Pow2(m % 64)) % TWO64 == 0
    ensures b == AshrOp ==> (n >= 0 ==> 0 <= r <= n) && (n < 0 ==> n <= r < 0)
    ensures (b == ShlOp || b == LshrOp || b == AshrOp) && m % 64 == 0 ==> r == n
  {
    match b
    case AndOp => And(n, m)
    case OrOp => Or(n, m)
    case XorOp => Xor(n, m)
    case ShlOp => Shl(n, m)
    case LshrOp => Lshr(n, m)
    case AshrOp => Ashr(n, m)
    case AddOp => Add(n, m)
    case SubOp => Sub(n, m)
    case MulOp => Mul(n, m)
  }

  /** Java `long` addition and subtraction undo each other modulo 2^64. */
  lemma AddSubInverse(n: Long, m: Long)
    ensures BinWordEval(SubOp, BinWordEval(AddOp, n, m), m) == n
  {
    WrapUnique(Wrap(n + m) as int - m, n);
  }

  /** `~n` is `-n - 1`, and negation is an involution, on wrapped words. */
  lemma NotIsNegMinusOne(n: Long)
    ensures UnWordEval(NotOp, n) == BinWordEval(SubOp, UnWordEval(NegOp, n), 1)
    ensures UnWordEval(NegOp, UnWordEval(NegOp, n)) == n
  {
    var g := Wrap(-(n as int));
    WrapUnique(g as int - 1, -(n as int) - 1);
    WrapUnique(-(g as int), n);
  }

  /** A word xor-ed with itself is zero. */
  lemma XorSelf(n: Long)
    ensures BinWordEval(XorOp, n, n) == 0
  {
    assert ToBits(n) ^ ToBits(n) == 0;
  }

  /** A shift reads only the low six bits of its count. */
  lemma ShiftCountMasked(s: BinWordOp, n: Long, m: Long)
    requires s == ShlOp || s == LshrOp || s == AshrOp
    ensures BinWordEval(s, n, m) == BinWordEval(s, n, m % 64)
  {
    var k: Long := m % 64;
    assert ShiftCount(k) == ShiftCount(m);
    if s == ShlOp {
      assert Shl(n, k) == Shl(n, m);
    } else if s == LshrOp {
      assert Lshr(n, k) == Lshr(n, m);
    } else {
      assert Ashr(n, k) == Ashr(n, m);
    }
  }

  /** Flags ordered with false below true. */
  function FlagRank(b: bool): nat { if b then 1 else 0 }

  /** The rule of each binary flag operator; the four comparisons are the
      order comparisons of `FlagRank`. */
  function FlagEval(f: FlagOp, n: bool, m: bool): (r: bool)
    ensures f == BLt ==> (r <==> FlagRank(n) < FlagRank(m))
    ensures f == BLe ==> (r <==> FlagRank(n) <= FlagRank(m))
    ensures f == BGt ==> (r <==> FlagRank(n) > FlagRank(m))
    ensures f == BGe ==> (r <==> FlagRank(n) >= FlagRank(m))
    ensures f == BEq ==> (r <==> FlagRank(n) == FlagRank(m))
    ensures f == BXor ==> (r <==> FlagRank(n) != FlagRank(m))
  {
    match f
    case BAnd => n && m
    case BOr => n || m
    case BXor => n != m
    case BEq => n == m
    case BLt => !n && m
    case BLe => !n || m
    case BGt => n && !m
    case BGe => n || !m
  }

  /** The rule of each relational operator. The unsigned comparisons are
      computed from signed ones, flipped by each operand's sign bit, and
      agree with comparing the unsigned readings of the operands. */
  function RelEval(r: RelOp, n: Long, m: Long): (res: bool)
    ensures r == Ult ==> (res <==> Unsigned(n) < Unsigned(m))
    ensures r == Ule ==> (res <==> Unsigned(n) <= Unsigned(m))
    ensures r == Ugt ==> (res <==> Unsigned(n) > Unsigned(m))
    ensures r == Uge ==> (res <==> Unsigned(n) >= Unsigned(m))
  {
    match r
    case Eq => n == m
    case Neq => n != m
    case Slt => n < m
    case Sle => n <= m
    case Sgt => n > m
    case Sge => n >= m
    case Ult => ((n < m) != (n < 0)) != (m < 0)
    case Ule => ((n <= m) != (n < 0)) != (m < 0)
    case Ugt => ((n > m) != (n < 0)) != (m < 0)
    case Uge => ((n >= m) != (n < 0)) != (m < 0)
  }

  /** The rule of `bnot`: it swaps the two flags. */
  function BnotEval(b: bool): (r: bool)
    ensures FlagRank(r) == 1 - FlagRank(b)
  {
    !b
  }

  function FlagToWordEval(b: bool): (w: Long)
    ensures w == FlagRank(b)
  {
    if b then 1 else 0
  }

  // ---------------------------------------------------------------------
  // Duals under bnot

  /** The primitive `q` with `bnot(p(args)) == q(args)`, or `None` (the
      default of every primitive that does not name one). */
  function BnotDual(k: PrimKind): (r: Option<PrimKind>)
    ensures r.Some? ==> r.value != k && (k.BinFlag? <==> r.value.BinFlag?) && (k.Rel? <==> r.value.Rel?)
  {
    match k
    case BinFlag(BXor) => Some(BinFlag(BEq))
    case BinFlag(BEq) => Some(BinFlag(BXor))
    case BinFlag(BLt) => Some(BinFlag(BGe))
    case BinFlag(BLe) => Some(BinFlag(BGt))
    case BinFlag(BGt) => Some(BinFlag(BLe))
    case BinFlag(BGe) => Some(BinFlag(BLt))
    case Rel(Eq) => Some(Rel(Neq))
    case Rel(Neq) => Some(Rel(Eq))
    case Rel(Slt) => Some(Rel(Sge))
    case Rel(Sle) => Some(Rel(Sgt))
    case Rel(Sgt) => Some(Rel(Sle))
    case Rel(Sge) => Some(Rel(Slt))
    case Rel(Ult) => Some(Rel(Uge))
    case Rel(Ule) => Some(Rel(Ugt))
    case Rel(Ugt) => Some(Rel(Ule))
    case Rel(Uge) => Some(Rel(Ult))
    case _ => None
  }

  /** Every dual really is the negation of its primitive on every input, the
      relation is an involution, and it keeps the operand class. */
  lemma DualNegates(k: PrimKind)
    requires BnotDual(k).Some?
    ensures var q := BnotDual(k).value;
      && BnotDual(q) == Some(k)
      && (k.BinFlag? <==> q.BinFlag?)
      && (k.BinFlag? ==> forall x: bool, y: bool :: FlagEval(q.f, x, y) == BnotEval(FlagEval(k.f, x, y)))
      && (k.Rel? ==> q.Rel? && forall a: Long, b: Long :: RelEval(q.r, a, b) == BnotEval(RelEval(k.r, a, b)))
  {
  }

  /** Exactly the flag comparisons other than `band`/`bor`, and all the
      relational operators, have a dual. */
  lemma DualDomain(k: PrimKind)
    ensures BnotDual(k).Some? <==>
      (k.BinFlag? && k.f != BAnd && k.f != BOr) || k.Rel?
  {
  }

  // ---------------------------------------------------------------------
  // The primitive table

  /** A primitive object: its operator and the block type it was built with.
      Clones keep the operator (hence name and purity) and change the type. */
  datatype PrimObj = PrimObj(kind: PrimKind, blockType: BlockType)

  const INITIAL_CAPACITY: nat := 40

  /** Capacities the table can have: none yet, 40, or a doubling of one. */
  predicate IsCapacity(c: nat)
    decreases c
  {
    c == 0 || c == INITIAL_CAPACITY || (c > INITIAL_CAPACITY && c % 2 == 0 && IsCapacity(c / 2))
  }

  /** The static array and counter: the first `count` slots are filled,
      the rest are empty. An absent array (`null`) has no slots. */
  datatype PrimTable = PrimTable(slots: seq<Option<PrimObj>>, count: nat)
  {
    predicate Valid()
    {
      && count <= |slots|
      && IsCapacity(|slots|)
      && (forall i :: 0 <= i < count ==> slots[i].Some?)
      && (forall i :: count <= i < |slots| ==> slots[i].None?)
    }

    function Get(i: nat): PrimObj
      requires Valid() && i < count
    {
      slots[i].value
    }
  }

  const EmptyTable: PrimTable := PrimTable([], 0)

  /** The array after growth: a new array of twice the length holding the old
      entries at their old positions. */
  function Grown(slots: seq<Option<PrimObj>>): (r: seq<Option<PrimObj>>)
    ensures |r| == 2 * |slots|
    ensures forall i :: 0 <= i < |slots| ==> r[i] == slots[i]
    ensures forall i :: |slots| <= i < |r| ==> r[i].None?
  {
    slots + seq(|slots|, _ => None)
  }

  /** Register a primitive: allocate the array on first use, double it when
      full, store the primitive at the next free index and return that index. */
  function AddToPrimTable(t: PrimTable, p: PrimObj): (r: (PrimTable, nat))
    requires t.Valid()
    ensures r.0.Valid()
    ensures r.1 == t.count && r.0.count == t.count + 1
    ensures r.0.Get(r.1) == p
    ensures forall i :: 0 <= i < t.count ==> r.0.Get(i) == t.Get(i)
    ensures |r.0.slots| >= INITIAL_CAPACITY
  {
    var slots :=
      if |t.slots| == 0 then seq(INITIAL_CAPACITY, _ => None)
      else if t.count >= |t.slots| then Grown(t.slots)
      else t.slots;
    assert IsCapacity(|slots|) by {
      if |t.slots| != 0 && t.count >= |t.slots| {
        assert |slots| / 2 == |t.slots|;
      }
    }
    (PrimTable(slots[t.count := Some(p)], t.count + 1), t.count)
  }

  /** Register a list of primitives in order, collecting their indices. */
  function RegisterAll(t: PrimTable, ps: seq<PrimObj>): (r: (PrimTable, seq<nat>))
    requires t.Valid()
    ensures r.0.Valid()
    ensures |r.1| == |ps|
    decreases |ps|
  {
    if |ps| == 0 then (t, [])
    else
      var (t1, i) := AddToPrimTable(t, ps[0]);
      var (t2, idx) := RegisterAll(t1, ps[1..]);
      (t2, [i] + idx)
  }

  /** The table is append-only: registering a list hands out consecutive
      indices starting at the current count, keeps every earlier entry, and
      stores each primitive at the index it was given. */
  lemma {:induction false} RegisterAllConsecutive(t: PrimTable, ps: seq<PrimObj>)
    requires t.Valid()
    ensures var (t2, idx) := RegisterAll(t, ps);
      && t2.count == t.count + |ps|
      && (forall k :: 0 <= k < |ps| ==> idx[k] == t.count + k)
      && (forall k :: 0 <= k < |ps| ==> t2.Get(idx[k]) == ps[k])
      && (forall i :: 0 <= i < t.count ==> t2.Get(i) == t.Get(i))
    decreases |ps|
  {
    if |ps| > 0 {
      var (t1, i) := AddToPrimTable(t, ps[0]);
      RegisterAllConsecutive(t1, ps[1..]);
      var (t2, idx) := RegisterAll(t1, ps[1..]);
      assert RegisterAll(t, ps) == (t2, [i] + idx);
      forall k | 0 <= k < |ps|
        ensures ([i] + idx)[k] == t.count + k && t2.Get(([i] + idx)[k]) == ps[k]
      {
        if k > 0 {
          assert ([i] + idx)[k] == idx[k - 1];
          assert ps[1..][k - 1] == ps[k];
        }
      }
    }
  }

  /** From the initial (absent) table, the registered primitives get the
      indices 0, 1, 2, ... in registration order. */
  lemma IndicesFromZero(ps: seq<PrimObj>)
    ensures forall k :: 0 <= k < |ps| ==> RegisterAll(EmptyTable, ps).1[k] == k
  {
    RegisterAllConsecutive(EmptyTable, ps);
  }

  /** The printable name of primitive number `i`. */
  function ShowPrim(t: PrimTable, i: int): (s: string)
    requires t.Valid()
    ensures 0 <= i < t.count ==> s == Id(t.Get(i).kind)
    ensures !(0 <= i < t.count) ==> s == "?prim_" + Decimal.Show(i)
  {
    if 0 <= i < t.count then Id(t.slots[i].value.kind) else "?prim_" + Decimal.Show(i)
  }

  /** Registering more primitives never changes the name shown for an index
      that was already registered. */
  lemma ShowPrimStable(t: PrimTable, p: PrimObj, i: int)
    requires t.Valid() && 0 <= i < t.count
    ensures ShowPrim(AddToPrimTable(t, p).0, i) == ShowPrim(t, i)
  {
  }

  // ---------------------------------------------------------------------
  // Interpreter bodies

  /** What running a primitive does to the interpreter's frame: a new stack
      and the lines printed, a `Failure`, or a hand-off to the operator
      class that implements `exec` for the word, flag and relational
      operators (not part of this model). */
  datatype ExecOutcome =
    | Ran(stack: seq<Long>, printed: seq<string>)
    | Failed(msg: string)
    | Delegated(kind: PrimKind)

  /** The stack slots above the frame pointer that a primitive's own `exec`
      reads. */
  function StackNeeds(k: PrimKind): nat
  {
    match k
    case Div => 2
    case Rem => 2
    case PrintWord => 1
    case _ => 0
  }

  /** The `exec` body of a primitive, run with arguments at `stack[fp..]`. */
  function ExecKind(k: PrimKind, fp: nat, stack: seq<Long>): (r: ExecOutcome)
    requires fp + StackNeeds(k) <= |stack|
    ensures k == Div ==> (r.Failed? <==> stack[fp + 1] == 0)
    ensures k == Div && r.Ran? ==>
      r.stack == stack[fp := JDiv(stack[fp], stack[fp + 1])] && r.printed == []
    ensures k == Rem ==> (r.Failed? <==> stack[fp + 1] == 0)
    ensures k == Rem && r.Ran? ==>
      r.stack == stack[fp := JRem(stack[fp], stack[fp + 1])] && r.printed == []
    ensures k == Halt ==> r.Failed?
    ensures r.Ran? ==> |r.stack| == |stack|
  {
    match k
    case Div =>
      var n := stack[fp];
      var d := stack[fp + 1];
      if d == 0 then Failed("divide by zero error") else Ran(stack[fp := JDiv(n, d)], [])
    case Rem =>
      var n := stack[fp];
      var d := stack[fp + 1];
      if d == 0 then Failed("divide by zero error (for mod)") else Ran(stack[fp := JRem(n, d)], [])
    case Halt => Failed("halt primitive executed")
    case PrintWord => Ran(stack, ["printWord: " + Decimal.Show(stack[fp])])
    case UnWord(_) => Delegated(k)
    case BinWord(_) => Delegated(k)
    case BNot => Delegated(k)
    case BinFlag(_) => Delegated(k)
    case Rel(_) => Delegated(k)
    case FlagToWord => Delegated(k)
    case _ => Failed("primitive \"" + Id(k) + "\" not available")
  }

  /** Run primitive number `prim`: an index outside the table fails. */
  function Exec(t: PrimTable, prim: int, fp: nat, stack: seq<Long>): (r: ExecOutcome)
    requires t.Valid()
    requires 0 <= prim < t.count ==> fp + StackNeeds(t.Get(prim).kind) <= |stack|
    ensures !(0 <= prim < t.count) ==>
      r == Failed("primitive number " + Decimal.Show(prim) + " is not defined")
    ensures 0 <= prim < t.count ==> r == ExecKind(t.Get(prim).kind, fp, stack)
  {
    if prim < 0 || prim >= t.count then
      Failed("primitive number " + Decimal.Show(prim) + " is not defined")
    else
      ExecKind(t.slots[prim].value.kind, fp, stack)
  }

  /** Division by zero is reported, never turned into a value; any other
      divisor leaves Java's truncating quotient or remainder in the
      dividend's slot and satisfies Java's division identity. */
  lemma DivisionFailsOnlyOnZero(k: PrimKind, fp: nat, stack: seq<Long>)
    requires k == Div || k == Rem
    requires fp + 2 <= |stack|
    ensures var r := ExecKind(k, fp, stack);
      && (stack[fp + 1] == 0 ==> r.Failed?)
      && (stack[fp + 1] != 0 ==>
            (r.Ran? && var n, d := stack[fp], stack[fp + 1]; Add(Mul(JDiv(n, d), d), JRem(n, d)) == n))
  {
    if stack[fp + 1] != 0 {
      DivRemIdentity(stack[fp], stack[fp + 1]);
    }
  }

  // ---------------------------------------------------------------------
  // Specialization of primitives

  /** The specialization cache: the clones made of each primitive, newest
      first, as indices into the table. */
  type PrimCache = map<nat, seq<nat>>

  function Clones(cache: PrimCache, p: nat): seq<nat>
  {
    if p in cache then cache[p] else []
  }

  /** Every clone in `l` is a registered primitive of the same operator as
      `p`, with a type different from `p`'s and from every other clone in `l`. */
  predicate CloneListValid(t: PrimTable, p: nat, l: seq<nat>)
    requires t.Valid()
  {
    && p < t.count
    && (forall i :: 0 <= i < |l| ==>
          && l[i] < t.count
          && t.Get(l[i]).kind == t.Get(p).kind
          && t.Get(l[i]).blockType != t.Get(p).blockType)
    && (forall i, j :: 0 <= i < j < |l| ==> t.Get(l[i]).blockType != t.Get(l[j]).blockType)
  }

  /** Every primitive's list of cached clones is valid. */
  predicate CacheValid(t: PrimTable, cache: PrimCache)
    requires t.Valid()
  {
    forall p :: p in cache ==> CloneListValid(t, p, cache[p])
  }

  /** Index of the first clone in `ps` whose type is `inst`, if any. */
  function {:induction false} FindClone(t: PrimTable, ps: seq<nat>, inst: BlockType): (r: Option<nat>)
    requires t.Valid()
    requires forall i :: 0 <= i < |ps| ==> ps[i] < t.count
    ensures r.Some? ==> r.value < |ps| && t.Get(ps[r.value]).blockType == inst
    ensures r.Some? ==> forall j :: 0 <= j < r.value ==> t.Get(ps[j]).blockType != inst
    ensures r.None? <==> forall j :: 0 <= j < |ps| ==> t.Get(ps[j]).blockType != inst
    decreases |ps|
  {
    if |ps| == 0 then None
    else if t.Get(ps[0]).blockType == inst then Some(0)
    else
      match FindClone(t, ps[1..], inst)
      case None => None
      case Some(i) => Some(i + 1)
  }

  /** A valid cache stays valid when the table grows. */
  lemma CacheValidGrows(t: PrimTable, t2: PrimTable, cache: PrimCache)
    requires t.Valid() && t2.Valid() && t.count <= t2.count
    requires forall i :: 0 <= i < t.count ==> t2.Get(i) == t.Get(i)
    requires CacheValid(t, cache)
    ensures CacheValid(t2, cache)
  {
    forall p | p in cache
      ensures CloneListValid(t2, p, cache[p])
    {
      assert CloneListValid(t, p, cache[p]);
    }
  }

  /** A registered clone of a type that no listed clone has may be put in
      front of the list. */
  lemma ConsCloneValid(t: PrimTable, p: nat, q: nat, ps: seq<nat>)
    requires t.Valid() && CloneListValid(t, p, ps) && q < t.count
    requires t.Get(q).kind == t.Get(p).kind && t.Get(q).blockType != t.Get(p).blockType
    requires forall j :: 0 <= j < |ps| ==> t.Get(ps[j]).blockType != t.Get(q).blockType
    ensures CloneListValid(t, p, [q] + ps)
  {
    var l := [q] + ps;
    forall i, j | 0 <= i < j < |l|
      ensures t.Get(l[i]).blockType != t.Get(l[j]).blockType
    {
      assert l[j] == ps[j - 1];
      if i > 0 {
        assert l[i] == ps[i - 1];
      }
    }
  }

  /** Putting a new clone of a type no cached clone has in front of the
      primitive's list keeps the cache valid. */
  lemma PrependCloneValid(t: PrimTable, cache: PrimCache, p: nat, inst: BlockType)
    requires t.Valid() && p < t.count && CacheValid(t, cache)
    requires inst != t.Get(p).blockType
    requires FindClone(t, Clones(cache, p), inst).None?
    ensures var (t2, q) := AddToPrimTable(t, PrimObj(t.Get(p).kind, inst));
      CacheValid(t2, cache[p := [q] + Clones(cache, p)])
  {
    var ps := Clones(cache, p);
    var (t2, q) := AddToPrimTable(t, PrimObj(t.Get(p).kind, inst));
    CacheValidGrows(t, t2, cache);
    assert CloneListValid(t2, p, ps);
    ConsCloneValid(t2, p, q, ps);
    var cache2 := cache[p := [q] + ps];
    forall p' | p' in cache2
      ensures CloneListValid(t2, p', cache2[p'])
    {
      if p' != p {
        assert cache2[p'] == cache[p'];
      }
    }
  }

  /** Specialize primitive `p` at the instantiated type `inst`: `p` itself if
      its type already matches, else a cached clone of that type, else a new
      clone that is registered and put in front of the cached clones. */
  function SpecializePrim(t: PrimTable, cache: PrimCache, p: nat, inst: BlockType)
    : (r: (PrimTable, PrimCache, nat))
    requires t.Valid() && p < t.count && CacheValid(t, cache)
    ensures r.0.Valid() && CacheValid(r.0, r.1)
    ensures r.0.count >= t.count && r.2 < r.0.count
    ensures r.0.Get(r.2) == PrimObj(t.Get(p).kind, inst)
    ensures r.2 == p <==> t.Get(p).blockType == inst
    ensures r.2 != p ==> r.2 in Clones(r.1, p)
    ensures forall i :: 0 <= i < t.count ==> r.0.Get(i) == t.Get(i)
    ensures r.1 == cache || (r.2 == t.count && r.1 == cache[p := [r.2] + Clones(cache, p)])
  {
    if inst == t.Get(p).blockType then (t, cache, p)
    else
      var ps := Clones(cache, p);
      match FindClone(t, ps, inst)
      case Some(i) => (t, cache, ps[i])
      case None =>
        var (t2, q) := AddToPrimTable(t, PrimObj(t.Get(p).kind, inst));
        PrependCloneValid(t, cache, p, inst);
        (t2, cache[p := [q] + ps], q)
  }

  /** Memoization across any history: a primitive that is already the
      result of a request (itself, or a cached clone) is returned again by
      the same request, and the table and cache are left unchanged. */
  lemma SpecializeReturnsCached(t: PrimTable, cache: PrimCache, p: nat, inst: BlockType, q: nat)
    requires t.Valid() && p < t.count && CacheValid(t, cache)
    requires q == p || q in Clones(cache, p)
    requires q < t.count && t.Get(q).blockType == inst
    ensures SpecializePrim(t, cache, p, inst) == (t, cache, q)
  {
    if q != p && inst != t.Get(p).blockType {
      var ps := Clones(cache, p);
      var k :| 0 <= k < |ps| && ps[k] == q;
      var f := FindClone(t, ps, inst);
      assert f.Some?;
      assert t.Get(ps[f.value]).blockType == t.Get(ps[k]).blockType;
      assert f.value == k;
    }
  }

  /** Requests only ever add to the cache: a clone cached for any primitive
      stays cached, at the same position counted from the oldest. */
  lemma SpecializeKeepsCache(t: PrimTable, cache: PrimCache, p: nat, inst: BlockType, p': nat)
    requires t.Valid() && p < t.count && CacheValid(t, cache)
    ensures var r := SpecializePrim(t, cache, p, inst);
      var old_ := Clones(cache, p');
      var new_ := Clones(r.1, p');
      |old_| <= |new_| && new_[|new_| - |old_|..] == old_
  {
    var r := SpecializePrim(t, cache, p, inst);
    var old_ := Clones(cache, p');
    if r.1 != cache && p' == p {
      assert Clones(r.1, p')[1..] == old_;
    }
  }

  /** Repeating a request returns the identical primitive: together with the
      two lemmas above, any later request for the same (primitive, type)
      pair, after any other requests, returns it too. */
  lemma SpecializeIdempotent(t: PrimTable, cache: PrimCache, p: nat, inst: BlockType)
    requires t.Valid() && p < t.count && CacheValid(t, cache)
    ensures var (t2, c2, q) := SpecializePrim(t, cache, p, inst);
      SpecializePrim(t2, c2, p, inst) == (t2, c2, q)
  {
    var (t2, c2, q) := SpecializePrim(t, cache, p, inst);
    SpecializeReturnsCached(t2, c2, p, inst, q);
  }

  /** The cache update as the source writes it: the search loop has run the
      list to its end, so the new clone is stored in a list of its own and
      the earlier clones of the primitive are dropped. */
  function SpecializePrimAsWritten(t: PrimTable, cache: PrimCache, p: nat, inst: BlockType)
    : (r: (PrimTable, PrimCache, nat))
    requires t.Valid() && p < t.count && CacheValid(t, cache)
    ensures r.0.Valid() && r.2 < r.0.count
    ensures r.0.Get(r.2) == PrimObj(t.Get(p).kind, inst)
  {
    if inst == t.Get(p).blockType then (t, cache, p)
    else
      var ps := Clones(cache, p);
      match FindClone(t, ps, inst)
      case Some(i) => (t, cache, ps[i])
      case None =>
        var (t2, q) := AddToPrimTable(t, PrimObj(t.Get(p).kind, inst));
        (t2, cache[p := [q]], q)
  }

  /** The source's cache loses clones: specializing `add` at A, then at B,
      then at A again yields two different primitives for the same type A. */
  lemma SpecializeAsWrittenForgets()
    ensures var a := BlockType(Tuple([Bit(8), Bit(8)]), Tuple([Bit(8)]));
      var b := BlockType(Tuple([Bit(16), Bit(16)]), Tuple([Bit(16)]));
      var (t0, _) := AddToPrimTable(EmptyTable, PrimObj(BinWord(AddOp), InitialType(BinWord(AddOp))));
      var (t1, c1, q1) := SpecializePrimAsWritten(t0, map[], 0, a);
      var (t2, c2, q2) := SpecializePrimAsWritten(t1, c1, 0, b);
      var (t3, c3, q3) := SpecializePrimAsWritten(t2, c2, 0, a);
      q1 != q3
  {
    var a := BlockType(Tuple([Bit(8), Bit(8)]), Tuple([Bit(8)]));
    var b := BlockType(Tuple([Bit(16), Bit(16)]), Tuple([Bit(16)]));
    var add := PrimObj(BinWord(AddOp), InitialType(BinWord(AddOp)));
    var (t0, _) := AddToPrimTable(EmptyTable, add);
    assert t0.count == 1 && t0.Get(0) == add;
    var (t1, c1, q1) := SpecializePrimAsWritten(t0, map[], 0, a);
    assert q1 == 1 && c1 == map[0 := [1]];
    assert t1.count == 2 && t1.Get(1).blockType == a;
    assert CacheValid(t1, c1);
    var (t2, c2, q2) := SpecializePrimAsWritten(t1, c1, 0, b);
    assert t2.Get(1).blockType == a && t2.Get(1) == t1.Get(1);
    assert FindClone(t1, [1], b) == None;
    assert q2 == 2 && c2 == map[0 := [2]];
    assert t2.count == 3 && t2.Get(2).blockType == b;
    assert CacheValid(t2, c2);
    var (t3, c3, q3) := SpecializePrimAsWritten(t2, c2, 0, a);
    assert FindClone(t2, [2], a) == None;
    assert q3 == 3;
  }
}
