/** Constant folding of the binary flag operators (`PrimBinFOp.fold` in
    `src/mil/PrimBinFOp.java`): a call whose two arguments are known flags is
    replaced by code that returns the operator's value at once. */
module PrimBinFOp {
  import opened Prims
  import opened Mil
  import opened Outcomes

  /** The single flag that code returns immediately, if it is of that form. */
  function ReturnedFlag(c: Code): Option<bool>
  {
    if c.Done? && c.t.Return? && |c.t.results| == 1 && c.t.results[0].FlagConst? then
      Some(c.t.results[0].b)
    else None
  }

  /** Folding `f` on the known flags `n` and `m`. */
  function Fold(f: FlagOp, n: bool, m: bool): (c: Code)
    ensures Binds(c) == [] && c.Done?
    ensures ReturnedFlag(c) == Some(FlagEval(f, n, m))
  {
    Done(Return([FlagConst(FlagEval(f, n, m))]))
  }

  /** Folding the logical operators gives the boolean connectives. */
  lemma FoldConnectives(n: bool, m: bool)
    ensures ReturnedFlag(Fold(BAnd, n, m)) == Some(n && m)
    ensures ReturnedFlag(Fold(BOr, n, m)) == Some(n || m)
    ensures ReturnedFlag(Fold(BXor, n, m)) == Some(n != m)
    ensures ReturnedFlag(Fold(BEq, n, m)) == Some(n == m)
  {
  }

  /** Folding the comparisons orders the flags with false below true. */
  lemma FoldComparisons(n: bool, m: bool)
    ensures ReturnedFlag(Fold(BLt, n, m)) == Some(FlagRank(n) < FlagRank(m))
    ensures ReturnedFlag(Fold(BLe, n, m)) == Some(FlagRank(n) <= FlagRank(m))
    ensures ReturnedFlag(Fold(BGt, n, m)) == Some(FlagRank(n) > FlagRank(m))
    ensures ReturnedFlag(Fold(BGe, n, m)) == Some(FlagRank(n) >= FlagRank(m))
  {
  }

  /** Folding the dual of an operator returns the negation of folding the
      operator itself. */
  lemma FoldDual(f: FlagOp, g: FlagOp, n: bool, m: bool)
    requires BnotDual(BinFlag(f)) == Some(BinFlag(g))
    ensures ReturnedFlag(Fold(g, n, m)) == Some(!ReturnedFlag(Fold(f, n, m)).value)
  {
    DualNegates(BinFlag(f));
  }
}
