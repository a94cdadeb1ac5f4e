/** Word constants that are nonzero by construction (`src/mil/NonZero.java`).
    They are the operands `nzdiv` takes as divisors, which is why `nzdiv` can
    be marked pure while `div` and `rem` cannot. */
module NonZero {
  import opened Words
  import opened Outcomes
  import opened Prims
  import Decimal

  type NonZeroWord = v: Long | v != 0 witness 1

  datatype NonZeroConst = NonZeroConst(val: NonZeroWord)

  /** The constructor: the stored value is the word-normalised input
      (`normalise` stands for the target's `Word.fromLong`), and a value that
      normalises to zero is a fatal internal error. */
  function Make(normalise: Long -> Long, v: Long): (r: Result<NonZeroConst>)
    ensures r.Ok? <==> normalise(v) != 0
    ensures r.Ok? ==> r.value.val == normalise(v)
    ensures r.Fail? ==> r.msg == "NonZero with zero value"
  {
    var w := normalise(v);
    if w == 0 then Fail("NonZero with zero value") else Ok(NonZeroConst(w))
  }

  /** Two nonzero constants are the same atom when their values are equal. */
  predicate SameNonZero(a: NonZeroConst, b: NonZeroConst)
  {
    a.val == b.val
  }

  lemma SameNonZeroIsEquality(a: NonZeroConst, b: NonZeroConst, c: NonZeroConst)
    ensures SameNonZero(a, a)
    ensures SameNonZero(a, b) ==> SameNonZero(b, a)
    ensures SameNonZero(a, b) && SameNonZero(b, c) ==> SameNonZero(a, c)
    ensures SameNonZero(a, b) <==> a == b
  {
  }

  /** The constant atoms an operand can be. */
  datatype ConstAtom =
    | NzAtom(c: NonZeroConst)
    | WordAtom(w: Long)
    | FlagAtom(b: bool)

  /** The nonzero value of an atom; zero is reserved to mean the atom is not
      a nonzero constant. */
  function GetNonZero(a: ConstAtom): (r: Long)
    ensures a.NzAtom? ==> r == a.c.val
  {
    match a
    case NzAtom(c) => c.val
    case _ => 0
  }

  lemma GetNonZeroRecognises(a: ConstAtom)
    ensures GetNonZero(a) != 0 <==> a.NzAtom?
  {
  }

  /** The printable form: the decimal value followed by `nz`. */
  function ToString(c: NonZeroConst): (s: string)
    ensures |s| >= 3 && s[|s| - 2..] == "nz"
    ensures s[..|s| - 2] == Decimal.Show(c.val)
  {
    Decimal.Show(c.val) + "nz"
  }

  /** The printable form names the constant: distinct constants print
      differently. */
  lemma ToStringInjective(a: NonZeroConst, b: NonZeroConst)
    requires ToString(a) == ToString(b)
    ensures a == b
  {
    var s := ToString(a);
    assert s[..|s| - 2] == Decimal.Show(a.val) == Decimal.Show(b.val);
    Decimal.ShowInjective(a.val, b.val);
  }

  /** The type of a nonzero constant used as an operand. */
  function Instantiate(c: NonZeroConst): MilType
  {
    NzWord
  }

  /** A nonzero constant has the type of `nzdiv`'s divisor. */
  lemma InstantiateIsNzdivDivisor(c: NonZeroConst)
    ensures InitialType(NzDiv).dom == Tuple([Word, Instantiate(c)])
  {
  }

  /** Dividing by a nonzero constant never takes the divide-by-zero failure
      of `div` or `rem`: the invariant that lets `nzdiv` be pure. */
  lemma NonZeroDivisorNeverFails(k: PrimKind, c: NonZeroConst, fp: nat, stack: seq<Long>)
    requires k == Div || k == Rem
    requires fp + 2 <= |stack| && stack[fp + 1] == c.val
    ensures ExecKind(k, fp, stack).Ran?
  {
  }
}
