/** The fragment of MIL code that the generators and lowering rules of this
    model build: atoms, tails, straight-line code, blocks and closure
    definitions. Temporaries are integers handed out by a counter, as the
    source's `new Temp()` hands out fresh objects. */
module Mil {
  import opened Words
  import opened Prims

  type Temp = int

  datatype Atom =
    | Var(t: Temp)
    | WordConst(w: Long)
    | FlagConst(b: bool)

  datatype Tail =
    | Return(results: seq<Atom>)
    | PrimCall(p: PrimKind, args: seq<Atom>)
    | BlockCall(b: Block, bargs: seq<Atom>)
    | ClosAlloc(k: Closure, cargs: seq<Atom>)

  /** A sequence of bindings ending in a tail. */
  datatype Code =
    | Bind(lhs: seq<Temp>, rhs: Tail, rest: Code)
    | Done(t: Tail)

  datatype Block = Block(params: seq<Temp>, body: Code)

  /** A closure definition: stored fields, function arguments, and the tail
      run when the closure is entered. */
  datatype Closure = Closure(stored: seq<Temp>, args: seq<Temp>, tail: Tail)

  /** Temporaries as atoms. */
  function Vars(ts: seq<Temp>): (r: seq<Atom>)
    ensures |r| == |ts|
    ensures forall i :: 0 <= i < |ts| ==> r[i] == Var(ts[i])
  {
    seq(|ts|, i requires 0 <= i < |ts| => Var(ts[i]))
  }

  /** `n` fresh temporaries from the counter `next`, in creation order. */
  function MakeTemps(next: Temp, n: nat): (r: seq<Temp>)
    ensures |r| == n
    ensures forall i :: 0 <= i < n ==> r[i] == next + i
  {
    seq(n, i => next + i)
  }

  /** The bindings of a code sequence, outermost first. */
  function Binds(c: Code): seq<(seq<Temp>, Tail)>
  {
    match c
    case Done(_) => []
    case Bind(lhs, t, rest) => [(lhs, t)] + Binds(rest)
  }

  /** The temporaries of a list, as a set. */
  function TempSet(ts: seq<Temp>): set<Temp>
  {
    set x | x in ts
  }

  /** The temporaries an atom list mentions. */
  function AtomTemps(xs: seq<Atom>): set<Temp>
  {
    set i | 0 <= i < |xs| && xs[i].Var? :: xs[i].t
  }

  /** The temporaries of the short atom lists that generated code uses. */
  lemma SmallAtomTemps(a: Temp, b: Temp, w: Long)
    ensures AtomTemps([]) == {} && TempSet([]) == {} && TempSet([a]) == {a}
    ensures AtomTemps([Var(a)]) == {a}
    ensures AtomTemps([Var(a), Var(b)]) == {a, b}
    ensures AtomTemps([Var(a), WordConst(w)]) == {a}
  {
    assert [Var(a)][0] == Var(a);
    var xs := [Var(a), Var(b)];
    assert xs[0] == Var(a) && xs[1] == Var(b);
    assert a in AtomTemps(xs) && b in AtomTemps(xs);
    assert forall x :: x in AtomTemps(xs) ==> x == a || x == b;
    assert [Var(a), WordConst(w)][0] == Var(a);
  }

  /** Every temporary a tail mentions, including those of the blocks and
      closures it contains. */
  function TailTemps(t: Tail): set<Temp>
    decreases t
  {
    match t
    case Return(xs) => AtomTemps(xs)
    case PrimCall(_, xs) => AtomTemps(xs)
    case BlockCall(b, xs) => BlockTemps(b) + AtomTemps(xs)
    case ClosAlloc(k, xs) => ClosureTemps(k) + AtomTemps(xs)
  }

  function CodeTemps(c: Code): set<Temp>
    decreases c
  {
    match c
    case Done(t) => TailTemps(t)
    case Bind(lhs, t, rest) => TempSet(lhs) + TailTemps(t) + CodeTemps(rest)
  }

  function BlockTemps(b: Block): set<Temp>
    decreases b
  {
    TempSet(b.params) + CodeTemps(b.body)
  }

  function ClosureTemps(k: Closure): set<Temp>
    decreases k
  {
    TempSet(k.stored) + TempSet(k.args) + TailTemps(k.tail)
  }

  /** Every temporary of `s` lies in `[lo, hi)`. */
  predicate Within(s: set<Temp>, lo: Temp, hi: Temp)
  {
    forall x :: x in s ==> lo <= x < hi
  }

  /** A code sequence mentions only temporaries in `[lo, hi)` when each of
      its bindings and its final tail do. */
  lemma {:induction false} CodeTempsWithin(c: Code, lo: Temp, hi: Temp)
    requires Within(TailTemps(Final(c)), lo, hi)
    requires forall i :: 0 <= i < |Binds(c)| ==>
      Within(TempSet(Binds(c)[i].0), lo, hi) && Within(TailTemps(Binds(c)[i].1), lo, hi)
    ensures Within(CodeTemps(c), lo, hi)
    decreases c
  {
    match c
    case Done(_) =>
    case Bind(lhs, t, rest) =>
      assert Binds(c)[0] == (lhs, t);
      assert forall i :: 0 <= i < |Binds(rest)| ==> Binds(rest)[i] == Binds(c)[i + 1];
      CodeTempsWithin(rest, lo, hi);
  }

  /** The tail a code sequence ends in. */
  function Final(c: Code): Tail
  {
    match c
    case Done(t) => t
    case Bind(_, _, rest) => Final(rest)
  }
}
