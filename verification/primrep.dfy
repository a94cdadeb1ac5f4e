/** Representation transformation of the wide memory primitives
    (`load64`/`store64` in `src/mil/Prim.java`). On a 64-bit target they stay
    primitive calls; on a 32-bit target each becomes a call to a block that
    performs two 32-bit accesses at `addr` and `addr + 4`, assuming
    little-endian memory. The block is built once and shared by every call
    site. A small evaluator for 32-bit MIL code shows the split blocks equal
    the 64-bit little-endian access they replace. */
module PrimRep {
  import opened Words
  import opened Prims
  import opened Mil
  import opened Outcomes
  import Decimal

  /** The result of rewriting one call: the new tail, the memoized block
      after the call, and the temporary counter; or a fatal internal error. */
  datatype RepOutcome =
    | Rewritten(tail: Tail, impl: Option<Block>, next: Temp)
    | InternalError(msg: string)

  /** `load64[addr]`: `lsw <- load32(addr); a <- add(addr, 4); msw <- load32(a); return [lsw, msw]`.
      Temporaries in creation order: the parameter, `a`, `lsw`, `msw`; the
      block takes the address and mentions only the four temporaries it
      takes from the counter. */
  function Load64Impl(next: Temp): (b: Block)
    ensures |b.params| == 1
    ensures Within(BlockTemps(b), next, next + 4)
  {
    var v := next;
    var a := next + 1;
    var lsw := next + 2;
    var msw := next + 3;
    var c3 := Done(Return([Var(lsw), Var(msw)]));
    var c2 := Bind([msw], PrimCall(Load(W32), [Var(a)]), c3);
    var c1 := Bind([a], PrimCall(BinWord(AddOp), [Var(v), WordConst(4)]), c2);
    var c0 := Bind([lsw], PrimCall(Load(W32), [Var(v)]), c1);
    SmallAtomTemps(lsw, msw, 4);
    SmallAtomTemps(a, a, 4);
    SmallAtomTemps(v, v, 4);
    SmallAtomTemps(msw, msw, 4);
    assert CodeTemps(c3) == {lsw, msw};
    assert CodeTemps(c2) == {msw, a, lsw};
    assert CodeTemps(c1) == {a, v, msw, lsw};
    assert CodeTemps(c0) == {lsw, v, a, msw};
    Block([v], c0)
  }

  /** `store64[addr, lsw, msw]`: `[] <- store32(addr, lsw); a <- add(addr, 4); store32(a, msw)`.
      The block takes three values and mentions only the four temporaries
      it takes from the counter. */
  function Store64Impl(next: Temp): (b: Block)
    ensures |b.params| == 3
    ensures Within(BlockTemps(b), next, next + 4)
  {
    var addr := next;
    var lsw := next + 1;
    var msw := next + 2;
    var a := next + 3;
    var c2 := Done(PrimCall(Store(W32), [Var(a), Var(msw)]));
    var c1 := Bind([a], PrimCall(BinWord(AddOp), [Var(addr), WordConst(4)]), c2);
    var c0 := Bind([], PrimCall(Store(W32), [Var(addr), Var(lsw)]), c1);
    SmallAtomTemps(a, msw, 4);
    SmallAtomTemps(addr, lsw, 4);
    assert CodeTemps(c2) == {a, msw};
    assert CodeTemps(c1) == {a, addr, msw};
    assert CodeTemps(c0) == {addr, lsw, a, msw};
    assert TempSet([addr, lsw, msw]) == {addr, lsw, msw};
    Block([addr, lsw, msw], c0)
  }

  /** Shared shape of both rewrites: keep the primitive on 64-bit targets,
      call the (once built) split block on 32-bit targets, fail otherwise. */
  function RepTransformWide(k: PrimKind, wordSize: int, impl: Option<Block>, next: Temp,
                            targs: seq<Atom>, build: Block, used: nat, name: string): (r: RepOutcome)
    ensures wordSize == 64 ==> r == Rewritten(PrimCall(k, targs), impl, next)
    ensures wordSize == 32 ==> r.Rewritten? && r.impl.Some? && r.tail == BlockCall(r.impl.value, targs)
    ensures wordSize == 32 && impl.Some? ==> r == Rewritten(BlockCall(impl.value, targs), impl, next)
    ensures wordSize == 32 && impl.None? ==> r == Rewritten(BlockCall(build, targs), Some(build), next + used)
    ensures wordSize != 32 && wordSize != 64 ==>
      r == InternalError("Unrecognized wordsize " + Decimal.Show(wordSize) + " in repTransformPrim for " + name)
  {
    if wordSize == 64 then Rewritten(PrimCall(k, targs), impl, next)
    else if wordSize == 32 then
      var (b, next') := if impl.None? then (build, next + used) else (impl.value, next);
      Rewritten(BlockCall(b, targs), Some(b), next')
    else InternalError("Unrecognized wordsize " + Decimal.Show(wordSize) + " in repTransformPrim for " + name)
  }

  function RepTransformLoad64(wordSize: int, impl: Option<Block>, next: Temp, targs: seq<Atom>): RepOutcome
  {
    RepTransformWide(Load(W64), wordSize, impl, next, targs, Load64Impl(next), 4, "load64")
  }

  function RepTransformStore64(wordSize: int, impl: Option<Block>, next: Temp, targs: seq<Atom>): RepOutcome
  {
    RepTransformWide(Store(W64), wordSize, impl, next, targs, Store64Impl(next), 4, "store64")
  }

  /** The split block is computed once: after the first rewrite on a 32-bit
      target, every later call site calls the very same block and no further
      temporaries are consumed. */
  lemma Load64Memoized(impl: Option<Block>, next: Temp, targs1: seq<Atom>, targs2: seq<Atom>)
    ensures var r1 := RepTransformLoad64(32, impl, next, targs1);
      && r1.Rewritten?
      && r1.impl == Some(if impl.Some? then impl.value else Load64Impl(next))
      && var r2 := RepTransformLoad64(32, r1.impl, r1.next, targs2);
         r2 == Rewritten(BlockCall(r1.impl.value, targs2), r1.impl, r1.next)
  {
  }

  lemma Store64Memoized(impl: Option<Block>, next: Temp, targs1: seq<Atom>, targs2: seq<Atom>)
    ensures var r1 := RepTransformStore64(32, impl, next, targs1);
      && r1.Rewritten?
      && r1.impl == Some(if impl.Some? then impl.value else Store64Impl(next))
      && var r2 := RepTransformStore64(32, r1.impl, r1.next, targs2);
         r2 == Rewritten(BlockCall(r1.impl.value, targs2), r1.impl, r1.next)
  {
  }

  // ---------------------------------------------------------------------
  // A 32-bit target: byte memory and an evaluator for straight-line code

  const TWO32: int := 0x1_0000_0000

  type Byte = b: int | 0 <= b < 256

  /** Byte-addressed memory; address `a` is `mem[a]`. */
  type Mem = seq<Byte>

  /** 256^n. */
  function Pow256(n: nat): (r: nat)
    ensures r >= 1
  {
    if n == 0 then 1 else 256 * Pow256(n - 1)
  }

  /** The little-endian value of the `n` bytes at `a`. */
  function LoadLE(mem: Mem, a: nat, n: nat): nat
    requires a + n <= |mem|
    decreases n
  {
    if n == 0 then 0 else mem[a] + 256 * LoadLE(mem, a + 1, n - 1)
  }

  /** Memory after writing the low `n` bytes of `v` at `a`, least significant first. */
  function {:induction false} StoreLE(mem: Mem, a: nat, n: nat, v: nat): (m: Mem)
    requires a + n <= |mem|
    ensures |m| == |mem|
    decreases n
  {
    if n == 0 then mem else StoreLE(mem[a := v % 256], a + 1, n - 1, v / 256)
  }

  type Env = map<Temp, int>

  function AtomValue(env: Env, x: Atom): Option<int>
  {
    match x
    case Var(t) => if t in env then Some(env[t]) else None
    case WordConst(w) => Some(w)
    case FlagConst(_) => None
  }

  function AtomValues(env: Env, xs: seq<Atom>): (r: Option<seq<int>>)
    ensures r.Some? ==> |r.value| == |xs|
    decreases |xs|
  {
    if |xs| == 0 then Some([])
    else
      var v := AtomValue(env, xs[0]);
      var vs := AtomValues(env, xs[1..]);
      if v.Some? && vs.Some? then Some([v.value] + vs.value) else None
  }

  /** The 32-bit primitives the split blocks use; `None` is a fault (an
      address outside memory, a value that is not a 32-bit word). */
  function EvalPrim32(p: PrimKind, args: seq<int>, mem: Mem): Option<(seq<int>, Mem)>
  {
    if p == Load(W32) && |args| == 1 && 0 <= args[0] && args[0] + 4 <= |mem| then
      Some(([LoadLE(mem, args[0], 4)], mem))
    else if p == Store(W32) && |args| == 2 && 0 <= args[0] && args[0] + 4 <= |mem|
         && 0 <= args[1] < TWO32 then
      Some(([], StoreLE(mem, args[0], 4, args[1])))
    else if p == BinWord(AddOp) && |args| == 2 && 0 <= args[0] && 0 <= args[1] then
      Some(([(args[0] + args[1]) % TWO32], mem))
    else None
  }

  function EvalTail32(t: Tail, env: Env, mem: Mem): Option<(seq<int>, Mem)>
  {
    match t
    case Return(xs) =>
      (match AtomValues(env, xs)
       case Some(vs) => Some((vs, mem))
       case None => None)
    case PrimCall(p, xs) =>
      (match AtomValues(env, xs)
       case Some(vs) => EvalPrim32(p, vs, mem)
       case None => None)
    case _ => None
  }

  function BindAll(env: Env, lhs: seq<Temp>, vs: seq<int>): Env
    requires |lhs| == |vs|
    decreases |lhs|
  {
    if |lhs| == 0 then env else BindAll(env[lhs[0] := vs[0]], lhs[1..], vs[1..])
  }

  function EvalCode32(c: Code, env: Env, mem: Mem): Option<(seq<int>, Mem)>
    decreases c
  {
    match c
    case Done(t) => EvalTail32(t, env, mem)
    case Bind(lhs, t, rest) =>
      match EvalTail32(t, env, mem)
      case Some((vs, mem')) =>
        if |vs| == |lhs| then EvalCode32(rest, BindAll(env, lhs, vs), mem') else None
      case None => None
  }

  function EvalBlock32(b: Block, args: seq<int>, mem: Mem): Option<(seq<int>, Mem)>
  {
    if |args| == |b.params| then EvalCode32(b.body, BindAll(map[], b.params, args), mem) else None
  }

  lemma Distribute(c: int, x: int, p: int, h: int)
    ensures c * (x + p * h) == c * x + (c * p) * h
  {
  }

  /** Splitting a little-endian value: the first `n` bytes, plus 256^n times
      the next `k`. */
  lemma {:induction false} LoadLESplit(mem: Mem, a: nat, n: nat, k: nat)
    requires a + n + k <= |mem|
    ensures LoadLE(mem, a, n + k) == LoadLE(mem, a, n) + Pow256(n) * LoadLE(mem, a + n, k)
    decreases n
  {
    if n > 0 {
      LoadLESplit(mem, a + 1, n - 1, k);
      var hi := LoadLE(mem, a + n, k);
      var lo1 := LoadLE(mem, a + 1, n - 1);
      var p1 := Pow256(n - 1);
      assert LoadLE(mem, a + 1, n - 1 + k) == lo1 + p1 * hi;
      assert LoadLE(mem, a, n + k) == mem[a] + 256 * (lo1 + p1 * hi);
      assert LoadLE(mem, a, n) == mem[a] + 256 * lo1;
      Distribute(256, lo1, p1, hi);
    }
  }

  lemma AtomValues1(env: Env, x: Atom)
    requires AtomValue(env, x).Some?
    ensures AtomValues(env, [x]) == Some([AtomValue(env, x).value])
  {
    var a := AtomValue(env, x).value;
    assert [x][1..] == [];
    assert [a] + [] == [a];
  }

  lemma AtomValues2(env: Env, x: Atom, y: Atom)
    requires AtomValue(env, x).Some? && AtomValue(env, y).Some?
    ensures AtomValues(env, [x, y]) == Some([AtomValue(env, x).value, AtomValue(env, y).value])
  {
    var a, b := AtomValue(env, x).value, AtomValue(env, y).value;
    AtomValues1(env, y);
    assert [x, y][1..] == [y];
    assert [a] + [b] == [a, b];
  }

  lemma BindOne(env: Env, x: Temp, v: int)
    ensures BindAll(env, [x], [v]) == env[x := v]
  {
    assert [x][1..] == [] && [v][1..] == [];
  }

  /** One binding step of straight-line code. */
  lemma EvalBindStep(lhs: seq<Temp>, t: Tail, rest: Code, env: Env, mem: Mem, vs: seq<int>, mem': Mem)
    requires EvalTail32(t, env, mem) == Some((vs, mem')) && |vs| == |lhs|
    ensures EvalCode32(Bind(lhs, t, rest), env, mem) == EvalCode32(rest, BindAll(env, lhs, vs), mem')
  {
  }

  lemma DivModBy256(x: nat, m: nat)
    ensures (x + 256 * m) % 256 == x % 256
    ensures (x + 256 * m) / 256 == x / 256 + m
  {
  }

  /** Writing `x + 256^n * y` as `n + k` bytes is writing `x` as `n` bytes and
      then `y` as the `k` bytes after them, when `x` fits in `n` bytes. */
  lemma {:induction false} StoreLESplit(mem: Mem, a: nat, n: nat, k: nat, x: nat, y: nat)
    requires a + n + k <= |mem|
    requires x < Pow256(n)
    ensures StoreLE(mem, a, n + k, x + Pow256(n) * y) == StoreLE(StoreLE(mem, a, n, x), a + n, k, y)
    decreases n
  {
    if n > 0 {
      var m := Pow256(n - 1) * y;
      assert x + Pow256(n) * y == x + 256 * m;
      DivModBy256(x, m);
      assert x / 256 < Pow256(n - 1);
      StoreLESplit(mem[a := x % 256], a + 1, n - 1, k, x / 256, y);
    }
  }

  lemma Pow256Of4()
    ensures Pow256(4) == TWO32
  {
  }

  lemma EvalLoad32(env: Env, x: Atom, mem: Mem)
    requires AtomValue(env, x).Some?
    requires 0 <= AtomValue(env, x).value && AtomValue(env, x).value + 4 <= |mem|
    ensures EvalTail32(PrimCall(Load(W32), [x]), env, mem)
         == Some(([LoadLE(mem, AtomValue(env, x).value, 4)], mem))
  {
    AtomValues1(env, x);
  }

  /** The last two bindings of the split load: the high word from `addr + 4`. */
  lemma Load64High(next: Temp, env: Env, addr: nat, lo: nat, mem: Mem)
    requires next in env && env[next] == addr && next + 2 in env && env[next + 2] == lo
    requires addr + 8 <= |mem| && |mem| <= TWO32
    ensures EvalCode32(Load64Impl(next).body.rest, env, mem)
         == Some(([lo, LoadLE(mem, addr + 4, 4)], mem))
  {
    var c1 := Load64Impl(next).body.rest;
    var c2 := c1.rest;
    var a, msw := next + 1, next + 3;
    var hi := LoadLE(mem, addr + 4, 4);
    EvalAddFour(env, Var(next), mem);
    EvalBindStep(c1.lhs, c1.rhs, c2, env, mem, [addr + 4], mem);
    var env1 := env[a := addr + 4];
    BindOne(env, a, addr + 4);
    EvalLoad32(env1, Var(a), mem);
    EvalBindStep(c2.lhs, c2.rhs, c2.rest, env1, mem, [hi], mem);
    var env2 := env1[msw := hi];
    BindOne(env1, msw, hi);
    AtomValues2(env2, Var(next + 2), Var(msw));
    EvalDone(c2.rest.t, env2, mem);
  }

  /** Running the split load block: the low word from `addr`, the high word
      from `addr + 4`, memory unchanged. */
  lemma Load64Eval(next: Temp, addr: nat, mem: Mem)
    requires addr + 8 <= |mem| && |mem| <= TWO32
    ensures EvalBlock32(Load64Impl(next), [addr], mem)
         == Some(([LoadLE(mem, addr, 4), LoadLE(mem, addr + 4, 4)], mem))
  {
    var v, lsw := next, next + 2;
    var lo := LoadLE(mem, addr, 4);
    var c0 := Load64Impl(next).body;
    var env0 := map[v := addr];
    BindOne(map[], v, addr);
    EvalLoad32(env0, Var(v), mem);
    EvalBindStep(c0.lhs, c0.rhs, c0.rest, env0, mem, [lo], mem);
    var env1 := env0[lsw := lo];
    BindOne(env0, lsw, lo);
    Load64High(next, env1, addr, lo, mem);
  }

  /** The split load reads the same 64-bit little-endian value as a single
      64-bit load: the low word from `addr`, the high word from `addr + 4`,
      and leaves memory unchanged. */
  lemma Load64SplitCorrect(next: Temp, addr: nat, mem: Mem)
    requires addr + 8 <= |mem| && |mem| <= TWO32
    ensures var lo, hi := LoadLE(mem, addr, 4), LoadLE(mem, addr + 4, 4);
      && EvalBlock32(Load64Impl(next), [addr], mem) == Some(([lo, hi], mem))
      && lo + TWO32 * hi == LoadLE(mem, addr, 8)
  {
    Load64Eval(next, addr, mem);
    LoadLESplit(mem, addr, 4, 4);
    Pow256Of4();
  }

  lemma EvalStore32(env: Env, x: Atom, y: Atom, mem: Mem)
    requires AtomValue(env, x).Some? && AtomValue(env, y).Some?
    requires 0 <= AtomValue(env, x).value && AtomValue(env, x).value + 4 <= |mem|
    requires 0 <= AtomValue(env, y).value < TWO32
    ensures EvalTail32(PrimCall(Store(W32), [x, y]), env, mem)
         == Some(([], StoreLE(mem, AtomValue(env, x).value, 4, AtomValue(env, y).value)))
  {
    AtomValues2(env, x, y);
  }

  lemma EvalAddFour(env: Env, x: Atom, mem: Mem)
    requires AtomValue(env, x).Some? && 0 <= AtomValue(env, x).value < TWO32 - 4
    ensures EvalTail32(PrimCall(BinWord(AddOp), [x, WordConst(4)]), env, mem)
         == Some(([AtomValue(env, x).value + 4], mem))
  {
    AtomValues2(env, x, WordConst(4));
  }

  lemma EvalDone(t: Tail, env: Env, mem: Mem)
    ensures EvalCode32(Done(t), env, mem) == EvalTail32(t, env, mem)
  {
  }

  /** The second half of the split store: the high word at `addr + 4`. */
  lemma Store64High(next: Temp, env: Env, addr: nat, msw: nat, mem: Mem)
    requires next in env && env[next] == addr && next + 2 in env && env[next + 2] == msw
    requires addr + 8 <= |mem| && |mem| <= TWO32 && msw < TWO32
    ensures EvalCode32(Store64Impl(next).body.rest, env, mem) == Some(([], StoreLE(mem, addr + 4, 4, msw)))
  {
    var c1 := Store64Impl(next).body.rest;
    var a := next + 3;
    EvalAddFour(env, Var(next), mem);
    EvalBindStep(c1.lhs, c1.rhs, c1.rest, env, mem, [addr + 4], mem);
    var env1 := env[a := addr + 4];
    BindOne(env, a, addr + 4);
    EvalStore32(env1, Var(a), Var(next + 2), mem);
    EvalDone(c1.rest.t, env1, mem);
  }

  /** Running the split store block: two 32-bit stores, the high word at `addr + 4`. */
  lemma Store64Eval(next: Temp, addr: nat, lsw: nat, msw: nat, mem: Mem)
    requires addr + 8 <= |mem| && |mem| <= TWO32
    requires lsw < TWO32 && msw < TWO32
    ensures EvalBlock32(Store64Impl(next), [addr, lsw, msw], mem)
         == Some(([], StoreLE(StoreLE(mem, addr, 4, lsw), addr + 4, 4, msw)))
  {
    var pa, pl, pm := next, next + 1, next + 2;
    var c0 := Store64Impl(next).body;
    var env0 := map[pa := addr][pl := lsw][pm := msw];
    assert BindAll(map[], [pa, pl, pm], [addr, lsw, msw]) == env0 by {
      assert [pa, pl, pm][1..] == [pl, pm] && [addr, lsw, msw][1..] == [lsw, msw];
      BindOne(map[pa := addr][pl := lsw], pm, msw);
    }
    var mem1 := StoreLE(mem, addr, 4, lsw);
    EvalStore32(env0, Var(pa), Var(pl), mem);
    EvalBindStep(c0.lhs, c0.rhs, c0.rest, env0, mem, [], mem1);
    assert BindAll(env0, [], []) == env0;
    Store64High(next, env0, addr, msw, mem1);
  }

  /** Writing a 64-bit value little-endian is writing its low word and then
      its high word four bytes further on. */
  lemma StoreWord64(mem: Mem, addr: nat, lsw: nat, msw: nat)
    requires addr + 8 <= |mem|
    requires lsw < TWO32
    ensures StoreLE(mem, addr, 8, lsw + TWO32 * msw) == StoreLE(StoreLE(mem, addr, 4, lsw), addr + 4, 4, msw)
  {
    Pow256Of4();
    StoreLESplit(mem, addr, 4, 4, lsw, msw);
  }

  /** The split store leaves memory exactly as a single 64-bit little-endian
      store of `lsw + 2^32 * msw` would. */
  lemma Store64SplitCorrect(next: Temp, addr: nat, lsw: nat, msw: nat, mem: Mem)
    requires addr + 8 <= |mem| && |mem| <= TWO32
    requires lsw < TWO32 && msw < TWO32
    ensures EvalBlock32(Store64Impl(next), [addr, lsw, msw], mem)
         == Some(([], StoreLE(mem, addr, 8, lsw + TWO32 * msw)))
  {
    Store64Eval(next, addr, lsw, msw, mem);
    StoreWord64(mem, addr, lsw, msw);
  }
}
