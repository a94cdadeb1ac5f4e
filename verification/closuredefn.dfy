/** The bookkeeping a closure definition `k{params} [args] = tail` carries
    through the optimiser (`src/mil/ClosureDefn.java`): the bitmap of used
    stored parameters and the pruning it drives, duplicate detection in a
    table of hash buckets, the per-parameter sources of invariant analysis,
    and the cache of closures derived for known constructors.

    The closure's tail is opaque: its used variables, summary and alpha
    equivalence are supplied by the caller. */
module ClosureDefn {
  import opened Outcomes
  import opened Mil
  import Words

  // ---------------------------------------------------------------------
  // Used stored parameters

  /** The used-argument bitmap (`None` when nothing is known to be used yet)
      and the count of used positions. */
  datatype UsedArgs = UsedArgs(flags: Option<seq<bool>>, num: nat)

  /** The state after `clearUsedArgsInfo`. */
  const NoneUsed: UsedArgs := UsedArgs(None, 0)

  function CountTrue(bs: seq<bool>): (c: nat)
    ensures c <= |bs|
    decreases |bs|
  {
    if |bs| == 0 then 0
    else CountTrue(bs[..|bs| - 1]) + (if bs[|bs| - 1] then 1 else 0)
  }

  /** Position `i` is marked used. */
  predicate Flag(u: UsedArgs, i: int)
  {
    u.flags.Some? && 0 <= i < |u.flags.value| && u.flags.value[i]
  }

  /** The count agrees with the bitmap, and the bitmap has one flag per
      stored parameter; an absent bitmap counts as all false. */
  predicate ValidFor(u: UsedArgs, arity: nat)
  {
    && (u.flags.None? ==> u.num == 0)
    && (u.flags.Some? ==> |u.flags.value| == arity && u.num == CountTrue(u.flags.value))
  }

  lemma NoneUsedValid(arity: nat)
    ensures ValidFor(NoneUsed, arity)
    ensures forall i :: !Flag(NoneUsed, i)
  {
  }

  lemma {:induction false} CountTrueAllFalse(n: nat)
    ensures CountTrue(seq(n, _ => false)) == 0
  {
    if n > 0 {
      assert seq(n, _ => false)[..n - 1] == seq(n - 1, _ => false);
      CountTrueAllFalse(n - 1);
    }
  }

  /** Setting one false flag adds one to the count. */
  lemma {:induction false} CountTrueSet(bs: seq<bool>, i: nat)
    requires i < |bs| && !bs[i]
    ensures CountTrue(bs[i := true]) == CountTrue(bs) + 1
    decreases |bs|
  {
    var n := |bs|;
    var cs := bs[i := true];
    if i < n - 1 {
      assert cs[..n - 1] == bs[..n - 1][i := true];
      CountTrueSet(bs[..n - 1], i);
    } else {
      assert cs[..n - 1] == bs[..n - 1];
    }
  }

  /** A count that reaches the length means every flag is set. */
  lemma {:induction false} CountTrueFull(bs: seq<bool>)
    requires CountTrue(bs) == |bs|
    ensures forall i :: 0 <= i < |bs| ==> bs[i]
    decreases |bs|
  {
    if |bs| > 0 {
      var n := |bs|;
      assert CountTrue(bs[..n - 1]) <= n - 1;
      assert bs[n - 1];
      CountTrueFull(bs[..n - 1]);
      assert forall i :: 0 <= i < n - 1 ==> bs[i] == bs[..n - 1][i];
    }
  }

  /** The temporary at position `i` already occurs at an earlier position. */
  predicate EarlierCopy(dst: seq<Temp>, i: nat)
    requires i < |dst|
  {
    exists j :: 0 <= j < i && dst[j] == dst[i]
  }

  method Duplicated(i: nat, dst: seq<Temp>) returns (r: bool)
    requires i < |dst|
    ensures r <==> EarlierCopy(dst, i)
  {
    var j := 0;
    while j < i
      invariant 0 <= j <= i
      invariant forall k :: 0 <= k < j ==> dst[k] != dst[i]
    {
      if dst[j] == dst[i] {
        return true;
      }
      j := j + 1;
    }
    return false;
  }

  /** One round of the unused-argument analysis for the stored parameters
      `dst`, given the variables the body uses. An entrypoint keeps all its
      parameters. Otherwise, when some parameter is still unused, each
      unmarked position whose temporary the body uses, and which is not a
      repeat of an earlier position, becomes used. The result is the number
      of parameters still unused. */
  method CountUnusedArgs(isEntrypoint: bool, u: UsedArgs, dst: seq<Temp>, bodyUsed: set<Temp>)
    returns (unused: int, u': UsedArgs)
    requires ValidFor(u, |dst|)
    ensures ValidFor(u', |dst|)
    ensures isEntrypoint ==> unused == 0 && u' == u
    ensures !isEntrypoint ==> unused == |dst| - u'.num && unused >= 0
    ensures !isEntrypoint ==> forall i :: 0 <= i < |dst| ==>
      (Flag(u', i) <==> Flag(u, i) || (dst[i] in bodyUsed && !EarlierCopy(dst, i)))
    ensures u'.num >= u.num
  {
    if isEntrypoint {
      return 0, u;
    }
    u' := u;
    unused := |dst| - u.num;
    if unused > 0 {
      var i := 0;
      while i < |dst|
        invariant 0 <= i <= |dst|
        invariant ValidFor(u', |dst|)
        invariant unused == |dst| - u'.num
        invariant u'.num >= u.num
        invariant forall k :: 0 <= k < i ==>
          (Flag(u', k) <==> Flag(u, k) || (dst[k] in bodyUsed && !EarlierCopy(dst, k)))
        invariant forall k :: i <= k < |dst| ==> (Flag(u', k) <==> Flag(u, k))
      {
        if !Flag(u', i) {
          var dup := Duplicated(i, dst);
          if dst[i] in bodyUsed && !dup {
            var fs := if u'.flags.None? then seq(|dst|, _ => false) else u'.flags.value;
            if u'.flags.None? {
              CountTrueAllFalse(|dst|);
            }
            CountTrueSet(fs, i);
            u' := UsedArgs(Some(fs[i := true]), u'.num + 1);
            unused := unused - 1;
          }
        }
        i := i + 1;
      }
    } else if u.flags.Some? {
      CountTrueFull(u.flags.value);
    }
  }

  /** The temporaries an atom list mentions. */
  function TempsOf(args: seq<Atom>): set<Temp>
  {
    set i | 0 <= i < |args| && args[i].Var? :: args[i].t
  }

  /** The temporaries at used positions of an atom list. */
  function UsedTempsOf(u: UsedArgs, args: seq<Atom>): set<Temp>
  {
    set i | 0 <= i < |args| && Flag(u, i) && args[i].Var? :: args[i].t
  }

  /** Adding an atom to a variable set: a temporary adds itself, a constant
      nothing. */
  function AddAtom(a: Atom, vs: set<Temp>): set<Temp>
  {
    if a.Var? then vs + {a.t} else vs
  }

  /** The scan of `usedVars(args, vs)` from position `i`: add the atoms at
      positions that `keepAll` or the bitmap marks. */
  function {:induction false} AddArgsFrom(keepAll: bool, u: UsedArgs, args: seq<Atom>, i: nat, vs: set<Temp>)
    : (r: set<Temp>)
    requires i <= |args|
    ensures r == vs + set k | i <= k < |args| && (keepAll || Flag(u, k)) && args[k].Var? :: args[k].t
    decreases |args| - i
  {
    if i == |args| then vs
    else
      var vs' := if keepAll || Flag(u, i) then AddAtom(args[i], vs) else vs;
      var r := AddArgsFrom(keepAll, u, args, i + 1, vs');
      assert r == vs + set k | i <= k < |args| && (keepAll || Flag(u, k)) && args[k].Var? :: args[k].t by {
        forall x | x in r ensures x in vs + set k | i <= k < |args| && (keepAll || Flag(u, k)) && args[k].Var? :: args[k].t {
          if x !in vs' {
            var k :| i + 1 <= k < |args| && (keepAll || Flag(u, k)) && args[k].Var? && args[k].t == x;
          }
        }
      }
      r
  }

  /** The variables used by a call passing `args` to this definition: all
      of them for an entrypoint, only those at used positions otherwise. */
  function UsedVarsOfCall(isEntrypoint: bool, u: UsedArgs, args: seq<Atom>, vs: set<Temp>): (r: set<Temp>)
    ensures isEntrypoint ==> r == vs + TempsOf(args)
    ensures !isEntrypoint ==> r == vs + UsedTempsOf(u, args)
  {
    if isEntrypoint then AddArgsFrom(true, u, args, 0, vs)
    else if u.flags.Some? then AddArgsFrom(false, u, args, 0, vs)
    else vs
  }

  /** The temporaries at used positions, in their original order. */
  function Kept(dsts: seq<Temp>, u: UsedArgs): seq<Temp>
    decreases |dsts|
  {
    if |dsts| == 0 then []
    else Kept(dsts[..|dsts| - 1], u) + (if Flag(u, |dsts| - 1) then [dsts[|dsts| - 1]] else [])
  }

  lemma {:induction false} KeptCount(dsts: seq<Temp>, bs: seq<bool>, u: UsedArgs)
    requires u.flags == Some(bs) && |dsts| <= |bs|
    ensures |Kept(dsts, u)| == CountTrue(bs[..|dsts|])
    decreases |dsts|
  {
    var n := |dsts|;
    if n > 0 {
      KeptCount(dsts[..n - 1], bs, u);
      assert bs[..n][..n - 1] == bs[..n - 1];
    }
  }

  /** When every position is used, nothing is dropped. */
  lemma {:induction false} KeptAll(dsts: seq<Temp>, u: UsedArgs)
    requires forall i :: 0 <= i < |dsts| ==> Flag(u, i)
    ensures Kept(dsts, u) == dsts
    decreases |dsts|
  {
    var n := |dsts|;
    if n > 0 {
      KeptAll(dsts[..n - 1], u);
      assert dsts[..n - 1] + [dsts[n - 1]] == dsts;
    }
  }

  /** The stored parameters left after pruning: exactly the temporaries at
      used positions, in order, as many as the count says. An entrypoint,
      or a definition with every parameter used, keeps them all. */
  method RemoveUnusedTemps(isEntrypoint: bool, u: UsedArgs, dsts: seq<Temp>) returns (r: seq<Temp>)
    requires ValidFor(u, |dsts|)
    ensures isEntrypoint || u.num == |dsts| ==> r == dsts
    ensures !isEntrypoint ==> r == Kept(dsts, u) && |r| == u.num
  {
    if !isEntrypoint && u.num < |dsts| {
      var acc := [];
      var i := 0;
      while i < |dsts|
        invariant 0 <= i <= |dsts|
        invariant acc == Kept(dsts[..i], u)
      {
        assert dsts[..i + 1][..i] == dsts[..i];
        if u.flags.Some? && u.flags.value[i] {
          acc := acc + [dsts[i]];
        }
        i := i + 1;
      }
      assert dsts[..i] == dsts;
      r := acc;
      if u.flags.Some? {
        KeptCount(dsts, u.flags.value, u);
        assert u.flags.value[..|dsts|] == u.flags.value;
      } else {
        KeptNone(dsts, u);
      }
    } else {
      r := dsts;
      if !isEntrypoint {
        if u.flags.Some? {
          CountTrueFull(u.flags.value);
        }
        KeptAll(dsts, u);
      }
    }
  }

  lemma {:induction false} KeptNone(dsts: seq<Temp>, u: UsedArgs)
    requires u.flags.None?
    ensures Kept(dsts, u) == []
    decreases |dsts|
  {
    if |dsts| > 0 {
      KeptNone(dsts[..|dsts| - 1], u);
    }
  }

  // ---------------------------------------------------------------------
  // Duplicate detection

  /** A closure definition as the duplicate finder sees it. */
  datatype Candidate<T, D> = Candidate(
    name: string,
    params: seq<Temp>,
    args: seq<Temp>,
    tail: T,
    declared: Option<D>,
    isEntrypoint: bool)

  /** A table entry: a definition with the summary it was filed under. */
  datatype Entry<T, D> = Entry(defn: Candidate<T, D>, summary: int)

  /** The variables bound by a definition, passed to the tail comparison in
      the same order for both sides. The source builds these lists with
      `Temp.add`, which is not part of this model and places the newest
      variable first; the order here, stored parameters then arguments, is
      a modelling choice, and the tail comparison is a parameter. */
  function Bound<T, D>(c: Candidate<T, D>): seq<Temp>
  {
    c.params + c.args
  }

  /** Alpha equivalence of two definitions: equal stored and argument counts,
      and alpha-equivalent tails under the pairing of their bound variables. */
  function AlphaClosureDefn<T, D>(a: Candidate<T, D>, b: Candidate<T, D>,
                                  alphaTail: (T, seq<Temp>, T, seq<Temp>) -> bool): (r: bool)
    ensures r ==> |a.params| == |b.params| && |a.args| == |b.args|
    ensures r ==> alphaTail(a.tail, Bound(a), b.tail, Bound(b))
  {
    if |a.params| != |b.params| || |a.args| != |b.args| then false
    else alphaTail(a.tail, Bound(a), b.tail, Bound(b))
  }

  /** With a symmetric tail comparison, definition equivalence is symmetric. */
  lemma AlphaClosureDefnSymmetric<T, D>(a: Candidate<T, D>, b: Candidate<T, D>,
                                        alphaTail: (T, seq<Temp>, T, seq<Temp>) -> bool)
    requires forall x, xs, y, ys :: alphaTail(x, xs, y, ys) == alphaTail(y, ys, x, xs)
    ensures AlphaClosureDefn(a, b, alphaTail) == AlphaClosureDefn(b, a, alphaTail)
  {
  }

  lemma MulSign(x: int, d: int)
    requires d > 0
    ensures x >= 1 ==> x * d >= d
    ensures x <= -1 ==> x * d <= -d
  {
    if x >= 1 {
      Words.MulNonneg(x - 1, d);
      assert x * d == (x - 1) * d + d;
    } else if x <= -1 {
      Words.MulNonneg(-x - 1, d);
      assert -(x * d) == (-x - 1) * d + d;
    }
  }

  /** Euclidean division is unique: a quotient and a remainder in `[0, d)`
      are Dafny's `/` and `%`. */
  lemma EuclidUnique(n: int, d: int, q: int, r: int)
    requires d > 0 && n == q * d + r && 0 <= r < d
    ensures n % d == r
  {
    var x := q - n / d;
    assert x * d == n % d - r;
    MulSign(x, d);
  }

  /** The bucket for a summary: Java's remainder, moved into range when it
      is negative. */
  function BucketIndex(summary: int, size: nat): (idx: nat)
    requires size > 0
    ensures idx < size
    ensures idx == summary % size
  {
    var q := Words.TruncDiv(summary, size);
    var rem := summary - size * q;
    var idx := if rem < 0 then rem + size else rem;
    assert idx == summary % size by {
      if rem < 0 {
        EuclidUnique(summary, size, q - 1, idx);
      } else {
        EuclidUnique(summary, size, q, idx);
      }
    }
    idx
  }

  /** The entry `e` may stand in for `k`: same summary, alpha-equivalent. */
  predicate Matches<T, D>(e: Entry<T, D>, k: Candidate<T, D>, summary: int,
                          alphaTail: (T, seq<Temp>, T, seq<Temp>) -> bool)
  {
    e.summary == summary && AlphaClosureDefn(e.defn, k, alphaTail)
  }

  /** The entry's declared type does not rule out replacing `k` by it. */
  predicate DeclaredCompatible<T, D>(e: Entry<T, D>, k: Candidate<T, D>, declAlpha: (D, D) -> bool)
  {
    e.defn.declared.None? || (k.declared.Some? && declAlpha(e.defn.declared.value, k.declared.value))
  }

  /** `e` may replace `k`: a match whose declared type is compatible. */
  predicate Replaceable<T, D>(e: Entry<T, D>, k: Candidate<T, D>, summary: int,
                              alphaTail: (T, seq<Temp>, T, seq<Temp>) -> bool,
                              declAlpha: (D, D) -> bool)
  {
    Matches(e, k, summary, alphaTail) && DeclaredCompatible(e, k, declAlpha)
  }

  /** Some entry of `bucket` from position `i` on matches `k`. */
  predicate HasMatch<T, D>(bucket: seq<Entry<T, D>>, i: nat, k: Candidate<T, D>, summary: int,
                           alphaTail: (T, seq<Temp>, T, seq<Temp>) -> bool)
  {
    exists j :: i <= j < |bucket| && Matches(bucket[j], k, summary, alphaTail)
  }

  /** The first entry of `bucket`, from position `i` on, that may replace
      `k` is named `name`. */
  predicate FirstReplacement<T, D>(bucket: seq<Entry<T, D>>, i: nat, name: string, k: Candidate<T, D>,
                                   summary: int, alphaTail: (T, seq<Temp>, T, seq<Temp>) -> bool,
                                   declAlpha: (D, D) -> bool)
  {
    exists j :: (i <= j < |bucket| && bucket[j].defn.name == name
      && Replaceable(bucket[j], k, summary, alphaTail, declAlpha)
      && forall j' :: i <= j' < j ==> !Replaceable(bucket[j'], k, summary, alphaTail, declAlpha))
  }

  datatype ScanResult = NoMatch | Blocked | ReplaceBy(name: string)

  /** The bucket walk of `findIn` from position `i`: the first match stops
      an entrypoint; for anything else the first match with a compatible
      declared type is the replacement. */
  function {:induction false} ScanBucket<T, D>(bucket: seq<Entry<T, D>>, i: nat, k: Candidate<T, D>, summary: int,
                                alphaTail: (T, seq<Temp>, T, seq<Temp>) -> bool,
                                declAlpha: (D, D) -> bool): (r: ScanResult)
    requires i <= |bucket|
    ensures r.Blocked? <==> k.isEntrypoint && HasMatch(bucket, i, k, summary, alphaTail)
    ensures r.ReplaceBy? ==>
      !k.isEntrypoint && FirstReplacement(bucket, i, r.name, k, summary, alphaTail, declAlpha)
    ensures r.NoMatch? ==> forall j :: i <= j < |bucket| ==>
      !(Matches(bucket[j], k, summary, alphaTail) && (k.isEntrypoint || DeclaredCompatible(bucket[j], k, declAlpha)))
    decreases |bucket| - i
  {
    if i == |bucket| then NoMatch
    else if Matches(bucket[i], k, summary, alphaTail) && k.isEntrypoint then Blocked
    else if Replaceable(bucket[i], k, summary, alphaTail, declAlpha) then ReplaceBy(bucket[i].defn.name)
    else ScanBucket(bucket, i + 1, k, summary, alphaTail, declAlpha)
  }

  /** The result of `findIn`: whether a duplicate was found, the definition's
      replacement afterwards, and the table afterwards. */
  datatype FindOutcome<T, D> = FindOutcome(found: bool, replaceWith: Option<string>, table: seq<seq<Entry<T, D>>>)

  /** Look `k` up in the bucket table. A non-entrypoint with a matching,
      type-compatible entry is replaced by it; an entrypoint with a match is
      left alone; otherwise `k` is filed at the front of its bucket and has
      no replacement. */
  function FindIn<T, D>(table: seq<seq<Entry<T, D>>>, k: Candidate<T, D>, replaceWith: Option<string>,
                        summaryOf: T -> int,
                        alphaTail: (T, seq<Temp>, T, seq<Temp>) -> bool,
                        declAlpha: (D, D) -> bool): (r: FindOutcome<T, D>)
    requires |table| > 0
    ensures var s := summaryOf(k.tail);
      var idx := BucketIndex(s, |table|);
      var bucket := table[idx];
      && |r.table| == |table|
      && (r.found <==>
            !k.isEntrypoint && exists j :: 0 <= j < |bucket| && Replaceable(bucket[j], k, s, alphaTail, declAlpha))
      && (k.isEntrypoint ==> !r.found)
      && (r.found ==>
            && r.table == table && r.replaceWith.Some?
            && FirstReplacement(bucket, 0, r.replaceWith.value, k, s, alphaTail, declAlpha))
      && (k.isEntrypoint && HasMatch(bucket, 0, k, s, alphaTail) ==>
            r.table == table && r.replaceWith == replaceWith)
      && (!r.found && !(k.isEntrypoint && HasMatch(bucket, 0, k, s, alphaTail)) ==>
            r.replaceWith.None? && r.table == table[idx := [Entry(k, s)] + bucket])
  {
    var s := summaryOf(k.tail);
    var idx := BucketIndex(s, |table|);
    match ScanBucket(table[idx], 0, k, s, alphaTail, declAlpha)
    case Blocked => FindOutcome(false, replaceWith, table)
    case ReplaceBy(name) => FindOutcome(true, Some(name), table)
    case NoMatch => FindOutcome(false, None, table[idx := [Entry(k, s)] + table[idx]])
  }

  // ---------------------------------------------------------------------
  // Sources of stored parameters (invariant analysis)

  /** A component `d.j`: the parameter may come from argument `j` of `d`. */
  datatype Comp = Comp(defn: string, arg: nat)

  /** Where a parameter's value can come from: anywhere, or a join of
      components, newest first. */
  datatype Src = Any | Join(comps: seq<Comp>)

  /** `Comp(d, k)` is the first component from `d`. */
  predicate FirstFrom(comps: seq<Comp>, d: string, k: int)
  {
    exists i :: 0 <= i < |comps| && comps[i].defn == d && comps[i].arg == k
      && forall i' :: 0 <= i' < i ==> comps[i'].defn != d
  }

  /** The argument index of the first component from `d`, or -1. */
  function {:induction false} FindComp(d: string, comps: seq<Comp>): (k: int)
    ensures k >= -1
    ensures k == -1 <==> forall i :: 0 <= i < |comps| ==> comps[i].defn != d
    ensures k >= 0 ==> FirstFrom(comps, d, k)
    decreases |comps|
  {
    if |comps| == 0 then -1
    else if comps[0].defn == d then comps[0].arg
    else
      var k := FindComp(d, comps[1..]);
      assert forall i :: 1 <= i < |comps| ==> comps[i] == comps[1..][i - 1];
      assert k >= 0 ==> FirstFrom(comps, d, k) by {
        if k >= 0 {
          var i :| 0 <= i < |comps[1..]| && comps[1..][i].defn == d && comps[1..][i].arg == k
            && forall i' :: 0 <= i' < i ==> comps[1..][i'].defn != d;
          assert comps[i + 1] == comps[1..][i];
        }
      }
      k
  }

  /** Record that parameter `i`, currently joining `js`, receives argument
      `j` of `d`: a new component when `d` is absent, `Any` when `d` already
      contributes a different argument, no change otherwise. */
  function UpdateSourcesWith(sources: seq<Src>, i: nat, d: string, j: nat, js: seq<Comp>): (r: seq<Src>)
    requires i < |sources|
    ensures |r| == |sources|
    ensures forall k :: 0 <= k < |r| && k != i ==> r[k] == sources[k]
    ensures FindComp(d, js) == -1 ==> r[i] == Join([Comp(d, j)] + js)
    ensures FindComp(d, js) >= 0 && FindComp(d, js) != j ==> r[i] == Any
    ensures FindComp(d, js) == j ==> r[i] == sources[i]
  {
    var k := FindComp(d, js);
    if k < 0 then sources[i := Join([Comp(d, j)] + js)]
    else if j != k then sources[i := Any]
    else sources
  }

  /** The source order: `Any` is top, and a join grows by adding components. */
  predicate Below(s: Src, t: Src)
  {
    t.Any? || (s.Join? && t.Join? && |s.comps| <= |t.comps| && t.comps[|t.comps| - |s.comps|..] == s.comps)
  }

  /** Updating a parameter whose source is `Join(js)` only moves it up, and
      afterwards its source accounts for `d.j`: it is `Any` or names `j` as
      `d`'s argument. */
  lemma UpdateSourcesAccounts(sources: seq<Src>, i: nat, d: string, j: nat, js: seq<Comp>)
    requires i < |sources| && sources[i] == Join(js)
    ensures var r := UpdateSourcesWith(sources, i, d, j, js);
      && Below(sources[i], r[i])
      && (r[i].Any? || FindComp(d, r[i].comps) == j)
  {
    var r := UpdateSourcesWith(sources, i, d, j, js);
    if FindComp(d, js) == -1 {
      assert [Comp(d, j)] + js == r[i].comps;
      assert ([Comp(d, j)] + js)[0] == Comp(d, j);
    } else if FindComp(d, js) == j {
      assert [] + js == js;
    }
  }

  /** One propagation pass over the parameters, in order. `propagate` gives
      a parameter's new source from the definition's current sources, which
      already include the updates of earlier positions. `same` is the
      source's object identity test: identical sources are equal, but a
      new source with equal contents need not be identical. The result
      reports whether any new source is not identical to the old one. */
  method PropagateSources(sources: seq<Src>, propagate: (seq<Src>, Src) -> Src, same: (Src, Src) -> bool)
    returns (changed: bool, r: seq<Src>)
    requires forall a, b :: same(a, b) ==> a == b
    ensures |r| == |sources|
    ensures forall i :: 0 <= i < |sources| ==> r[i] == propagate(r[..i] + sources[i..], sources[i])
    ensures changed <==> exists i :: 0 <= i < |sources| && !same(r[i], sources[i])
    ensures !changed ==> r == sources
  {
    r := sources;
    changed := false;
    var i := 0;
    while i < |sources|
      invariant 0 <= i <= |sources| && |r| == |sources|
      invariant r[i..] == sources[i..]
      invariant forall k :: 0 <= k < i ==> r[k] == propagate(r[..k] + sources[k..], sources[k])
      invariant changed <==> exists k :: 0 <= k < i && !same(r[k], sources[k])
      invariant !changed ==> r == sources
    {
      var src := r[i];
      assert r[..i] + sources[i..] == r;
      var nsrc := propagate(r, src);
      if !same(nsrc, src) {
        changed := true;
        var r' := r[i := nsrc];
        assert forall k :: 0 <= k < i ==> r'[..k] + sources[k..] == r[..k] + sources[k..] by {
          forall k | 0 <= k < i ensures r'[..k] == r[..k] { }
        }
        r := r';
      } else {
        assert nsrc == src;
      }
      assert r[i] == nsrc;
      assert r[i + 1..] == sources[i + 1..];
      i := i + 1;
    }
  }

  // ---------------------------------------------------------------------
  // Closures derived for known constructors

  /** A closure definition in the arena: its stored parameters, arguments,
      the constructor pattern it was derived for (if any), and the closures
      derived from it, newest first. */
  datatype CDefn<C> = CDefn(params: seq<Temp>, args: seq<Temp>, knownCons: Option<C>, derived: seq<string>)

  type Arena<C> = map<string, CDefn<C>>

  /** Every derived name is a definition of the arena. */
  predicate ArenaClosed<C>(arena: Arena<C>)
  {
    forall n, i :: n in arena && 0 <= i < |arena[n].derived| ==> arena[n].derived[i] in arena
  }

  /** The first of `names` derived for the pattern `calls`. */
  function {:induction false} FirstWithCons<C(==)>(arena: Arena<C>, names: seq<string>, calls: C): (r: Option<string>)
    requires forall i :: 0 <= i < |names| ==> names[i] in arena
    ensures r.Some? ==> r.value in names && r.value in arena && arena[r.value].knownCons == Some(calls)
    ensures r.Some? ==> exists j :: (0 <= j < |names| && names[j] == r.value
      && forall j' :: 0 <= j' < j ==> arena[names[j']].knownCons != Some(calls))
    ensures r.None? ==> forall i :: 0 <= i < |names| ==> arena[names[i]].knownCons != Some(calls)
    decreases |names|
  {
    if |names| == 0 then None
    else if arena[names[0]].knownCons == Some(calls) then Some(names[0])
    else
      var r := FirstWithCons(arena, names[1..], calls);
      assert forall i :: 1 <= i < |names| ==> names[i] == names[1..][i - 1];
      r
  }

  datatype DeriveOutcome<C> =
    | Declined
    | Reused(name: string)
    | Derived(name: string, arena: Arena<C>, next: Temp)

  /** `self.deriveWithKnownCons(calls)`: reuse the first derived closure with
      the requested pattern, declining when that closure is `self`; or make
      the closure `newName` with newName arguments, filed first among `self`'s
      derived closures. `tss` holds the temporaries for the constructor
      fields (`None` when the pattern has none), `merge` combines them with
      the stored parameters, and `next` is the temporary counter. */
  function DeriveWithKnownCons<C(==)>(arena: Arena<C>, self: string, calls: C,
                                      tss: Option<seq<seq<Temp>>>,
                                      merge: (seq<seq<Temp>>, seq<Temp>) -> seq<Temp>,
                                      next: Temp, newName: string): (r: DeriveOutcome<C>)
    requires ArenaClosed(arena) && self in arena && newName !in arena
    ensures var found := FirstWithCons(arena, arena[self].derived, calls);
      && (r.Declined? <==> found == Some(self))
      && (r.Reused? <==> found.Some? && found.value != self)
      && (r.Reused? ==> r.name == found.value)
      && (r.Derived? <==> found.None?)
    ensures r.Derived? ==>
      var old_ := arena[self];
      && r.name == newName
      && r.arena.Keys == arena.Keys + {newName}
      && ArenaClosed(r.arena)
      && (forall n :: n in arena && n != self ==> r.arena[n] == arena[n])
      && r.arena[self] == old_.(derived := [newName] + old_.derived)
      && var k := r.arena[newName];
      && |k.args| == |old_.args|
      && (forall i :: 0 <= i < |k.args| ==> next <= k.args[i] < r.next)
      && r.next == next + |old_.args|
      && k.knownCons == Some(calls)
      && (tss.None? ==> k.params == old_.params && k.derived == [newName])
      && (tss.Some? ==> k.params == merge(tss.value, old_.params) && k.derived == [])
  {
    var d := arena[self];
    match FirstWithCons(arena, d.derived, calls)
    case Some(c) => if c == self then Declined else Reused(c)
    case None =>
      var newargs := MakeTemps(next, |d.args|);
      var kparams := if tss.None? then d.params else merge(tss.value, d.params);
      var kderived := if tss.None? then [newName] else [];
      var k := CDefn(kparams, newargs, Some(calls), kderived);
      var arena' := arena[self := d.(derived := [newName] + d.derived)][newName := k];
      assert ArenaClosed(arena') by {
        forall n, i | n in arena' && 0 <= i < |arena'[n].derived|
          ensures arena'[n].derived[i] in arena'
        {
          if n != newName && n != self {
            assert arena'[n] == arena[n];
          } else if n == self && i > 0 {
            assert arena'[n].derived[i] == d.derived[i - 1];
          }
        }
      }
      Derived(newName, arena', next + |d.args|)
  }

  /** The cache works: once `newName` is derived for `calls`, asking `self`
      again for `calls` returns it. */
  lemma DeriveThenReuse<C>(arena: Arena<C>, self: string, calls: C,
                               tss: Option<seq<seq<Temp>>>,
                               merge: (seq<seq<Temp>>, seq<Temp>) -> seq<Temp>,
                               next: Temp, newName: string, tss2: Option<seq<seq<Temp>>>,
                               next2: Temp, newName2: string)
    requires ArenaClosed(arena) && self in arena && newName !in arena
    requires DeriveWithKnownCons(arena, self, calls, tss, merge, next, newName).Derived?
    ensures var r := DeriveWithKnownCons(arena, self, calls, tss, merge, next, newName);
      newName2 !in r.arena ==>
        DeriveWithKnownCons(r.arena, self, calls, tss2, merge, next2, newName2) == Reused(newName)
  {
    var r := DeriveWithKnownCons(arena, self, calls, tss, merge, next, newName);
    assert r.arena[self].derived[0] == newName;
  }

  /** A closure derived for a pattern with no constructor fields lists
      itself, so asking it for the same pattern declines. */
  lemma DeriveFromDerivedDeclines<C>(arena: Arena<C>, self: string, calls: C,
                                         merge: (seq<seq<Temp>>, seq<Temp>) -> seq<Temp>,
                                         next: Temp, newName: string, tss2: Option<seq<seq<Temp>>>,
                                         next2: Temp, newName2: string)
    requires ArenaClosed(arena) && self in arena && newName !in arena
    requires DeriveWithKnownCons(arena, self, calls, None, merge, next, newName).Derived?
    ensures var r := DeriveWithKnownCons(arena, self, calls, None, merge, next, newName);
      newName2 !in r.arena ==>
        DeriveWithKnownCons(r.arena, newName, calls, tss2, merge, next2, newName2) == Declined
  {
    var r := DeriveWithKnownCons(arena, self, calls, None, merge, next, newName);
    assert r.arena[newName].derived[0] == newName;
  }
}
