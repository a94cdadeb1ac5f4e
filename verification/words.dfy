/** Java `long` arithmetic over unbounded integers.

    The MIL primitives evaluate literals with Java's 64-bit two's-complement
    operators: `+`, `-` and `*` wrap modulo 2^64, the shift operators use only
    the low six bits of their count, and `/` and `%` truncate toward zero.
    Every one of those conventions is written out here explicitly.
 */
module Words {

  const TWO63: int := 0x8000_0000_0000_0000
  const TWO64: int := 0x1_0000_0000_0000_0000
  const MIN_LONG: int := -0x8000_0000_0000_0000

  /** A Java `long`: a 64-bit two's-complement word. */
  type Long = x: int | -TWO63 <= x < TWO63

  /** 2^k. */
  function Pow2(k: nat): (r: nat)
    ensures r >= 1
  {
    if k == 0 then 1 else 2 * Pow2(k - 1)
  }

  lemma {:induction false} Pow2Add(a: nat, b: nat)
    ensures Pow2(a + b) == Pow2(a) * Pow2(b)
    decreases a
  {
    if a > 0 {
      Pow2Add(a - 1, b);
    }
  }

  lemma {:induction false} Pow2Monotone(a: nat, b: nat)
    requires a <= b
    ensures Pow2(a) <= Pow2(b)
    decreases b
  {
    if a < b {
      Pow2Monotone(a, b - 1);
    }
  }

  lemma Pow2Of32()
    ensures Pow2(31) == 0x8000_0000 && Pow2(32) == 0x1_0000_0000
  {
    Pow2Add(1, 1);
    assert Pow2(2) == 4;
    Pow2Add(2, 2);
    assert Pow2(4) == 16;
    Pow2Add(4, 4);
    assert Pow2(8) == 256;
    Pow2Add(8, 8);
    assert Pow2(16) == 0x1_0000;
    Pow2Add(16, 16);
    assert Pow2(32) == 2 * Pow2(31);
  }

  lemma Pow2Of63And64()
    ensures Pow2(63) == TWO63
    ensures Pow2(64) == TWO64
  {
    Pow2Of32();
    Pow2Add(32, 32);
    assert Pow2(64) == 2 * Pow2(63);
  }

  /** The 64-bit word with the same residue modulo 2^64: Java's implicit
      narrowing after `+`, `-` and `*` on `long`. */
  function Wrap(x: int): (r: Long)
    ensures (r - x) % TWO64 == 0
    ensures -TWO63 <= x < TWO63 ==> r == x
  {
    var m := x % TWO64;
    if m >= TWO63 then m - TWO64 else m
  }

  /** Two words that agree modulo 2^64 are equal: `Wrap` picks the unique one. */
  lemma WrapUnique(x: int, r: Long)
    requires (r - x) % TWO64 == 0
    ensures Wrap(x) == r
  {
    var w := Wrap(x);
    assert (w - r) % TWO64 == 0 by {
      assert w - r == (w - x) - (r - x);
    }
  }

  /** The unsigned reading of a word: the representative of its residue in [0, 2^64). */
  function Unsigned(x: Long): (r: nat)
    ensures r < TWO64
    ensures (r - x) % TWO64 == 0
    ensures x >= 0 ==> r == x
  {
    if x < 0 then x + TWO64 else x
  }

  lemma UnsignedWrapRoundTrip(u: nat)
    requires u < TWO64
    ensures Unsigned(Wrap(u)) == u
  {
  }

  /** The shift distance Java uses for a `long` shift by `m`: `m & 63`. */
  function ShiftCount(m: int): (s: nat)
    ensures s < 64
    ensures (s - m) % 64 == 0
  {
    m % 64
  }

  function Neg(n: Long): (r: Long)
    ensures (r + n) % TWO64 == 0
  {
    Wrap(-(n as int))
  }

  /** Java `~n`. */
  function Not(n: Long): (r: Long)
    ensures r + n == -1
  {
    -(n as int) - 1
  }

  function Add(n: Long, m: Long): (r: Long)
    ensures (r - (n + m)) % TWO64 == 0
  {
    Wrap(n + m)
  }

  function Sub(n: Long, m: Long): (r: Long)
    ensures (r - (n - m)) % TWO64 == 0
  {
    Wrap(n - m)
  }

  function Mul(n: Long, m: Long): (r: Long)
    ensures (r - n * m) % TWO64 == 0
  {
    Wrap(n * m)
  }

  /** Java `n << m`. */
  function Shl(n: Long, m: Long): (r: Long)
    ensures (r - n * Pow2(m % 64)) % TWO64 == 0
    ensures m % 64 == 0 ==> r == n
  {
    Wrap(n * Pow2(ShiftCount(m)))
  }

  /** Java `n >> m`: an arithmetic shift, halving (rounding toward minus
      infinity) once per position of the masked count. */
  function Ashr(n: Long, m: Long): (r: Long)
    ensures n >= 0 ==> 0 <= r <= n
    ensures n < 0 ==> n <= r < 0
    ensures m % 64 == 0 ==> r == n
  {
    Halve(n, ShiftCount(m))
  }

  /** `n` halved `s` times, each halving rounding toward minus infinity. */
  function {:induction false} Halve(n: int, s: nat): (r: int)
    ensures n >= 0 ==> 0 <= r <= n
    ensures n < 0 ==> n <= r < 0
    decreases s
  {
    if s == 0 then n else Halve(n / 2, s - 1)
  }

  /** Java `n >>> m`: a logical shift of the unsigned reading. */
  function Lshr(n: Long, m: Long): (r: Long)
    ensures m % 64 == 0 ==> r == n
  {
    WrapUnique(Unsigned(n), n);
    Wrap(Halve(Unsigned(n), ShiftCount(m)))
  }

  function ToBits(x: Long): bv64 { Unsigned(x) as bv64 }

  function FromBits(b: bv64): Long { Wrap(b as int) }

  /** Reading a bit pattern as a long and back gives the pattern. */
  lemma BitsRoundTrip(b: bv64)
    ensures ToBits(FromBits(b)) == b
  {
    UnsignedWrapRoundTrip(b as int);
  }

  /** The bitwise operators on two's complement patterns. */
  datatype BitOp = BitAnd | BitOr | BitXor

  /** `r` is `n` and `m` combined bit by bit with `op`. */
  predicate Bitwise(op: BitOp, r: Long, n: Long, m: Long)
  {
    match op
    case BitAnd => ToBits(r) == ToBits(n) & ToBits(m)
    case BitOr => ToBits(r) == ToBits(n) | ToBits(m)
    case BitXor => ToBits(r) == ToBits(n) ^ ToBits(m)
  }

  function And(n: Long, m: Long): (r: Long)
    ensures Bitwise(BitAnd, r, n, m)
  {
    BitsRoundTrip(ToBits(n) & ToBits(m));
    FromBits(ToBits(n) & ToBits(m))
  }

  function Or(n: Long, m: Long): (r: Long)
    ensures Bitwise(BitOr, r, n, m)
  {
    BitsRoundTrip(ToBits(n) | ToBits(m));
    FromBits(ToBits(n) | ToBits(m))
  }

  function Xor(n: Long, m: Long): (r: Long)
    ensures Bitwise(BitXor, r, n, m)
  {
    BitsRoundTrip(ToBits(n) ^ ToBits(m));
    FromBits(ToBits(n) ^ ToBits(m))
  }

  function Abs(x: int): nat { if x < 0 then -x else x }

  /** Integer division rounding toward zero, as Java's `/` on exact integers:
      the product `q * d` never overshoots the dividend, has its sign, and
      leaves a remainder smaller than the divisor. */
  function TruncDiv(n: int, d: int): (q: int)
    requires d != 0
    ensures Abs(q * d) <= Abs(n)
    ensures q * d == 0 || ((q * d < 0) <==> (n < 0))
    ensures Abs(n - q * d) < Abs(d)
  {
    var q0 := Abs(n) / Abs(d);
    TruncDivFacts(n, d, q0);
    if (n < 0) != (d < 0) then -q0 else q0
  }

  lemma TruncDivFacts(n: int, d: int, q0: int)
    requires d != 0 && q0 == Abs(n) / Abs(d)
    ensures var q := if (n < 0) != (d < 0) then -q0 else q0;
      && Abs(q * d) <= Abs(n)
      && (q * d == 0 || ((q * d < 0) <==> (n < 0)))
      && Abs(n - q * d) < Abs(d)
  {
    var a := Abs(n);
    var b := Abs(d);
    var p := q0 * b;
    assert a - p == a % b;
    assert 0 <= a - p < b;
    MulNonneg(q0, b);
    var q := if (n < 0) != (d < 0) then -q0 else q0;
    var qd := q * d;
    assert qd == (if n < 0 then -p else p) by {
      MulNeg(q0, b);
    }
  }

  lemma MulNonneg(x: int, y: int)
    requires x >= 0 && y >= 0
    ensures x * y >= 0
  {
  }

  lemma MulNeg(x: int, y: int)
    ensures (-x) * y == -(x * y) == x * (-y)
    ensures (-x) * (-y) == x * y
  {
  }

  /** Java `n / d` on `long`: truncating, and wrapping in the single
      overflowing case `MIN_LONG / -1`. */
  function JDiv(n: Long, d: Long): (r: Long)
    requires d != 0
    ensures !(n == MIN_LONG && d == -1) ==> r == TruncDiv(n, d)
    ensures n == MIN_LONG && d == -1 ==> r == MIN_LONG
  {
    var q := TruncDiv(n, d);
    assert (n == MIN_LONG && d == -1 ==> Wrap(q) == MIN_LONG)
        && (!(n == MIN_LONG && d == -1) ==> -TWO63 <= q < TWO63) by {
      TruncDivSmall(n, d);
      if d == -1 {
        assert q == -(n as int);
        if n == MIN_LONG {
          WrapUnique(q, MIN_LONG);
        }
      } else if d == 1 {
        assert q == n;
      }
    }
    Wrap(q)
  }

  /** Truncating division never grows the dividend, and halves it at least
      for divisors of magnitude two or more. */
  lemma TruncDivSmall(n: int, d: int)
    requires d != 0
    ensures Abs(TruncDiv(n, d)) <= Abs(n)
    ensures Abs(d) >= 2 ==> 2 * Abs(TruncDiv(n, d)) <= Abs(n)
  {
    var a, b := Abs(n), Abs(d);
    var q0 := a / b;
    assert Abs(TruncDiv(n, d)) == q0;
    DivBelow(a, b);
    MulNonneg(q0, b - 1);
    assert q0 * b - q0 == q0 * (b - 1);
    if b >= 2 {
      MulNonneg(q0, b - 2);
      assert q0 * b - 2 * q0 == q0 * (b - 2);
    }
  }

  lemma DivBelow(a: nat, b: nat)
    requires b > 0
    ensures 0 <= (a / b) * b <= a
  {
    assert a == (a / b) * b + a % b;
    MulNonneg(a / b, b);
  }

  /** Java `n % d` on `long`: the remainder of truncating division, which
      takes the sign of the dividend. */
  function JRem(n: Long, d: Long): (r: Long)
    requires d != 0
    ensures Abs(r) < Abs(d)
    ensures r == 0 || ((r < 0) <==> (n < 0))
  {
    n - d * TruncDiv(n, d)
  }

  /** Java's division identity `(n / d) * d + n % d == n` holds for every
      nonzero divisor, the overflowing `MIN_LONG / -1` included. */
  lemma DivRemIdentity(n: Long, d: Long)
    requires d != 0
    ensures Add(Mul(JDiv(n, d), d), JRem(n, d)) == n
  {
    if n == MIN_LONG && d == -1 {
      assert JRem(n, d) == 0;
      assert Mul(MIN_LONG, -1) == MIN_LONG;
    } else {
      var q := TruncDiv(n, d);
      assert -TWO63 <= q * d < TWO63;
      assert Mul(q, d) == q * d;
    }
  }
}
