/** 64-bit division built from the 64-by-32-bit DIVL instruction (lib/arithmetic.c). */
module Division {

  const B32: int := 0x1_0000_0000
  const B63: int := 0x8000_0000_0000_0000
  const B64: int := 0x1_0000_0000_0000_0000

  type Word32 = x: int | 0 <= x < B32
  type Word64 = x: int | 0 <= x < B64
  type Int64 = x: int | -B63 <= x < B63

  function Pow2(n: nat): (r: int)
    ensures r > 0
  {
    if n == 0 then 1 else 2 * Pow2(n - 1)
  }

  lemma Pow2Add(a: nat, b: nat)
    ensures Pow2(a + b) == Pow2(a) * Pow2(b)
  {
    if a != 0 {
      Pow2Add(a - 1, b);
    }
  }

  lemma Pow2Values()
    ensures Pow2(0) == 1 && Pow2(1) == 2 && Pow2(2) == 4 && Pow2(4) == 16 && Pow2(8) == 0x100
    ensures Pow2(16) == 0x1_0000 && Pow2(31) == 0x8000_0000 && Pow2(32) == B32
  {
    Pow2Add(2, 2);
    Pow2Add(4, 4);
    Pow2Add(8, 8);
    Pow2Add(16, 16);
    assert Pow2(32) == 2 * Pow2(31);
  }

  /** The DIVL instruction: its precondition is exactly "no divide trap". */
  function Divl(n: Word64, d: Word32): Word32
    requires d != 0 && n / d < B32
  {
    n / d
  }

  /** Shifting left by n bits, with no width limit. */
  function Shl(x: int, n: nat): int {
    if n == 0 then x else 2 * Shl(x, n - 1)
  }

  lemma {:induction false} ShlIsMul(x: int, n: nat)
    ensures Shl(x, n) == x * Pow2(n)
  {
    if n > 0 {
      ShlIsMul(x, n - 1);
      MulShuffle(2, x, Pow2(n - 1));
    }
  }

  lemma {:induction false} ShlTwice(x: int, n: nat, k: nat)
    ensures Shl(Shl(x, n), k) == Shl(x, n + k)
  {
    if k > 0 {
      ShlTwice(x, n, k - 1);
    }
  }

  lemma ShlValues(x: int)
    ensures Shl(x, 0) == x && Shl(x, 1) == 2 * x && Shl(x, 2) == 4 * x && Shl(x, 4) == 16 * x
    ensures Shl(x, 8) == 0x100 * x && Shl(x, 16) == 0x1_0000 * x
  {
    Pow2Values();
    ShlIsMul(x, 4);
    ShlIsMul(x, 8);
    ShlIsMul(x, 16);
  }

  /** A 32-bit register after `x <<= k`. */
  function Shl32(x: Word32, k: nat): Word32 {
    Shl(x, k) % B32
  }

  /** One halving step: with at least k leading zeros, shifting by k loses no bits. */
  lemma HalvingStep(x0: Word32, n: nat, x: Word32, k: nat, lo: int)
    requires x == Shl(x0, n) && k in {2, 4, 8, 16}
    requires lo >= 0 && lo <= x && Shl(x, k) < B32
    ensures Shl32(x, k) == Shl(x0, n + k) == Shl(x, k) >= Shl(lo, k)
  {
    ShlTwice(x0, n, k);
    ShlValues(x);
    ShlValues(lo);
  }

  /** One test of nlz: shift by k if the top k bits are zero. */
  method Halve(x0: Word32, x: Word32, n: nat, k: nat, ghost lo: int, hi: int) returns (x': Word32, n': nat)
    requires x == Shl(x0, n) && k in {2, 4, 8, 16}
    requires 0 <= lo <= x && hi == Shl(lo, k) && Shl(hi, k) == B32
    ensures x' == Shl(x0, n') && hi <= x' && n <= n' <= n + k
  {
    x', n' := x, n;
    if x <= hi - 1 {
      ShlValues(x);
      ShlValues(hi);
      HalvingStep(x0, n, x, k, lo);
      n' := n + k;
      x' := Shl32(x, k);
    }
  }

  /** Number of leading zero bits of a nonzero word, by halving steps. */
  method Nlz(x0: Word32) returns (n: nat)
    requires x0 != 0
    ensures n <= 31
    ensures 0x8000_0000 <= Shl(x0, n) < B32
  {
    var x: Word32 := x0;
    n := 0;
    ShlValues(1);
    ShlValues(0x1_0000);
    x, n := Halve(x0, x, n, 16, 1, 0x1_0000);
    ShlValues(0x100_0000);
    x, n := Halve(x0, x, n, 8, 0x1_0000, 0x100_0000);
    ShlValues(0x1000_0000);
    x, n := Halve(x0, x, n, 4, 0x100_0000, 0x1000_0000);
    ShlValues(0x4000_0000);
    x, n := Halve(x0, x, n, 2, 0x1000_0000, 0x4000_0000);
    ShlTwice(x0, n, 1);
    ShlValues(x);
    if x <= 0x7FFF_FFFF {
      n := n + 1;
    }
  }

  /** The two truncated divisions and the right shift collapse into one division by v * 2^(32-s). */
  lemma NestedDivision(n: int, v: int, e: int)
    requires n >= 0 && v > 0 && e > 0
    ensures ((n / 2) / v) / e == n / (2 * v * e)
  {
    var a := n / 2;
    var b := a / v;
    var c := b / e;
    var m := 2 * v * e;
    // c * e <= b and b * v <= a and a * 2 <= n give the lower bound; strictness gives the upper one.
    MulLe(c * e, b, v);
    assert c * e * v <= a;
    Doubled(c, v, e);
    assert b + 1 <= (c + 1) * e;
    MulLe(b + 1, (c + 1) * e, v);
    assert a + 1 <= (b + 1) * v by { assert a < b * v + v; }
    Doubled(c + 1, v, e);
    QuotientUnique(n, m, c);
  }

  lemma Doubled(c: int, v: int, e: int)
    ensures c * (2 * v * e) == 2 * (c * e * v)
  {
    MulShuffle(c, e, v);
    MulShuffle(2, v, e);
    MulShuffle(2, c, v * e);
  }

  lemma MulLe(a: int, b: int, k: int)
    requires a <= b && k >= 0
    ensures a * k <= b * k
  {
  }

  lemma MulLt(a: int, b: int, k: int)
    requires a < b && k > 0
    ensures a * k < b * k
  {
  }

  lemma QuotientUnique(n: int, d: int, q: int)
    requires d > 0 && q * d <= n < (q + 1) * d
    ensures n / d == q
  {
    var p := n / d;
    assert p * d <= n < (p + 1) * d;
    if p < q {
      MulLe(p + 1, q, d);
    } else if p > q {
      MulLe(q + 1, p, d);
    }
  }

  /** Truncating the divisor to its top 32 bits (D) moves the quotient up by at most one.
      With x = 2^e the size of the cut, the bound is 4 * (x - 1) <= x * x, tight at e = 1. */
  lemma EstimateOffByOne(n: int, d: int, D: int, v: int, x: int)
    requires 0 <= n < B64 && v >= 0x8000_0000 && x >= 2
    requires D == v * x && D <= d < D + x
    ensures n / d <= n / D <= n / d + 1
  {
    CutIsSmall(n, d, D, v, x);
    assert D > 0 by { MulLe(1, v, x); }
    SmallCutOffByOne(n, d, D);
  }

  lemma SmallCutOffByOne(n: int, d: int, D: int)
    requires 0 <= n && 0 < D <= d && n * (d - D) < d * D
    ensures n / d <= n / D <= n / d + 1
  {
    var Q, q := n / d, n / D;
    assert Q * d <= n < (Q + 1) * d && q * D <= n < (q + 1) * D;
    if q < Q {
      MulLe(q + 1, Q, D);
      MulLe(D, d, Q);
    } else if q >= Q + 2 {
      MulLe(Q + 2, q, D);
      TwoTooMany(n, d, D, Q);
    }
  }

  lemma TwoTooMany(n: int, d: int, D: int, Q: int)
    requires 0 <= n && 0 < D <= d && n * (d - D) < d * D
    requires n < (Q + 1) * d
    ensures n < (Q + 2) * D
  {
    if (Q + 2) * D <= n {
      calc {
        (Q + 2) * d * D;
      ==
        (Q + 2) * D * d;
      <= { MulLe((Q + 2) * D, n, d); }
        n * d;
      ==
        n * (d - D) + n * D;
      <
        d * D + n * D;
      ==
        (d + n) * D;
      }
      MulLe(d + n, (Q + 2) * d, D);
    }
  }

  lemma CutIsSmall(n: int, d: int, D: int, v: int, x: int)
    requires 0 <= n < B64 && v >= 0x8000_0000 && x >= 2
    requires D == v * x && D <= d < D + x
    ensures n * (d - D) < d * D
  {
    var y := 0x8000_0000 * x;
    MulLe(0x8000_0000, v, x);
    assert D >= y;
    MulLe(d - D, x - 1, n);
    assert n * (d - D) <= n * (x - 1);
    MulLe(n, B64 - 1, x - 1);
    assert n * (x - 1) < B64 * (x - 1);
    assert 4 * (x - 1) <= x * x by { assert (x - 2) * (x - 2) >= 0; }
    assert B64 * (x - 1) <= y * y;
    MulLe(y, D, y);
    MulLe(y, d, D);
  }

  /** The wide case's estimate: the 32 top bits of the shifted divisor divide n / 2, then shift back. */
  function Estimate(n: Word64, v: Word32, s: nat): int
    requires s <= 31 && v != 0
  {
    (n / 2) / v / Pow2(31 - s)
  }

  lemma ShiftedTop(d: Word64, s: nat)
    requires s <= 31 && 0x8000_0000 <= Shl(d / B32, s) < B32
    ensures 0 <= Shl(d, s) < B64
    ensures var v, x := Shl(d, s) / B32, Pow2(32 - s);
            0x8000_0000 <= v < B32 && v * x <= d < v * x + x
  {
    ShlIsMul(d, s);
    ShlIsMul(d / B32, s);
    Pow2Values();
    Pow2Add(s, 32 - s);
    TopBits(d, Pow2(s), Pow2(32 - s));
  }

  /** The estimate is the true quotient or one more, and its DIVL does not trap. */
  lemma WideEstimate(n: Word64, d: Word64, v: Word32, s: nat)
    requires s <= 31 && 0x8000_0000 <= v
    requires v * Pow2(32 - s) <= d < v * Pow2(32 - s) + Pow2(32 - s)
    ensures (n / 2) / v < B32
    ensures n / d <= Estimate(n, v, s) <= n / d + 1
  {
    QuotientFits(n / 2, v);
    EstimateByHalves(n, d, v, Pow2(31 - s));
  }

  lemma EstimateByHalves(n: int, d: int, v: int, y: int)
    requires 0 <= n < B64 && v >= 0x8000_0000 && y > 0
    requires v * (2 * y) <= d < v * (2 * y) + 2 * y
    ensures n / d <= (n / 2) / v / y <= n / d + 1
  {
    NestedDivision(n, v, y);
    MulShuffle(2, v, y);
    EstimateOffByOne(n, d, v * (2 * y), v, 2 * y);
  }

  lemma MulShuffle(a: int, b: int, c: int)
    ensures a * b * c == b * (a * c) == a * (b * c)
  {
  }

  lemma QuotientFits(m: int, v: int)
    requires 0 <= m < B63 && v >= 0x8000_0000
    ensures m / v < B32
  {
    assert (m / v) * v <= m;
    if m / v >= B32 {
      MulLe(B32, m / v, v);
    }
  }

  /** d * k keeps d's top bits: v = (d * k) / 2^32 has its high bit set and v * x <= d < (v + 1) * x. */
  lemma TopBits(d: int, k: int, x: int)
    requires 0 <= d && k > 0 && x > 0 && k * x == B32
    requires 0x8000_0000 <= (d / B32) * k < B32
    ensures d * k < B64
    ensures var v := (d * k) / B32; 0x8000_0000 <= v < B32 && v * x <= d < v * x + x
  {
    var d1, v := d / B32, (d * k) / B32;
    assert d1 * B32 <= d < d1 * B32 + B32;
    MulLe(d1 * B32, d, k);
    assert d1 * B32 * k == d1 * k * B32;
    MulLe(d + 1, d1 * B32 + B32, k);
    assert (d1 * B32 + B32) * k == (d1 * k) * B32 + k * B32;
    DivAtMost(d1, k, x);
    assert v * B32 <= d * k < v * B32 + B32;
    assert v * B32 == v * x * k && B32 == x * k;
    CancelFactor(v * x, d, x, k);
  }

  /** d1 * k < 2^32 with k | 2^32 leaves room for one more k. */
  lemma DivAtMost(d1: int, k: int, x: int)
    requires k > 0 && k * x == B32 && d1 * k < B32
    ensures d1 * k + k <= B32
  {
    if d1 >= x {
      MulLe(x, d1, k);
    } else {
      MulLe(d1 + 1, x, k);
    }
  }

  lemma CancelFactor(a: int, d: int, x: int, k: int)
    requires k > 0 && a * k <= d * k < a * k + x * k
    ensures a <= d < a + x
  {
    assert (a + x) * k == a * k + x * k;
    if a > d {
      MulLt(d, a, k);
    }
    if d >= a + x {
      MulLe(a + x, d, k);
    }
  }

  /** Unsigned 64-bit division; every DIVL it issues has a quotient that fits. */
  method UDiv64(n: Word64, d: Word64) returns (q: Word64)
    requires d != 0
    ensures q == n / d
  {
    if d / B32 == 0 {
      NarrowIsQuotient(n, d);
      q := Narrow(n / B32, n % B32, d % B32);
    } else if n < d {
      QuotientUnique(n, d, 0);
      q := 0;
    } else {
      var s := Nlz(d / B32);
      ShiftedTop(d, s);
      var v: Word32 := Shl(d, s) / B32;
      WideEstimate(n, d, v, s);
      var e: int := Divl(n / 2, v) / Pow2(31 - s);
      Correction(n, d, e);
      q := Corrected(n, d, e);
    }
  }

  /** The closing comparison, on 64-bit words. */
  function Corrected(n: Word64, d: Word64, e: int): int {
    if (n - (e - 1) * d) % B64 < d then e - 1 else e
  }

  /** The narrow case, one DIVL on a partial dividend below d * 2^32. */
  function Narrow(n1: Word32, n0: Word32, d0: Word32): int
    requires d0 != 0
  {
    NarrowNoTrap(n1, n0, d0);
    Divl(B32 * (n1 % d0) + n0, d0) + B32 * (n1 / d0)
  }

  lemma NarrowNoTrap(n1: Word32, n0: Word32, d: Word32)
    requires d != 0
    ensures 0 <= B32 * (n1 % d) + n0 < B64
    ensures (B32 * (n1 % d) + n0) / d < B32
  {
    var m := B32 * (n1 % d) + n0;
    assert (m / d) * d <= m < B32 * d;
    if m / d >= B32 {
      MulLe(B32, m / d, d);
    }
  }

  lemma NarrowSplit(n1: Word32, n0: Word32, d: Word32)
    requires d != 0
    ensures Narrow(n1, n0, d) == (B32 * n1 + n0) / d
  {
    AddMultiple(B32 * (n1 % d) + n0, d, B32 * (n1 / d));
    assert n1 == (n1 / d) * d + n1 % d;
    assert B32 * (n1 / d) * d == B32 * ((n1 / d) * d);
  }

  lemma AddMultiple(m: int, d: int, t: int)
    requires d > 0
    ensures (m + t * d) / d == m / d + t
  {
    var p := m / d;
    assert p * d <= m < (p + 1) * d;
    assert (p + t) * d == p * d + t * d;
    assert (p + t + 1) * d == (p + 1) * d + t * d;
    QuotientUnique(m + t * d, d, p + t);
  }

  lemma NarrowIsQuotient(n: Word64, d: Word64)
    requires 0 < d < B32
    ensures Narrow(n / B32, n % B32, d % B32) == n / d < B64
  {
    NarrowSplit(n / B32, n % B32, d);
    assert n == B32 * (n / B32) + n % B32;
    assert (n / d) * d <= n;
    if n / d >= B64 {
      MulLe(1, d, n / d);
    }
  }

  /** It picks the true quotient out of {e - 1, e}, and its subtraction does not wrap. */
  lemma Correction(n: Word64, d: Word64, e: int)
    requires 0 < d <= n && n / d <= e <= n / d + 1
    ensures 0 <= n - (e - 1) * d < B64
    ensures Corrected(n, d, e) == n / d
  {
    var Q := n / d;
    assert Q * d <= n < Q * d + d;
    assert (e - 1) * d == if e == Q then Q * d - d else Q * d;
    if Q < 1 {
      MulLe(Q, 0, d);
    }
    MulLe(0, Q - 1, d);
  }

  /** Two's complement reinterpretation of a 64-bit word. */
  function AsSigned(w: Word64): Int64 {
    if w < B63 then w else w - B64
  }

  /** Mathematical division truncated toward zero, as C defines it for signed operands. */
  function TruncDiv(n: int, d: int): int
    requires d != 0
  {
    var q := Abs(n) / Abs(d);
    if (n < 0) == (d < 0) then q else -q
  }

  function Abs(x: int): (r: int)
    ensures r >= 0 && (x != 0 ==> r > 0)
  {
    if x < 0 then -x else x
  }

  /** What is left over is smaller than the divisor and has the sign of the dividend. */
  lemma TruncDivIs(n: int, d: int)
    requires d != 0
    ensures IsRest(n, d, n - d * TruncDiv(n, d))
  {
    var q := Abs(n) / Abs(d);
    Remainder(Abs(n), Abs(d));
    Signs(n, d, q, TruncDiv(n, d));
    RestOf(n, d, Abs(d) * q, d * TruncDiv(n, d));
  }

  ghost predicate IsRest(n: int, d: int, rest: int) {
    -Abs(d) < rest < Abs(d) && (n >= 0 ==> rest >= 0) && (n <= 0 ==> rest <= 0)
  }

  lemma RestOf(n: int, d: int, a: int, m: int)
    requires 0 <= a <= Abs(n) < a + Abs(d) && m == if n < 0 then -a else a
    ensures IsRest(n, d, n - m)
  {
  }

  lemma Remainder(a: int, b: int)
    requires b > 0
    ensures a >= 0 ==> 0 <= b * (a / b)
    ensures 0 <= a - b * (a / b) < b
  {
  }

  lemma Signs(n: int, d: int, q: int, t: int)
    requires t == if (n < 0) == (d < 0) then q else -q
    ensures d * t == if n < 0 then -(Abs(d) * q) else Abs(d) * q
  {
    assert d * -q == -(d * q) && -d * q == -(d * q);
  }

  /** Signed division is truncated division on every pair but INT64_MIN / -1. */
  method SDiv64(n: Int64, d: Int64) returns (q: Int64)
    requires d != 0
    ensures q == TruncDiv(n, d) <==> !(n == -B63 && d == -1)
    ensures n == -B63 && d == -1 ==> q == -B63
  {
    var nAbs: Word64 := if n >= 0 then n else (B64 - (n + B64)) % B64;
    var dAbs: Word64 := if d >= 0 then d else (B64 - (d + B64)) % B64;
    assert nAbs == Abs(n) && dAbs == Abs(d);
    var qAbs := UDiv64(nAbs, dAbs);
    q := WithSign(n, d, qAbs);
    AbsQuotient(Abs(n), Abs(d));
    SignRestored(n, d, qAbs);
  }

  /** The 64-bit word that holds -x. */
  function Negate(x: int): Word64
    requires -B63 <= x < B63
  {
    if x <= 0 then -x else B64 - x
  }

  /** Negates the quotient in 64-bit two's complement when the signs differ. */
  function WithSign(n: Int64, d: Int64, qAbs: Word64): Int64 {
    var signed: int := AsSigned(qAbs);
    if (n < 0) == (d < 0) then signed else AsSigned(Negate(signed))
  }

  lemma SignRestored(n: Int64, d: Int64, qAbs: int)
    requires d != 0 && 0 <= qAbs <= B63
    ensures WithSign(n, d, qAbs) == (if (n < 0) == (d < 0) then qAbs else -qAbs)
       <==> !((n < 0) == (d < 0) && qAbs == B63)
    ensures (n < 0) == (d < 0) && qAbs == B63 ==> WithSign(n, d, qAbs) == -B63
  {
  }

  /**
   * Where C leaves the end of `sdiv64` open: the quotient of the absolute values does not fit a signed word exactly for
   * INT64_MIN and 1 or -1. For -1 its conversion wraps; for 1 its negation does, and that comes out right.
   */
  lemma SignedLimit(n: Int64, d: Int64)
    requires d != 0
    ensures 0 <= Abs(n) / Abs(d) <= B63
    ensures Abs(n) / Abs(d) >= B63 <==> n == -B63 && (d == 1 || d == -1)
    ensures n == -B63 && d == 1 ==> WithSign(n, d, Abs(n) / Abs(d)) == -B63 == TruncDiv(n, d)
  {
    AbsQuotient(Abs(n), Abs(d));
  }

  lemma AbsQuotient(a: int, b: int)
    requires 0 <= a <= B63 && b > 0
    ensures 0 <= a / b <= B63
    ensures a / b == B63 <==> a == B63 && b == 1
  {
    var q := a / b;
    assert q * b <= a < q * b + b;
    if q < 0 {
      MulLe(q, -1, b);
    }
    MulLe(1, b, q);
    if b >= 2 && q == B63 {
      MulLe(2, b, q);
    }
  }

  /** `umod64` keeps only 32 bits: it is the remainder exactly when that fits. */
  method UMod64(n: Word64, d: Word64) returns (r: Word32)
    requires d != 0
    ensures r == (n % d) % B32
    ensures r == n % d <==> n % d < B32
  {
    var q := UDiv64(n, d);
    RemainderOf(n, d, q);
    r := ((n - d * q) % B64) % B32;
  }

  lemma RemainderOf(n: Word64, d: Word64, q: int)
    requires d != 0 && q == n / d
    ensures n - d * q == n % d && 0 <= n % d < d
  {
  }

  /** A 32-bit signed register holding the low bits of x. */
  function LowSigned32(x: int): int {
    var w := x % B32;
    if w < B32 / 2 then w else w - B32
  }

  /** `smod64` likewise: it is C's remainder exactly when that fits in 32 bits, INT64_MIN / -1 included. */
  method SMod64(n: Int64, d: Int64) returns (r: int)
    requires d != 0
    ensures r == n - d * TruncDiv(n, d) <==> -(B32 / 2) <= n - d * TruncDiv(n, d) < B32 / 2
  {
    var q := SDiv64(n, d);
    r := LowSigned32((n - d * q) % B64);
    if !(n == -B63 && d == -1) {
      ModOfMod(n - d * q);
    }
  }

  lemma ModOfMod(x: int)
    ensures (x % B64) % B32 == x % B32
  {
    assert x == (x / B64) * B64 + x % B64;
    AddMultiple(x % B64, B32, (x / B64) * B32);
  }
}
