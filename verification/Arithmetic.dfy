/** 64-bit division built from a 64-by-32-bit divide instruction (lib/arithmetic.c). */
module Arithmetic {
  import opened Powers

  const B32: int := 0x1_0000_0000
  const B63: int := 0x8000_0000_0000_0000
  const B64: int := 0x1_0000_0000_0000_0000

  type uint32 = x: int | 0 <= x < 0x1_0000_0000
  type uint64 = x: int | 0 <= x < 0x1_0000_0000_0000_0000
  type int64 = x: int | -0x8000_0000_0000_0000 <= x < 0x8000_0000_0000_0000

  /** Reduction modulo 2^64, which is how the source's uint64_t expressions wrap. */
  function U64(x: int): (u: int)
    ensures 0 <= u < B64
    ensures 0 <= x < B64 ==> u == x
    ensures -B64 <= x < 0 ==> u == x + B64
  {
    x % B64
  }

  /** Conversion to int64_t under two's complement. */
  function S64(x: int): (s: int)
    ensures -B63 <= s < B63
    ensures -B63 <= x < B63 ==> s == x
    ensures x == B63 ==> s == -B63
  {
    var u := U64(x);
    if u < B63 then u else u - B64
  }

  function Abs(x: int): int { if x < 0 then -x else x }

  /** The x86 divide instruction. Its precondition is that it does not raise a divide error. */
  function Divl(n: uint64, d: uint32): (q: uint32)
    requires d != 0 && n / d < B32
  {
    n / d
  }

  /** The number of leading zero bits of a nonzero 32-bit word. */
  function LeadingZeros(x: uint32): nat
    requires x != 0
    decreases B32 - x
  {
    if x >= 0x8000_0000 then 0 else 1 + LeadingZeros(2 * x)
  }

  lemma Pow2Of32()
    ensures Pow2(31) == 0x8000_0000 && Pow2(32) == 0x1_0000_0000 && Pow2(33) == 0x2_0000_0000
  {
    assert Pow2(8) == 0x100;
    Pow2Add(8, 8);
    Pow2Add(16, 15);
    assert Pow2(15) == 0x8000;
  }

  lemma ShiftFits(x: nat, s: nat)
    requires x > 0 && x * Pow2(s) < B32
    ensures s <= 31
  {
    Pow2Of32();
    MulMonotone(1, x, Pow2(s));
    if s >= 32 {
      Pow2Monotone(32, s);
    }
  }

  lemma ShiftOneMore(x: int, s: nat)
    ensures x * Pow2(s + 1) == 2 * x * Pow2(s)
  {
  }

  /** Shifting out the leading zeros brings the top bit to position 31. */
  lemma {:induction false} LeadingZerosNormalize(x: uint32)
    requires x != 0
    ensures LeadingZeros(x) <= 31
    ensures 0x8000_0000 <= x * Pow2(LeadingZeros(x)) < B32
    decreases B32 - x
  {
    var s := LeadingZeros(x);
    if x >= 0x8000_0000 {
      assert Pow2(s) == 1;
    } else {
      LeadingZerosNormalize(2 * x);
      ShiftOneMore(x, s - 1);
    }
    ShiftFits(x, s);
  }

  lemma {:induction false} LeadingZerosShift(x: uint32, k: nat)
    requires x != 0 && x * Pow2(k) < B32
    ensures x * Pow2(k) != 0 && LeadingZeros(x) == k + LeadingZeros(x * Pow2(k))
    decreases k
  {
    if k > 0 {
      assert x * Pow2(k) == 2 * x * Pow2(k - 1);
      MulMonotone(1, Pow2(k - 1), 2 * x);
      LeadingZerosShift(2 * x, k - 1);
    }
  }

  /** nlz: binary search for the top bit. */
  method Nlz(x0: uint32) returns (n: nat)
    requires x0 != 0
    ensures n == LeadingZeros(x0)
    ensures n <= 31 && 0x8000_0000 <= x0 * Pow2(n) < B32
  {
    var x: uint32 := x0;
    n := 0;
    if x <= 0x0000FFFF {
      ShiftBy(x, 16, 0x1_0000);
      n := n + 16;
      x := x * 0x1_0000;
    }
    if x <= 0x00FFFFFF {
      ShiftBy(x, 8, 0x100);
      n := n + 8;
      x := x * 0x100;
    }
    if x <= 0x0FFFFFFF {
      ShiftBy(x, 4, 0x10);
      n := n + 4;
      x := x * 0x10;
    }
    if x <= 0x3FFFFFFF {
      ShiftBy(x, 2, 4);
      n := n + 2;
      x := x * 4;
    }
    if x <= 0x7FFFFFFF {
      assert LeadingZeros(2 * x) == 0;
      n := n + 1;
    }
    LeadingZerosNormalize(x0);
  }

  lemma ShiftBy(x: uint32, k: nat, p: nat)
    requires (k, p) in {(16, 0x1_0000), (8, 0x100), (4, 0x10), (2, 4)}
    requires x != 0 && x * p < B32
    ensures x * p != 0 && LeadingZeros(x) == k + LeadingZeros(x * p)
  {
    assert Pow2(16) == 0x1_0000 && Pow2(8) == 0x100 && Pow2(4) == 0x10 && Pow2(2) == 4;
    LeadingZerosShift(x, k);
  }

  // ---------- unsigned division ----------

  /** A 32-bit divisor: schoolbook division in base 2^32. */
  lemma SmallDivisor(n: uint64, d: uint64)
    requires 0 < d < B32
    ensures var a := B32 * (n / B32 % d) + n % B32;
            && 0 <= a < B64 && a / d < B32
            && a / d + B32 * (n / B32 / d) == n / d
  {
    var n1, n0 := n / B32, n % B32;
    var a, h := B32 * (n1 % d) + n0, n1 / d;
    MulMonotone(n1 % d, d - 1, B32);
    assert a < B32 * d;
    DivBounds(a, d);
    MulStrict(B32 - 1, a / d, d);
    var q := a / d + B32 * h;
    assert n1 == d * h + n1 % d;
    assert n == B32 * (d * h) + a;
    assert B32 * (d * h) == d * (B32 * h);
    assert d * q == d * (a / d) + d * (B32 * h);
    assert d * (q + 1) == d * (a / d + 1) + d * (B32 * h);
    DivUnique(n, d, q);
  }

  /** The scale factors of the normalised estimate: P shifts the divisor up, K = 2^32 / P. */
  lemma Scales(s: nat)
    requires s <= 31
    ensures Pow2(s) * Pow2(32 - s) == B32
    ensures Pow2(32 - s) == 2 * Pow2(31 - s)
    ensures Pow2(32 - s) == 2 || Pow2(32 - s) >= 4
    ensures Pow2(32 - s) == 2 ==> Pow2(s) == 0x8000_0000
  {
    Pow2Of32();
    Pow2Add(s, 32 - s);
    if s <= 30 {
      Pow2Monotone(2, 32 - s);
      assert Pow2(2) == 4;
    }
  }

  lemma ShiftedDivisorFits(d: nat, d1: nat, P: nat, K: nat)
    requires P > 0 && K > 0 && P * K == B32 && d < (d1 + 1) * B32 && d1 * P < B32
    ensures d < K * B32 && d * P < B64
  {
    MulStrict(K - 1, d1, P);
    assert d1 < K;
    MulMonotone(d1 + 1, K, B32);
    MulMonotone(d + 1, K * B32, P);
    assert K * B32 * P == B32 * (P * K);
  }

  /** The shifted divisor keeps its top 32 bits: (d << s) >> 32 is d / 2^(32-s). */
  lemma TopOfDivisor(d: nat, d1: nat, P: nat, K: nat)
    requires P > 0 && K > 0 && P * K == B32
    requires d1 * B32 <= d < (d1 + 1) * B32 && 0x8000_0000 <= d1 * P < B32
    ensures d * P < B64
    ensures d * P / B32 == d / K
    ensures 0x8000_0000 <= d / K < B32
  {
    ShiftedDivisorFits(d, d1, P, K);
    DivDiv(P * d, P, K);
    MulDivCancel(d, P);
    DivLess(d, K, B32);
    assert d1 * B32 == K * (d1 * P) by {
      assert d1 * (P * K) == K * (d1 * P);
    }
    DivAtLeast(d, K, d1 * P);
  }

  /** (t+1) * (d - W) <= W: the error of the truncated divisor is less than one quotient step. */
  lemma TruncationError(t: nat, d: uint64, v: nat, P: nat, K: nat)
    requires P > 0 && K > 0 && P * K == B32 && (K >= 4 || (K == 2 && P == 0x8000_0000))
    requires 0x8000_0000 <= v && v == d / K && t * d < B64
    ensures (t + 1) * (d - v * K) <= v * K
  {
    DivBounds(d, K);
    var W := v * K;
    MulMonotone(0x8000_0000, v, K);
    assert 0x8000_0000 * K <= W <= d;
    assert t * (0x8000_0000 * K) <= t * d by {
      MulMonotone(0x8000_0000 * K, d, t);
    }
    assert t * (0x8000_0000 * K) == 0x8000_0000 * (t * K);
    assert t * K < 0x2_0000_0000;
    assert 0x2_0000_0000 == K * (2 * P);
    assert t < 2 * P by {
      MulStrict(2 * P - 1, t, K);
    }
    MulMonotone(t + 1, 2 * P, K);
    assert 0 <= d - W <= K - 1;
    MulMonotone(d - W, K - 1, t + 1);
    assert (t + 1) * (d - W) <= (t + 1) * (K - 1) == (t + 1) * K - (t + 1);
  }

  /** Halving, dividing by v and then by H is dividing by 2vH. */
  lemma EstimateIsDivision(n: nat, v: nat, H: nat, K: nat)
    requires v > 0 && H > 0 && K == 2 * H
    ensures v * K > 0 && n / 2 / v / H == n / (v * K)
  {
    DivDiv(n / 2, v, H);
    DivDiv(n, 2, v * H);
    assert 2 * (v * H) == v * K;
  }

  /** The core of the estimate, for a divisor whose top bits are v = d / K. */
  lemma EstimateCore(n: uint64, d: nat, v: nat, P: nat, K: nat, H: nat)
    requires P > 0 && H > 0 && K == 2 * H && P * K == B32 && (K >= 4 || (K == 2 && P == 0x8000_0000))
    requires 0 < d < B64 && v == d / K && 0x8000_0000 <= v < B32
    ensures n / 2 / v < B32
    ensures n / d <= n / 2 / v / H <= n / d + 1
  {
    DivLess(n / 2, v, B32);
    DivBounds(n, d);
    DivAtLeast(n, d, 0);
    var t := n / d;
    assert t * d == d * t;
    TruncationError(t, d, v, P, K);
    DivBounds(d, K);
    assert v * K == K * v;
    EstimateIsDivision(n, v, H, K);
    Bracket(n, d, v * K, t);
  }

  /** The normalised estimate is the quotient or one more, and the divide does not trap. */
  lemma Estimate(n: uint64, d: uint64)
    requires d >= B32
    ensures var s := LeadingZeros(d / B32);
            && s <= 31 && d * Pow2(s) < B64
            && var v := d * Pow2(s) / B32;
            && 0x8000_0000 <= v < B32 && n / 2 / v < B32
            && n / d <= n / 2 / v / Pow2(31 - s) <= n / d + 1
  {
    var s := LeadingZeros(d / B32);
    LeadingZerosNormalize(d / B32);
    Scales(s);
    TopOfDivisor(d, d / B32, Pow2(s), Pow2(32 - s));
    EstimateCore(n, d, d / Pow2(32 - s), Pow2(s), Pow2(32 - s), Pow2(31 - s));
  }

  /** Dividing by W instead of a slightly larger d gives the quotient t or t + 1. */
  lemma Bracket(n: nat, d: nat, W: nat, t: nat)
    requires 0 < W <= d && t == n / d && (t + 1) * (d - W) <= W
    ensures t <= n / W <= t + 1
  {
    DivBounds(n, d);
    DivBounds(n, W);
    assert n < W * (t + 2) by {
      assert d * (t + 1) == (t + 1) * (d - W) + (t + 1) * W;
      assert W * (t + 2) == (t + 1) * W + W;
    }
    MulStrict(t + 1, n / W, W);
    assert W * t <= n by {
      MulMonotone(W, d, t);
      assert W * t == t * W && t * d == d * t;
    }
    MulStrict(n / W, t, W);
  }

  /** The final correction: one too many exactly when the remainder left by q - 1 is below d. */
  lemma Correction(n: uint64, d: uint64, q: uint64)
    requires 0 < d <= n && n / d <= q <= n / d + 1
    ensures q > 0 && U64(q - 1) == q - 1
    ensures U64(n - U64(q - 1) * d) == n - (q - 1) * d
    ensures n - (q - 1) * d < d <==> q == n / d + 1
  {
    var t := n / d;
    DivBounds(n, d);
    DivAtLeast(n, d, 1);
    assert d * (t + 1) == d * t + d;
    assert q == t ==> (q - 1) * d == d * t - d;
    assert q == t + 1 ==> (q - 1) * d == d * t;
    MulMonotone(0, q - 1, d);
  }

  /** The branch of udiv64 for a divisor that needs more than 32 bits. */
  function UdivLarge(n: uint64, d: uint64): (q: uint64)
    requires B32 <= d <= n
    ensures q == n / d
  {
    Estimate(n, d);
    var s := LeadingZeros(d / B32);
    var q := Divl(n / 2, U64(d * Pow2(s)) / B32) / Pow2(31 - s);
    Correction(n, d, q);
    if U64(n - U64(q - 1) * d) < d then U64(q - 1) else q
  }

  /** The branch of udiv64 for a 32-bit divisor. */
  function UdivSmall(n: uint64, d: uint64): (q: uint64)
    requires 0 < d < B32
    ensures q == n / d
  {
    SmallDivisor(n, d);
    DivAtLeast(n, d, 0);
    QuotientAtMost(n, d);
    var n1, n0, d0 := n / B32, n % B32, d;
    U64(Divl(U64(B32 * (n1 % d0) + n0), d0) + B32 * (n1 / d0))
  }

  /** udiv64. */
  function Udiv64(n: uint64, d: uint64): (q: uint64)
    requires d != 0
    ensures q == n / d
  {
    if d / B32 == 0 then
      UdivSmall(n, d)
    else if n < d then
      DivUnique(n, d, 0);
      0
    else
      UdivLarge(n, d)
  }

  // ---------- signed division ----------

  /** The C quotient, which truncates toward zero. */
  function TruncDiv(n: int, d: int): int
    requires d != 0
  {
    var q := Abs(n) / Abs(d);
    if (n < 0) == (d < 0) then q else -q
  }

  /** sdiv64. */
  function Sdiv64(n: int64, d: int64): int64
    requires d != 0
  {
    var nAbs := if n >= 0 then U64(n) else U64(0 - U64(n));
    var dAbs := if d >= 0 then U64(d) else U64(0 - U64(d));
    var qAbs := Udiv64(nAbs, dAbs);
    if (n < 0) == (d < 0) then S64(qAbs) else S64(0 - S64(qAbs))
  }

  lemma QuotientAtMost(n: nat, d: nat)
    requires d > 0
    ensures n / d <= n && (d > 1 && n > 0 ==> n / d < n)
  {
    MulMonotone(1, d, n + 1);
    DivLess(n, d, n + 1);
    if d > 1 && n > 0 {
      MulMonotone(2, d, n);
      DivLess(n, d, n);
    }
  }

  /** sdiv64 truncates for every pair but the one whose quotient is not an int64. */
  lemma Sdiv64Truncates(n: int64, d: int64)
    requires d != 0
    ensures Sdiv64(n, d) == TruncDiv(n, d) <==> !(n == -B63 && d == -1)
    ensures n == -B63 && d == -1 ==> Sdiv64(n, d) == -B63 && TruncDiv(n, d) == B63
  {
    hide Udiv64, U64, S64;
    var q := Abs(n) / Abs(d);
    AbsWord(n);
    AbsWord(d);
    QuotientAtMost(Abs(n), Abs(d));
    DivAtLeast(Abs(n), Abs(d), 0);
    SignedWord(q);
    if Abs(d) == 1 {
      assert q == Abs(n);
    }
  }

  /** The absolute value as the source computes it, in wrapping 64-bit arithmetic. */
  lemma AbsWord(n: int64)
    ensures (if n >= 0 then U64(n) else U64(0 - U64(n))) == Abs(n)
  {
  }

  /** A quotient of absolute values read back as a signed number, and negated. */
  lemma SignedWord(q: int)
    requires 0 <= q <= B63
    ensures S64(q) == (if q < B63 then q else -B63) && S64(0 - S64(q)) == -q
  {
  }

  // ---------- remainders, which the source cuts to 32 bits ----------

  function S32(x: int): (y: int)
    ensures -0x8000_0000 <= y < 0x8000_0000
    ensures -0x8000_0000 <= x < 0x8000_0000 ==> y == x
  {
    var u := x % B32;
    if u < 0x8000_0000 then u else u - B32
  }

  function Umod64(n: uint64, d: uint64): int
    requires d != 0
  {
    U64(n - U64(d * Udiv64(n, d))) % B32
  }

  function Smod64(n: int64, d: int64): int
    requires d != 0
  {
    S32(S64(n - S64(d * Sdiv64(n, d))))
  }

  /** umod64 is the remainder exactly when the remainder fits in 32 bits. */
  lemma Umod64Exact(n: uint64, d: uint64)
    requires d != 0
    ensures Umod64(n, d) == n % d <==> n % d < B32
  {
    var q := n / d;
    assert n == d * q + n % d;
    DivBounds(n, d);
    MulMonotone(0, q, d);
    assert 0 <= d * q < B64;
  }

  /** The C remainder. */
  function TruncMod(n: int, d: int): int
    requires d != 0
  {
    n - d * TruncDiv(n, d)
  }

  /** The C remainder has the sign of the dividend and is smaller than the divisor. */
  lemma TruncModRange(n: int, d: int)
    requires d != 0
    ensures n >= 0 ==> 0 <= TruncMod(n, d) < Abs(d)
    ensures n < 0 ==> -Abs(d) < TruncMod(n, d) <= 0
    ensures Abs(d * TruncDiv(n, d)) <= Abs(n)
  {
    var a, b := Abs(n), Abs(d);
    DivBounds(a, b);
    DivAtLeast(a, b, 0);
    MulMonotone(0, a / b, b);
    ProductSign(n, d, a / b);
    assert b * (a / b + 1) == b * (a / b) + b;
  }

  lemma ProductSign(n: int, d: int, q: int)
    requires d != 0
    ensures d * (if (n < 0) == (d < 0) then q else -q) == if n < 0 then 0 - Abs(d) * q else Abs(d) * q
  {
    assert d * (0 - q) == 0 - d * q;
    assert (0 - d) * q == 0 - d * q;
  }

  /** smod64 is the remainder exactly when the remainder fits in 32 bits. */
  lemma Smod64Exact(n: int64, d: int64)
    requires d != 0
    ensures Smod64(n, d) == TruncMod(n, d) <==> -0x8000_0000 <= TruncMod(n, d) < 0x8000_0000
  {
    TruncModRange(n, d);
    Sdiv64Truncates(n, d);
  }

  /** 2^32 fails for every larger divisor. */
  lemma Umod64Fails(d: uint64)
    requires d > B32
    ensures Umod64(B32, d) == 0 && B32 % d == B32
  {
    SmallDividend(B32, d);
  }

  lemma RemainderBelow(n: nat, d: nat)
    requires d > 0
    ensures n % d < d
  {
  }

  /** umod64 is right for every dividend exactly when the divisor is at most 2^32; above, 2^32 itself fails. */
  lemma Umod64AlwaysExact(d: uint64)
    requires d != 0
    ensures (forall n: uint64 :: Umod64(n, d) == n % d) <==> d <= B32
    ensures d > B32 ==> Umod64(B32, d) == 0 && B32 % d == B32
  {
    hide Umod64;
    if d <= B32 {
      forall n: uint64 ensures Umod64(n, d) == n % d {
        RemainderBelow(n, d);
        Umod64Exact(n, d);
      }
    } else {
      Umod64Fails(d);
      var n: uint64 := B32;
      assert Umod64(n, d) != n % d;
    }
  }

  lemma SmallDividend(n: nat, d: nat)
    requires n < d
    ensures n / d == 0 && n % d == n
  {
    DivUnique(n, d, 0);
  }

  /** 2^31 fails for every divisor larger in size. */
  lemma Smod64Fails(d: int64)
    requires Abs(d) > 0x8000_0000
    ensures TruncMod(0x8000_0000, d) == 0x8000_0000 && Smod64(0x8000_0000, d) == -0x8000_0000
  {
    SmallDividend(0x8000_0000, Abs(d));
    Sdiv64Truncates(0x8000_0000, d);
  }

  /** smod64 is right for every dividend exactly when the divisor is at most 2^31 in size; above, 2^31 fails. */
  lemma Smod64AlwaysExact(d: int64)
    requires d != 0
    ensures (forall n: int64 :: Smod64(n, d) == TruncMod(n, d)) <==> Abs(d) <= 0x8000_0000
    ensures Abs(d) > 0x8000_0000 ==> TruncMod(0x8000_0000, d) == 0x8000_0000 && Smod64(0x8000_0000, d) == -0x8000_0000
  {
    hide Smod64, TruncMod;
    if Abs(d) <= 0x8000_0000 {
      forall n: int64 ensures Smod64(n, d) == TruncMod(n, d) {
        TruncModRange(n, d);
        Smod64Exact(n, d);
      }
    } else {
      Smod64Fails(d);
      var n: int64 := 0x8000_0000;
      assert Smod64(n, d) != TruncMod(n, d);
    }
  }
}
