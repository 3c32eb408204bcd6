/**
 The retry backoff of a failed backup, in Go's wrapping 64-bit nanoseconds:
 one minute times two to the error count, capped at an hour.
 */
module Backoff {
  const SECOND := 1_000_000_000
  const MINUTE := 60 * SECOND
  const HOUR := 60 * MINUTE
  const TWO_63 := 0x8000_0000_0000_0000
  const TWO_64 := 0x1_0000_0000_0000_0000

  /** Two's-complement reduction to int64. */
  function Wrap64(x: int): int {
    var r := x % TWO_64;
    if r < TWO_63 then r else r - TWO_64
  }

  function Pow2(n: nat): (r: nat)
    ensures r >= 1
  {
    if n == 0 then 1 else 2 * Pow2(n - 1)
  }

  function Min(a: int, b: int): int { if a < b then a else b }

  /** Converting 2^n to a Duration: exact while it fits, otherwise whatever the platform yields. */
  function Doubling(n: nat, platform: int): int {
    if n <= 62 then Pow2(n) else platform
  }

  function BaseWait(n: nat, platform: int): int {
    var wait := Wrap64(MINUTE * Doubling(n, platform));
    if wait > HOUR then HOUR else wait
  }

  /** What the backoff is meant to be. */
  function Intended(n: nat): int { Min(Pow2(n) * MINUTE, HOUR) }

  lemma {:induction false} Pow2Add(a: nat, b: nat)
    ensures Pow2(a + b) == Pow2(a) * Pow2(b)
  {
    if a > 0 {
      Pow2Add(a - 1, b);
    }
  }

  lemma {:induction false} Pow2Monotone(a: nat, b: nat)
    requires a <= b
    ensures Pow2(a) <= Pow2(b)
  {
    if a < b {
      Pow2Monotone(a, b - 1);
    }
  }

  /** The powers the wrap-around arithmetic below turns on. */
  lemma Powers()
    ensures Pow2(1) == 2 && Pow2(6) == 64 && Pow2(11) == 2048
    ensures Pow2(22) == 0x40_0000 && Pow2(23) == 0x80_0000 && Pow2(24) == 0x100_0000 && Pow2(27) == 0x800_0000
    ensures Pow2(42) == 0x400_0000_0000 && Pow2(53) == 0x20_0000_0000_0000 && Pow2(63) == TWO_63
  {
    assert Pow2(1) == 2 && Pow2(2) == 4 && Pow2(3) == 8 && Pow2(4) == 16 && Pow2(5) == 32;
    Pow2Add(5, 1);
    Pow2Add(6, 5);
    Pow2Add(11, 11);
    Pow2Add(22, 1);
    Pow2Add(22, 2);
    Pow2Add(22, 5);
    Pow2Add(42, 11);
    Pow2Add(21, 21);
    Pow2Add(11, 10);
    Pow2Add(5, 5);
    Pow2Add(42, 21);
  }

  /** For 1 to 27 consecutive failures the wait is min(2^n, 60) minutes, and so never under two minutes. */
  lemma BackoffIsIntended(n: nat, platform: int)
    requires 1 <= n <= 27
    ensures BaseWait(n, platform) == Intended(n)
    ensures 2 * MINUTE <= BaseWait(n, platform) <= HOUR
  {
    assert 2 <= Pow2(n) <= 0x800_0000 by {
      Powers();
      Pow2Monotone(n, 27);
      Pow2Monotone(1, n);
    }
    WrapSmall(MINUTE * Pow2(n));
  }

  /** In seconds: two minutes, then doubled up to an hour. */
  lemma FirstWaits(platform: int)
    ensures [BaseWait(1, platform), BaseWait(2, platform), BaseWait(3, platform),
             BaseWait(4, platform), BaseWait(5, platform), BaseWait(6, platform)]
            == [120_000_000_000, 240_000_000_000, 480_000_000_000,
                960_000_000_000, 1_920_000_000_000, 3_600_000_000_000]
  {
    assert Pow2(1) == 2 && Pow2(2) == 4 && Pow2(3) == 8 && Pow2(4) == 16 && Pow2(5) == 32 && Pow2(6) == 64;
  }

  lemma BackoffIsMonotone(m: nat, n: nat, platform: int)
    requires 1 <= m <= n <= 27
    ensures BaseWait(m, platform) <= BaseWait(n, platform)
  {
    BackoffIsIntended(m, platform);
    BackoffIsIntended(n, platform);
    Pow2Monotone(m, n);
  }

  // ---------- Past 27 failures: one minute is ODD * 2^11 nanoseconds ----------

  const ODD := 29296875

  predicate BitSet(x: nat, i: nat) { x / Pow2(i) % 2 == 1 }

  lemma WrapSmall(x: int)
    requires 0 <= x < TWO_63
    ensures Wrap64(x) == x
  {
  }

  lemma MulNonneg(a: int, b: int)
    requires 0 <= a && 0 <= b
    ensures 0 <= a * b
  {
  }

  lemma MulMonotone(a: int, b: int, c: int)
    requires a <= b && 0 <= c
    ensures a * c <= b * c
  {
    MulNonneg(b - a, c);
  }

  lemma SmallMultiple(k: int, d: int)
    requires -d < k * d < d
    ensures k == 0
  {
    if k >= 1 {
      MulMonotone(1, k, d);
      assert false;
    } else if k <= -1 {
      MulMonotone(k, -1, d);
      assert false;
    }
  }

  lemma Distribute(q: int, d: int, r: int, s: int)
    ensures (q * d + r) * s == q * (d * s) + r * s
    ensures (q - r) * s == q * s - r * s
  {
  }

  /** The remainder of a division is determined by its range. */
  lemma ModIs(x: int, d: int, q: int, r: int)
    requires 0 <= r < d && x == q * d + r
    ensures x % d == r
  {
    var q' := x / d;
    Distribute(q', 0, q, d);
    SmallMultiple(q' - q, d);
  }

  lemma Remainder(x: nat, i: nat)
    ensures BitSet(x, i) <==> x % (2 * Pow2(i)) >= Pow2(i)
  {
    var p := Pow2(i);
    var q, r := x / p, x % p;
    assert x == q * p + r;
    var h, b := q / 2, q % 2;
    assert q == 2 * h + b;
    assert q * p == h * (2 * p) + b * p;
    ModIs(x, 2 * p, h, b * p + r);
  }

  lemma ShiftSplits(n: nat)
    requires n <= 52
    ensures Pow2(52 - n) * Pow2(n + 11) == TWO_63
    ensures MINUTE * Pow2(n) == ODD * Pow2(n + 11)
  {
    assert Pow2(63) == TWO_63 && Pow2(11) == 2048 by { Powers(); }
    assert Pow2(63) == Pow2(52 - n) * Pow2(n + 11) by { Pow2Add(52 - n, n + 11); }
    assert Pow2(n + 11) == Pow2(n) * 2048 by { Pow2Add(n, 11); }
    MinuteShifted(Pow2(n));
  }

  lemma MinuteShifted(p: int)
    ensures MINUTE * p == ODD * (p * 2048)
  {
  }

  lemma OddRemainder(p: nat)
    requires p >= 1
    ensures ODD % (2 * p) >= 1
  {
    var q, r := ODD / (2 * p), ODD % (2 * p);
    assert ODD == q * (2 * p) + r;
    assert q * (2 * p) == 2 * (q * p);
  }

  lemma Regroup(a: int, b: int, c: int)
    ensures a * b * c == a * (b * c)
  {
  }

  lemma WrappedShift(x: nat, d: nat, shift: nat)
    requires d > 0 && d * shift == TWO_64
    ensures x * shift % TWO_64 == x % d * shift
  {
    var q, r := x / d, x % d;
    assert x == q * d + r;
    Distribute(q, d, r, shift);
    MulNonneg(r, shift);
    MulMonotone(r, d - 1, shift);
    Distribute(d, 0, 1, shift);
    ModIs(x * shift, TWO_64, q, r * shift);
  }

  /** From 28 to 52 the high bits of the product are lost; what is left is a remainder of ODD, shifted. */
  lemma WrappedProduct(n: nat)
    requires 28 <= n <= 52
    ensures MINUTE * Pow2(n) % TWO_64 == ODD % (2 * Pow2(52 - n)) * Pow2(n + 11)
  {
    var p, shift := Pow2(52 - n), Pow2(n + 11);
    ShiftSplits(n);
    assert 2 * p * shift == TWO_64 by { Regroup(2, p, shift); }
    WrappedShift(ODD, 2 * p, shift);
  }

  lemma ClearBitBelow31(n: nat)
    requires 28 <= n <= 30 && !BitSet(ODD, 52 - n)
    ensures HOUR < ODD % (2 * Pow2(52 - n)) * Pow2(n + 11)
  {
    assert Pow2(22) == 0x40_0000 && Pow2(23) == 0x80_0000 && Pow2(24) == 0x100_0000 by { Powers(); }
    assert n == 30;
    assert Pow2(41) == 0x200_0000_0000 by {
      Powers();
      Pow2Add(41, 1);
    }
    assert ODD % (2 * 0x40_0000) >= 1;
  }

  lemma BelowProduct(r: nat, p: nat, shift: nat)
    requires r < p && shift > 0
    ensures r * shift < p * shift
  {
    MulMonotone(r + 1, p, shift);
    Distribute(r, 1, 1, shift);
  }

  /** A cleared bit leaves a positive product that is far above the cap. */
  lemma ClearBitIsLarge(n: nat)
    requires 28 <= n <= 52 && !BitSet(ODD, 52 - n)
    ensures HOUR < ODD % (2 * Pow2(52 - n)) * Pow2(n + 11) < TWO_63
  {
    var p, shift := Pow2(52 - n), Pow2(n + 11);
    var r := ODD % (2 * p);
    assert r < p by { Remainder(ODD, 52 - n); }
    assert r >= 1 by { OddRemainder(p); }
    assert p * shift == TWO_63 by { ShiftSplits(n); }
    BelowProduct(r, p, shift);
    if n < 31 {
      ClearBitBelow31(n);
    } else {
      assert shift >= 0x400_0000_0000 by {
        Powers();
        Pow2Monotone(42, n + 11);
      }
      MulMonotone(1, r, shift);
    }
  }

  lemma WrapIs(x: int, r: int)
    requires x % TWO_64 == r
    ensures Wrap64(x) == if r < TWO_63 then r else r - TWO_64
  {
  }

  lemma WaitIs(n: nat, platform: int, wrapped: int)
    requires n <= 62 && Wrap64(MINUTE * Pow2(n)) == wrapped
    ensures BaseWait(n, platform) == Min(wrapped, HOUR)
  {
  }

  lemma SetBitIsNegative(n: nat, platform: int)
    requires 28 <= n <= 52 && BitSet(ODD, 52 - n)
    ensures BaseWait(n, platform) < 0
  {
    var p, shift := Pow2(52 - n), Pow2(n + 11);
    var r := ODD % (2 * p);
    assert p <= r by { Remainder(ODD, 52 - n); }
    assert p * shift == TWO_63 by { ShiftSplits(n); }
    MulMonotone(p, r, shift);
    assert MINUTE * Pow2(n) % TWO_64 == r * shift by { WrappedProduct(n); }
    WrapIs(MINUTE * Pow2(n), r * shift);
    WaitIs(n, platform, r * shift - TWO_64);
  }

  lemma ClearBitIsCapped(n: nat, platform: int)
    requires 28 <= n <= 52 && !BitSet(ODD, 52 - n)
    ensures BaseWait(n, platform) == HOUR
  {
    var r := ODD % (2 * Pow2(52 - n)) * Pow2(n + 11);
    assert HOUR < r < TWO_63 by { ClearBitIsLarge(n); }
    assert MINUTE * Pow2(n) % TWO_64 == r by { WrappedProduct(n); }
    WrapIs(MINUTE * Pow2(n), r);
    WaitIs(n, platform, r);
  }

  /**
   Below 53 the wait is wrong exactly when bit 52-n of ODD is set: the product is then negative and slips past the cap.
   */
  lemma BackoffPast27(n: nat, platform: int)
    requires 28 <= n <= 52
    ensures BitSet(ODD, 52 - n) ==> BaseWait(n, platform) < 0
    ensures !BitSet(ODD, 52 - n) ==> BaseWait(n, platform) == HOUR
    ensures Intended(n) == HOUR
  {
    assert Pow2(n) >= 64 by {
      Powers();
      Pow2Monotone(6, n);
    }
    if BitSet(ODD, 52 - n) {
      SetBitIsNegative(n, platform);
    } else {
      ClearBitIsCapped(n, platform);
    }
  }

  /** From 53 to 62 every bit is lost: no wait at all. */
  lemma BackoffVanishes(n: nat, platform: int)
    requires 53 <= n <= 62
    ensures BaseWait(n, platform) == 0
  {
    var k := Pow2(n - 53);
    assert Pow2(n) == k * 0x20_0000_0000_0000 by {
      Powers();
      Pow2Add(n - 53, 53);
    }
    MinuteVanishes(k);
    ModIs(MINUTE * Pow2(n), TWO_64, ODD * k, 0);
  }

  lemma MinuteVanishes(k: int)
    ensures MINUTE * (k * 0x20_0000_0000_0000) == (ODD * k) * TWO_64
  {
  }

  /** Exactly when the code waits as long as it is meant to, for every error count whose doubling fits. */
  lemma BackoffExactlyWhen(n: nat, platform: int)
    requires 1 <= n <= 62
    ensures BaseWait(n, platform) == Intended(n) <==> n <= 27 || (n <= 52 && !BitSet(ODD, 52 - n))
  {
    if n <= 27 {
      BackoffIsIntended(n, platform);
    } else if n <= 52 {
      BackoffPast27(n, platform);
    } else {
      BackoffVanishes(n, platform);
    }
  }

  /** Past 62, with either usual out-of-range conversion (the least or the greatest int64), the retry is immediate. */
  lemma BackoffSaturated(n: nat)
    requires 63 <= n
    ensures BaseWait(n, -TWO_63) == 0 && BaseWait(n, TWO_63 - 1) == -MINUTE
  {
    ModIs(MINUTE * -TWO_63, TWO_64, -(MINUTE / 2), 0);
    ModIs(MINUTE * (TWO_63 - 1), TWO_64, MINUTE / 2 - 1, TWO_64 - MINUTE);
  }

  /** 27 is the limit: at 28 the wait is negative. */
  lemma FirstWrongCount(platform: int)
    ensures BaseWait(28, platform) < 0
  {
    Powers();
    BackoffPast27(28, platform);
  }
}
