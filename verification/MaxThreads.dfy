/** set_max_threads: a limit derived from a 64-bit product that is first checked against overflow. */
module MaxThreads {
  import opened Basics

  const MIN_THREADS: nat := 20

  /** FUTEX_TID_MASK. */
  const MAX_THREADS: nat := 0x3fff_ffff

  const WORD64: nat := 0x1_0000_0000_0000_0000

  type u64 = x: int | 0 <= x < WORD64

  /** Position of the most significant set bit, counted from 1; 0 for 0. */
  function Fls64(x: nat): nat {
    if x == 0 then 0 else 1 + Fls64(x / 2)
  }

  function Pow2(n: nat): nat {
    if n == 0 then 1 else 2 * Pow2(n - 1)
  }

  function Clamp(x: int): int {
    if x < MIN_THREADS then MIN_THREADS else if x > MAX_THREADS then MAX_THREADS else x
  }

  /** The limit in unbounded arithmetic: no guard, no overflow. */
  function IdealLimit(ramBytes: nat, threadSize: nat, suggested: nat): int
    requires 0 < threadSize
  {
    Clamp(Min(ramBytes / (threadSize * 8), suggested))
  }

  /** Within bounds and, above the floor, the largest count that neither the suggestion nor an eighth of RAM forbids. */
  lemma IdealMeaning(ramBytes: nat, threadSize: nat, suggested: nat)
    requires 0 < threadSize
    ensures var t := IdealLimit(ramBytes, threadSize, suggested);
            && 20 <= t <= 0x3fff_ffff
            && (t > 20 ==> t <= suggested && t * (threadSize * 8) <= ramBytes)
            && (t < 0x3fff_ffff ==> suggested <= t || ramBytes < (t + 1) * (threadSize * 8))
  {
    LimitMeaning(ramBytes, threadSize * 8, suggested);
  }

  /** The same for a share of `unit` bytes per thread. */
  lemma LimitMeaning(ram: nat, unit: nat, suggested: nat)
    requires 0 < unit
    ensures var t := Clamp(Min(ram / unit, suggested));
            && MIN_THREADS <= t <= MAX_THREADS
            && (t > MIN_THREADS ==> t <= suggested && t * unit <= ram)
            && (t < MAX_THREADS ==> suggested <= t || ram < (t + 1) * unit)
  {
    hide Clamp, Min;
    var q := ram / unit;
    var t := Clamp(Min(q, suggested));
    ClampedMin(q, suggested);
    if t > MIN_THREADS {
      Floor(ram, unit, t);
    }
    if t < MAX_THREADS && t < suggested {
      Ceiling(ram, unit, t);
    }
  }

  lemma Floor(ram: nat, unit: nat, t: nat)
    requires 0 < unit && t <= ram / unit
    ensures t * unit <= ram
  {
    DivBounds(ram, unit);
    MulMonotone(t, ram / unit, unit);
  }

  lemma Ceiling(ram: nat, unit: nat, t: nat)
    requires 0 < unit && ram / unit <= t
    ensures ram < (t + 1) * unit
  {
    DivBounds(ram, unit);
    MulMonotone(ram / unit + 1, t + 1, unit);
  }

  /** Between the bounds, the smaller of the two; at a bound, on its far side. */
  lemma ClampedMin(q: int, suggested: int)
    ensures var t := Clamp(Min(q, suggested));
            && MIN_THREADS <= t <= MAX_THREADS
            && (t > MIN_THREADS ==> t <= suggested && t <= q)
            && (t < MAX_THREADS ==> suggested <= t || q <= t)
  {
  }

  lemma DivBounds(a: nat, b: nat)
    requires 0 < b
    ensures a / b * b <= a < (a / b + 1) * b
  {
  }

  lemma MulMonotone(a: nat, b: nat, c: nat)
    ensures a <= b ==> a * c <= b * c && c * a <= c * b
  {
  }

  lemma MulSuccessor(a: nat, b: nat)
    ensures a * (b + 1) == a * b + a
  {
  }

  lemma {:induction false} FlsBounds(x: nat)
    requires 0 < x
    ensures 0 < Fls64(x) && Pow2(Fls64(x) - 1) <= x < Pow2(Fls64(x))
  {
    if x <= 1 {
    } else {
      FlsBounds(x / 2);
    }
  }

  lemma {:induction false} PowAdd(a: nat, b: nat)
    ensures Pow2(a + b) == Pow2(a) * Pow2(b)
  {
    if a == 0 {
    } else {
      PowAdd(a - 1, b);
      assert Pow2(a) * Pow2(b) == 2 * (Pow2(a - 1) * Pow2(b));
    }
  }

  lemma {:induction false} PowMonotone(a: nat, b: nat)
    requires a <= b
    ensures 0 < Pow2(a) <= Pow2(b)
    decreases b
  {
    if b == 0 {
    } else if a < b {
      PowMonotone(a, b - 1);
    } else {
      PowMonotone(a - 1, a - 1);
    }
  }

  lemma PowValues()
    ensures Pow2(63) == 0x8000_0000_0000_0000 && Pow2(64) == WORD64
  {
    assert Pow2(8) == 0x100;
    PowAdd(8, 8);
    PowAdd(16, 16);
    PowAdd(32, 32);
    assert Pow2(64) == 2 * Pow2(63);
  }

  lemma SmallProduct(a: nat, b: nat)
    requires 0 < a && 0 < b && Fls64(a) + Fls64(b) <= 64
    ensures a * b < Pow2(64)
  {
    hide Pow2, Fls64;
    var f, g := Fls64(a), Fls64(b);
    FlsBounds(a);
    FlsBounds(b);
    PowAdd(f, g);
    PowMonotone(f + g, 64);
    MulBounds(a, b, Pow2(f), Pow2(g));
  }

  lemma LargeProduct(a: nat, b: nat)
    requires 0 < a && 0 < b && Fls64(a) + Fls64(b) > 64
    ensures a * b >= Pow2(63)
  {
    hide Pow2, Fls64;
    var f, g := Fls64(a), Fls64(b);
    FlsBounds(a);
    FlsBounds(b);
    PowAdd(f - 1, g - 1);
    PowMonotone(63, f - 1 + (g - 1));
    MulBounds(Pow2(f - 1), Pow2(g - 1), a, b);
  }

  lemma MulBounds(a: nat, b: nat, c: nat, d: nat)
    requires a <= c && b <= d
    ensures a * b <= c * d
    ensures a < c && b < d ==> a * b < c * d
  {
    MulMonotone(a, c, b);
    MulMonotone(b, d, c);
    if b < d {
      MulMonotone(b + 1, d, c);
      MulSuccessor(c, b);
    }
  }

  /** The guard is sound both ways: below it the product fits 64 bits, above it the true product is at least 2^63. */
  lemma GuardDecides(a: u64, b: u64)
    ensures Fls64(a) + Fls64(b) <= 64 ==> a * b < WORD64
    ensures Fls64(a) + Fls64(b) > 64 ==> a * b >= 0x8000_0000_0000_0000
  {
    hide Pow2;
    PowValues();
    FlsOfWord(a);
    FlsOfWord(b);
    if a == 0 || b == 0 {
      assert a * b == 0;
    } else if Fls64(a) + Fls64(b) <= 64 {
      SmallProduct(a, b);
    } else {
      LargeProduct(a, b);
    }
  }

  lemma FlsOfWord(x: nat)
    requires x < WORD64
    ensures Fls64(x) <= 64
  {
    PowValues();
    if x > 0 {
      FlsBounds(x);
      if Fls64(x) > 64 {
        PowMonotone(64, Fls64(x) - 1);
      }
    }
  }

  class Tunables {
    var maxThreads: int

    /** The guarded 64-bit computation gives exactly the unbounded one. */
    method SetMaxThreads(totalramPages: u64, pageSize: u64, threadSize: u64, suggested: nat)
      requires 0 < threadSize && threadSize * 8 * MAX_THREADS <= 0x8000_0000_0000_0000
      modifies this
      ensures maxThreads == IdealLimit(totalramPages * pageSize, threadSize, suggested)
    {
      var threads: u64;
      GuardDecides(totalramPages, pageSize);
      if Fls64(totalramPages) + Fls64(pageSize) > 64 {
        threads := MAX_THREADS;
        QuotientAtLeast(totalramPages * pageSize, threadSize * 8, MAX_THREADS);
      } else {
        threads := totalramPages * pageSize % WORD64 / (threadSize * 8);
      }
      if threads > suggested {
        threads := suggested;
      }
      maxThreads := Clamp(threads);
    }
  }

  lemma QuotientAtLeast(x: nat, d: nat, m: nat)
    requires 0 < d && m * d <= x
    ensures m <= x / d
  {
    var q := x / d;
    assert x < (q + 1) * d;
    MulMonotone(q + 1, m, d);
  }
}
