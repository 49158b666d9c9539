/** The reconnect delay of the WebSocket client, in 32-bit unsigned arithmetic. */
module Backoff {
  import opened Wrappers

  const WORD := 0x1_0000_0000
  const CAP := 60000

  type uint32 = x: int | 0 <= x < WORD

  function Pow2(k: nat): (p: nat)
    ensures p >= 1
  {
    if k == 0 then 1 else 2 * Pow2(k - 1)
  }

  function Base(interval: uint32): (b: uint32)
    ensures b >= 1
  {
    if interval == 0 then 1000 else interval
  }

  function MaxFactor(base: uint32): (f: uint32)
    requires base >= 1
    ensures 1 <= f <= CAP
  {
    if CAP / base == 0 then 1 else CAP / base
  }

  /** The least power of two that reaches `f`, from 2^k on. */
  function LeastPower(f: nat, k: nat): (r: nat)
    ensures r >= k && Pow2(r) >= f
    ensures r > k ==> Pow2(r - 1) < f
    decreases if Pow2(k) >= f then 0 else f - Pow2(k)
  {
    if Pow2(k) >= f then k else LeastPower(f, k + 1)
  }

  /** After this many attempts the delay no longer grows. */
  function Saturation(interval: uint32): nat {
    LeastPower(MaxFactor(Base(interval)), 0)
  }

  function Delay(interval: uint32, attempts: nat): nat {
    Min(Base(interval) * Pow2(Min(attempts, Saturation(interval))), CAP)
  }

  lemma {:induction false} Pow2Monotone(a: nat, b: nat)
    requires a <= b
    ensures Pow2(a) <= Pow2(b)
  {
    if a < b {
      Pow2Monotone(a, b - 1);
    }
  }

  lemma {:induction false} Pow2Strict(a: nat, b: nat)
    requires a < b
    ensures 2 * Pow2(a) <= Pow2(b)
  {
    Pow2Monotone(a + 1, b);
  }

  lemma {:induction false} LeastPowerIsLeast(f: nat, k: nat, j: nat)
    requires k <= j < LeastPower(f, k)
    ensures Pow2(j) < f
    decreases LeastPower(f, k) - k
  {
    Pow2Monotone(j, LeastPower(f, k) - 1);
  }

  lemma DoubleBound(base: nat, f: nat, p: nat)
    requires base >= 1 && f >= 1 && base * f <= CAP && p <= 2 * f
    ensures base * p <= 2 * CAP
  {
    MultiplyMonotone(base, p, 2 * f);
    assert base * (2 * f) == 2 * (base * f);
  }

  lemma QuotientFits(base: uint32)
    requires 1 <= base <= CAP
    ensures base * MaxFactor(base) <= CAP
  {
    assert CAP / base >= 1;
  }

  lemma NoDoubling(base: uint32)
    requires base > CAP
    ensures MaxFactor(base) == 1 && LeastPower(1, 0) == 0
  {
    QuotientIsZero(CAP, base);
    assert Pow2(0) == 1;
  }

  lemma QuotientIsZero(a: nat, b: nat)
    requires a < b
    ensures a / b == 0
  {
  }

  lemma PowerWithin(f: nat, k: nat)
    requires f >= 1 && k <= LeastPower(f, 0)
    ensures Pow2(k) <= 2 * f
  {
    if k > 0 {
      LeastPowerIsLeast(f, 0, k - 1);
    }
  }

  /** No power up to the saturation point takes the product past 32 bits. */
  lemma ProductIsBounded(interval: uint32, k: nat)
    requires k <= Saturation(interval)
    ensures 0 <= Base(interval) * Pow2(k) < WORD
  {
    var base := Base(interval);
    if base <= CAP {
      QuotientFits(base);
      PowerWithin(MaxFactor(base), k);
      DoubleBound(base, MaxFactor(base), Pow2(k));
    } else {
      NoDoubling(base);
      assert base * Pow2(0) == base;
    }
  }

  lemma MultiplyMonotone(a: nat, b: nat, c: nat)
    requires b <= c
    ensures a * b <= a * c
  {
  }

  /** The doubling loop of `attemptReconnect`; the shift never loses a bit. */
  method Factor(maxFactor: uint32, attempts: nat) returns (factor: uint32)
    requires 1 <= maxFactor <= CAP
    ensures factor == Pow2(Min(attempts, LeastPower(maxFactor, 0)))
  {
    factor := 1;
    var i := 0;
    ghost var k := LeastPower(maxFactor, 0);
    while i < attempts && factor < maxFactor
      invariant 0 <= i <= attempts && i <= k
      invariant factor == Pow2(i)
    {
      assert i != k;
      factor := factor * 2 % WORD;
      i := i + 1;
    }
    if i < k && i < attempts {
      LeastPowerIsLeast(maxFactor, 0, i);
    }
  }

  /** The delay as `attemptReconnect` computes it: every product is taken in 32 bits, and
      none wraps. */
  method Compute(interval: uint32, attempts: nat) returns (delay: uint32)
    ensures delay == Delay(interval, attempts)
  {
    var base: uint32 := if interval != 0 then interval else 1000;
    var maxFactor: uint32 := CAP / base;
    if maxFactor == 0 {
      maxFactor := 1;
    }
    assert maxFactor == MaxFactor(base);
    var factor := Factor(maxFactor, attempts);
    delay := Product(interval, Min(attempts, Saturation(interval)), base, factor);
    if delay > CAP {
      delay := CAP;
    }
  }

  /** One 32-bit multiplication that does not wrap. */
  method Product(interval: uint32, ghost i: nat, base: uint32, factor: uint32) returns (p: uint32)
    requires i <= Saturation(interval) && base == Base(interval) && factor == Pow2(i)
    ensures p == base * factor
  {
    ProductIsBounded(interval, i);
    ghost var exact := base * factor;
    assert exact % WORD == exact;
    p := base * factor % WORD;
  }

  /** More failures never shorten the wait. */
  lemma DelayNeverDecreases(interval: uint32, n: nat, m: nat)
    requires n <= m
    ensures Delay(interval, n) <= Delay(interval, m)
  {
    var k := Saturation(interval);
    Pow2Monotone(Min(n, k), Min(m, k));
    MultiplyMonotone(Base(interval), Pow2(Min(n, k)), Pow2(Min(m, k)));
  }

  lemma ProductReaches(base: nat, f: nat, p: nat)
    requires f <= p && base * f > CAP / 2
    ensures base * p > CAP / 2
  {
    MultiplyMonotone(base, f, p);
  }

  /** Once saturated the wait is within a factor of two of the cap. */
  lemma SaturatedDelay(interval: uint32, n: nat)
    requires n >= Saturation(interval)
    ensures 30000 < Delay(interval, n) <= 60000
  {
    var base := Base(interval);
    if base <= CAP {
      FloorIsClose(base);
      ProductReaches(base, MaxFactor(base), Pow2(Saturation(interval)));
    } else {
      NoDoubling(base);
    }
  }

  lemma FloorIsClose(base: uint32)
    requires 1 <= base <= CAP
    ensures base * (CAP / base) > CAP / 2
  {
    var f := CAP / base;
    assert CAP == base * f + CAP % base;
    assert base * f >= base by {
      MultiplyMonotone(base, 1, f);
    }
  }

  /** Saturation is the least number of doublings at which the next could pass the cap. */
  lemma SaturationIsLeast(interval: uint32, n: nat)
    ensures
      var base := if interval == 0 then 1000 else interval;
      n >= Saturation(interval) <==> base > 60000 || Pow2(n) >= 60000 / base
  {
    var base := Base(interval);
    if base > CAP {
      NoDoubling(base);
    } else if n >= Saturation(interval) {
      Pow2Monotone(Saturation(interval), n);
    } else {
      LeastPowerIsLeast(MaxFactor(base), 0, n);
    }
  }

  /** The documented delay, interval times 2^attempts capped at a minute, is what the code
      waits exactly until saturation, and afterwards only if the last doubling reached the cap. */
  lemma DocumentedDelay(interval: uint32, n: nat)
    ensures
      var base := if interval == 0 then 1000 else interval;
      Delay(interval, n) == Min(base * Pow2(n), 60000) <==>
      (n <= Saturation(interval) || base * Pow2(Saturation(interval)) >= 60000)
  {
    var base, k := Base(interval), Saturation(interval);
    if n > k {
      Pow2Strict(k, n);
      SaturatedDelay(interval, n);
      Doubling(base, Pow2(k), Pow2(n));
    }
  }

  lemma Doubling(base: nat, p: nat, q: nat)
    requires base >= 1 && 2 * p <= q && Min(base * p, CAP) > CAP / 2
    ensures base * q >= CAP
  {
    MultiplyMonotone(base, 2 * p, q);
    assert base * (2 * p) == 2 * (base * p);
  }

  /** With a base of seven seconds the wait settles at 56 seconds, never at the documented minute. */
  lemma SevenSeconds(n: nat)
    requires n >= 3
    ensures Delay(7000, n) == 56000
    ensures n > 3 ==> Min(7000 * Pow2(n), CAP) == CAP
  {
    assert MaxFactor(7000) == 8;
    assert Pow2(1) == 2 && Pow2(2) == 4 && Pow2(3) == 8;
    if n > 3 {
      Pow2Strict(3, n);
    }
  }
}
