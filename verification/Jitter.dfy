/** The downward TTL jitter, with real arithmetic in place of floating point. */
module Jitter {
  import opened Expiries

  /** Go's conversion to an integer: rounded toward zero. */
  function Truncate(x: real): int {
    if x >= 0.0 then x.Floor else -((-x).Floor)
  }

  /** applyJitter, given what the random source returned. */
  function Jittered(base: int, fraction: real, rand: real): int {
    if base <= 0 || fraction <= 0.0 then base
    else base - Truncate(rand * fraction * (base as real))
  }

  predicate IsRandom(rand: real) {
    0.0 <= rand < 1.0
  }

  predicate GoodFraction(fraction: real) {
    0.0 <= fraction < 1.0
  }

  lemma Scaled(x: real, y: real)
    requires 0.0 <= x < 1.0 && 0.0 < y
    ensures 0.0 <= x * y < y
    ensures (1.0 - x) * y == y - x * y
  {
    assert (1.0 - x) * y == y - x * y;
    Positive(1.0 - x, y);
  }

  lemma Positive(x: real, y: real)
    requires x > 0.0 && y > 0.0
    ensures x * y > 0.0
  {
  }

  /** What is cut off stays below fraction * base. */
  lemma CutOff(base: int, fraction: real, rand: real)
    requires base > 0 && 0.0 < fraction && IsRandom(rand)
    ensures 0.0 <= rand * fraction * (base as real) < fraction * (base as real)
  {
    var b := base as real;
    Positive(fraction, b);
    Scaled(rand, fraction * b);
    assert rand * fraction * b == rand * (fraction * b);
  }

  lemma TruncateBelow(cut: real, most: real)
    requires 0.0 <= cut < most
    ensures 0.0 <= Truncate(cut) as real < most
    ensures Truncate(cut) <= -((-most).Floor) - 1
  {
  }

  /** A jittered TTL stays in [(1 - fraction) * base, base] and never reaches 0. */
  lemma JitteredRange(base: int, fraction: real, rand: real)
    requires base > 0 && GoodFraction(fraction) && IsRandom(rand)
    ensures (1.0 - fraction) * (base as real) <= Jittered(base, fraction, rand) as real <= base as real
    ensures Jittered(base, fraction, rand) > 0
  {
    Scaled(fraction, base as real);
    if fraction > 0.0 {
      CutOff(base, fraction, rand);
      InRange(base, rand * fraction * (base as real), fraction * (base as real));
    }
  }

  lemma InRange(base: int, cut: real, most: real)
    requires 0.0 <= cut < most < base as real
    ensures base as real - most <= (base - Truncate(cut)) as real <= base as real
    ensures base - Truncate(cut) > 0
  {
    TruncateBelow(cut, most);
  }

  /** The smallest TTL any draw can give. */
  function Lowest(base: int, fraction: real): int {
    if base <= 0 || fraction <= 0.0 then base
    else base + (-(fraction * (base as real))).Floor + 1
  }

  /** Exactly the TTLs from the lowest one to the base can be drawn. */
  lemma DrawnIff(base: int, fraction: real, ttl: int)
    requires base > 0 && GoodFraction(fraction)
    ensures (exists rand :: IsRandom(rand) && Jittered(base, fraction, rand) == ttl) <==>
            Lowest(base, fraction) <= ttl <= base
  {
    if rand :| IsRandom(rand) && Jittered(base, fraction, rand) == ttl {
      LowestIsLowest(base, fraction, rand);
      JitteredRange(base, fraction, rand);
    }
    if Lowest(base, fraction) <= ttl <= base {
      EachIsDrawn(base, fraction, ttl);
    }
  }

  lemma EachIsDrawn(base: int, fraction: real, ttl: int)
    requires base > 0 && GoodFraction(fraction) && Lowest(base, fraction) <= ttl <= base
    ensures exists rand :: IsRandom(rand) && Jittered(base, fraction, rand) == ttl
  {
    if fraction == 0.0 {
      assert IsRandom(0.0) && Jittered(base, fraction, 0.0) == base;
    } else {
      var most := fraction * (base as real);
      Positive(fraction, base as real);
      var cut := base - ttl;
      var rand := Quotient(cut as real, most);
      assert rand * fraction * (base as real) == rand * most;
      assert IsRandom(rand) && Jittered(base, fraction, rand) == base - cut;
    }
  }

  lemma LowestIsReached(base: int, fraction: real)
    requires base > 0 && GoodFraction(fraction)
    ensures exists rand :: IsRandom(rand) && Jittered(base, fraction, rand) == Lowest(base, fraction)
  {
    if fraction > 0.0 {
      CutOff(base, fraction, 0.0);
    }
    EachIsDrawn(base, fraction, Lowest(base, fraction));
  }

  lemma Quotient(x: real, y: real) returns (q: real)
    requires 0.0 <= x < y
    ensures IsRandom(q) && q * y == x
  {
    q := x / y;
    assert q * y == x;
  }

  lemma LowestIsLowest(base: int, fraction: real, rand: real)
    requires base > 0 && GoodFraction(fraction) && IsRandom(rand)
    ensures Lowest(base, fraction) <= Jittered(base, fraction, rand)
  {
    if fraction > 0.0 {
      CutOff(base, fraction, rand);
      TruncateBelow(rand * fraction * (base as real), fraction * (base as real));
    }
  }

  /** No draw rounds down to 0 ms, which the Redis scripts read as no expiry, exactly when the
      lowest draw is at least a millisecond. */
  lemma NeverZeroMillisIff(base: int, fraction: real)
    requires base > 0 && GoodFraction(fraction)
    ensures (forall rand :: IsRandom(rand) ==> Millis(Jittered(base, fraction, rand)) > 0) <==>
            Lowest(base, fraction) >= MILLI
  {
    LowestIsReached(base, fraction);
    var low :| IsRandom(low) && Jittered(base, fraction, low) == Lowest(base, fraction);
    JitteredRange(base, fraction, low);
    forall rand | IsRandom(rand) ensures Lowest(base, fraction) <= Jittered(base, fraction, rand) {
      LowestIsLowest(base, fraction, rand);
    }
    assert Lowest(base, fraction) < MILLI ==> Millis(Lowest(base, fraction)) == 0;
  }
}
