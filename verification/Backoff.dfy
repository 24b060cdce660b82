/**
  Capped exponential backoff, `crates/vo-common/src/backoff.rs`, over real numbers of seconds.

  `powi` takes a signed 32-bit exponent, so an iteration of 2^31 or more becomes negative.
 */
module Backoff {

  const I32_LIMIT: nat := 0x8000_0000
  const U32_LIMIT: nat := 0x1_0000_0000

  /** What the constructor's three assertions establish. */
  datatype Fields = Fields(base: real, max: real, multiplier: real)
  type Policy = p: Fields | p.base >= 0.001 && p.max >= p.base && p.multiplier > 1.0
    witness Fields(1.0, 1.0, 2.0)

  function Pow(x: real, n: nat): real {
    if n == 0 then 1.0 else x * Pow(x, n - 1)
  }

  lemma {:induction false} PowPositive(x: real, n: nat)
    requires x > 1.0
    ensures Pow(x, n) >= 1.0
    ensures n > 0 ==> Pow(x, n) > 1.0
  {
    if n > 0 {
      PowPositive(x, n - 1);
      MulGrows(x, Pow(x, n - 1));
    }
  }

  /** Powers are powers: exponents add, and the first power is the base. */
  lemma {:induction false} PowAdds(x: real, m: nat, n: nat)
    ensures Pow(x, m + n) == Pow(x, m) * Pow(x, n) && Pow(x, 1) == x && Pow(x, 0) == 1.0
  {
    if m > 0 {
      PowAdds(x, m - 1, n);
      MulAssociates(x, Pow(x, m - 1), Pow(x, n));
    }
  }

  lemma MulAssociates(a: real, b: real, c: real)
    ensures (a * b) * c == a * (b * c)
  {
  }

  lemma MulGrows(x: real, y: real)
    requires x > 1.0 && y >= 1.0
    ensures x * y > y
  {
    assert x * y - y == (x - 1.0) * y;
  }

  function PowI(x: real, e: int): real
    requires x > 1.0
  {
    if e >= 0 then Pow(x, e)
    else
      PowPositive(x, -e);
      1.0 / Pow(x, -e)
  }

  /** `iteration as i32`. */
  function AsI32(iteration: nat): int {
    if iteration < I32_LIMIT then iteration else iteration - U32_LIMIT
  }

  function Min(a: real, b: real): real {
    if a < b then a else b
  }

  function Delay(p: Policy, iteration: nat): real
    requires iteration < U32_LIMIT
  {
    var delay := if iteration == 0 then p.base else p.base * PowI(p.multiplier, AsI32(iteration));
    Min(delay, p.max)
  }

  lemma PowStep(x: real, n: nat)
    requires x > 1.0
    ensures Pow(x, n) <= Pow(x, n + 1)
  {
    PowPositive(x, n);
    MulGrows(x, Pow(x, n));
  }

  lemma {:induction false} PowMonotone(x: real, i: nat, j: nat)
    requires x > 1.0 && i <= j
    ensures Pow(x, i) <= Pow(x, j)
    decreases j
  {
    if i < j {
      PowMonotone(x, i, j - 1);
      PowStep(x, j - 1);
      AtMostVia(Pow(x, i), Pow(x, j - 1), Pow(x, j));
    }
  }

  lemma AtMostVia(a: real, b: real, c: real)
    requires a <= b <= c
    ensures a <= c
  {
  }

  lemma InverseAntitone(a: real, b: real)
    requires 0.0 < a <= b
    ensures 1.0 / b <= 1.0 / a
  {
    assert (1.0 / a) * a == 1.0 && (1.0 / b) * b == 1.0;
    if 1.0 / b > 1.0 / a {
      MulStrict(1.0 / a, 1.0 / b, b);
      MulMonotone(1.0 / a, a, b);
    }
  }

  lemma MulStrict(a: real, b: real, c: real)
    requires a < b && c > 0.0
    ensures a * c < b * c
  {
    assert (b - a) * c > 0.0;
  }

  lemma MulMonotone(c: real, a: real, b: real)
    requires a <= b && c >= 0.0
    ensures c * a <= c * b
  {
    assert c * (b - a) >= 0.0;
  }

  lemma PowIMonotone(x: real, i: int, j: int)
    requires x > 1.0 && i <= j
    ensures 0.0 < PowI(x, i) <= PowI(x, j)
    ensures PowI(x, i) >= 1.0 <==> i >= 0
  {
    PowIPositive(x, i);
    PowIPositive(x, j);
    if i >= 0 {
      PowMonotone(x, i, j);
    } else if j < 0 {
      PowMonotone(x, -j, -i);
      PowPositive(x, -j);
      InverseAntitone(Pow(x, -j), Pow(x, -i));
    }
  }

  lemma PowIPositive(x: real, e: int)
    requires x > 1.0
    ensures PowI(x, e) > 0.0
    ensures if e >= 0 then PowI(x, e) >= 1.0 else PowI(x, e) < 1.0
  {
    if e >= 0 {
      PowPositive(x, e);
    } else {
      PowPositive(x, -e);
      var y := Pow(x, -e);
      assert (1.0 / y) * y == 1.0;
      if 1.0 / y >= 1.0 {
        MulMonotone(y, 1.0, 1.0 / y);
      }
    }
  }

  /** The uncapped delay is the base times a power, for every iteration. */
  lemma DelayIs(p: Policy, iteration: nat)
    requires iteration < U32_LIMIT
    ensures Delay(p, iteration) == Min(p.base * PowI(p.multiplier, AsI32(iteration)), p.max)
  {
    assert Pow(p.multiplier, 0) == 1.0;
  }

  /** A negative exponent inverts the power. */
  lemma PowIInverse(x: real, n: nat)
    requires x > 1.0
    ensures PowI(x, n) == Pow(x, n) && PowI(x, 0 - n) * Pow(x, n) == 1.0
  {
    PowPositive(x, n);
    if n > 0 {
      assert (1.0 / Pow(x, n)) * Pow(x, n) == 1.0;
    }
  }

  /** Until the maximum is reached, each delay is the multiplier times the one before. */
  lemma DelayRatio(p: Policy, iteration: nat)
    requires iteration + 1 < I32_LIMIT && Delay(p, iteration) < p.max
    ensures Delay(p, iteration + 1) == Min(p.multiplier * Delay(p, iteration), p.max)
  {
    DelayIs(p, iteration);
    DelayIs(p, iteration + 1);
    var x, y := p.multiplier, Pow(p.multiplier, iteration);
    MulAssociates(p.base, x, y);
    MulAssociates(x, p.base, y);
    assert p.base * x == x * p.base;
  }

  /** The delay never exceeds the maximum, is positive, and starts at the base. */
  lemma DelayBounds(p: Policy, iteration: nat)
    requires iteration < U32_LIMIT
    ensures 0.0 < Delay(p, iteration) <= p.max && Delay(p, 0) == p.base
  {
    DelayIs(p, iteration);
    PowIPositive(p.multiplier, AsI32(iteration));
    MulStrict(0.0, PowI(p.multiplier, AsI32(iteration)), p.base);
  }

  lemma MinMonotone(a: real, b: real, c: real)
    requires a <= b
    ensures Min(a, c) <= Min(b, c)
  {
  }

  lemma CappedProductMonotone(base: real, a: real, b: real, max: real)
    requires base > 0.0 && a <= b
    ensures Min(base * a, max) <= Min(base * b, max)
  {
    MulMonotone(base, a, b);
    MinMonotone(base * a, base * b, max);
  }

  lemma DelayMonotoneIn(p: Policy, i: nat, j: nat)
    requires i < U32_LIMIT && j < U32_LIMIT && AsI32(i) <= AsI32(j)
    ensures Delay(p, i) <= Delay(p, j)
  {
    DelayIs(p, i);
    DelayIs(p, j);
    PowIMonotone(p.multiplier, AsI32(i), AsI32(j));
    CappedProductMonotone(p.base, PowI(p.multiplier, AsI32(i)), PowI(p.multiplier, AsI32(j)), p.max);
  }

  /** The delay is at least the base exactly while the iteration fits a signed 32-bit number. */
  lemma NotBelowBaseExactly(p: Policy, iteration: nat)
    requires iteration < U32_LIMIT
    ensures Delay(p, iteration) >= p.base <==> iteration < I32_LIMIT
  {
    DelayIs(p, iteration);
    var factor := PowI(p.multiplier, AsI32(iteration));
    PowIPositive(p.multiplier, AsI32(iteration));
    if iteration < I32_LIMIT {
      MulMonotone(p.base, 1.0, factor);
    } else {
      MulStrict(factor, 1.0, p.base);
    }
  }

  /** Later iterations wait at least as long, except across 2^31, where the delay drops below the base. */
  lemma DelayMonotoneExactly(p: Policy, i: nat, j: nat)
    requires i <= j < U32_LIMIT
    ensures Delay(p, i) <= Delay(p, j) <==> (i < I32_LIMIT ==> j < I32_LIMIT)
  {
    if i < I32_LIMIT <= j {
      NotBelowBaseExactly(p, i);
      NotBelowBaseExactly(p, j);
    } else {
      DelayMonotoneIn(p, i, j);
    }
  }

  // ----- without the cast: the delay reaches the maximum

  function UncastDelay(p: Policy, iteration: nat): real {
    Min(p.base * Pow(p.multiplier, iteration), p.max)
  }

  lemma UncastAgrees(p: Policy, iteration: nat)
    requires iteration < I32_LIMIT
    ensures UncastDelay(p, iteration) == Delay(p, iteration)
  {
    DelayIs(p, iteration);
  }

  /** Bernoulli's inequality: powers of a multiplier above 1 grow without bound. */
  lemma {:induction false} Bernoulli(x: real, n: nat)
    requires x > 1.0
    ensures Pow(x, n) >= 1.0 + n as real * (x - 1.0)
  {
    if n > 0 {
      Bernoulli(x, n - 1);
      var y := Pow(x, n - 1);
      PowPositive(x, n - 1);
      MulMonotone(x - 1.0, 1.0, y);
      assert x * y == y + (x - 1.0) * y;
      assert n as real * (x - 1.0) == (n - 1) as real * (x - 1.0) + (x - 1.0);
    }
  }

  function Line(slope: real, n: nat): real {
    n as real * slope
  }

  /** A linear bound with positive slope eventually exceeds any limit. */
  lemma Archimedes(slope: real, limit: real) returns (from: nat)
    requires slope > 0.0
    ensures forall n: nat :: n >= from ==> Line(slope, n) >= limit
  {
    var ratio := limit / slope;
    assert ratio * slope == limit;
    from := if ratio < 0.0 then 0 else ratio.Floor + 1;
    forall n: nat | n >= from
      ensures Line(slope, n) >= limit
    {
      MulMonotone(slope, ratio, n as real);
    }
  }

  lemma UncastAboveLine(p: Policy, n: nat)
    ensures p.base * Pow(p.multiplier, n) >= Line(p.base * (p.multiplier - 1.0), n)
  {
    var line := n as real * (p.multiplier - 1.0);
    Bernoulli(p.multiplier, n);
    MulMonotone(p.base, line, Pow(p.multiplier, n));
    assert p.base * line == Line(p.base * (p.multiplier - 1.0), n);
  }

  /** From some iteration on, the uncast delay is the maximum for ever. */
  lemma ReachesMaximum(p: Policy) returns (from: nat)
    ensures forall n: nat :: n >= from ==> UncastDelay(p, n) == p.max
  {
    MulStrict(0.0, p.multiplier - 1.0, p.base);
    from := Archimedes(p.base * (p.multiplier - 1.0), p.max);
    forall n: nat | n >= from
      ensures UncastDelay(p, n) == p.max
    {
      UncastAboveLine(p, n);
    }
  }
}
