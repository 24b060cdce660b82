/**
  The arithmetic of `j & j.wrapping_neg()`, the step of both walks of a Fenwick tree.

  Bitwise "and" and wrapping negation are defined on naturals, bit by bit and modulo a power
  of two, so that the expression the source evaluates can be compared with `LowBit`, the
  largest power of two dividing its argument.
 */
module Bits {

  function Pow2(n: nat): (r: nat)
    ensures r > 0
  {
    if n == 0 then 1 else 2 * Pow2(n - 1)
  }

  /** Bitwise "and" of two naturals. */
  function BitAnd(a: nat, b: nat): nat
    decreases a
  {
    if a == 0 || b == 0 then 0
    else 2 * BitAnd(a / 2, b / 2) + (if a % 2 == 1 && b % 2 == 1 then 1 else 0)
  }

  /** Two's complement negation in a word of `width` bits. */
  function WrappingNeg(j: nat, width: nat): (r: nat)
    requires j < Pow2(width)
    ensures r < Pow2(width)
  {
    if j == 0 then 0 else Pow2(width) - j
  }

  /** The lowest set bit of `j`, as a number. */
  function LowBit(j: nat): (r: nat)
    requires j > 0
    ensures 0 < r <= j
  {
    if j % 2 == 1 then 1 else 2 * LowBit(j / 2)
  }

  /** It is a power of two that divides `j` with an odd quotient, ... */
  lemma {:induction false} LowBitDivides(j: nat) returns (k: nat, quotient: nat)
    requires j > 0
    ensures LowBit(j) == Pow2(k) && j == Pow2(k) * quotient && quotient % 2 == 1
  {
    if j % 2 == 1 {
      k, quotient := 0, j;
    } else {
      k, quotient := LowBitDivides(j / 2);
      assert 2 * (Pow2(k) * quotient) == (2 * Pow2(k)) * quotient;
      k := k + 1;
    }
  }

  /** ... and no larger power of two divides `j`. */
  lemma {:induction false} LowBitIsLargest(j: nat, m: nat, quotient: nat)
    requires j > 0 && j == Pow2(m) * quotient
    ensures Pow2(m) <= LowBit(j)
    decreases m
  {
    if m > 0 {
      assert (2 * Pow2(m - 1)) * quotient == 2 * (Pow2(m - 1) * quotient);
      assert j % 2 == 0 && j / 2 == Pow2(m - 1) * quotient;
      LowBitIsLargest(j / 2, m - 1, quotient);
    }
  }

  /** A number and its bitwise complement share no bit. */
  lemma {:induction false} AndComplementIsZero(k: nat, width: nat)
    requires k < Pow2(width)
    ensures BitAnd(k, Pow2(width) - 1 - k) == 0
  {
    if k != 0 && Pow2(width) - 1 - k != 0 {
      assert (Pow2(width) - 1 - k) / 2 == Pow2(width - 1) - 1 - k / 2;
      AndComplementIsZero(k / 2, width - 1);
    }
  }

  /** `j & j.wrapping_neg()` isolates the lowest set bit, in a word of any width. */
  lemma {:induction false} AndNegIsLowBit(j: nat, width: nat)
    requires 0 < j < Pow2(width)
    ensures BitAnd(j, WrappingNeg(j, width)) == LowBit(j)
  {
    var half := Pow2(width - 1);
    var neg := WrappingNeg(j, width);
    if j % 2 == 1 {
      assert neg / 2 == half - 1 - j / 2 && neg % 2 == 1;
      AndComplementIsZero(j / 2, width - 1);
    } else {
      assert neg / 2 == WrappingNeg(j / 2, width - 1) && neg % 2 == 0;
      AndNegIsLowBit(j / 2, width - 1);
    }
  }

  const WORD: nat := 64

  /** The step of both walks, as the source writes it, on 64-bit words. */
  function LowBitStep(j: nat): (r: nat)
    requires 0 < j < Pow2(WORD)
    ensures r == LowBit(j)
  {
    AndNegIsLowBit(j, WORD);
    BitAnd(j, WrappingNeg(j, WORD))
  }

  /** Cell `j` (counted from 1) holds the elements whose one-based position `p` satisfies this. */
  predicate Covers(j: nat, p: nat)
    requires j > 0
  {
    j - LowBit(j) < p <= j
  }

  /** Every cell above `p` that covers `p` is at least the next cell of the update walk. */
  lemma {:induction false} NextCellIsLeast(j: nat, p: nat)
    requires p > 0 && j > p && Covers(j, p)
    ensures p + LowBit(p) <= j
    decreases j
  {
    if p % 2 == 0 {
      assert j % 2 == 0;
      NextCellIsLeast(j / 2, p / 2);
    }
  }

  lemma LowBitDouble(j: nat)
    requires j > 0
    ensures LowBit(2 * j) == 2 * LowBit(j)
  {
    assert (2 * j) % 2 == 0 && (2 * j) / 2 == j;
  }

  /** The next cell of the walk is even, ... */
  lemma NextCellIsEven(p: nat)
    requires p > 0
    ensures (p + LowBit(p)) % 2 == 0
  {
    if p % 2 == 0 {
      LowBitDouble(p / 2);
    }
  }

  /** ... and an odd cell covers only itself. */
  lemma CoversEven(j: nat, q: nat)
    requires j > 0 && q % 2 == 0
    ensures Covers(j, q) ==> j % 2 == 0
  {
    if j % 2 == 1 {
      assert LowBit(j) == 1;
    }
  }

  /** A cell covering the next cell's position starts no later than `p` does. */
  lemma {:induction false} NextCellStartsEarlier(j: nat, p: nat)
    requires p > 0 && j > 0 && Covers(j, p + LowBit(p))
    ensures j - LowBit(j) <= p - LowBit(p)
    decreases j
  {
    NextCellIsEven(p);
    CoversEven(j, p + LowBit(p));
    LowBitDouble(j / 2);
    if p % 2 == 0 {
      LowBitDouble(p / 2);
      NextCellStartsEarlier(j / 2, p / 2);
    }
  }

  /**
    The update walk is exact: a cell above `p` covers `p` if and only if it covers the next
    cell of the walk. Iterating, the cells visited from `p` are exactly those covering `p`.
   */
  lemma {:induction false} UpdateWalkIsExact(j: nat, p: nat)
    requires j > 0 && p > 0
    ensures Covers(j, p) <==> j == p || Covers(j, p + LowBit(p))
  {
    if Covers(j, p) && j != p {
      NextCellIsLeast(j, p);
    }
    if Covers(j, p + LowBit(p)) {
      NextCellStartsEarlier(j, p);
    }
  }

  /** The cells an update starting at cell `p` visits, in a tree of `len` elements. */
  function UpdateWalk(p: nat, len: nat): seq<nat>
    requires p > 0
    decreases len - p
  {
    if p > len then [] else [p] + UpdateWalk(p + LowBit(p), len)
  }

  /** The walk visits a cell if and only if the cell covers the starting position. */
  lemma {:induction false} WalkVisitsCovering(p: nat, len: nat, j: nat)
    requires p > 0 && 1 <= j <= len
    ensures j in UpdateWalk(p, len) <==> Covers(j, p)
    decreases len - p
  {
    if p <= len {
      UpdateWalkIsExact(j, p);
      WalkVisitsCovering(p + LowBit(p), len, j);
    }
  }
}
