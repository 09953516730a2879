/** Bitwise operations on unbounded integers, with the semantics of JavaScript
    BigInt: an integer is read as an infinite two's-complement bit string
    (non-negative values end in zeros, negative values end in ones), `<<`
    multiplies by a power of two and `>>` divides by one, rounding toward
    negative infinity. */
module Bits {

  /** 2 to the power k. */
  function Pow2(k: nat): (r: nat)
    ensures r >= 1
  {
    if k == 0 then 1 else 2 * Pow2(k - 1)
  }

  function Abs(x: int): nat
  {
    if x < 0 then -x else x
  }

  /** 0 and -1 are the only integers whose bits are all equal. */
  predicate Uniform(x: int)
  {
    x == 0 || x == -1
  }

  /** Lowest bit of x (Dafny's `%` never returns a negative remainder). */
  function LowBit(x: int): (b: int)
    ensures b == 0 || b == 1
  {
    x % 2
  }

  /** Halving shifts every bit one place down and strictly shrinks every
      integer whose bits are not all equal. */
  lemma HalfShrinks(x: int)
    ensures x == 2 * (x / 2) + LowBit(x)
    ensures Uniform(x) ==> x / 2 == x
    ensures !Uniform(x) ==> Abs(x / 2) < Abs(x)
  {
  }

  /** Bitwise OR, `a | b`. */
  function Or(a: int, b: int): int
    decreases Abs(a) + Abs(b)
  {
    if Uniform(a) && Uniform(b) then
      (if a == -1 || b == -1 then -1 else 0)
    else
      HalfShrinks(a); HalfShrinks(b);
      2 * Or(a / 2, b / 2) + (if LowBit(a) == 1 || LowBit(b) == 1 then 1 else 0)
  }

  /** Bitwise AND, `a & b`. */
  function And(a: int, b: int): int
    decreases Abs(a) + Abs(b)
  {
    if Uniform(a) && Uniform(b) then
      (if a == -1 && b == -1 then -1 else 0)
    else
      HalfShrinks(a); HalfShrinks(b);
      2 * And(a / 2, b / 2) + (if LowBit(a) == 1 && LowBit(b) == 1 then 1 else 0)
  }

  /** `x << k`: BigInt left shift. */
  function ShiftLeft(x: int, k: nat): int
  {
    x * Pow2(k)
  }

  /** `x >> k`: BigInt arithmetic right shift, which rounds toward negative
      infinity; so does Dafny's division by a positive divisor. */
  function ShiftRight(x: int, k: nat): int
  {
    x / Pow2(k)
  }

  /** Quotient and remainder by a positive divisor are determined by any
      decomposition whose remainder lies in range. */
  lemma DivModUnique(x: int, d: int, q: int, r: int)
    requires d > 0 && 0 <= r < d && x == q * d + r
    ensures x / d == q && x % d == r
  {
    var q', r' := x / d, x % d;
    assert (q' - q) * d == r - r';
    MultipleInOpenRange(q' - q, d);
  }

  /** The only multiple of d strictly between -d and d is zero. */
  lemma MultipleInOpenRange(n: int, d: int)
    requires d > 0 && -d < n * d < d
    ensures n == 0
  {
  }

  /** Splitting off the lowest bit: the remainder by 2p is twice the
      remainder of the halved value by p, plus the lowest bit. */
  lemma RemainderOfHalf(x: int, p: int)
    requires p > 0
    ensures x % (2 * p) == 2 * ((x / 2) % p) + LowBit(x)
  {
    var q, v := (x / 2) / p, (x / 2) % p;
    HalfShrinks(x);
    assert x / 2 == q * p + v;
    assert x == q * (2 * p) + (2 * v + LowBit(x));
    DivModUnique(x, 2 * p, q, 2 * v + LowBit(x));
  }

  /** OR with zero leaves a value unchanged. */
  lemma {:induction false} OrZero(a: int)
    ensures Or(a, 0) == a
    decreases Abs(a)
  {
    HalfShrinks(a);
    if !Uniform(a) {
      OrZero(a / 2);
    }
  }

  /** AND with zero gives zero. */
  lemma {:induction false} AndZero(a: int)
    ensures And(a, 0) == 0
    decreases Abs(a)
  {
    HalfShrinks(a);
    if !Uniform(a) {
      AndZero(a / 2);
    }
  }

  /** When b fits below bit k, the bits of `a << k` and of b do not overlap,
      so OR-ing them is the same as adding them. */
  lemma {:induction false} OrOfDisjoint(a: int, k: nat, b: int)
    requires 0 <= b < Pow2(k)
    ensures Or(ShiftLeft(a, k), b) == ShiftLeft(a, k) + b
    decreases k
  {
    if k == 0 {
      OrZero(a);
    } else {
      var x := ShiftLeft(a, k);
      var x' := ShiftLeft(a, k - 1);
      assert x == 2 * x';
      DivModUnique(x, 2, x', 0);
      HalfShrinks(b);
      if !(Uniform(x) && Uniform(b)) {
        OrOfDisjoint(a, k - 1, b / 2);
        assert Or(x, b) == 2 * Or(x', b / 2) + LowBit(b);
      }
    }
  }

  /** AND with an odd non-negative mask keeps the lowest bit of x and ANDs
      the rest with the rest of the mask. */
  lemma AndWithOdd(x: int, m: nat)
    ensures And(x, 2 * m + 1) == 2 * And(x / 2, m) + LowBit(x)
  {
  }

  /** AND with the mask of the k lowest bits keeps exactly those bits:
      it is the remainder by 2^k. */
  lemma {:induction false} AndLowMask(x: int, k: nat)
    ensures And(x, Pow2(k) - 1) == x % Pow2(k)
    decreases k
  {
    if k == 0 {
      AndZero(x);
    } else {
      AndWithOdd(x, Pow2(k - 1) - 1);
      AndLowMask(x / 2, k - 1);
      RemainderOfHalf(x, Pow2(k - 1));
    }
  }
}
