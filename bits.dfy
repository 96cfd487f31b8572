/** Arithmetic on bit boundaries: powers of two, alignment and masking.
    An address is a natural number; masking it to a block of size `s`
    (a power of two) clears its low bits, as `address & netmask` does. */
module Bits {

  /** 2 to the power `n`. */
  function Pow2(n: nat): (r: nat)
    ensures r >= 1
  {
    if n == 0 then 1 else 2 * Pow2(n - 1)
  }

  lemma {:induction false} Pow2Add(a: nat, b: nat)
    ensures Pow2(a + b) == Pow2(a) * Pow2(b)
  {
    if b > 0 {
      Pow2Add(a, b - 1);
      var p, q := Pow2(a), Pow2(b - 1);
      calc {
        Pow2(a + b);
        2 * Pow2(a + b - 1);
        2 * (p * q);
        p * (2 * q);
        p * Pow2(b);
      }
    }
  }

  /** A larger exponent gives a larger power, and a multiple of the smaller one. */
  lemma Pow2Monotone(a: nat, b: nat)
    requires a <= b
    ensures Pow2(a) <= Pow2(b)
    ensures Pow2(b) == Pow2(a) * Pow2(b - a)
  {
    Pow2Add(a, b - a);
  }

  /** `x` is a multiple of `s`: the host bits below `s` are all zero. */
  predicate Aligned(x: nat, s: nat)
    requires s > 0
  {
    x % s == 0
  }

  /** The largest multiple of `s` at or below `a`. */
  function Mask(a: nat, s: nat): (r: nat)
    requires s > 0
    ensures r <= a < r + s
    ensures Aligned(r, s)
  {
    DivModUnique(a - a % s, s, a / s, 0);
    a - a % s
  }

  lemma MulMonotone(x: int, y: int, s: nat)
    requires x <= y
    ensures x * s <= y * s
  {
  }

  /** Quotient and remainder are determined by any decomposition `q * s + r` with `0 <= r < s`. */
  lemma DivModUnique(a: int, s: int, q: int, r: int)
    requires s > 0 && 0 <= r < s && a == q * s + r
    ensures a / s == q && a % s == r
  {
    var q', r' := a / s, a % s;
    assert a == q' * s + r';
    if q' < q {
      MulMonotone(q' + 1, q, s);
      assert false;
    } else if q < q' {
      MulMonotone(q + 1, q', s);
      assert false;
    }
  }

  lemma AlignedMultiple(q: nat, s: nat)
    requires s > 0
    ensures Aligned(q * s, s)
  {
    DivModUnique(q * s, s, q, 0);
  }

  /** Aligned to a block is aligned to every block size dividing it. */
  lemma AlignedDivisor(x: nat, s: nat, k: nat)
    requires s > 0 && k > 0
    requires Aligned(x, s * k)
    ensures Aligned(x, s)
  {
    var q := x / (s * k);
    assert x == q * (s * k);
    assert x == (q * k) * s;
    AlignedMultiple(q * k, s);
  }

  lemma AlignedSum(a: nat, b: nat, s: nat)
    requires s > 0 && Aligned(a, s) && Aligned(b, s)
    ensures Aligned(a + b, s)
  {
    var i, j := a / s, b / s;
    assert a + b == (i + j) * s;
    AlignedMultiple(i + j, s);
  }

  /** Two distinct multiples of `s` lie at least `s` apart. */
  lemma GridGap(a: nat, b: nat, s: nat)
    requires s > 0 && Aligned(a, s) && Aligned(b, s) && a < b
    ensures a + s <= b
  {
    var i, j := a / s, b / s;
    assert a == i * s && b == j * s;
    if j <= i {
      MulMonotone(j, i, s);
      assert false;
    }
    MulMonotone(i + 1, j, s);
  }

  /** Masking is the largest aligned value below: any aligned `x <= b` is at most `Mask(b, s)`. */
  lemma MaskGreatest(x: nat, b: nat, s: nat)
    requires s > 0 && Aligned(x, s) && x <= b
    ensures x <= Mask(b, s)
  {
    if Mask(b, s) < x {
      GridGap(Mask(b, s), x, s);
    }
  }

  lemma MaskMonotone(a: nat, b: nat, s: nat)
    requires s > 0 && a <= b
    ensures Mask(a, s) <= Mask(b, s)
  {
    MaskGreatest(Mask(a, s), b, s);
  }

  /** Aligned to `Pow2(m)` implies aligned to `Pow2(n)` for every `n <= m`. */
  lemma AlignedPow2(x: nat, n: nat, m: nat)
    requires n <= m && Aligned(x, Pow2(m))
    ensures Aligned(x, Pow2(n))
  {
    Pow2Monotone(n, m);
    AlignedDivisor(x, Pow2(n), Pow2(m - n));
  }

  /** Two aligned power-of-two blocks are nested or disjoint: a block that
      starts strictly inside another ends inside it too. */
  lemma {:induction false} NestedBlocks(a: nat, x: nat, b: nat, y: nat)
    requires Aligned(a, Pow2(x)) && Aligned(b, Pow2(y))
    requires a < b <= a + Pow2(x) - 1
    ensures b + Pow2(y) - 1 <= a + Pow2(x) - 1
  {
    var sx, sy := Pow2(x), Pow2(y);
    if y <= x {
      AlignedPow2(a, y, x);
      PowerAligned(y, x);
      AlignedSum(a, sx, sy);
      GridGap(b, a + sx, sy);
    } else {
      AlignedPow2(b, x, y);
      GridGap(a, b, sx);
      assert false;
    }
  }

  /** A power of two is a multiple of every smaller power of two. */
  lemma PowerAligned(y: nat, x: nat)
    requires y <= x
    ensures Aligned(Pow2(x), Pow2(y))
  {
    Pow2Add(x - y, y);
    AlignedMultiple(Pow2(x - y), Pow2(y));
  }
}
