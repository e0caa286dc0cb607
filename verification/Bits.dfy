/** Powers of two and the arithmetic meaning of "bit k of v". */
module Bits {

  function Pow2(n: nat): (r: nat)
    ensures r >= 1
  {
    if n == 0 then 1 else 2 * Pow2(n - 1)
  }

  /** Bit k of the two's-complement expansion of v (which is infinite to the left). */
  function BitAt(v: int, k: nat): int {
    v / Pow2(k) % 2
  }

  lemma MulAssociative(x: int, y: int)
    ensures 2 * x * y == 2 * (x * y)
  {
  }

  lemma {:induction false} Pow2Add(a: nat, b: nat)
    ensures Pow2(a + b) == Pow2(a) * Pow2(b)
  {
    if a > 0 {
      Pow2Add(a - 1, b);
      MulAssociative(Pow2(a - 1), Pow2(b));
      assert Pow2(a + b) == 2 * Pow2(a - 1 + b);
    }
  }

  lemma {:induction false} MulApart(d: int, q: int, q': int)
    requires d > 0 && q < q'
    ensures q * d + d <= q' * d
    decreases q' - q
  {
    if q + 1 < q' {
      MulApart(d, q, q' - 1);
    }
  }

  lemma QuotientUnique(d: int, q: int, r: int, q': int, r': int)
    requires 0 <= r < d && 0 <= r' < d
    requires q * d + r == q' * d + r'
    ensures q == q' && r == r'
  {
    if q < q' {
      MulApart(d, q, q');
    } else if q' < q {
      MulApart(d, q', q);
    }
  }

  /** Quotient and remainder are determined by their defining equation. */
  lemma DivModUnique(x: int, d: int, q: int, r: int)
    requires d > 0 && 0 <= r < d && x == q * d + r
    ensures x / d == q && x % d == r
  {
    QuotientUnique(d, q, r, x / d, x % d);
  }

  lemma NestedBound(a: int, b: int, r: int, r2: int)
    requires 0 <= r < a && 0 <= r2 < b
    ensures a * b > 0 && 0 <= r2 * a + r < a * b
  {
    MulApart(a, r2, b);
    assert a * b == b * a;
    assert r2 * a >= 0;
  }

  lemma NestedProduct(q: int, a: int, b: int, r: int, r2: int)
    ensures (q * b + r2) * a + r == q * (a * b) + (r2 * a + r)
  {
    assert (q * b) * a == q * (a * b);
  }

  lemma DivDiv(x: int, a: int, b: int)
    requires a > 0 && b > 0
    ensures a * b > 0 && x / a / b == x / (a * b)
  {
    var q, r := x / a, x % a;
    var q2, r2 := q / b, q % b;
    NestedBound(a, b, r, r2);
    NestedProduct(q2, a, b, r, r2);
    DivModUnique(x, a * b, q2, r2 * a + r);
  }

  /** Shifting left and then right: bit k of v div 2^j is bit j+k of v. */
  lemma BitAtShift(v: int, j: nat, k: nat)
    ensures BitAt(v / Pow2(j), k) == BitAt(v, j + k)
  {
    DivDiv(v, Pow2(j), Pow2(k));
    Pow2Add(j, k);
  }

  /** Truncating to w bits keeps every bit below w. */
  lemma BitAtMod(v: int, w: nat, k: nat)
    requires k < w
    ensures BitAt(v % Pow2(w), k) == BitAt(v, k)
  {
    Pow2Add(k, w - k);
    DivTruncated(v, Pow2(k), Pow2(w - k - 1));
    EvenPlus(v / Pow2(w) * Pow2(w - k - 1), v % Pow2(w) / Pow2(k));
  }

  lemma DivTruncated(v: int, a: int, b: int)
    requires a > 0 && b > 0
    ensures a * (2 * b) > 0
    ensures v / a == 2 * (v / (a * (2 * b)) * b) + v % (a * (2 * b)) / a
  {
    var m := a * (2 * b);
    var q, r := v / m, v % m;
    var s, t := r / a, r % a;
    Regroup(a, b, q, s);
    DivModUnique(v, a, 2 * (q * b) + s, t);
  }

  lemma EvenPlus(m: int, s: int)
    ensures (2 * m + s) % 2 == s % 2
  {
  }

  lemma Regroup(a: int, b: int, q: int, s: int)
    ensures q * (a * (2 * b)) + s * a == (2 * (q * b) + s) * a
  {
    calc {
      q * (a * (2 * b));
      (q * b) * (2 * a);
      (2 * (q * b)) * a;
    }
  }

  /** v written as bits: the low w bits of v, weighted by powers of two. */
  lemma ModStep(v: int, w: nat)
    ensures v % Pow2(w + 1) == v % Pow2(w) + BitAt(v, w) * Pow2(w)
  {
    var p := Pow2(w);
    var q, r := v / p, v % p;
    var q2, b := q / 2, q % 2;
    assert v == (2 * q2 + b) * p + r;
    assert (2 * q2 + b) * p == q2 * (2 * p) + b * p;
    assert 0 <= b * p <= p;
    DivModUnique(v, 2 * p, q2, b * p + r);
  }

  function BitsOf(x: int, w: nat): (r: seq<int>)
    ensures |r| == w
  {
    seq(w, k requires 0 <= k => BitAt(x, k))
  }

  function WeightedSum(bits: seq<int>): int {
    if bits == [] then 0
    else WeightedSum(bits[..|bits| - 1]) + bits[|bits| - 1] * Pow2(|bits| - 1)
  }

  lemma {:induction false} WeightedSumOfBits(x: int, w: nat)
    ensures WeightedSum(BitsOf(x, w)) == x % Pow2(w)
  {
    if w > 0 {
      assert BitsOf(x, w)[..w - 1] == BitsOf(x, w - 1);
      WeightedSumOfBits(x, w - 1);
      ModStep(x, w - 1);
    }
  }

  /** The number that w bits stand for, read as unsigned or as two's complement. */
  function FromBits(bits: seq<int>, signed: bool): int
    requires |bits| > 0
  {
    var top := |bits| - 1;
    if signed then WeightedSum(bits[..top]) - bits[top] * Pow2(top) else WeightedSum(bits)
  }

  /** A number in range is the value of its own w bits. */
  lemma TwosComplement(x: int, w: nat, signed: bool)
    requires w > 0
    requires if signed then 0 - Pow2(w - 1) <= x < Pow2(w - 1) else 0 <= x < Pow2(w)
    ensures FromBits(BitsOf(x, w), signed) == x
  {
    var half := Pow2(w - 1);
    WeightedSumOfBits(x, w);
    WeightedSumOfBits(x, w - 1);
    assert BitsOf(x, w)[..w - 1] == BitsOf(x, w - 1);
    if !signed {
      DivModUnique(x, Pow2(w), 0, x);
    } else if 0 <= x {
      DivModUnique(x, half, 0, x);
    } else {
      DivModUnique(x, half, -1, x + half);
    }
  }

  lemma {:induction false} PowMonotone(a: nat, b: nat)
    requires a <= b
    ensures Pow2(a) <= Pow2(b)
  {
    if a < b {
      PowMonotone(a, b - 1);
    }
  }
}
