/** The integers behind the square roots of libbf.c (Zimmermann's Karatsuba square root): one
    division gives the low half of the root, and one correction step is always enough. */
module SqrtBounds {
  import opened Limbs

  // s = floor(sqrt(a)) and r = a - s * s
  ghost predicate IsSqrt(a: int, s: int, r: int) {
    a == s * s + r && 0 <= r <= 2 * s
  }

  // it is the floor of the root
  lemma {:induction false} SqrtFloor(a: int, s: int, r: int)
    requires 0 <= s
    ensures IsSqrt(a, s, r) <==> s * s <= a < (s + 1) * (s + 1) && r == a - s * s
  {
    assert (s + 1) * (s + 1) == s * s + 2 * s + 1;
  }

  lemma {:induction false} RootLess(s: int, t: int)
    requires 0 <= s && 0 < t && s * s < t * t
    ensures s < t
  {
    if s >= t {
      MulMono(t, s, t);
      MulMono(t, s, s);
    }
  }

  // The root of a number of at least a quarter of the square p * p is at least half of p.
  lemma {:induction false} RootNormalized(a: int, s: int, r: int, p: int)
    requires IsSqrt(a, s, r) && 0 <= s && 0 < p && p % 2 == 0 && p * p <= 4 * a < 4 * (p * p)
    ensures p <= 2 * s && s < p
  {
    var t := 2 * (s + 1);
    assert t * t == 4 * (s * s + 2 * s + 1);
    RootLess(p, t);
    RootLess(s, p);
  }

  // the estimate of the root from the root of the high half
  ghost predicate RootEstimate(s1: int, r1: int, b: int, a1: int, a0: int, q: int, u: int) {
    && 0 < b <= 2 * s1 && 0 <= r1 <= 2 * s1 && 0 <= a1 < b && 0 <= a0 < b
    && r1 * b + a1 == 2 * s1 * q + u && 0 <= u < 2 * s1
  }

  // One division gives the low half of the root, up to one correction downwards.
  lemma {:induction false} SqrtStep(s1: int, r1: int, b: int, a1: int, a0: int, q: int, u: int)
    requires RootEstimate(s1, r1, b, a1, a0, q, u)
    ensures var a, s, r := (s1 * s1 + r1) * (b * b) + a1 * b + a0, s1 * b + q, u * b + a0 - q * q;
            0 <= q <= b && (if r >= 0 then IsSqrt(a, s, r) else IsSqrt(a, s - 1, r + 2 * s - 1))
  {
    LowHalf(s1, r1, b, a1, q, u);
    SquareSum(s1, r1, b, a1, a0, q, u);
    RemainderRange(s1, b, a0, q, u);
    StepDown(s1 * b + q);
  }

  lemma {:induction false} StepDown(s: int)
    ensures (s - 1) * (s - 1) == s * s - 2 * s + 1
  {
  }

  lemma {:induction false} RemainderRange(s1: int, b: int, a0: int, q: int, u: int)
    requires 0 < b <= 2 * s1 && 0 <= a0 < b && 0 <= u < 2 * s1 && 0 <= q <= b
    ensures var s, r := s1 * b + q, u * b + a0 - q * q; r <= 2 * s && 0 <= r + 2 * s - 1
  {
    ProductRange(s1, b, u);
    MulNat(q, q);
    SmallSquare(q, b);
  }

  lemma {:induction false} ProductRange(s1: int, b: int, u: int)
    requires 0 < b <= 2 * s1 && 0 <= u < 2 * s1
    ensures 0 <= u * b <= 2 * (s1 * b) - b && b * b <= 2 * (s1 * b)
  {
    MulMono(u, 2 * s1 - 1, b);
    assert (2 * s1 - 1) * b == 2 * (s1 * b) - b;
    MulNat(u, b);
    MulMono(b, 2 * s1, b);
    assert (2 * s1) * b == 2 * (s1 * b);
  }

  lemma {:induction false} SmallSquare(q: int, b: int)
    requires 0 <= q <= b && 0 < b
    ensures q * q <= b * b + 2 * q - 1
  {
    if q == b {
    } else {
      MulMono(q, b - 1, q);
      MulMono(q, b - 1, b);
      assert (b - 1) * q == b * q - q && (b - 1) * b == b * b - b && q * b == b * q;
    }
  }

  lemma {:induction false} LowHalf(s1: int, r1: int, b: int, a1: int, q: int, u: int)
    requires 0 < b <= 2 * s1 && 0 <= r1 <= 2 * s1 && 0 <= a1 < b && r1 * b + a1 == 2 * s1 * q + u && 0 <= u < 2 * s1
    ensures 0 <= q <= b
  {
    var d := 2 * s1;
    MulMono(r1, d, b);
    assert d * b == b * d && d * q == q * d && (b + 1) * d == b * d + d;
    Cancel(q, b + 1, d);
    MulNat(r1, b);
    assert (-1) * d == -d;
    Cancel(-1, q, d);
  }

  lemma {:induction false} SquareSum(s1: int, r1: int, b: int, a1: int, a0: int, q: int, u: int)
    requires r1 * b + a1 == 2 * s1 * q + u
    ensures var s := s1 * b + q; (s1 * s1 + r1) * (b * b) + a1 * b + a0 == s * s + (u * b + a0 - q * q)
  {
    assert (r1 * b + a1) * b == (2 * s1 * q + u) * b;
    assert (r1 * b + a1) * b == r1 * (b * b) + a1 * b;
    assert (2 * s1 * q + u) * b == 2 * ((s1 * b) * q) + u * b;
    assert (s1 * s1 + r1) * (b * b) == (s1 * s1) * (b * b) + r1 * (b * b);
    assert (s1 * s1) * (b * b) == (s1 * b) * (s1 * b);
    var x := s1 * b;
    assert (x + q) * (x + q) == x * x + 2 * (x * q) + q * q;
  }
}
