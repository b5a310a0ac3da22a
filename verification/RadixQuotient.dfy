/** The quotient bf_integer_to_radix_rec estimates: a reciprocal of the power, a product with it,
    both rounded to nearest, and how far the truncated product can be from the exact quotient. */
module RadixQuotient {
  import opened Limbs
  import opened LimbBits
  import opened RoundingModes

  // the number of bits: LIMB_BITS - clz(x) for a limb
  function Bits(x: nat): nat {
    if x == 0 then 0 else 1 + Bits(x / 2)
  }

  // sig * 2^exp
  datatype Num = Num(sig: nat, exp: int)

  // to nearest, keeping prec bits
  function Nearest(x: Num, prec: nat): (r: Num)
    ensures r.exp == x.exp
  {
    Num(RoundedSig(RNDN, false, x.sig, Bits(x.sig), prec), x.exp)
  }

  // bf_mul by an integer
  function Scaled(a: nat, x: Num, prec: nat): (r: Num)
    ensures r.exp == x.exp
  {
    MulNat(a, x.sig);
    Nearest(Num(a * x.sig, x.exp), prec)
  }

  // bf_rint with RNDZ, for a number that has fraction bits
  function Truncated(x: Num): nat
    requires x.exp <= 0
  {
    DivMod(x.sig, Two(-x.exp));
    x.sig / Two(-x.exp)
  }

  // the limbs __bf_div computes: two bits more than the precision, and at least those of 1
  function QuotientLimbs(prec: nat): (n: nat)
    ensures 64 * n >= prec + 2
  {
    (prec + 2 + 63) / 64
  }

  // bf_div of 1 by b: the limb quotient, with the lowest bit set for a remainder, is rounded
  function Reciprocal(b: nat, prec: nat): (r: Num)
    requires b > 0
    ensures r.exp <= 0
  {
    var t := 64 * QuotientLimbs(prec) + Bits(b) - 1;
    Nearest(Num(Sticky(Two(t), b), -t), prec)
  }

  // tab[0] |= 1 when the division leaves a remainder
  function Sticky(c: nat, b: nat): nat
    requires b > 0
  {
    DivMod(c, b);
    if c % b != 0 && (c / b) % 2 == 0 then c / b + 1 else c / b
  }

  lemma {:induction false} BitsBound(x: nat)
    requires x > 0
    ensures Bits(x) > 0 && Two(Bits(x) - 1) <= x < Two(Bits(x))
  {
    if x > 1 {
      BitsBound(x / 2);
      assert Bits(x) == 1 + Bits(x / 2);
    } else {
      assert Bits(1) == 1 + Bits(0);
    }
  }

  lemma {:induction false} TwoGrows(m: nat, n: nat)
    requires Two(m) < Two(n)
    ensures m < n
  {
    if n <= m {
      TwoMono(n, m);
    }
  }

  lemma {:induction false} BitsAre(x: nat, n: nat)
    requires n > 0 && Two(n - 1) <= x < Two(n)
    ensures Bits(x) == n
  {
    BitsBound(x);
    TwoGrows(n - 1, Bits(x));
    TwoGrows(Bits(x) - 1, n);
  }

  // a rounding to nearest is off by at most half a unit, and keeps what fits
  lemma {:induction false} NearestClose(m: nat, prec: nat)
    ensures var r: int, n := RoundedSig(RNDN, false, m, Bits(m), prec), Bits(m);
            && (n <= prec ==> r == m)
            && (n > prec ==> var ulp: int := Two(n - prec); r % ulp == 0 && -ulp <= 2 * (r - m) <= ulp)
  {
    hide RoundedSig;
    if Bits(m) > prec {
      RoundedSigCorrect(RNDN, false, m, Bits(m), prec);
    } else {
      KeptSig(m, Bits(m), prec);
    }
  }

  lemma {:induction false} KeptSig(m: nat, n: nat, prec: int)
    requires prec >= n
    ensures RoundedSig(RNDN, false, m, n, prec) == m
  {
  }

  // Setting the lowest bit for a remainder makes the rounded quotient that of the exact fraction.
  lemma {:induction false} StickyClose(c: nat, b: nat, r: int, ulp: int)
    requires b > 0 && ulp > 0 && ulp % 4 == 0 && r % ulp == 0
    requires -ulp <= 2 * (r - Sticky(c, b)) <= ulp
    ensures -(ulp * b) <= 2 * (r * b - c) <= ulp * b
  {
    hide Sticky;
    var u := ulp / 2;
    EvenMultiple(r, ulp);
    StickyRange(c, b, r, u);
    Ends(c / b, b, c % b, u, r);
    assert ulp * b == 2 * (u * b) by {
      assert (2 * u) * b == 2 * (u * b);
    }
    WholeAndRest(c, b);
  }

  lemma {:induction false} WholeAndRest(c: nat, b: nat)
    requires b > 0
    ensures c == (c / b) * b + c % b && 0 <= c % b < b
  {
    DivMod(c, b);
    assert b * (c / b) == (c / b) * b;
  }

  lemma {:induction false} StickyRange(c: nat, b: nat, r: int, u: int)
    requires b > 0 && u > 0 && u % 2 == 0 && r % 2 == 0 && -u <= r - Sticky(c, b) <= u
    ensures (if c % b == 0 then -u else -u + 1) <= r - c / b <= u
  {
    if c % b != 0 {
      OddBetween(r, c / b, u);
    }
  }

  lemma {:induction false} Ends(q: int, b: int, e: int, u: int, r: int)
    requires 0 <= e < b && (if e == 0 then -u else -u + 1) <= r - q <= u
    ensures -(u * b) <= r * b - (q * b + e) <= u * b
  {
    MulMono(if e == 0 then -u else -u + 1, r - q, b);
    MulMono(r - q, u, b);
    assert (-u) * b == -(u * b) && (1 - u) * b == b - u * b && (r - q) * b == r * b - q * b;
  }

  lemma {:induction false} EvenMultiple(r: int, ulp: int)
    requires ulp > 0 && ulp % 4 == 0 && r % ulp == 0
    ensures r % 2 == 0
  {
    var k, v := r / ulp, ulp / 4;
    assert r == ulp * k;
    assert ulp * k == (2 * v * k) * 2;
  }

  lemma {:induction false} OddBetween(r: int, q: int, u: int)
    requires u > 0 && u % 2 == 0 && r % 2 == 0 && -u <= r - (if q % 2 == 0 then q + 1 else q) <= u
    ensures -u + 1 <= r - q <= u
  {
    var a, b := u / 2, r / 2;
    assert u == 2 * a && r == 2 * b;
    if q % 2 == 0 {
      var c := q / 2;
      assert q == 2 * c && -2 * a <= 2 * b - 2 * c - 1 <= 2 * a;
    }
  }

  lemma {:induction false} MultiplesClose(r: int, m: int, ulp: int)
    requires ulp > 0 && r % ulp == 0 && m % ulp == 0 && -2 * ulp < 2 * (r - m) < 2 * ulp
    ensures r == m
  {
    var k, l := r / ulp, m / ulp;
    assert r == k * ulp && m == l * ulp by {
      assert ulp * k == k * ulp && ulp * l == l * ulp;
    }
    CloseEqual(k, l, ulp);
  }

  // The quotient of 2^t by b has 64 * n bits, unless b is a power of two and it is one, too.
  lemma {:induction false} QuotientSize(b: nat, p: nat, h: nat)
    requires p <= b < 2 * p && h > 0
    ensures (2 * h) * p >= 0
    ensures h <= ((2 * h) * p) / b <= 2 * h
    ensures ((2 * h) * p) / b == 2 * h ==> ((2 * h) * p) % b == 0
  {
    var c := (2 * h) * p;
    MulNat(2 * h, p);
    DivMod(c, b);
    var q := c / b;
    assert b * q == q * b;
    MulMono(b, 2 * p, h);
    assert b * h == h * b && (2 * p) * h == c by {
      assert (2 * p) * h == 2 * (h * p) == (2 * h) * p;
    }
    MulAdd(q, 1, b);
    Cancel(h - 1, q, b);
    MulMono(p, b, 2 * h);
    assert p * (2 * h) == c && b * (2 * h) == (2 * h) * b;
    Cancel(q, 2 * h + 1, b);
    MulAdd(2 * h, 1, b);
    if q == 2 * h {
      assert c >= (2 * h) * b;
    }
  }

  lemma {:induction false} RoundedQuotient(c: nat, b: nat, n: nat, prec: nat)
    requires b > 0 && 0 < prec && prec + 2 <= n
    requires Two(n - 1) <= c / b <= Two(n) && (c / b == Two(n) ==> c % b == 0)
    ensures var r: int := RoundedSig(RNDN, false, Sticky(c, b), Bits(Sticky(c, b)), prec);
            -(Two(n - prec) * b) <= 2 * (r * b - c) <= Two(n - prec) * b
  {
    hide RoundedSig, Bits;
    var q, s := c / b, Sticky(c, b);
    var r: int := RoundedSig(RNDN, false, s, Bits(s), prec);
    NearestClose(s, prec);
    FourDivides(n - prec);
    if q == Two(n) {
      BitsAre(s, n + 1);
      PowerKept(n, prec, r);
      ExactQuotient(c, b, q);
      MulNat(Two(n - prec), b);
    } else {
      assert Two(n) == 2 * Two(n - 1);
      BitsAre(s, n);
      StickyClose(c, b, r, Two(n - prec));
    }
  }

  lemma {:induction false} ExactQuotient(c: nat, b: nat, q: nat)
    requires b > 0 && q == c / b && c % b == 0
    ensures q * b == c
  {
    DivMod(c, b);
    assert b * q == q * b;
  }

  lemma {:induction false} FourDivides(n: nat)
    requires n >= 2
    ensures Two(n) % 4 == 0
  {
    assert Two(n) == 2 * Two(n - 1) && Two(n - 1) == 2 * Two(n - 2);
  }

  // sig is 2^t / b to within half of z
  ghost predicate ReciprocalError(sig: nat, b: nat, t: nat, z: nat) {
    -(z * b) <= 2 * (sig * b - Two(t)) <= z * b
  }

  // m is a * 2^t / b to within a quarter of 2^t
  ghost predicate ProductError(m: nat, a: nat, b: nat, t: nat) {
    -(Two(t) * b) <= 4 * (m * b - a * Two(t)) <= Two(t) * b
  }

  // The reciprocal of bf_div is right to half a unit in the last of its prec bits.
  lemma {:induction false} ReciprocalClose(b: nat, prec: nat)
    requires b > 0 && prec > 0
    ensures var x := Reciprocal(b, prec);
            var z := 64 * QuotientLimbs(prec) - prec;
            && x.exp == -(64 * QuotientLimbs(prec) + Bits(b) - 1) && Bits(b) > 0
            && ReciprocalError(x.sig, b, -x.exp, Two(z))
  {
    hide RoundedSig, Bits, QuotientLimbs;
    var n := 64 * QuotientLimbs(prec);
    BitsBound(b);
    TwoAdd(n, Bits(b) - 1);
    assert Two(Bits(b)) == 2 * Two(Bits(b) - 1) && Two(n) == 2 * Two(n - 1);
    QuotientSize(b, Two(Bits(b) - 1), Two(n - 1));
    RoundedQuotient(Two(n + Bits(b) - 1), b, n, prec);
  }

  lemma {:induction false} PowerKept(n: nat, prec: nat, r: nat)
    requires n >= prec && r % Two(n + 1 - prec) == 0
    requires prec > 0 && var ulp: int := Two(n + 1 - prec); -ulp <= 2 * (r - Two(n)) <= ulp
    ensures r == Two(n)
  {
    var ulp := Two(n + 1 - prec);
    TwoAdd(n + 1 - prec, prec - 1);
    assert ulp * Two(prec - 1) == Two(prec - 1) * ulp + 0;
    QuotientIs(Two(n), ulp, Two(prec - 1), 0);
    MultiplesClose(r, Two(n), ulp);
  }

  // The product with the reciprocal stays below the power of two its rounding keeps, or just reaches it.
  lemma {:induction false} ProductClose(m: nat, t: nat, q: nat)
    requires q > 0 && 4 * m <= 4 * Two(t + q) + Two(t)
    ensures var r: int, u: int := RoundedSig(RNDN, false, m, Bits(m), q), Two(t); -u <= 2 * (r - m) <= u
  {
    hide RoundedSig, Bits, Two;
    NearestClose(m, q);
    if m >= Two(t + q) {
      JustReached(m, t, q);
    } else if m > 0 && Bits(m) > q {
      BitsBound(m);
      TwoGrows(Bits(m) - 1, t + q);
      TwoMono(Bits(m) - q, t);
    }
  }

  lemma {:induction false} JustReached(m: nat, t: nat, q: nat)
    requires q > 0 && 4 * Two(t + q) <= 4 * m <= 4 * Two(t + q) + Two(t)
    ensures var r: int, u: int := RoundedSig(RNDN, false, m, Bits(m), q), Two(t); -u <= 2 * (r - m) <= u
  {
    hide RoundedSig, Bits;
    var r: int, c: int, u: int := RoundedSig(RNDN, false, m, Bits(m), q), Two(t + q), Two(t);
    assert Two(t + q + 1) == 2 * c && Two(t + 1) == 2 * u;
    TwoMono(t, t + q);
    BitsAre(m, t + q + 1);
    NearestClose(m, q);
    TwoAdd(t + 1, q - 1);
    hide Two;
    assert Two(t + 1) * Two(q - 1) == Two(q - 1) * Two(t + 1) + 0;
    QuotientIs(c, Two(t + 1), Two(q - 1), 0);
    MultiplesClose(r, c, Two(t + 1));
  }

  lemma {:induction false} ErrorsAdd(s: int, x: int, w: int, y: int)
    requires s > 0 && -s <= 4 * (w - x) <= s && -s <= 2 * (y - w) <= s
    ensures -s < y - x < s
  {
  }

  lemma {:induction false} ScaledError(m: int, n: int, u: int, b: int)
    requires b > 0 && -u <= 2 * (m - n) <= u
    ensures -(u * b) <= 2 * (m * b - n * b) <= u * b
  {
    MulMono(-u, 2 * (m - n), b);
    MulMono(2 * (m - n), u, b);
    assert (-u) * b == -(u * b) && (2 * (m - n)) * b == 2 * (m * b - n * b);
  }

  lemma {:induction false} TruncatedClose(m: int, q: int, u: int, b: int)
    requires b > 0 && q * u <= m < q * u + u
    ensures (q * b) * u <= m * b < (q * b) * u + u * b
  {
    MulMono(q * u, m, b);
    MulMono(m + 1, q * u + u, b);
    MulAdd(q * u, u, b);
    MulAdd(m, 1, b);
    assert (q * u) * b == (q * b) * u;
  }

  // from the error of the product to the remainder the truncated quotient leaves
  lemma {:induction false} RemainderClose(a: int, b: int, n: int, m: int, u: int, q: int)
    requires b > 0 && u > 0 && -(u * b) <= 4 * (n * b - a * u) <= u * b && -u <= 2 * (m - n) <= u
    requires q * u <= m < q * u + u
    ensures -b < a - q * b < 2 * b
  {
    MulMono(1, u, b);
    ScaledError(m, n, u, b);
    ErrorsAdd(u * b, a * u, n * b, m * b);
    TruncatedClose(m, q, u, b);
    MulAdd(a, -(q * b), u);
    assert (-(q * b)) * u == -((q * b) * u) && (-b) * u == -(u * b) && (2 * b) * u == 2 * (u * b);
    Cancel(-b, a - q * b, u);
    Cancel(a - q * b, 2 * b, u);
  }

  lemma {:induction false} ScaledReciprocal(a: nat, b: nat, sig: nat, e: nat, z: nat)
    requires ReciprocalError(sig, b, e, z) && 2 * (a * z) <= Two(e)
    ensures a * sig >= 0 && ProductError(a * sig, a, b, e)
  {
    var t: int := Two(e);
    hide Two;
    MulNat(a, sig);
    var d := 2 * (sig * b - t);
    MulMono(-(z * b), d, a);
    MulMono(d, z * b, a);
    assert (-(z * b)) * a == -((a * z) * b) && (z * b) * a == (a * z) * b;
    assert d * a == 2 * ((a * sig) * b - a * t) by {
      assert (sig * b) * a == (a * sig) * b && t * a == a * t;
    }
    MulMono(2 * (a * z), t, b);
    assert (2 * (a * z)) * b == 2 * ((a * z) * b);
  }

  lemma {:induction false} PrecisionEnough(a: nat, bits: nat, prec: nat, n: nat)
    requires 1 < prec <= n && bits > 0 && a <= Two(bits + prec - 2)
    ensures 2 * (a * Two(n - prec)) <= Two(n + bits - 1)
  {
    hide Two;
    MulMono(a, Two(bits + prec - 2), Two(n - prec));
    TwoAdd(bits + prec - 2, n - prec);
    TwoNext(n + bits - 2);
  }

  lemma {:induction false} ProductFits(a: nat, b: nat, m: nat, t: nat, q: nat)
    requires b > 0 && a < Two(q) * b && ProductError(m, a, b, t)
    ensures 4 * m <= 4 * Two(t + q) + Two(t)
  {
    hide Two;
    ProductBound(a, b, m, Two(t), Two(q));
    TwoAdd(t, q);
  }

  lemma {:induction false} FloorRange(m: nat, u: nat)
    requires u > 0
    ensures (m / u) * u <= m < (m / u) * u + u
  {
    DivMod(m, u);
    assert u * (m / u) == (m / u) * u;
  }

  lemma {:induction false} ProductRemainder(a: nat, b: nat, m: nat, t: nat, q: nat)
    requires b > 0 && q > 0 && a < Two(q) * b && ProductError(m, a, b, t)
    ensures OneOff(a, b, RoundedSig(RNDN, false, m, Bits(m), q) / Two(t))
  {
    hide Two, RoundedSig, Bits;
    ProductFits(a, b, m, t, q);
    ProductClose(m, t, q);
    var x := RoundedSig(RNDN, false, m, Bits(m), q);
    FloorRange(x, Two(t));
    RemainderClose(a, b, m, x, Two(t), x / Two(t));
  }

  // how far x may be from the quotient of a by b
  ghost predicate OneOff(a: int, b: int, x: int) {
    -b < a - x * b < 2 * b
  }

  // what the precisions are chosen for
  ghost predicate Covered(a: nat, b: nat, q: nat, prec: nat) {
    b > 0 && q > 0 && prec > 1 && a < Two(q) * b && a <= Two(Bits(b) + prec - 2)
  }

  // The estimated quotient is off by less than a divisor below and two above: one correction is enough.
  lemma {:induction false} EstimateClose(a: nat, b: nat, q: nat, prec: nat)
    requires Covered(a, b, q, prec)
    ensures b > 0 && OneOff(a, b, Truncated(Scaled(a, Reciprocal(b, prec), q)))
  {
    var r := Reciprocal(b, prec);
    hide Bits, Two, Reciprocal, QuotientLimbs, RoundedSig, ReciprocalError, ProductError, OneOff;
    ReciprocalClose(b, prec);
    var n := 64 * QuotientLimbs(prec);
    PrecisionEnough(a, Bits(b), prec, n);
    ScaledReciprocal(a, b, r.sig, -r.exp, Two(n - prec));
    ProductRemainder(a, b, a * r.sig, -r.exp, q);
  }

  lemma {:induction false} ProductBound(a: nat, b: nat, m: nat, t: nat, q: nat)
    requires b > 0 && a < q * b && t > 0 && 4 * (m * b - a * t) <= t * b
    ensures 4 * m <= 4 * (t * q) + t
  {
    MulMono(a, q * b, t);
    assert (q * b) * t == (t * q) * b;
    assert 4 * (m * b) <= (4 * (t * q) + t) * b by {
      assert (4 * (t * q) + t) * b == 4 * ((t * q) * b) + t * b;
    }
    assert (4 * m) * b == 4 * (m * b);
    Cancel(4 * m, 4 * (t * q) + t, b);
  }
}
