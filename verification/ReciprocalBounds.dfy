/** The integers behind the Newton reciprocal and the large division of libbf.c (Modern
    Computer Arithmetic, algorithm 3.5): the error bounds of both. */
module ReciprocalBounds {
  import opened Limbs

  // What mp_recip promises for an n-limb a and p = B^n. Its comment says a * r + 2 where the
  // bound is a * (r + 2).
  ghost predicate IsRecip(a: int, r: int, p: int) {
    a * r < p * p < a * (r + 2) && p <= r < 2 * p
  }

  lemma {:induction false} RecipBase(a: int, p: int, q: int, rem: int)
    requires 0 < p && p <= 2 * a < 2 * p && p * p == q * a + rem && 0 <= rem < a
    ensures IsRecip(a, if rem == 0 then q - 1 else q, p)
  {
    var r := if rem == 0 then q - 1 else q;
    assert a * q == q * a && a * (r + 2) == a * r + 2 * a && a * (q - 1) == a * q - a;
    assert a * r < p * p;
    Above(a, r + 1, p);
    Below(a, r, p);
  }

  lemma {:induction false} Above(a: int, r: int, p: int)
    requires 0 < a < p && p * p <= a * r
    ensures p < r
  {
    MulMono(a, p - 1, p);
    MulAdd(p, -1, p);
    assert r * a == a * r && p * a == a * p;
    Cancel(p, r, a);
  }

  lemma {:induction false} Below(a: int, r: int, p: int)
    requires 0 < p <= 2 * a && a * r < p * p
    ensures r < 2 * p
  {
    MulMono(p, 2 * a, p);
    assert (2 * p) * a == (2 * a) * p && r * a == a * r;
    Cancel(r, 2 * p, a);
  }

  // The reciprocal x of the high limbs is, for the whole a, not too small by more than two.
  lemma {:induction false} RecipHigh(a: int, ah: int, al: int, x: int, ph: int, pl: int)
    requires IsRecip(ah, x, ph) && a == ah * pl + al && 0 <= al && 0 < pl && 0 < ph
    ensures (ph * pl) * ph < a * (x + 2)
  {
    MulMono(ph * ph + 1, ah * (x + 2), pl);
    assert (ph * ph + 1) * pl == (ph * pl) * ph + pl;
    assert a * (x + 2) == (ah * (x + 2)) * pl + al * (x + 2);
    MulNat(al, x + 2);
  }

  // one round of the loop that makes x small enough
  lemma {:induction false} RecipDown(a: int, x: int, p: int, ph: int)
    requires 0 < a < p && 0 < ph && p * ph <= a * x
    ensures ph <= x - 1 && a * (x - 1) == a * x - a && p * ph < a * (x - 1 + 2)
  {
    MulMono(a, p - 1, ph);
    MulAdd(p, -1, ph);
    assert x * a == a * x && ph * a == a * ph;
    Cancel(ph, x, a);
    assert a * (x - 1 + 2) == a * x + a && a * (x - 1) == a * x - a;
  }

  // sizes in the Newton step: p is that of a, ph and pl of its high and low parts
  ghost predicate Sizes(a: int, ph: int, pl: int, pk: int) {
    && 0 < pl && 0 < ph && 0 < pk && pk * pl == ph * ph && B * ph <= pk
    && ph * pl <= 2 * a < 2 * (ph * pl) && B * (pl * pl) <= ph * pl
  }

  // The Newton step doubles the number of correct limbs.
  lemma {:induction false} RecipStep(a: int, x: int, t: int, tm: int, u: int, y: int, ph: int, pl: int, pk: int)
    requires Sizes(a, ph, pl, pk) && t == (ph * pl) * ph - a * x && 0 < t < 2 * a
    requires ph <= x && tm == t / pl && u == tm * x && y == u / pk
    ensures IsRecip(a, x * pl + y, ph * pl) && 0 <= y < ph * pl
  {
    var p, s := ph * pl, (ph * pl) * ph;
    DivMod(t, pl);
    DivMod(u, pk) by { MulNat(tm, x); }
    Scaled(a, x, t, tm, u, y, ph, pl, pk, s);
    if tm == 0 {
      NoStep(u, pk);
    }
    RecipStepUpper(a, t, tm, y, u % pk, ph, pl, pk, s);
    RecipStepLower(a, t, tm, y, u % pk, ph, pl, pk, s);
    var r := x * pl + y;
    Combined(a, x, t, y, ph, pl, s);
    MulMono(ph, x, pl);
    Below(a, r, p);
  }

  lemma {:induction false} NoStep(u: int, k: int)
    requires k > 0 && u == 0
    ensures u / k == 0
  {
  }

  lemma {:induction false} Combined(a: int, x: int, t: int, y: int, ph: int, pl: int, s: int)
    requires s == (ph * pl) * ph && t == s - a * x
    ensures var p := ph * pl;
            a * (x * pl + y) == p * p - t * pl + a * y && a * (x * pl + y + 2) == a * (x * pl + y) + 2 * a
  {
    assert a * (x * pl) == (a * x) * pl;
    assert (s - t) * pl == s * pl - t * pl;
    assert s * pl == (ph * pl) * (ph * pl);
    var z := x * pl;
    assert a * (z + y) == a * z + a * y;
    assert a * (z + y + 2) == a * (z + y) + 2 * a;
  }

  lemma {:induction false} Scaled(a: int, x: int, t: int, tm: int, u: int, y: int, ph: int, pl: int, pk: int, s: int)
    requires t == s - a * x && u == tm * x && pk > 0 && u == pk * y + u % pk
    ensures pk * (a * y) == tm * (s - t) - a * (u % pk)
  {
    var m := u % pk;
    assert a * u == tm * (a * x);
    assert a * (pk * y + m) == a * (pk * y) + a * m;
    assert a * (pk * y) == pk * (a * y);
  }

  lemma {:induction false} TmScaled(t: int, tm: int, rem: int, ph: int, pl: int, pk: int, s: int)
    requires t == pl * tm + rem && pk * pl == ph * ph && s == (ph * pl) * ph
    ensures tm * s == pk * (t * pl) - rem * (pk * pl)
  {
    var c := ph * ph;
    assert tm * s == (pl * tm) * c;
    assert (t - rem) * c == t * c - rem * c;
    assert t * (pk * pl) == pk * (t * pl);
  }

  lemma {:induction false} RecipStepUpper(a: int, t: int, tm: int, y: int, m: int, ph: int, pl: int, pk: int, s: int)
    requires Sizes(a, ph, pl, pk) && s == (ph * pl) * ph && 0 < t && 0 <= m && 0 <= y
    requires t == pl * tm + t % pl && 0 <= t % pl && 0 <= tm && (tm == 0 ==> y == 0)
    requires pk * (a * y) == tm * (s - t) - a * m
    ensures a * y < t * pl
  {
    var rem := t % pl;
    TmScaled(t, tm, rem, ph, pl, pk, s);
    assert tm * (s - t) == tm * s - tm * t;
    MulNat(a, m);
    MulNat(pk, pl);
    MulNat(rem, pk * pl);
    MulMono(1, t, pl);
    if tm > 0 {
      MulMono(1, tm, t);
      var l, r := a * y, t * pl;
      assert pk * l < pk * r;
      assert pk * l == l * pk && pk * r == r * pk;
      Cancel(l, r, pk);
    }
  }

  lemma {:induction false} RecipStepLower(a: int, t: int, tm: int, y: int, m: int, ph: int, pl: int, pk: int, s: int)
    requires Sizes(a, ph, pl, pk) && s == (ph * pl) * ph
    requires 0 < t < 2 * a && 0 <= m < pk && t == pl * tm + t % pl && 0 <= t % pl < pl && 0 <= tm
    requires pk * (a * y) == tm * (s - t) - a * m
    ensures t * pl - 2 * a < a * y
  {
    var rem := t % pl;
    TmScaled(t, tm, rem, ph, pl, pk, s);
    assert tm * (s - t) == tm * s - tm * t;
    MulNat(pk, pl);
    MulMono(rem, pl, pk * pl);
    MulMono(m + 1, pk, a);
    assert (m + 1) * a == a * m + a && pk * a == a * pk;
    assert pl * (pk * pl) + tm * t <= a * pk by {
      CrossTerm(a, t, tm, ph, pl);
      ScaledHigh(a, ph, pk);
      ScaledLow(a, pl, pk);
      MulNat(a, ph);
      MulNat(a, pk);
      SmallTerms(a * ph, a * pk, pl * (pk * pl), tm * t);
    }
    LowerEnd(a * y, t * pl, a, pk);
  }

  lemma {:induction false} LowerEnd(l: int, r: int, a: int, pk: int)
    requires 0 < pk && pk * r - 2 * (a * pk) < pk * l
    ensures r - 2 * a < l
  {
    assert pk * l == l * pk && pk * r - 2 * (a * pk) == (r - 2 * a) * pk;
    Cancel(r - 2 * a, l, pk);
  }

  // the terms the step neglects
  lemma {:induction false} SmallTerms(high: int, whole: int, low: int, cross: int)
    requires 0 <= high && 0 <= whole && B * high <= whole && B * low <= 2 * whole && cross < 4 * high
    ensures low + cross <= whole
  {
  }

  lemma {:induction false} ScaledHigh(a: int, ph: int, pk: int)
    requires 0 <= a && B * ph <= pk
    ensures B * (a * ph) <= a * pk
  {
    MulMono(B * ph, pk, a);
    assert (B * ph) * a == B * (a * ph);
  }

  lemma {:induction false} ScaledLow(a: int, pl: int, pk: int)
    requires 0 <= pk && B * (pl * pl) <= 2 * a
    ensures B * (pl * (pk * pl)) <= 2 * (a * pk)
  {
    MulMono(B * (pl * pl), 2 * a, pk);
    assert (B * (pl * pl)) * pk == B * (pl * (pk * pl));
  }

  lemma {:induction false} CrossTerm(a: int, t: int, tm: int, ph: int, pl: int)
    requires 0 < pl && 0 < t < 2 * a < 2 * (ph * pl) && pl * tm <= t && 0 <= tm
    ensures tm * t < 4 * (a * ph)
  {
    MulMono(pl * tm, t, t);
    assert (tm * t) * pl == (pl * tm) * t;
    MulMono(t, 2 * a, t);
    MulMono(t, 2 * a, 2 * a);
    MulMono(a + 1, ph * pl, 4 * a);
    assert (2 * a) * t == t * (2 * a) && (2 * a) * (2 * a) == a * (4 * a);
    assert (a + 1) * (4 * a) == a * (4 * a) + 4 * a;
    assert (ph * pl) * (4 * a) == (4 * (a * ph)) * pl;
    Cancel(tm * t, 4 * (a * ph), pl);
  }

  // The large division. x is the reciprocal of the scaled divisor t, b times x is close to d.

  ghost predicate NearRecip(t: int, x: int, p: int) {
    t * x <= p * p < t * (x + 2) && p <= x < 2 * p
  }

  ghost predicate Close(b: int, x: int, d: int, c: int) {
    b * x <= d < b * (x + c)
  }

  // the divisor has limbs added
  lemma {:induction false} ExactDivisor(b: int, g: int, x: int, p: int, d: int)
    requires 0 < b && 0 < g && NearRecip(b * g, x, p) && g * d == p * p
    ensures Close(b, x, d, 2)
  {
    assert (b * g) * x == (b * x) * g && (b * g) * (x + 2) == (b * (x + 2)) * g && g * d == d * g;
    Cancel(b * x, d, g);
    Cancel(d, b * (x + 2), g);
  }

  // the divisor is cut to its top limbs and one is added
  lemma {:induction false} TruncatedDivisor(b: int, e: int, t: int, x: int, p: int, d: int)
    requires 0 < b && 0 < e && 0 < p && t == b / e + 1 && NearRecip(t, x, p) && e * (p * p) == d && e * p <= 2 * b
    ensures Close(b, x, d, 8)
  {
    DivMod(b, e);
    MulAdd(b / e, 1, e);
    assert (b / e) * e == e * (b / e);
    TimesSides(t, e, x, p, d);
    TruncatedSides(b, e, t * e, x, p, d);
  }

  lemma {:induction false} TruncatedSides(b: int, e: int, te: int, x: int, p: int, d: int)
    requires 0 < e && b <= te <= b + e && 0 < p <= x < 2 * p && e * p <= 2 * b && te * x <= d < te * (x + 2)
    ensures Close(b, x, d, 8)
  {
    MulMono(b, te, x);
    MulMono(te, b + e, x + 2);
    MulAdd(b, e, x + 2);
    SmallExtra(b, e, x, p);
    assert b * (x + 8) == b * (x + 2) + 6 * b;
  }

  lemma {:induction false} SmallExtra(b: int, e: int, x: int, p: int)
    requires 0 < e && 0 < p && x < 2 * p && e * p <= 2 * b
    ensures e * (x + 2) <= 6 * b
  {
    MulMono(x + 2, 3 * p, e);
    assert (x + 2) * e == e * (x + 2) && (3 * p) * e == 3 * (e * p);
  }

  lemma {:induction false} TimesSides(t: int, e: int, x: int, p: int, d: int)
    requires 0 < e && NearRecip(t, x, p) && e * (p * p) == d
    ensures (t * e) * x <= d < (t * e) * (x + 2)
  {
    MulMono(t * x, p * p, e);
    MulMono(p * p + 1, t * (x + 2), e);
    MulAdd(p * p, 1, e);
    assert (t * e) * x == (t * x) * e && (t * e) * (x + 2) == (t * (x + 2)) * e && (p * p) * e == e * (p * p);
  }

  // The quotient q read off the product with the reciprocal is not too large, and at most
  // three too small.
  lemma {:induction false} LargeQuotient(a: int, b: int, x: int, p: int, s: int, m: int, at: int, q: int, d: int,
                                         c: int)
    requires 0 <= a && 0 < b && 0 < s && 0 < m && 0 < p && s * m == d && (2 * p) * s <= d && p <= x < 2 * p
    requires Close(b, x, d, c) && a * c <= 2 * d && at == a / s && q == (x * at) / m
    ensures q * b <= a < q * b + 4 * b
  {
    DivMod(a, s);
    DivMod(x * at, m) by { MulNat(x, at); }
    QuotientTimes(x, at, a, s, m, q, d);
    MulMono(x, 2 * p, s);
    MulMono(1, m, s);
    NotTooLarge(a, b, x, q, d, c);
    NotTooSmall(a, b, x, q, d, c);
  }

  lemma {:induction false} NotTooLarge(a: int, b: int, x: int, q: int, d: int, c: int)
    requires 0 <= a && 0 < b && 0 < d && Close(b, x, d, c) && q * d <= x * a
    ensures q * b <= a
  {
    MulMono(q * d, x * a, b);
    assert (q * d) * b == (q * b) * d && (x * a) * b == (b * x) * a;
    MulMono(b * x, d, a);
    Cancel(q * b, a, d);
  }

  lemma {:induction false} NotTooSmall(a: int, b: int, x: int, q: int, d: int, c: int)
    requires 0 <= a && 0 < b && 0 < d && Close(b, x, d, c) && x * a < q * d + 2 * d && a * c <= 2 * d
    ensures a < q * b + 4 * b
  {
    ProductBelow(a, b, x, q, d);
    DivisorBelow(a, b, x, d, c);
    MulAdd(q * b + 2 * b, 2 * b, d);
    Cancel(a, q * b + 4 * b, d);
  }

  lemma {:induction false} ProductBelow(a: int, b: int, x: int, q: int, d: int)
    requires 0 < b && x * a < q * d + 2 * d
    ensures (b * x) * a < (q * b + 2 * b) * d
  {
    MulMono(x * a + 1, (q + 2) * d, b);
    MulAdd(x * a, 1, b);
    assert (x * a) * b == (b * x) * a;
    assert ((q + 2) * d) * b == ((q + 2) * b) * d;
  }

  lemma {:induction false} DivisorBelow(a: int, b: int, x: int, d: int, c: int)
    requires 0 <= a && 0 < b && Close(b, x, d, c) && a * c <= 2 * d
    ensures a * d <= (b * x) * a + (2 * b) * d
  {
    MulMono(d, b * (x + c), a);
    assert b * (x + c) == b * x + b * c;
    MulAdd(b * x, b * c, a);
    assert (b * c) * a == (a * c) * b;
    MulMono(a * c, 2 * d, b);
    assert (2 * d) * b == (2 * b) * d;
  }

  lemma {:induction false} QuotientTimes(x: int, at: int, a: int, s: int, m: int, q: int, d: int)
    requires 0 < s && 0 < m && s * m == d && 0 <= x && s * at <= a < s * at + s && m * q <= x * at < m * q + m
    ensures q * d <= x * a < q * d + d + x * s
  {
    MulMono(m * q, x * at, s);
    assert (m * q) * s == q * d && (x * at) * s == x * (s * at);
    MulMono(s * at, a, x);
    MulMono(a, s * at + s, x);
    assert (s * at) * x == x * (s * at) && a * x == x * a && (s * at + s) * x == x * (s * at) + x * s;
    MulMono(x * at + 1, m * q + m, s);
    MulAdd(x * at, 1, s);
    MulAdd(m * q, m, s);
  }
}
