/** Division by one limb in libbf.c: a precomputed inverse, a quotient estimate from it that is
    right or one too small, and the loop that divides a row of limbs. */
module LimbInverse {
  import opened Limbs

  const UDIV1NORM_THRESHOLD: nat := 3

  // d_inv as udiv1norm_init computes it
  function Udiv1normInit(d: Limb): (v: Limb)
    requires Normalized(d)
  {
    InitFits(d);
    ((B - 1 - d) * B + (B - 1)) / d
  }

  lemma {:induction false} InitFits(d: Limb)
    requires Normalized(d)
    ensures 0 <= ((B - 1 - d) * B + (B - 1)) / d < B
  {
    var n := (B - 1 - d) * B + (B - 1);
    assert n == (B - d) * B - 1;
    QuotientBound(n, d, B);
  }

  lemma {:induction false} QuotientBound(n: nat, d: nat, q: nat)
    requires d > 0 && n < q * d
    ensures 0 <= n / d < q
  {
    DivMod(n, d);
    if n / d >= q {
      MulMono(q, n / d, d);
    }
  }

  // The inverse satisfies v * d = B * (B - d) - k with 1 <= k <= d.
  lemma {:induction false} InitExact(d: Limb) returns (k: int)
    requires Normalized(d)
    ensures 1 <= k <= d && Udiv1normInit(d) * d == B * (B - d) - k
  {
    InitFits(d);
    var n := (B - 1 - d) * B + (B - 1);
    DivMod(n, d);
    k := 1 + n % d;
  }

  // The estimate q0 is the quotient or one less.
  lemma {:induction false} EstimateClose(d: int, v: int, k: int, a1: int, a0: int, n1: int, x: int)
    requires B <= 2 * d < 2 * B && 1 <= k <= d && v * d == B * (B - d) - k
    requires 0 <= a1 < d && 0 <= a0 < B && n1 == (if a0 >= B / 2 then 1 else 0)
    requires x == v * (a1 + n1) + a0 + n1 * (d - B)
    ensures var r := a1 * B + a0 - (x / B + a1) * d; 0 <= r < 2 * d
  {
    Excess(d, v, k, a1, a0, n1, x);
    ExcessBound(d, k, a1, a0, n1);
    RestScaled(d, a1, a0, x, (a1 + n1) * k + (B - d) * (a0 - n1 * (B - d)));
  }

  // the rest times B is the excess and what the division by B cut off
  lemma {:induction false} RestScaled(d: int, a1: int, a0: int, x: int, e: int)
    requires 0 < d && B * (a1 * B + a0) - d * (B * a1 + x) == e && 0 <= e < d * (B + 1)
    ensures var r := a1 * B + a0 - (x / B + a1) * d; 0 <= r < 2 * d
  {
    var q0, m := x / B + a1, x % B;
    var r := a1 * B + a0 - q0 * d;
    CutOff(d, a1, x, q0, m);
    MulNat(m, d);
    MulMono(m, B - 1, d);
    assert 0 <= B * r < B * (2 * d);
  }

  lemma {:induction false} CutOff(d: int, a1: int, x: int, q0: int, m: int)
    requires B * q0 == B * a1 + x - m
    ensures B * (q0 * d) == d * (B * a1 + x) - m * d
  {
    assert B * (q0 * d) == d * (B * q0);
    assert d * (B * a1 + x - m) == d * (B * a1 + x) - m * d;
  }

  lemma {:induction false} Excess(d: int, v: int, k: int, a1: int, a0: int, n1: int, x: int)
    requires v * d == B * (B - d) - k && x == v * (a1 + n1) + a0 + n1 * (d - B)
    ensures B * (a1 * B + a0) - d * (B * a1 + x) == (a1 + n1) * k + (B - d) * (a0 - n1 * (B - d))
  {
    var s := a1 + n1;
    assert d * x == (v * d) * s + d * a0 + d * (n1 * (d - B)) by {
      assert d * x == d * (v * s) + d * a0 + d * (n1 * (d - B));
      assert d * (v * s) == (v * d) * s;
    }
    assert (v * d) * s == (B * (B - d)) * s - k * s;
    assert (B * (B - d)) * s == (B * (B - d)) * a1 + (B * (B - d)) * n1;
    assert (B - d) * (n1 * (B - d)) == (B - d) * (B * n1 - d * n1);
  }

  lemma {:induction false} ExcessBound(d: int, k: int, a1: int, a0: int, n1: int)
    requires B <= 2 * d < 2 * B && 1 <= k <= d && 0 <= a1 < d && 0 <= a0 < B && n1 == (if a0 >= B / 2 then 1 else 0)
    ensures 0 <= (a1 + n1) * k + (B - d) * (a0 - n1 * (B - d)) < d * (B + 1)
  {
    var s, t, c := a1 + n1, a0 - n1 * (B - d), B - d;
    assert 0 <= t <= d;
    MulNat(s, k);
    MulNat(c, t);
    MulMono(s, d - 1 + n1, k);
    MulMono(k, d, d - 1 + n1);
    MulMono(t, d - n1, c);
    assert c * t == t * c;
    assert (d - 1 + n1) * d + (d - n1) * c == d * B - d + n1 * (2 * d - B);
  }

  // the sums and products of udiv1norm, before they are cut to limbs
  lemma {:induction false} EstimateFits(d: Limb, a1: Limb, a0: Limb, v: Limb)
    requires Normalized(d) && a1 < d && v == Udiv1normInit(d)
    ensures var n1 := if a0 >= B / 2 then 1 else 0;
            var nAdj := Wrap(a0 + n1 * d);
            var a := v * Wrap(a1 + n1) + nAdj;
            var r := a1 * B + a0 - (a / B + a1) * d;
            && 0 <= a < B * B && 0 <= a / B < B && 0 <= a / B + a1 < B
            && 0 <= r < 2 * d
  {
    hide Udiv1normInit, Wrap;
    var n1 := if a0 >= B / 2 then 1 else 0;
    var k := InitExact(d);
    AdjustLow(a1, a0, d);
    var nAdj := Wrap(a0 + n1 * d);
    DoubleLimb(v, Wrap(a1 + n1), nAdj, 0);
    EstimateClose(d, v, k, a1, a0, n1, v * Wrap(a1 + n1) + nAdj);
    QuotientSmall(a1, a0, d, (v * Wrap(a1 + n1) + nAdj) / B + a1);
  }

  lemma {:induction false} AdjustLow(a1: Limb, a0: Limb, d: Limb)
    requires Normalized(d) && a1 < d
    ensures var n1 := if a0 >= B / 2 then 1 else 0;
            Wrap(a0 + n1 * d) == a0 + n1 * (d - B) && Wrap(a1 + n1) == a1 + n1
  {
  }

  lemma {:induction false} QuotientSmall(a1: Limb, a0: Limb, d: Limb, q: nat)
    requires a1 < d && q * d <= a1 * B + a0
    ensures q < B
  {
    MulMono(a1, d - 1, B);
    if q >= B {
      MulMono(B, q, d);
    }
  }

  method Udiv1norm(a1: Limb, a0: Limb, d: Limb, dInv: Limb) returns (q: Limb, r: Limb)
    requires Normalized(d) && a1 < d && dInv == Udiv1normInit(d)
    ensures a1 * B + a0 == q * d + r && r < d
  {
    hide Udiv1normInit, Wrap;
    EstimateFits(d, a1, a0, dInv);
    var n1m: Limb := if a0 >= B / 2 then B - 1 else 0;
    AddTopBit(a1, a0, d);
    var nAdj := Wrap(a0 + if n1m == 0 then 0 else d);
    var a := (dInv * Wrap(a1 - n1m) + nAdj) % (B * B);
    q := Wrap(a / B + a1);
    WrapLimb(a / B + a1);
    Correction(a1, a0, d, q);
    a := (a1 * B + a0 - q * d - d) % (B * B);
    var ah := a / B;
    q := Wrap(q + 1 + ah);
    r := Wrap(a % B + if ah == 0 then 0 else d);
  }

  lemma {:induction false} WrapLimb(x: int)
    ensures 0 <= x < B ==> Wrap(x) == x
    ensures 0 <= x < B * B ==> x % (B * B) == x
  {
  }

  // subtracting the mask of all ones adds one, and masking gives d or nothing
  lemma {:induction false} AddTopBit(a1: Limb, a0: Limb, d: Limb)
    requires a1 < d
    ensures var n1, mask := if a0 >= B / 2 then 1 else 0, if a0 >= B / 2 then B - 1 else 0;
            Wrap(a1 - mask) == Wrap(a1 + n1) && Wrap(a0 + n1 * d) == Wrap(a0 + if mask == 0 then 0 else d)
  {
  }

  // the estimate q is made right by looking at the sign of the rest
  lemma {:induction false} Correction(a1: Limb, a0: Limb, d: Limb, q: Limb)
    requires a1 < d && 0 <= a1 * B + a0 - q * d < 2 * d
    ensures var a := (a1 * B + a0 - q * d - d) % (B * B);
            var ah := a / B;
            var q1, r := Wrap(q + 1 + ah), Wrap(a % B + if ah == 0 then 0 else d);
            (ah == 0 || ah == B - 1) && a1 * B + a0 == q1 * d + r && r < d
  {
    hide Wrap;
    var rest: int := a1 * B + a0 - q * d;
    MulAdd(q, 1, d);
    if rest >= d {
      QuotientSmall(a1, a0, d, q + 1);
    }
    CorrectionLimbs(rest, d, q);
  }

  lemma {:induction false} CorrectionLimbs(rest: int, d: int, q: int)
    requires 0 <= rest < 2 * d && 0 < d < B && 0 <= q < B && (rest >= d ==> q + 1 < B)
    ensures var a := (rest - d) % (B * B);
            var ah := a / B;
            && (ah == 0 || ah == B - 1)
            && Wrap(q + 1 + ah) == (if rest >= d then q + 1 else q)
            && Wrap(a % B + if ah == 0 then 0 else d) == (if rest >= d then rest - d else rest)
  {
    Underflow(rest - d, d);
  }

  // a small difference in two limbs: the high limb tells its sign
  lemma {:induction false} Underflow(w: int, d: int)
    requires 0 <= d < B && -d <= w < d
    ensures (w % (B * B)) / B == if w < 0 then B - 1 else 0
    ensures (w % (B * B)) % B == if w < 0 then w + B else w
  {
    assert w % (B * B) == if w < 0 then w + B * B else w;
  }

  // the limbs of x from i on are divided: qs is their quotient and r the remainder
  ghost predicate DividedFrom(x: seq<Limb>, i: nat, qs: seq<Limb>, b: int, rem: int, r: int) {
    i <= |x| && |qs| == |x| - i && 0 <= r < b && Val(x[i..]) + rem * Pow(|x| - i) == Val(qs) * b + r
  }

  lemma {:induction false} DivStart(x: seq<Limb>, b: int, rem: int)
    requires 0 <= rem < b
    ensures DividedFrom(x, |x|, [], b, rem, rem)
  {
    assert x[|x|..] == [];
    assert 0 * b == 0 && rem * Pow(0) == rem;
  }

  lemma {:induction false} DivEnd(x: seq<Limb>, qs: seq<Limb>, b: int, rem: int, r: int)
    requires DividedFrom(x, 0, qs, b, rem, r)
    ensures Val(x) + rem * Pow(|x|) == Val(qs) * b + r && 0 <= r < b
  {
    assert x[0..] == x;
  }

  // one limb of the quotient, with the inverse or with a plain division
  method DivLimb(r0: Limb, a0: Limb, b: Limb, bInv: Limb, useInverse: bool) returns (q: Limb, r: Limb)
    requires Normalized(b) && r0 < b && bInv == Udiv1normInit(b)
    ensures r0 * B + a0 == q * b + r && r < b
  {
    hide Udiv1normInit;
    if useInverse {
      q, r := Udiv1norm(r0, a0, b, bInv);
    } else {
      var a1 := r0 * B + a0;
      DivMod(a1, b);
      MulMono(r0, b - 1, B);
      QuotientBound(a1, b, B);
      q, r := a1 / b, a1 % b;
    }
  }

  // division by one limb; with enough limbs the inverse is used
  method MpDiv1norm(tabr: array<Limb>, ro: nat, taba: array<Limb>, ao: nat, n: nat, b: Limb, rem: Limb)
    returns (r: Limb)
    requires Fits(tabr, ro, n) && Fits(taba, ao, n) && Apart(tabr, ro, taba, ao, n) && Normalized(b) && rem < b
    modifies tabr
    ensures Kept(old(tabr[..]), tabr[..], ro, n) && r < b
    ensures old(Val(taba[ao..ao + n])) + rem * Pow(n) == Val(tabr[ro..ro + n]) * b + r
  {
    hide Val, Pow, Udiv1normInit, DividedFrom;
    ghost var x := taba[ao..ao + n];
    r := rem;
    var i := n;
    var bInv := Udiv1normInit(b);
    DivStart(x, b, rem);
    assert tabr[ro + n..ro + n] == [];
    while i > 0
      invariant 0 <= i <= n && r < b
      invariant forall j | 0 <= j < i :: taba[ao + j] == x[j]
      invariant forall j | 0 <= j < tabr.Length && !(ro + i <= j < ro + n) :: tabr[j] == old(tabr[j])
      invariant DividedFrom(x, i, tabr[ro + i..ro + n], b, rem, r)
    {
      ghost var done, r0 := tabr[ro + i..ro + n], r;
      i := i - 1;
      var q: Limb;
      q, r := DivLimb(r, taba[ao + i], b, bInv, n >= UDIV1NORM_THRESHOLD);
      DivNext(x, i, done, q, b, rem, r0, r);
      tabr[ro + i] := q;
      assert tabr[ro + i..ro + n] == [q] + done;
    }
    DivEnd(x, tabr[ro..ro + n], b, rem, r);
  }

  lemma {:induction false} DivNext(x: seq<Limb>, i: nat, done: seq<Limb>, q: Limb, b: int, rem: int, r0: int, r: int)
    requires i < |x| && DividedFrom(x, i + 1, done, b, rem, r0) && r0 * B + x[i] == q * b + r && 0 <= r < b
    ensures DividedFrom(x, i, [q] + done, b, rem, r)
  {
    hide Val, Pow;
    DivRow(x, i, done, q, b, rem, r0, r);
  }

  lemma {:induction false} DivRow(x: seq<Limb>, i: nat, done: seq<Limb>, q: Limb, b: int, rem: int, r0: int, r: int)
    requires i < |x| && |done| == |x| - i - 1 && r0 * B + x[i] == q * b + r
    requires Val(x[i + 1..]) + rem * Pow(|x| - i - 1) == Val(done) * b + r0
    ensures Val(x[i..]) + rem * Pow(|x| - i) == Val([q] + done) * b + r
  {
    hide Val, Pow;
    assert x[i..] == [x[i]] + x[i + 1..];
    ValFirst(q, done);
    ValFirst(x[i], x[i + 1..]);
    PowNext(|x| - i - 1);
    DivStep(x[i], Val(x[i + 1..]), rem, Pow(|x| - i - 1), Val(done), b, r0, q, r);
  }

  lemma {:induction false} DivStep(xi: int, v: int, rem: int, p: int, d: int, b: int, r0: int, q: int, r: int)
    requires v + rem * p == d * b + r0 && r0 * B + xi == q * b + r
    ensures xi + B * v + rem * (B * p) == (q + B * d) * b + r
  {
    assert rem * (B * p) == B * (rem * p);
    assert (q + B * d) * b == q * b + B * (d * b);
  }
}
