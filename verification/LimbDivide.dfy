/** Division of libbf.c on rows of limbs: the schoolbook loop, the Newton reciprocal, and the
    large division that multiplies by a reciprocal and corrects the quotient. */
module LimbDivide {
  import opened Limbs
  import opened LimbInverse
  import opened LimbQuotient
  import opened ReciprocalBounds

  const DIVNORM_LARGE_THRESHOLD: nat := 50

  function Min(a: nat, b: nat): nat { if a < b then a else b }

  // The quotient limbs from i on are known, and the low limbs of the dividend hold the rest.
  ghost predicate Dividing(a: nat, b: nat, s: seq<Limb>, qs: seq<Limb>, i: nat) {
    i <= |s| && a == b * (Pow(i) * Val(qs)) + Val(s) && Val(s[i..]) < b
  }

  lemma {:induction false} DivideStep(a: nat, b: nat, s: seq<Limb>, t: seq<Limb>, q: Limb, qs: seq<Limb>, i: nat)
    requires 0 < i <= |s| && Dividing(a, b, s, qs, i) && |t| == |s| - 1 && t[..i - 1] == s[..i - 1]
    requires IsQuotient(Val(s[i - 1..]), b, q, Val(t[i - 1..]))
    ensures Dividing(a, b, t, [q] + qs, i - 1)
  {
    hide Val, Pow;
    ValSplit(s, i - 1);
    ValSplit(t, i - 1);
    ValFirst(q, qs);
    PowNext(i - 1);
    DivideNumbers(a, b, Val(s[..i - 1]), Pow(i - 1), Val(s[i - 1..]), Val(t[i - 1..]), q, Val(qs));
  }

  lemma {:induction false} DivideNumbers(a: int, b: int, low: int, p: int, w: int, r: int, q: int, v: int)
    requires a == b * ((B * p) * v) + (low + p * w) && w == q * b + r
    ensures a == b * (p * (q + B * v)) + (low + p * r)
  {
    assert p * w == p * (q * b) + p * r;
    assert p * (q + B * v) == p * q + (B * p) * v;
    assert b * (p * q + (B * p) * v) == b * (p * q) + b * ((B * p) * v);
    assert b * (p * q) == p * (q * b);
  }

  // the limb below joins the rest, which is divided next
  lemma {:induction false} WindowSmall(s: seq<Limb>, i: nat, b: nat)
    requires 0 < i <= |s| && Val(s[i..]) < b
    ensures Val(s[i - 1..]) < B * b
  {
    hide Val;
    assert s[i - 1..] == [s[i - 1]] + s[i..];
    ValFirst(s[i - 1], s[i..]);
  }

  lemma {:induction false} WindowInReach(w: seq<Limb>, bs: seq<Limb>, q: int)
    requires |bs| >= 1 && |w| == |bs| + 1 && Val(w) < B * Val(bs) && Normalized(bs[|bs| - 1])
    requires var n := |bs|;
             q == if w[n] >= bs[n - 1] then B - 1 else (w[n] * B + w[n - 1]) / bs[n - 1]
    ensures 0 <= q < B && InReach(Val(w), Val(bs), q)
  {
    hide Val, Pow;
    var n := |bs|;
    TopLimb(bs, n - 1);
    ValBound(bs[..n - 1]);
    ValSplit(w, n - 1);
    ValBound(w[..n - 1]);
    assert w[n - 1..] == [w[n - 1]] + [w[n]];
    ValFirst(w[n - 1], [w[n]]);
    ValOne(w[n]);
    var p, top := Pow(n - 1), w[n - 1] + B * w[n];
    assert p * top == top * p;
    EstimateBound(Val(w), Val(bs), bs[n - 1], Val(bs[..n - 1]), w[n], w[n - 1], Val(w[..n - 1]), p, q);
    MulMono(1, bs[n - 1], p);
  }

  // the quotient limb estimated from the two top limbs of a window
  method Estimate(a1: Limb, a0: Limb, b1: Limb, useInverse: bool, b1Inv: Limb) returns (q: Limb)
    requires Normalized(b1) && (useInverse ==> b1Inv == Udiv1normInit(b1))
    ensures q == if a1 >= b1 then B - 1 else (a1 * B + a0) / b1
  {
    hide Udiv1normInit;
    if a1 >= b1 {
      return B - 1;
    }
    var al := a1 * B + a0;
    DivMod(al, b1);
    QuotientBound(al, b1, B) by { MulMono(a1, b1 - 1, B); }
    if useInverse {
      var rem;
      q, rem := Udiv1norm(a1, a0, b1, b1Inv);
      QuotientIs(al, b1, q, rem);
    } else {
      q := al / b1;
    }
  }

  // first iteration: the quotient is only 0 or 1
  method FirstQuotient(taba: array<Limb>, ao: nat, n: nat, tabb: array<Limb>, bo: nat, nb: nat) returns (q: Limb)
    requires nb >= 1 && Fits(taba, ao, n + nb) && Fits(tabb, bo, nb) && taba != tabb && Normalized(tabb[bo + nb - 1])
    modifies taba
    ensures Kept(old(taba[..]), taba[..], ao, n + nb) && q <= 1
    ensures Dividing(old(Val(taba[ao..ao + n + nb])), Val(tabb[bo..bo + nb]), taba[ao..ao + n + nb], [q], n)
  {
    hide Val, Pow, Dividing;
    ghost var a, bs := taba[ao..ao + n + nb], tabb[bo..bo + nb];
    assert a[n..] == taba[ao + n..ao + n + nb];
    var c := MpCmp(taba, ao + n, tabb, bo, nb);
    q := if c < 0 then 0 else 1;
    if q != 0 {
      var borrow := MpSub(taba, ao + n, taba, ao + n, tabb, bo, nb, 0);
      ghost var t := taba[ao..ao + n + nb];
      assert t[n..] == taba[ao + n..ao + n + nb];
      assert forall j | 0 <= j < n :: t[j] == a[j];
      assert t[..n] == a[..n];
      FirstLimb(a, t, bs, n, borrow);
    } else {
      FirstNone(a, bs, n);
    }
  }

  // one quotient limb, with the limbs qs above it known
  method NextQuotient(taba: array<Limb>, ao: nat, i: nat, tabb: array<Limb>, bo: nat, nb: nat, b1: Limb,
                      useInverse: bool, b1Inv: Limb, ghost a: nat, ghost qs: seq<Limb>)
    returns (q: Limb)
    requires nb >= 1 && Fits(taba, ao, i + nb + 1) && Fits(tabb, bo, nb) && taba != tabb
    requires b1 == tabb[bo + nb - 1] && Normalized(b1) && (useInverse ==> b1Inv == Udiv1normInit(b1))
    requires Dividing(a, Val(tabb[bo..bo + nb]), taba[ao..ao + i + nb + 1], qs, i + 1)
    modifies taba
    ensures Kept(old(taba[..]), taba[..], ao, i + nb + 1)
    ensures Dividing(a, Val(tabb[bo..bo + nb]), taba[ao..ao + i + nb], [q] + qs, i)
  {
    hide Val, Pow, Dividing, Udiv1normInit, IsQuotient, InReach;
    ghost var bs := tabb[bo..bo + nb];
    ghost var s, w := taba[ao..ao + i + nb + 1], taba[ao + i..ao + i + nb + 1];
    RestSmall(a, Val(bs), s, qs, i + 1);
    assert s[i..] == w;
    q := Estimate(taba[ao + i + nb], taba[ao + i + nb - 1], b1, useInverse, b1Inv);
    WindowInReach(w, bs, q);
    ghost var adds;
    q, adds := Reduce(taba, ao + i, tabb, bo, nb, q);
    ghost var t := taba[ao..ao + i + nb];
    assert t[..i] == s[..i];
    assert t[i..] == taba[ao + i..ao + i + nb];
    DivideStep(a, Val(bs), s, t, q, qs, i + 1);
  }

  // the loop of mp_divnorm, for divisors of several limbs
  method DivnormBasecase(tabq: array<Limb>, qo: nat, taba: array<Limb>, ao: nat, na: nat, tabb: array<Limb>, bo: nat,
                         nb: nat)
    requires 1 <= nb <= na && Fits(tabq, qo, na - nb + 1) && Fits(taba, ao, na) && Fits(tabb, bo, nb)
    requires tabq != taba && tabq != tabb && taba != tabb && Normalized(tabb[bo + nb - 1])
    modifies tabq, taba
    ensures Kept(old(tabq[..]), tabq[..], qo, na - nb + 1) && Kept(old(taba[..]), taba[..], ao, na)
    ensures IsQuotient(old(Val(taba[ao..ao + na])), Val(tabb[bo..bo + nb]), Val(tabq[qo..qo + na - nb + 1]),
                       Val(taba[ao..ao + nb]))
    ensures tabq[qo + na - nb] <= 1
  {
    hide Val, Pow, Dividing, Udiv1normInit, IsQuotient, InReach;
    var n := na - nb;
    var b1 := tabb[bo + nb - 1];
    var useInverse := n >= UDIV1NORM_THRESHOLD;
    var b1Inv := Udiv1normInit(b1);
    ghost var a, b := Val(taba[ao..ao + na]), Val(tabb[bo..bo + nb]);
    var q := FirstQuotient(taba, ao, n, tabb, bo, nb);
    tabq[qo + n] := q;
    assert tabq[qo + n..qo + n + 1] == [q];
    var i := n;
    while i > 0
      invariant 0 <= i <= n && tabq[qo + n] <= 1
      invariant Kept(old(tabq[..]), tabq[..], qo, n + 1) && Kept(old(taba[..]), taba[..], ao, na)
      invariant Dividing(a, b, taba[ao..ao + i + nb], tabq[qo + i..qo + n + 1], i)
    {
      i := i - 1;
      ghost var qs := tabq[qo + i + 1..qo + n + 1];
      q := NextQuotient(taba, ao, i, tabb, bo, nb, b1, useInverse, b1Inv, a, qs);
      tabq[qo + i] := q;
      assert tabq[qo + i..qo + n + 1] == [q] + qs;
    }
    Divided(a, b, taba[ao..ao + nb], tabq[qo..qo + n + 1]);
  }

  lemma {:induction false} RestSmall(a: nat, b: nat, s: seq<Limb>, qs: seq<Limb>, i: nat)
    requires Dividing(a, b, s, qs, i) && i > 0
    ensures Val(s[i - 1..]) < B * b
  {
    WindowSmall(s, i, b);
  }

  lemma {:induction false} Divided(a: nat, b: nat, s: seq<Limb>, qs: seq<Limb>)
    requires Dividing(a, b, s, qs, 0)
    ensures IsQuotient(a, b, Val(qs), Val(s))
  {
    hide Val;
    assert s[0..] == s;
    assert b * (1 * Val(qs)) == Val(qs) * b;
  }

  lemma {:induction false} FirstNone(a: seq<Limb>, bs: seq<Limb>, n: nat)
    requires |a| == n + |bs| && Val(a[n..]) < Val(bs)
    ensures Dividing(Val(a), Val(bs), a, [0], n)
  {
    ValOne(0);
    assert Pow(n) * 0 == 0 && Val(bs) * 0 == 0;
  }

  lemma {:induction false} FirstLimb(a: seq<Limb>, t: seq<Limb>, bs: seq<Limb>, n: nat, borrow: Limb)
    requires |bs| >= 1 && Normalized(bs[|bs| - 1]) && |a| == |t| == n + |bs| && t[..n] == a[..n]
    requires Val(a[n..]) >= Val(bs) && Val(t[n..]) + Val(bs) == Val(a[n..]) + borrow * Pow(|bs|)
    ensures Dividing(Val(a), Val(bs), t, [1], n)
  {
    hide Val, Pow;
    ValOne(1);
    ValSplit(a, n);
    ValSplit(t, n);
    ValBound(a[n..]);
    ValBound(t[n..]);
    NormalizedVal(bs);
    if borrow >= 1 {
      MulMono(1, borrow, Pow(|bs|));
      assert false;
    }
    assert Pow(n) * Val(a[n..]) == Pow(n) * Val(t[n..]) + Pow(n) * Val(bs);
    assert Val(bs) * (Pow(n) * 1) == Pow(n) * Val(bs);
  }

  // mp_divnorm: one limb, many limbs, or the large division
  method MpDivnorm(tabq: array<Limb>, qo: nat, taba: array<Limb>, ao: nat, na: nat, tabb: array<Limb>, bo: nat, nb: nat)
    requires 1 <= nb <= na && Fits(tabq, qo, na - nb + 1) && Fits(taba, ao, na) && Fits(tabb, bo, nb)
    requires tabq != taba && tabq != tabb && taba != tabb && Normalized(tabb[bo + nb - 1])
    modifies tabq, taba
    ensures Kept(old(tabq[..]), tabq[..], qo, na - nb + 1) && Kept(old(taba[..]), taba[..], ao, na)
    ensures IsQuotient(old(Val(taba[ao..ao + na])), Val(tabb[bo..bo + nb]), Val(tabq[qo..qo + na - nb + 1]),
                       Val(taba[ao..ao + nb]))
    ensures tabq[qo + na - nb] <= 1
    decreases if Min(na - nb, nb) >= DIVNORM_LARGE_THRESHOLD then 3 else 0, 0
  {
    hide Val, Pow, IsQuotient;
    if nb == 1 {
      DivnormOne(tabq, qo, taba, ao, na, tabb, bo);
    } else if Min(na - nb, nb) >= DIVNORM_LARGE_THRESHOLD {
      MpDivnormLarge(tabq, qo, taba, ao, na, tabb, bo, nb);
    } else {
      DivnormBasecase(tabq, qo, taba, ao, na, tabb, bo, nb);
    }
  }

  method DivnormOne(tabq: array<Limb>, qo: nat, taba: array<Limb>, ao: nat, na: nat, tabb: array<Limb>, bo: nat)
    requires 1 <= na && Fits(tabq, qo, na) && Fits(taba, ao, na) && Fits(tabb, bo, 1)
    requires tabq != taba && tabq != tabb && taba != tabb && Normalized(tabb[bo])
    modifies tabq, taba
    ensures Kept(old(tabq[..]), tabq[..], qo, na) && Kept(old(taba[..]), taba[..], ao, na)
    ensures IsQuotient(old(Val(taba[ao..ao + na])), Val(tabb[bo..bo + 1]), Val(tabq[qo..qo + na]),
                       Val(taba[ao..ao + 1]))
    ensures tabq[qo + na - 1] <= 1
  {
    hide Val, Pow;
    ghost var a, b := taba[ao..ao + na], tabb[bo];
    var r := MpDiv1norm(tabq, qo, taba, ao, na, tabb[bo], 0);
    taba[ao] := r;
    assert taba[ao..ao + 1] == [r] && tabb[bo..bo + 1] == [b];
    ValOne(r);
    ValOne(b);
    ValBound(a);
    ghost var qs := tabq[qo..qo + na];
    TopOf(qs, na - 1);
    PowNext(na - 1);
    SmallTop(qs[na - 1], Val(qs), Val(a), b, Pow(na - 1));
  }

  lemma {:induction false} SmallTop(q: Limb, v: int, a: int, b: Limb, p: int)
    requires a < B * p && v * b <= a && q * p <= v && B <= 2 * b && p > 0
    ensures q <= 1
  {
    MulMono(B, 2 * b, p);
    assert (2 * p) * b == (2 * b) * p;
    Cancel(v, 2 * p, b);
    Cancel(q, 2, p);
  }

  // mp_recip
  method MpRecip(tabr: array<Limb>, ro: nat, taba: array<Limb>, ao: nat, n: nat)
    requires n >= 1 && Fits(tabr, ro, n + 1) && Fits(taba, ao, n) && tabr != taba && Normalized(taba[ao + n - 1])
    modifies tabr
    ensures Kept(old(tabr[..]), tabr[..], ro, n + 1) && tabr[ro + n] == 1
    ensures IsRecip(Val(taba[ao..ao + n]), Val(tabr[ro..ro + n + 1]), Pow(n))
    decreases 1, n
  {
    hide Val, Pow, IsRecip;
    if n <= 2 {
      RecipBasecase(tabr, ro, taba, ao, n);
    } else {
      var l := (n - 1) / 2;
      var h := n - l;
      MpRecip(tabr, ro + l, taba, ao + l, h);
      RecipNewton(tabr, ro, taba, ao, n, l, h);
    }
    RecipTop(Val(taba[ao..ao + n]), tabr[ro..ro + n + 1], n);
  }

  lemma {:induction false} RecipTop(a: int, r: seq<Limb>, n: nat)
    requires |r| == n + 1 && IsRecip(a, Val(r), Pow(n))
    ensures r[n] == 1
  {
    hide Val, Pow;
    TopOf(r, n);
  }

  // ceil(B^(2n) / a) - 1
  method RecipBasecase(tabr: array<Limb>, ro: nat, taba: array<Limb>, ao: nat, n: nat)
    requires 1 <= n <= 2 && Fits(tabr, ro, n + 1) && Fits(taba, ao, n) && tabr != taba && Normalized(taba[ao + n - 1])
    modifies tabr
    ensures Kept(old(tabr[..]), tabr[..], ro, n + 1)
    ensures IsRecip(Val(taba[ao..ao + n]), Val(tabr[ro..ro + n + 1]), Pow(n))
    decreases 1, 0
  {
    hide Val, Pow, IsQuotient, IsRecip;
    ghost var a, p := taba[ao..ao + n], Pow(n);
    var tabu := new Limb[2 * n + 1](_ => 0);
    var tabt := new Limb[n + 2](_ => 0);
    tabu[2 * n] := 1;
    assert tabu[0..2 * n + 1] == Zeros(2 * n) + [1];
    ValPower(n);
    MpDivnorm(tabt, 0, tabu, 0, 2 * n + 1, taba, ao, n);
    assert taba[ao..ao + n] == a;
    ghost var q, rem := tabt[0..n + 2], tabu[0..n];
    BaseQuotient(a, n, q, Val(rem));
    Copy(tabr, ro, tabt, 0, n + 1);
    assert tabr[ro..ro + n + 1] == q[..n + 1] && tabu[0..n] == rem;
    var nz := MpScanNz(tabu, 0, n);
    if !nz {
      var c := MpSubUi(tabr, ro, 1, n + 1);
      NoBorrow(tabr[ro..ro + n + 1], Val(q), 1, c);
    }
    assert taba[ao..ao + n] == a;
  }

  lemma {:induction false} ValPower(n: nat)
    ensures Val(Zeros(2 * n) + [1]) == Pow(n) * Pow(n)
  {
    ValZeros(2 * n);
    ValPush(Zeros(2 * n), 1);
    PowAdd(n, n);
  }

  lemma {:induction false} BaseQuotient(a: seq<Limb>, n: nat, q: seq<Limb>, rem: int)
    requires |a| == n >= 1 && Normalized(a[n - 1]) && |q| == n + 2 && IsQuotient(Pow(n) * Pow(n), Val(a), Val(q), rem)
    ensures 1 <= Val(q) == Val(q[..n + 1])
    ensures IsRecip(Val(a), if rem == 0 then Val(q) - 1 else Val(q), Pow(n))
  {
    hide Val, Pow;
    NormalizedVal(a);
    BaseNumbers(Val(a), Pow(n), Val(q), rem);
    PowNext(n);
    TopOf(q, n + 1);
    RecipBase(Val(a), Pow(n), Val(q), rem);
  }

  lemma {:induction false} BaseNumbers(a: int, p: int, q: int, rem: int)
    requires p <= 2 * a < 2 * p && p > 0 && IsQuotient(p * p, a, q, rem)
    ensures p * p == q * a + rem && 1 <= q < B * p
  {
    MulMono(p, 2 * a, p);
    assert (2 * p + 1) * a == (2 * a) * p + a;
    Cancel(q, 2 * p + 1, a);
    MulMono(1, p, p);
    Cancel(0, q, a);
  }

  function Zeros(n: nat): (s: seq<Limb>)
    ensures |s| == n
  {
    seq(n, _ => 0)
  }

  lemma {:induction false} ValZeros(n: nat)
    ensures Val(Zeros(n)) == 0
  {
    if n > 0 {
      ValZeros(n - 1);
      assert Zeros(n) == Zeros(n - 1) + [0];
      ValPush(Zeros(n - 1), 0);
    }
  }

  // t is a * x, and x is not too small by more than two for the whole of a
  ghost predicate Lowering(a: int, x: int, t: int, n: nat, h: nat) {
    0 < a < Pow(n) && t == a * x && Pow(h) <= x && Pow(n) * Pow(h) < a * (x + 2)
  }

  lemma {:induction false} LowerStep(a: int, x: int, t: seq<Limb>, n: nat, h: nat)
    requires Lowering(a, x, Val(t), n, h) && |t| == n + h + 1 && t[n + h] != 0
    ensures a <= Val(t) && 1 <= x && Lowering(a, x - 1, Val(t) - a, n, h)
  {
    hide Val, Pow;
    TopOf(t, n + h);
    PowAdd(n, h);
    RecipDown(a, x, Pow(n), Pow(h));
    MulMono(1, x, a);
    assert x * a == a * x;
  }

  // x in tabr goes down until it is not too large for the whole of a; tabt follows as a * x
  method LowerReciprocal(tabr: array<Limb>, xo: nat, tabt: array<Limb>, taba: array<Limb>, ao: nat, n: nat, h: nat)
    requires 1 <= n && Fits(tabr, xo, h + 1) && Fits(tabt, 0, n + h + 1) && Fits(taba, ao, n)
    requires tabr != tabt && tabr != taba && tabt != taba
    requires Lowering(Val(taba[ao..ao + n]), Val(tabr[xo..xo + h + 1]), Val(tabt[0..n + h + 1]), n, h)
    modifies tabr, tabt
    ensures Kept(old(tabr[..]), tabr[..], xo, h + 1) && tabt[n + h] == 0
    ensures Val(tabr[xo..xo + h + 1]) <= old(Val(tabr[xo..xo + h + 1]))
    ensures Lowering(Val(taba[ao..ao + n]), Val(tabr[xo..xo + h + 1]), Val(tabt[0..n + h + 1]), n, h)
  {
    hide Val, Pow, Lowering;
    ghost var a := Val(taba[ao..ao + n]);
    while tabt[n + h] != 0
      invariant Kept(old(tabr[..]), tabr[..], xo, h + 1)
      invariant Val(tabr[xo..xo + h + 1]) <= old(Val(tabr[xo..xo + h + 1]))
      invariant Lowering(a, Val(tabr[xo..xo + h + 1]), Val(tabt[0..n + h + 1]), n, h)
      decreases Val(tabr[xo..xo + h + 1])
    {
      ghost var x, t := Val(tabr[xo..xo + h + 1]), tabt[0..n + h + 1];
      LowerStep(a, x, t, n, h);
      var k := MpSubUi(tabr, xo, 1, h + 1);
      NoBorrow(tabr[xo..xo + h + 1], x, 1, k);
      SubtractRow(tabt, taba, ao, n, h);
    }
  }

  // mp_sub and mp_sub_ui together take the n limbs of taba from the whole of tabt
  method SubtractRow(tabt: array<Limb>, taba: array<Limb>, ao: nat, n: nat, h: nat)
    requires Fits(tabt, 0, n + h + 1) && Fits(taba, ao, n) && tabt != taba
    requires Val(taba[ao..ao + n]) <= Val(tabt[0..n + h + 1])
    modifies tabt
    ensures Val(tabt[0..n + h + 1]) == old(Val(tabt[0..n + h + 1])) - Val(taba[ao..ao + n])
  {
    hide Val, Pow;
    ghost var t := tabt[0..n + h + 1];
    assert tabt[0..n] == t[..n] && tabt[n..n + h + 1] == t[n..];
    var c := MpSub(tabt, 0, tabt, 0, taba, ao, n, 0);
    ghost var low := tabt[0..n];
    assert tabt[n..n + h + 1] == t[n..];
    var c1 := MpSubUi(tabt, n, c, h + 1);
    ghost var t1 := tabt[0..n + h + 1];
    assert t1[..n] == low && t1[n..] == tabt[n..n + h + 1];
    SubHigh(t, t1, n, Val(taba[ao..ao + n]), c, c1);
  }

  lemma {:induction false} NoBorrow(s: seq<Limb>, x: int, b: int, k: Limb)
    requires 0 <= b <= x && Val(s) + b == x + k * Pow(|s|)
    ensures k == 0 && Val(s) == x - b
  {
    hide Val, Pow;
    ValBound(s);
    if k >= 1 {
      MulMono(1, k, Pow(|s|));
    }
  }

  // a subtraction in two parts
  lemma {:induction false} SubHigh(s: seq<Limb>, t: seq<Limb>, n: nat, a: int, c: Limb, c1: Limb)
    requires |s| == |t| && n <= |s| && 0 <= a <= Val(s)
    requires Val(t[..n]) + a == Val(s[..n]) + c * Pow(n)
    requires Val(t[n..]) + c == Val(s[n..]) + c1 * Pow(|s| - n)
    ensures Val(t) == Val(s) - a && c1 == 0
  {
    hide Val, Pow;
    ValSplit(s, n);
    ValSplit(t, n);
    var p := Pow(n);
    assert p * (Val(t[n..]) + c) == p * Val(t[n..]) + c * p;
    assert p * (Val(s[n..]) + c1 * Pow(|s| - n)) == p * Val(s[n..]) + c1 * (p * Pow(|s| - n));
    PowAdd(n, |s| - n);
    NoBorrow(t, Val(s), a, c1);
  }

  lemma {:induction false} ValDiv(s: seq<Limb>, k: nat)
    requires k <= |s|
    ensures Val(s[k..]) == Val(s) / Pow(k) && Val(s[..k]) == Val(s) % Pow(k)
  {
    hide Val, Pow;
    ValSplit(s, k);
    ValBound(s[..k]);
    assert Pow(k) * Val(s[k..]) == Val(s[k..]) * Pow(k);
    QuotientIs(Val(s), Pow(k), Val(s[k..]), Val(s[..k]));
  }

  lemma {:induction false} NewtonSizes(a: seq<Limb>, n: nat, l: nat, h: nat)
    requires n >= 3 && l == (n - 1) / 2 && h == n - l && |a| == n && Normalized(a[n - 1])
    ensures Sizes(Val(a), Pow(h), Pow(l), Pow(2 * h - l)) && Pow(h) * Pow(l) == Pow(n)
  {
    hide Val, Pow;
    NormalizedVal(a);
    PowAdd(h, l);
    PowSizes(l, h);
  }

  lemma {:induction false} PowSizes(l: nat, h: nat)
    requires l < h
    ensures Pow(2 * h - l) * Pow(l) == Pow(h) * Pow(h) && B * Pow(h) <= Pow(2 * h - l)
    ensures B * (Pow(l) * Pow(l)) <= Pow(h + l)
  {
    hide Pow;
    PowAdd(2 * h - l, l);
    PowAdd(h, h);
    PowAdd(l, l);
    PowNext(h);
    PowMono(h + 1, 2 * h - l);
    PowNext(l + l);
    PowMono(l + l + 1, h + l);
  }

  lemma {:induction false} NewtonStart(a: seq<Limb>, x: int, n: nat, l: nat, h: nat)
    requires |a| == n && l + h == n >= 1 && Normalized(a[n - 1]) && IsRecip(Val(a[l..]), x, Pow(h))
    ensures Lowering(Val(a), x, Val(a) * x, n, h) && x < 2 * Pow(h)
  {
    hide Val, Pow;
    NormalizedVal(a);
    ValSplit(a, l);
    PowAdd(h, l);
    assert Pow(l) * Val(a[l..]) == Val(a[l..]) * Pow(l);
    RecipHigh(Val(a), Val(a[l..]), Val(a[..l]), x, Pow(h), Pow(l));
  }

  // T = B^m - T; the increment of the top limb wraps to zero
  method Complement(tabt: array<Limb>, m: nat)
    requires Fits(tabt, 0, m + 1) && tabt[m] == 0 && 0 < Val(tabt[0..m + 1])
    modifies tabt
    ensures Val(tabt[0..m + 1]) == Pow(m) - old(Val(tabt[0..m + 1]))
  {
    hide Val, Pow;
    ghost var t := tabt[0..m + 1];
    var k := MpNeg(tabt, 0, tabt, 0, m + 1, 0);
    ghost var u := tabt[0..m + 1];
    NegTop(t, u, m, k);
    var top: int := tabt[m];
    tabt[m] := Wrap(top + 1);
    assert tabt[0..m + 1] == u[..m] + [0];
    ValPush(u[..m], 0);
  }

  lemma {:induction false} NegTop(t: seq<Limb>, u: seq<Limb>, m: nat, k: Limb)
    requires |t| == |u| == m + 1 && t[m] == 0 && 0 < Val(t) && k <= 1 && Val(u) + Val(t) == k * Pow(m + 1)
    ensures u[m] == B - 1 && Val(u[..m]) == Pow(m) - Val(t)
  {
    hide Val, Pow;
    TopOf(t, m);
    TopOf(u, m);
    TopLimb(u, m);
    PowNext(m);
    var top: int := u[m];
    assert k == 1;
    MulMono(top, B - 1, Pow(m));
    Cancel(B - 2, top, Pow(m));
    MulAdd(top, 1, Pow(m));
    MulAdd(B - 2, 1, Pow(m));
  }

  // the rows of the reciprocal: the low limbs of y, and the rest of y added to x
  lemma {:induction false} JoinRows(u: seq<Limb>, x: seq<Limb>, sum: seq<Limb>, c: Limb, y: int, l: nat, h: nat)
    requires |x| == h + 1 && |sum| == h && 3 * h <= |u| && l <= h && c <= 1
    requires y == Val(u[2 * h - l..]) && InRange(Val(x), y, l, h)
    requires Val(sum) + c * Pow(h) == Val(x[..h]) + Val(u[2 * h..3 * h])
    ensures Val(u[2 * h - l..2 * h] + sum + [x[h]]) == Val(x) * Pow(l) + y
  {
    hide Val, Pow;
    var v, lo, hi := u[2 * h - l..], u[2 * h - l..2 * h], u[2 * h..3 * h];
    ValSplit(v, l + h);
    PowAdd(h, l);
    ValBound(v[..l + h]);
    var rest := Val(v[l + h..]);
    assert rest * Pow(l + h) == Pow(l + h) * rest;
    Cancel(rest, 1, Pow(l + h));
    ValAppend(lo, hi);
    assert v[..l + h] == lo + hi;
    assert Pow(l + h) * 0 == 0;
    TopOf(x, h);
    TopLimb(x, h);
    var z := Val(x) + Val(hi);
    assert z * Pow(l) == Val(x) * Pow(l) + Pow(l) * Val(hi);
    assert (2 * Pow(h)) * Pow(l) == 2 * (Pow(h) * Pow(l));
    Cancel(z, 2 * Pow(h), Pow(l));
    Cancel(c, 1, Pow(h));
    ValAppend(lo, sum + [x[h]]);
    assert lo + sum + [x[h]] == lo + (sum + [x[h]]);
    ValPush(sum, x[h]);
    assert Pow(l) * z == z * Pow(l);
  }

  // the residual of the reciprocal x of the high limbs
  ghost predicate Residual(a: int, x: int, t: int, n: nat, h: nat) {
    Lowering(a, x, Pow(n + h) - t, n, h) && 0 < t
  }

  // x is made small enough, and tabt becomes B^(n + h) - a * x
  method NewtonResidual(tabr: array<Limb>, xo: nat, tabt: array<Limb>, taba: array<Limb>, ao: nat, n: nat, l: nat,
                        h: nat)
    requires Fits(tabr, xo, h + 1) && Fits(taba, ao, n) && Fits(tabt, 0, n + h + 1) && n >= 3 && l == (n - 1) / 2
             && h == n - l
    requires tabr != tabt && tabr != taba && tabt != taba
    requires Normalized(taba[ao + n - 1]) && IsRecip(Val(taba[ao + l..ao + n]), Val(tabr[xo..xo + h + 1]), Pow(h))
    modifies tabr, tabt
    ensures Kept(old(tabr[..]), tabr[..], xo, h + 1) && Val(tabr[xo..xo + h + 1]) < 2 * Pow(h)
    ensures Residual(Val(taba[ao..ao + n]), Val(tabr[xo..xo + h + 1]), Val(tabt[0..n + h + 1]), n, h)
  {
    hide Val, Pow, IsRecip, Lowering;
    ghost var a := taba[ao..ao + n];
    assert a[l..] == taba[ao + l..ao + n];
    NewtonStart(a, Val(tabr[xo..xo + h + 1]), n, l, h);
    MpMulBasecase(tabt, 0, taba, ao, n, tabr, xo, h + 1);
    LowerReciprocal(tabr, xo, tabt, taba, ao, n, h);
    ghost var x := Val(tabr[xo..xo + h + 1]);
    TopOf(tabt[0..n + h + 1], n + h);
    Positive(Val(a), x, Val(tabt[0..n + h + 1]), n, h);
    Complement(tabt, n + h);
    assert tabr[xo..xo + h + 1] == tabr[xo..xo + h + 1];
  }

  // the Newton step of mp_recip
  method RecipNewton(tabr: array<Limb>, ro: nat, taba: array<Limb>, ao: nat, n: nat, l: nat, h: nat)
    requires Fits(tabr, ro, n + 1) && Fits(taba, ao, n) && tabr != taba && n >= 3 && l == (n - 1) / 2 && h == n - l
    requires Normalized(taba[ao + n - 1]) && IsRecip(Val(taba[ao + l..ao + n]), Val(tabr[ro + l..ro + n + 1]), Pow(h))
    modifies tabr
    ensures Kept(old(tabr[..]), tabr[..], ro, n + 1)
    ensures IsRecip(Val(taba[ao..ao + n]), Val(tabr[ro..ro + n + 1]), Pow(n))
  {
    hide Val, Pow, IsRecip, Residual;
    var tabt := new Limb[n + h + 1](_ => 0);
    var tabu := new Limb[n + 2 * h - l + 2](_ => 0);
    NewtonResidual(tabr, ro + l, tabt, taba, ao, n, l, h);
    ghost var x, t := tabr[ro + l..ro + n + 1], tabt[0..n + h + 1];
    assert t[l..] == tabt[l..n + h + 1];
    MpMulBasecase(tabu, 0, tabt, l, n + h + 1 - l, tabr, ro + l, h + 1);
    ghost var u := tabu[0..n + 2 * h - l + 2];
    NewtonValue(taba[ao..ao + n], Val(x), t, u, n, l, h);
    NewtonAdd(tabr, ro, tabu, n, l, h);
  }

  // the correction y, the top limbs of tabu, is put below and added to x
  method NewtonAdd(tabr: array<Limb>, ro: nat, tabu: array<Limb>, n: nat, l: nat, h: nat)
    requires n == l + h && l <= h && Fits(tabr, ro, n + 1) && Fits(tabu, 0, n + 2 * h - l + 2) && tabr != tabu
    requires var x, y := Val(tabr[ro + l..ro + n + 1]), Val(tabu[0..n + 2 * h - l + 2][2 * h - l..]);
             InRange(x, y, l, h)
    modifies tabr
    ensures Kept(old(tabr[..]), tabr[..], ro, n + 1)
    ensures Val(tabr[ro..ro + n + 1]) ==
            old(Val(tabr[ro + l..ro + n + 1])) * Pow(l) + Val(tabu[0..n + 2 * h - l + 2][2 * h - l..])
  {
    hide Val, Pow, InRange, Kept;
    ghost var was, u := tabr[..], tabu[..];
    Copy(tabr, ro, tabu, 2 * h - l, l);
    ghost var before := tabr[..];
    KeptRow(was, before, ro, l, ro + l, ro + n);
    var c := MpAdd(tabr, ro + l, tabr, ro + l, tabu, 2 * h, h, 0);
    AddedRow(was, before, tabr[..], u, ro, l, h, c);
  }

  lemma {:induction false} KeptJoin(s: seq<Limb>, t: seq<Limb>, u: seq<Limb>, o: nat, l: nat, h: nat)
    requires o + l + h < |s| && Kept(s, t, o, l) && Kept(t, u, o + l, h)
    ensures |t| == |u| == |s| && Kept(s, u, o, l + h + 1) && u[o + l + h] == s[o + l + h]
  {
  }

  // the rows that NewtonAdd leaves
  lemma {:induction false} AddedRow(was: seq<Limb>, mid: seq<Limb>, now: seq<Limb>, t: seq<Limb>, o: nat, l: nat,
                                    h: nat, c: Limb)
    requires l <= h && o + l + h + 1 <= |was| && 3 * h + 2 <= |t| && c <= 1
    requires Kept(was, mid, o, l) && mid[o..o + l] == t[2 * h - l..2 * h - l + l] && Kept(mid, now, o + l, h)
    requires InRange(Val(was[o + l..o + l + h + 1]), Val(t[0..3 * h + 2][2 * h - l..]), l, h)
    requires Val(now[o + l..o + l + h]) + c * Pow(h) == Val(was[o + l..o + l + h]) + Val(t[2 * h..2 * h + h]) + 0
    ensures Kept(was, now, o, l + h + 1)
    ensures Val(now[o..o + l + h + 1]) == Val(was[o + l..o + l + h + 1]) * Pow(l) + Val(t[0..3 * h + 2][2 * h - l..])
  {
    hide Val, Pow, InRange, Kept;
    KeptJoin(was, mid, now, o, l, h);
    KeptRow(mid, now, o + l, h, o, o + l);
    var u, x, sum := t[0..3 * h + 2], was[o + l..o + l + h + 1], now[o + l..o + l + h];
    CorrectionRows(t, l, h);
    WholeRow(was, o + l, h);
    FourRows(now, o, l, h);
    JoinRows(u, x, sum, c, Val(u[2 * h - l..]), l, h);
  }

  lemma {:induction false} CorrectionRows(t: seq<Limb>, l: nat, h: nat)
    requires l <= h && 3 * h + 2 <= |t|
    ensures var u := t[0..3 * h + 2];
            u[2 * h - l..2 * h] == t[2 * h - l..2 * h - l + l] && u[2 * h..3 * h] == t[2 * h..2 * h + h]
  {
    SubRow(t, 0, 3 * h + 2, 2 * h - l, 2 * h);
    SubRow(t, 0, 3 * h + 2, 2 * h, 3 * h);
  }

  lemma {:induction false} FourRows(s: seq<Limb>, o: nat, l: nat, h: nat)
    requires o + l + h < |s|
    ensures s[o..o + l + h + 1] == s[o..o + l] + s[o + l..o + l + h] + [s[o + l + h]]
  {
    JoinedRow(s, o, o + l, o + l + h);
    WholeRow(s, o, l + h);
  }

  lemma {:induction false} WholeRow(s: seq<Limb>, o: nat, n: nat)
    requires o + n < |s|
    ensures s[o..o + n + 1] == s[o..o + n] + [s[o + n]]
    ensures s[o..o + n + 1][..n] == s[o..o + n] && s[o..o + n + 1][n] == s[o + n]
  {
  }

  // x and y make a number of h + l limbs and a one
  ghost predicate InRange(x: int, y: int, l: nat, h: nat) {
    0 <= y < Pow(h) * Pow(l) && Pow(h) <= x < 2 * Pow(h) && x * Pow(l) + y < 2 * (Pow(h) * Pow(l))
  }

  lemma {:induction false} NewtonValue(a: seq<Limb>, x: int, t: seq<Limb>, u: seq<Limb>, n: nat, l: nat, h: nat)
    requires n >= 3 && l == (n - 1) / 2 && h == n - l && |a| == n && Normalized(a[n - 1])
    requires |t| == n + h + 1 && |u| == n + 2 * h - l + 2 && Residual(Val(a), x, Val(t), n, h)
             && Val(u) == Val(t[l..]) * x
    ensures var y := Val(u[2 * h - l..]); IsRecip(Val(a), x * Pow(l) + y, Pow(n)) && InRange(x, y, l, h)
  {
    hide Val, Pow, Sizes;
    NewtonSizes(a, n, l, h);
    ValDiv(t, l);
    ValDiv(u, 2 * h - l);
    NewtonNumbers(Val(a), x, Val(t), Val(u), Val(u[2 * h - l..]), n, l, h);
  }

  lemma {:induction false} Positive(a: int, x: int, t: int, n: nat, h: nat)
    requires Lowering(a, x, t, n, h)
    ensures 0 < t
  {
    MulMono(1, x, a);
    assert x * a == a * x;
  }

  lemma {:induction false} NewtonNumbers(a: int, x: int, t: int, u: int, y: int, n: nat, l: nat, h: nat)
    requires Residual(a, x, t, n, h) && n == h + l && l <= 2 * h
    requires Sizes(a, Pow(h), Pow(l), Pow(2 * h - l)) && Pow(h) * Pow(l) == Pow(n)
    requires u == (t / Pow(l)) * x && y == u / Pow(2 * h - l)
    ensures IsRecip(a, x * Pow(l) + y, Pow(n)) && InRange(x, y, l, h)
  {
    hide Pow, Sizes, IsRecip;
    PowAdd(n, h);
    TwoMore(a, x);
    NewtonInts(a, x, t, u, y, Pow(h), Pow(l), Pow(2 * h - l));
  }

  lemma {:induction false} NewtonInts(a: int, x: int, t: int, u: int, y: int, ph: int, pl: int, pk: int)
    requires 0 < pl && 0 < pk && Sizes(a, ph, pl, pk)
    requires a * x == (ph * pl) * ph - t && (ph * pl) * ph < a * (x + 2) && ph <= x && 0 < t
    requires u == (t / pl) * x && y == u / pk
    ensures IsRecip(a, x * pl + y, ph * pl) && 0 <= y < ph * pl && x < 2 * ph && x * pl + y < 2 * (ph * pl)
  {
    hide Sizes, IsRecip;
    TwoMore(a, x);
    RecipStep(a, x, t, t / pl, u, y, ph, pl, pk);
    BelowTwice(a, x, y, ph, pl);
  }

  lemma {:induction false} TwoMore(a: int, x: int)
    ensures a * (x + 2) == a * x + 2 * a
  {
  }

  lemma {:induction false} BelowTwice(a: int, x: int, y: int, ph: int, pl: int)
    requires IsRecip(a, x * pl + y, ph * pl) && 0 < pl && 0 <= y
    ensures x < 2 * ph && x * pl + y < 2 * (ph * pl)
  {
    assert (2 * ph) * pl == 2 * (ph * pl);
    Cancel(x, 2 * ph, pl);
  }

  // The large division.

  // x is a reciprocal of the divisor, scaled to n limbs
  ghost predicate ScaledRecip(b: int, x: int, n: nat, nb: nat) {
    Pow(n) <= x < 2 * Pow(n) && Close(b, x, Pow(n + nb), if n >= nb then 2 else 8)
  }

  lemma {:induction false} ScaledExact(bs: seq<Limb>, t: seq<Limb>, x: int, n: nat)
    requires 1 <= |bs| <= n && Normalized(bs[|bs| - 1]) && t == Zeros(n - |bs|) + bs
    ensures Normalized(t[n - 1]) && (IsRecip(Val(t), x, Pow(n)) ==> ScaledRecip(Val(bs), x, n, |bs|))
  {
    hide Val, Pow;
    var nb := |bs|;
    ValZeros(n - nb);
    ValAppend(Zeros(n - nb), bs);
    NormalizedVal(bs);
    PowAdd(n - nb, n + nb);
    PowAdd(n, n);
    var g := Pow(n - nb);
    assert g * Val(bs) == Val(bs) * g;
    if IsRecip(Val(t), x, Pow(n)) {
      ExactDivisor(Val(bs), g, x, Pow(n), Pow(n + nb));
    }
  }

  lemma {:induction false} ScaledTruncated(bs: seq<Limb>, top: seq<Limb>, t: seq<Limb>, c: Limb, x: int, n: nat)
    requires 1 <= n < |bs| && Normalized(bs[|bs| - 1]) && top == bs[|bs| - n..] && |t| == n && c <= 1
    requires Val(t) + c * Pow(n) == Val(top) + 1
    ensures c == 0 ==> Normalized(t[n - 1])
    ensures (if c == 0 then IsRecip(Val(t), x, Pow(n)) else x == Pow(n)) ==> ScaledRecip(Val(bs), x, n, |bs|)
  {
    hide Val, Pow;
    var nb := |bs|;
    var e, t1 := Pow(nb - n), Val(top) + 1;
    NormalizedVal(bs);
    NormalizedVal(top);
    ValDiv(bs, nb - n);
    ValBound(t);
    PowAdd(nb - n, n + n);
    PowAdd(nb - n, n);
    PowAdd(n, n);
    if c == 0 {
      TopNormalized(t);
      if IsRecip(Val(t), x, Pow(n)) {
        TruncatedDivisor(Val(bs), e, t1, x, Pow(n), Pow(n + nb));
      }
    } else {
      ValBound(top);
      assert t1 == Pow(n);
      if x == Pow(n) {
        NearOwn(Pow(n));
        TruncatedDivisor(Val(bs), e, t1, x, Pow(n), Pow(n + nb));
      }
    }
  }

  lemma {:induction false} NearOwn(p: int)
    requires p > 0
    ensures NearRecip(p, p, p)
  {
    assert p * (p + 2) == p * p + 2 * p;
  }

  // the reciprocal of the divisor, extended with low zeros or cut to its top limbs plus one
  method ScaledReciprocal(tabInv: array<Limb>, tabt: array<Limb>, tabb: array<Limb>, bo: nat, nb: nat, n: nat)
    requires n >= 1 && nb >= 1 && Fits(tabInv, 0, n + 1) && Fits(tabt, 0, n) && Fits(tabb, bo, nb)
    requires tabInv != tabt && tabInv != tabb && tabt != tabb && Normalized(tabb[bo + nb - 1])
    modifies tabInv, tabt
    ensures ScaledRecip(Val(tabb[bo..bo + nb]), Val(tabInv[0..n + 1]), n, nb)
    decreases 2, 0
  {
    hide Val, Pow, IsRecip, ScaledRecip;
    ghost var bs := tabb[bo..bo + nb];
    if n >= nb {
      forall i | 0 <= i < n {
        tabt[i] := if i < n - nb then 0 else tabb[bo + i - (n - nb)];
      }
      ghost var t := tabt[0..n];
      assert t == Zeros(n - nb) + bs;
      ScaledExact(bs, t, 0, n);
      MpRecip(tabInv, 0, tabt, 0, n);
      ScaledExact(bs, t, Val(tabInv[0..n + 1]), n);
    } else {
      Copy(tabt, 0, tabb, bo + nb - n, n);
      ghost var top := tabt[0..n];
      assert top == bs[nb - n..];
      var c := MpAddUi(tabt, 0, 1, n);
      ghost var t := tabt[0..n];
      ScaledTruncated(bs, top, t, c, 0, n);
      if c != 0 {
        forall i | 0 <= i < n + 1 {
          tabInv[i] := if i < n then 0 else 1;
        }
        assert tabInv[0..n + 1] == Zeros(n) + [1];
        ValZeros(n);
        ValPush(Zeros(n), 1);
      } else {
        MpRecip(tabInv, 0, tabt, 0, n);
      }
      ScaledTruncated(bs, top, t, c, Val(tabInv[0..n + 1]), n);
    }
    assert tabb[bo..bo + nb] == bs;
  }

  // the quotient found is not too large and at most three too small
  ghost predicate NearQuotient(a: int, b: int, q: int) {
    0 < b && q * b <= a < q * b + 4 * b
  }

  lemma {:induction false} LargeValue(a: seq<Limb>, b: int, x: int, u: seq<Limb>, n: nat, nq: nat, nb: nat)
    requires |a| == nq + nb && nq <= n <= nq + 1 && n + 1 <= |a| && (n >= nb || n == nq + 1) && 0 < b
    requires ScaledRecip(b, x, n, nb) && |u| == 2 * (n + 1) && Val(u) == x * Val(a[|a| - (n + 1)..])
    ensures NearQuotient(Val(a), b, Val(u[2 * n + 1 - nq..]))
  {
    hide Val, Pow;
    var na := |a|;
    ValDiv(a, na - n - 1);
    ValDiv(u, 2 * n + 1 - nq);
    ValBound(a);
    PowAdd(na - n - 1, 2 * n + 1 - nq);
    PowMono(na, n + nb);
    PowNext(na);
    PowNext(n);
    PowMono(n + 1, 2 * n + 1 - nq);
    var s, m := Pow(na - n - 1), Pow(2 * n + 1 - nq);
    MulMono(2 * Pow(n), m, s);
    assert m * s == s * m;
    var slack := if n >= nb then 2 else 8;
    LargeQuotient(Val(a), b, x, Pow(n), s, m, Val(a[na - n - 1..]), Val(u[2 * n + 1 - nq..]), Pow(n + nb), slack);
  }

  // R = A - B * Q, which fits in nb + 1 limbs
  lemma {:induction false} LowRest(x: seq<Limb>, y: seq<Limb>, r: seq<Limb>, k: Limb, b: int, q: int, nb: nat)
    requires nb + 1 <= |x| && nb + 1 <= |y| && |r| == nb + 1 && k <= 1 && b < Pow(nb)
    requires Val(y) == q * b && NearQuotient(Val(x), b, q)
    requires Val(r) + Val(y[..nb + 1]) == Val(x[..nb + 1]) + k * Pow(nb + 1)
    ensures Val(x) == q * b + Val(r)
  {
    hide Val, Pow;
    ValSplit(x, nb + 1);
    ValSplit(y, nb + 1);
    ValBound(r);
    PowNext(nb);
    var p := Pow(nb + 1);
    var d := Val(x[nb + 1..]) - Val(y[nb + 1..]) + k;
    assert d * p == p * Val(x[nb + 1..]) - p * Val(y[nb + 1..]) + k * p;
    assert Val(x) - q * b == Val(r) + (d - 2 * k) * p by {
      assert (d - 2 * k) * p == d * p - 2 * (k * p);
    }
    Cancel(d - 2 * k, 1, p);
    Cancel(-1, d - 2 * k, p);
  }

  // during the final corrections: q and r share out the dividend
  ghost predicate Correcting(a: int, b: int, q: int, r: int, left: int, p: int, pq: int) {
    0 < b <= p <= 2 * b && a == q * b + r && 0 <= q && 0 <= r < left * b && a < pq * p
  }

  lemma {:induction false} CorrectStep(a: int, b: int, q: int, r: int, left: int, p: int, pq: int)
    requires Correcting(a, b, q, r, left, p, pq) && b <= r && 0 < pq
    ensures 1 < left && Correcting(a, b, q + 1, r - b, left - 1, p, pq) && q + 1 < B * pq
  {
    MulAdd(q, 1, b);
    MulAdd(left, -1, b);
    Cancel(1, left, b);
    MulMono(p, 2 * b, pq);
    assert p * pq == pq * p && (2 * b) * pq == (2 * pq) * b;
    Cancel(q + 1, 2 * pq, b);
  }

  lemma {:induction false} CorrectEnd(a: int, b: int, q: int, r: int, left: int, p: int, pq: int)
    requires Correcting(a, b, q, r, left, p, pq) && r < b && 0 < pq
    ensures IsQuotient(a, b, q, r) && q < 2 * pq
  {
    MulMono(p, 2 * b, pq);
    assert p * pq == pq * p && (2 * b) * pq == (2 * pq) * b;
    Cancel(q, 2 * pq, b);
  }

  // the rest in nb + 1 limbs is compared with the divisor
  lemma {:induction false} CompareRest(r: seq<Limb>, b: int, nb: nat)
    requires |r| == nb + 1 && b <= Pow(nb)
    ensures r[nb] == 0 && Val(r[..nb]) < b ==> Val(r) == Val(r[..nb])
    ensures !(r[nb] == 0 && Val(r[..nb]) < b) ==> b <= Val(r)
  {
    hide Val, Pow;
    TopOf(r, nb);
  }

  // subtract the divisor once more, the borrow going to the limb above
  method SubtractOnce(taba: array<Limb>, ao: nat, tabb: array<Limb>, bo: nat, nb: nat)
    requires Fits(taba, ao, nb + 1) && Fits(tabb, bo, nb) && taba != tabb
    requires Val(tabb[bo..bo + nb]) <= Val(taba[ao..ao + nb + 1])
    modifies taba
    ensures Kept(old(taba[..]), taba[..], ao, nb + 1)
    ensures Val(taba[ao..ao + nb + 1]) == old(Val(taba[ao..ao + nb + 1])) - Val(tabb[bo..bo + nb])
  {
    hide Val, Pow;
    ghost var r := taba[ao..ao + nb + 1];
    assert r[..nb] == taba[ao..ao + nb] && r[nb..] == [r[nb]];
    var c: int := MpSub(taba, ao, taba, ao, tabb, bo, nb, 0);
    var top: int := taba[ao + nb];
    taba[ao + nb] := Wrap(top - c);
    ghost var r1 := taba[ao..ao + nb + 1];
    assert r1[..nb] == taba[ao..ao + nb] && r1[nb..] == [r1[nb]];
    ValOne(r[nb]);
    ValOne(r1[nb]);
    SubHigh(r, r1, nb, Val(tabb[bo..bo + nb]), c, if top < c then 1 else 0);
  }

  // The quotient found is at most three too small: it is stepped up until the rest is smaller
  // than the divisor.
  method CorrectQuotient(tabq: array<Limb>, qo: nat, nq: nat, taba: array<Limb>, ao: nat, tabb: array<Limb>, bo: nat,
                         nb: nat, ghost a: int)
    returns (ghost steps: nat)
    requires Fits(tabq, qo, nq + 1) && Fits(taba, ao, nb + 1) && Fits(tabb, bo, nb)
    requires tabq != taba && tabq != tabb && taba != tabb
    requires Correcting(a, Val(tabb[bo..bo + nb]), Val(tabq[qo..qo + nq + 1]), Val(taba[ao..ao + nb + 1]), 4, Pow(nb),
                        Pow(nq))
    modifies tabq, taba
    ensures Kept(old(tabq[..]), tabq[..], qo, nq + 1) && Kept(old(taba[..]), taba[..], ao, nb + 1)
    ensures IsQuotient(a, Val(tabb[bo..bo + nb]), Val(tabq[qo..qo + nq + 1]), Val(taba[ao..ao + nb]))
    ensures tabq[qo + nq] <= 1 && steps <= 3
    ensures Val(tabq[qo..qo + nq + 1]) == old(Val(tabq[qo..qo + nq + 1])) + steps
  {
    hide Val, Pow, Correcting, IsQuotient;
    ghost var b, left := Val(tabb[bo..bo + nb]), 4;
    steps := 0;
    ValBound(tabb[bo..bo + nb]);
    while true
      invariant Kept(old(tabq[..]), tabq[..], qo, nq + 1) && Kept(old(taba[..]), taba[..], ao, nb + 1)
      invariant Correcting(a, b, Val(tabq[qo..qo + nq + 1]), Val(taba[ao..ao + nb + 1]), left, Pow(nb), Pow(nq))
      invariant 1 <= left <= 4 && steps == 4 - left
      invariant Val(tabq[qo..qo + nq + 1]) == old(Val(tabq[qo..qo + nq + 1])) + steps
      decreases left
    {
      ghost var r, q := taba[ao..ao + nb + 1], tabq[qo..qo + nq + 1];
      assert r[..nb] == taba[ao..ao + nb];
      CompareRest(r, b, nb);
      var c := MpCmp(taba, ao, tabb, bo, nb);
      if taba[ao + nb] == 0 && c < 0 {
        CorrectEnd(a, b, Val(q), Val(r), left, Pow(nb), Pow(nq));
        SmallTopLimb(q, nq);
        break;
      }
      CorrectStep(a, b, Val(q), Val(r), left, Pow(nb), Pow(nq));
      SubtractOnce(taba, ao, tabb, bo, nb);
      var k := MpAddUi(tabq, qo, 1, nq + 1);
      NoCarry(tabq[qo..qo + nq + 1], Val(q), k, nq);
      left, steps := left - 1, steps + 1;
    }
  }

  lemma {:induction false} SmallTopLimb(q: seq<Limb>, n: nat)
    requires |q| == n + 1 && Val(q) < 2 * Pow(n)
    ensures q[n] <= 1
  {
    hide Val, Pow;
    TopOf(q, n);
    Cancel(q[n], 2, Pow(n));
  }

  lemma {:induction false} NoCarry(s: seq<Limb>, x: int, k: Limb, n: nat)
    requires |s| == n + 1 && Val(s) + k * Pow(n + 1) == x + 1 && 0 <= x && x + 1 < B * Pow(n)
    ensures k == 0 && Val(s) == x + 1
  {
    hide Val, Pow;
    PowNext(n);
    Cancel(k, 1, Pow(n + 1));
  }

  // subquadratic division: multiply by the reciprocal of the divisor, then correct. The products
  // are schoolbook ones here and in the reciprocal, where the source goes over to fft_mul from
  // FFT_MUL_THRESHOLD limbs on.
  method MpDivnormLarge(tabq: array<Limb>, qo: nat, taba: array<Limb>, ao: nat, na: nat, tabb: array<Limb>, bo: nat,
                        nb: nat)
    requires 1 <= nb < na && Fits(tabq, qo, na - nb + 1) && Fits(taba, ao, na) && Fits(tabb, bo, nb)
    requires tabq != taba && tabq != tabb && taba != tabb && Normalized(tabb[bo + nb - 1])
    modifies tabq, taba
    ensures Kept(old(tabq[..]), tabq[..], qo, na - nb + 1) && Kept(old(taba[..]), taba[..], ao, na)
    ensures IsQuotient(old(Val(taba[ao..ao + na])), Val(tabb[bo..bo + nb]), Val(tabq[qo..qo + na - nb + 1]),
                       Val(taba[ao..ao + nb]))
    ensures tabq[qo + na - nb] <= 1
    decreases 2, 1
  {
    hide Val, Pow, ScaledRecip, NearQuotient, Correcting, IsQuotient;
    var nq := na - nb;
    var n := if nq < nb then nq + 1 else nq;
    ghost var a, bs := taba[ao..ao + na], tabb[bo..bo + nb];
    var tabInv := new Limb[n + 1](_ => 0);
    var tabt := new Limb[2 * (n + 1)](_ => 0);
    ScaledReciprocal(tabInv, tabt, tabb, bo, nb, n);
    ghost var x := Val(tabInv[0..n + 1]);
    // Q = A * B^-1
    MpMulBasecase(tabt, 0, tabInv, 0, n + 1, taba, ao + na - (n + 1), n + 1);
    ghost var u := tabt[0..2 * (n + 1)];
    assert a[na - (n + 1)..] == taba[ao + na - (n + 1)..ao + na];
    NormalizedVal(bs);
    ValNonZero(bs);
    LargeValue(a, Val(bs), x, u, n, nq, nb);
    Copy(tabq, qo, tabt, 2 * (n + 1) - (nq + 1), nq + 1);
    assert tabq[qo..qo + nq + 1] == u[2 * n + 1 - nq..];
    assert taba[ao..ao + na] == a && tabb[bo..bo + nb] == bs;
    LargeRest(tabq, qo, nq, taba, ao, na, tabb, bo, nb);
    ghost var steps := CorrectQuotient(tabq, qo, nq, taba, ao, tabb, bo, nb, Val(a));
  }

  lemma {:induction false} ValNonZero(bs: seq<Limb>)
    requires |bs| >= 1 && Normalized(bs[|bs| - 1])
    ensures 0 < Val(bs)
  {
    NormalizedVal(bs);
  }

  // R = A - B * Q
  method LargeRest(tabq: array<Limb>, qo: nat, nq: nat, taba: array<Limb>, ao: nat, na: nat, tabb: array<Limb>, bo: nat,
                   nb: nat)
    requires 1 <= nb && 1 <= nq && na == nq + nb && Fits(tabq, qo, nq + 1) && Fits(taba, ao, na) && Fits(tabb, bo, nb)
    requires tabq != taba && tabq != tabb && taba != tabb && Normalized(tabb[bo + nb - 1])
    requires NearQuotient(Val(taba[ao..ao + na]), Val(tabb[bo..bo + nb]), Val(tabq[qo..qo + nq + 1]))
    modifies taba
    ensures Kept(old(taba[..]), taba[..], ao, nb + 1)
    ensures Correcting(old(Val(taba[ao..ao + na])), Val(tabb[bo..bo + nb]), Val(tabq[qo..qo + nq + 1]),
                       Val(taba[ao..ao + nb + 1]),
                       4, Pow(nb), Pow(nq))
  {
    hide Val, Pow, NearQuotient, Correcting;
    ghost var a, b, q := taba[ao..ao + na], tabb[bo..bo + nb], Val(tabq[qo..qo + nq + 1]);
    var tabt := new Limb[na + 1](_ => 0);
    MpMulBasecase(tabt, 0, tabq, qo, nq + 1, tabb, bo, nb);
    ghost var y := tabt[0..na + 1];
    assert y[..nb + 1] == tabt[0..nb + 1] && a[..nb + 1] == taba[ao..ao + nb + 1];
    var k := MpSub(taba, ao, taba, ao, tabt, 0, nb + 1, 0);
    assert tabb[bo..bo + nb] == b;
    RestCorrecting(a, y, taba[ao..ao + nb + 1], k, b, q, nq, nb);
  }

  lemma {:induction false} RestCorrecting(x: seq<Limb>, y: seq<Limb>, r: seq<Limb>, k: Limb, bs: seq<Limb>, q: int,
                                          nq: nat, nb: nat)
    requires |bs| == nb >= 1 && Normalized(bs[nb - 1]) && |x| == nq + nb && 1 <= nq && 0 <= q
    requires nb + 1 <= |y| && |r| == nb + 1 && k <= 1
    requires Val(y) == q * Val(bs) && NearQuotient(Val(x), Val(bs), q)
    requires Val(r) + Val(y[..nb + 1]) == Val(x[..nb + 1]) + k * Pow(nb + 1)
    ensures Correcting(Val(x), Val(bs), q, Val(r), 4, Pow(nb), Pow(nq))
  {
    hide Val, Pow;
    NormalizedVal(bs);
    LowRest(x, y, r, k, Val(bs), q, nb);
    ValBound(x);
    PowAdd(nq, nb);
  }
}
