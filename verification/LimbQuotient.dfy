/** One quotient limb of the schoolbook division of libbf.c: the estimate from the top limbs
    is at most two too large, and adding back puts it right. */
module LimbQuotient {
  import opened Limbs
  import opened LimbInverse

  // For a normalized divisor b the estimate q is between the quotient and the quotient plus two.
  lemma {:induction false} EstimateBound(w: int, b: int, b1: int, b0: int, a1: int, a0: int, rest: int, p: int, q: int)
    requires p > 0 && B <= 2 * b1 < 2 * B && 0 <= b0 < p && b == b0 + b1 * p
    requires 0 <= a1 < B && 0 <= a0 < B && 0 <= rest < p && w == rest + (a0 + B * a1) * p && w < B * b
    requires q == if a1 >= b1 then B - 1 else (a1 * B + a0) / b1
    ensures 0 <= q < B && -2 * b <= w - q * b < b
  {
    if a1 >= b1 {
      TopEqual(w, b, b1, b0, a1, a0, rest, p);
    } else {
      DivMod(a1 * B + a0, b1);
      QuotientBound(a1 * B + a0, b1, B) by { MulMono(a1, b1 - 1, B); }
      TopBelow(w, b, b1, b0, a0 + B * a1, rest, p, q);
    }
  }

  lemma {:induction false} TopEqual(w: int, b: int, b1: int, b0: int, a1: int, a0: int, rest: int, p: int)
    requires p > 0 && B <= 2 * b1 < 2 * B && 0 <= b0 < p && b == b0 + b1 * p && a1 >= b1
    requires 0 <= a0 && 0 <= rest && w == rest + (a0 + B * a1) * p && w < B * b
    ensures -2 * b <= w - (B - 1) * b < b
  {
    MulMono(B * b1, a0 + B * a1, p);
    assert (B * b1) * p == B * (b1 * p);
    MulMono(B, 2 * b1, p);
    assert (2 * b1) * p == 2 * (b1 * p);
  }

  lemma {:induction false} TopBelow(w: int, b: int, b1: int, b0: int, top: int, rest: int, p: int, q: int)
    requires p > 0 && B <= 2 * b1 < 2 * B && 0 <= b0 < p && b == b0 + b1 * p
    requires 0 <= top && 0 <= rest < p && w == rest + top * p && 0 <= q < B && q * b1 <= top < q * b1 + b1
    ensures -2 * b <= w - q * b < b
  {
    TopTerms(b1, b0, top, p, q);
    assert q * b == q * b0 + (q * b1) * p by {
      assert q * b == q * b0 + q * (b1 * p);
      assert q * (b1 * p) == (q * b1) * p;
    }
  }

  lemma {:induction false} TopTerms(b1: int, b0: int, top: int, p: int, q: int)
    requires p > 0 && B <= 2 * b1 && 0 <= b0 < p && 0 <= q < B && q * b1 <= top < q * b1 + b1
    ensures 0 <= q * b0 <= 2 * (b1 * p) && (q * b1) * p <= top * p && top * p + p <= (q * b1) * p + b1 * p
  {
    MulMono(q * b1, top, p);
    MulNat(q, b0);
    MulMono(top + 1, q * b1 + b1, p);
    MulAdd(top, 1, p);
    MulAdd(q * b1, b1, p);
    MulMono(b0, p, q);
    MulMono(q, 2 * b1, p);
    assert q * b0 == b0 * q && p * q == q * p && (2 * b1) * p == 2 * (b1 * p);
  }

  // an estimate is at most two too large, and not too small
  ghost predicate InReach(w: int, b: int, q: int) {
    0 < b && -2 * b <= w - q * b < b
  }

  ghost predicate IsQuotient(w: int, b: int, q: int, r: int) {
    w == q * b + r && 0 <= r < b
  }

  // what the window holds while the quotient limb is too large
  ghost predicate Negative(low: nat, top: int, w: int, q: int, b: int, p: int, left: int) {
    0 < b && w - q * b == low + (top - B) * p && w - q * b < 0 && 0 <= w - q * b + left * b
  }

  lemma {:induction false} AddedBack(low: nat, top: Limb, w: int, q: int, b: int, p: int, left: int, low1: nat, c: Limb)
    requires Negative(low, top, w, q, b, p, left) && p > 0 && c <= 1 && low1 < p
    requires low1 + c * p == low + b
    ensures left > 0 && (w >= 0 ==> q >= 1)
    ensures top + c == B ==> IsQuotient(w, b, q - 1, low1)
    ensures top + c < B ==> Negative(low1, top + c, w, q - 1, b, p, left - 1)
  {
    assert (q - 1) * b == q * b - b;
    assert (top + c - B) * p == (top - B) * p + c * p;
    if left <= 0 {
      MulMono(left, 0, b);
      assert false;
    }
    assert (left - 1) * b == left * b - b;
    Cancel(0, q, b);
    if top + c < B {
      MulMono(top + c - B, -1, p);
    }
  }

  lemma {:induction false} AddedRow(low: seq<Limb>, top: Limb, w: int, q: int, b: int, left: int, low1: seq<Limb>,
                                    c: Limb)
    requires |low| == |low1| && Negative(Val(low), top, w, q, b, Pow(|low|), left) && c <= 1
    requires Val(low1) + c * Pow(|low|) == Val(low) + b + 0
    ensures left > 0 && (w >= 0 ==> q >= 1)
    ensures top + c == B ==> IsQuotient(w, b, q - 1, Val(low1))
    ensures top + c < B ==> Negative(Val(low1), top + c, w, q - 1, b, Pow(|low|), left - 1)
  {
    hide Val, Pow, Negative, IsQuotient;
    ValBound(low1);
    AddedBack(Val(low), top, w, q, b, Pow(|low|), left, Val(low1), c);
  }

  // Subtract q times the divisor from a window of nb + 1 limbs, and add it back while the
  // result is negative: at most twice.
  method Reduce(taba: array<Limb>, o: nat, tabb: array<Limb>, bo: nat, nb: nat, estimate: Limb)
    returns (q: Limb, ghost adds: nat)
    requires Fits(taba, o, nb + 1) && Fits(tabb, bo, nb) && taba != tabb
    requires InReach(Val(taba[o..o + nb + 1]), Val(tabb[bo..bo + nb]), estimate)
    modifies taba
    ensures Kept(old(taba[..]), taba[..], o, nb + 1) && adds <= 2 && q == estimate - adds
    ensures IsQuotient(old(Val(taba[o..o + nb + 1])), Val(tabb[bo..bo + nb]), q, Val(taba[o..o + nb]))
  {
    hide Val, Pow, Negative, IsQuotient, InReach;
    ghost var w, b, p := Val(taba[o..o + nb + 1]), Val(tabb[bo..bo + nb]), Pow(nb);
    ghost var z := taba[o..o + nb + 1];
    assert z[..nb] == taba[o..o + nb];
    q, adds := estimate, 0;
    var r: int := MpSubMul1(taba, o, tabb, bo, nb, q);
    var v: int := taba[o + nb];
    var a := Wrap(v - r);
    var c: Limb := if a > v then 1 else 0;
    taba[o + nb] := a;
    ValBound(tabb[bo..bo + nb]);
    ValBound(taba[o..o + nb]);
    FirstTry(z, nb, Val(taba[o..o + nb]), r, q, b);
    if c != 0 {
      q, adds := AddBack(taba, o, tabb, bo, nb, q, w);
    }
  }

  // the loop that adds the divisor back until the top limb wraps to zero
  method AddBack(taba: array<Limb>, o: nat, tabb: array<Limb>, bo: nat, nb: nat, estimate: Limb, ghost w: nat)
      returns (q: Limb, ghost adds: nat)
    requires Fits(taba, o, nb + 1) && Fits(tabb, bo, nb) && taba != tabb
    requires Negative(Val(taba[o..o + nb]), taba[o + nb], w, estimate, Val(tabb[bo..bo + nb]), Pow(nb), 2)
    modifies taba
    ensures Kept(old(taba[..]), taba[..], o, nb + 1) && adds <= 2 && q == estimate - adds
    ensures IsQuotient(w, Val(tabb[bo..bo + nb]), q, Val(taba[o..o + nb]))
  {
    hide Val, Pow, Negative, IsQuotient;
    ghost var b := Val(tabb[bo..bo + nb]);
    q, adds := estimate, 0;
    while true
      invariant adds <= 2 && q == estimate - adds
      invariant Kept(old(taba[..]), taba[..], o, nb + 1)
      invariant Negative(Val(taba[o..o + nb]), taba[o + nb], w, q, b, Pow(nb), 2 - adds)
      decreases 2 - adds
    {
      var top: int := taba[o + nb];
      ghost var low := taba[o..o + nb];
      var c := MpAdd(taba, o, taba, o, tabb, bo, nb, 0);
      AddedRow(low, top, w, q, b, 2 - adds, taba[o..o + nb], c);
      q, adds := q - 1, adds + 1;
      if c != 0 {
        taba[o + nb] := Wrap(top + 1);
        if taba[o + nb] == 0 {
          break;
        }
      }
    }
  }

  lemma {:induction false} FirstTry(z: seq<Limb>, n: nat, low: nat, r: Limb, q: int, b: int)
    requires |z| == n + 1 && low < Pow(n) && b < Pow(n) && InReach(Val(z), b, q)
    requires low + b * q == Val(z[..n]) + r * Pow(n)
    ensures z[n] >= r ==> Wrap(z[n] - r) <= z[n] && IsQuotient(Val(z), b, q, low)
    ensures z[n] < r ==> Wrap(z[n] - r) > z[n] && Negative(low, Wrap(z[n] - r), Val(z), q, b, Pow(n), 2)
  {
    TopLimb(z, n);
    hide Val, Pow, Wrap, InReach, IsQuotient, Negative;
    var v: int, m: int := z[n], r;
    WrapDifference(v, m);
    FirstNumbers(Val(z), Val(z[..n]), low, v, m, q, b, Pow(n));
  }

  lemma {:induction false} WrapDifference(v: int, r: int)
    requires 0 <= v < B && 0 <= r < B
    ensures Wrap(v - r) == if v < r then v - r + B else v - r
  {
  }

  lemma {:induction false} FirstNumbers(w: int, z: int, low: nat, v: int, r: int, q: int, b: int, p: int)
    requires 0 <= low < p && b < p && InReach(w, b, q) && 0 <= v && w == z + v * p && low + b * q == z + r * p
    ensures v >= r ==> IsQuotient(w, b, q, low) && v == r
    ensures v < r ==> Negative(low, v - r + B, w, q, b, p, 2)
  {
    MulAdd(v, -r, p);
    assert w - q * b == low + (v - r) * p;
    if v > r {
      MulMono(1, v - r, p);
    }
    if v < r {
      MulMono(v - r, -1, p);
    }
  }
}
