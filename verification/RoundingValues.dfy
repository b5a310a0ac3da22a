/** __bf_round on numbers: which place a number is rounded to, what is left, and what the status
    says. Numbers are counted in units of 2^q for a q small enough, so that all are integers. */
module RoundingValues {
  import opened Limbs
  import opened LimbBits
  import opened RoundingModes
  import opened Rounding

  // the number with the significand tab and the exponent expn, in units of 2^q
  function Units(tab: seq<Limb>, expn: int, q: int): nat
    requires tab != [] ==> q <= expn - 64 * |tab|
  {
    if tab == [] then 0 else Times(Val(tab), Two(expn - 64 * |tab| - q))
  }

  // The last place kept, as a power of two: prec1 places after the radix point; prec1 bits from
  // the smallest normal number on when the number is smaller and subnormals are allowed; or
  // prec1 bits of the number itself.
  function Place(e0: int, prec1: nat, flags: Flags): int
    requires flags.expBits >= 1
  {
    if flags.radpntPrec && prec1 != 0x3fff_ffff_ffff_ffff then 0 - prec1
    else if !flags.radpntPrec && flags.subnormal && e0 < 3 - Two(flags.expBits - 1) then
      3 - Two(flags.expBits - 1) - prec1
    else e0 - prec1
  }

  // a unit in which everything in question is an integer
  predicate Small(m: seq<Limb>, e0: int, prec1: nat, flags: Flags, q: int)
    requires flags.expBits >= 1
  {
    q <= e0 - 64 * |m| && q <= Place(e0, prec1, flags) - 63 && q <= 2 - Two(flags.expBits - 1)
  }

  predicate IsZero(expn: int, tab: seq<Limb>) {
    tab == [] && expn == -0x8000_0000_0000_0000
  }

  // What is left of the number m with the exponent e0, and y, which it is rounded to. 2^hi is
  // the end of the range, 2^(2 - hi) the smallest normal number.
  ghost predicate Delivers(m: seq<Limb>, e0: int, prec1: nat, flags: Flags, known: bool, expn: int, tab: seq<Limb>,
                           ret: Status, q: int, y: nat)
    requires flags.expBits >= 1 && Small(m, e0, prec1, flags, q)
  {
    var u, hi := Place(e0, prec1, flags), Two(flags.expBits - 1);
    var tiny := y < Two(2 - hi - q);
    if e0 > u && tiny && !flags.subnormal then IsZero(expn, tab) && ret == Status(false, true, true)
    else if e0 > u && y >= Two(hi - q) then (prec1 > 0 && tab == [] ==> expn == 0x7fff_ffff_ffff_fffe)
      && ret == Status(true, false, true)
    else
      && !ret.overflow && (tab != [] ==> q <= expn - 64 * |tab| && tab[|tab| - 1] >= B / 2) && Units(tab, expn, q) == y
      && (tab == [] ==> IsZero(expn, tab))
      && (ret.inexact <==> known || flags.mode == RNDF || y != Units(m, e0, q))
      && (ret.underflow <==> (ret.inexact && tiny) || e0 <= u)
  }

  lemma {:induction false} PlaceIs(e0: int, prec1: nat, flags: Flags)
    requires flags.expBits >= 1
    ensures Place(e0, prec1, flags) == e0 - Precision(e0, prec1, flags)
  {
  }

  // a number and what it is rounded to, in smaller units
  lemma {:induction false} RoundedScaled(mode: Mode, sign: bool, m: nat, x: nat, ulp: nat, k: nat)
    requires ulp > 0 && k > 0 && Rounded(mode, sign, m, x, ulp)
    ensures ulp * k > 0 && Rounded(mode, sign, m * k, x * k, ulp * k)
  {
    MulMono(1, ulp, k);
    var a := x / ulp;
    DivMod(x, ulp);
    assert x == a * ulp by {
      assert ulp * a == a * ulp;
    }
    assert x * k == a * (ulp * k) + 0 by {
      assert (a * ulp) * k == a * (ulp * k);
    }
    QuotientIs(x * k, ulp * k, a, 0);
    MulAdd(x, 0 - m, k);
    assert (0 - m) * k == 0 - m * k;
    CompareScaled(x - m, ulp, k);
    CompareScaled(m - x, ulp, k);
    CompareScaled(2 * (x - m), ulp, k);
    CompareScaled(2 * (m - x), ulp, k);
    assert (2 * (x - m)) * k == 2 * (x * k - m * k) && (2 * (m - x)) * k == 2 * (m * k - x * k);
    assert (x - m) * k == x * k - m * k && (m - x) * k == m * k - x * k;
  }

  lemma {:induction false} CompareScaled(d: int, u: int, k: nat)
    requires k > 0
    ensures d < u <==> d * k < u * k
    ensures d <= u <==> d * k <= u * k
    ensures d == u <==> d * k == u * k
    ensures 0 <= d <==> 0 <= d * k
  {
    Cancel(d, u, k);
    Cancel(u, d, k);
    Cancel(0, d, k);
    if d <= u {
      MulMono(d, u, k);
    } else {
      MulMono(u + 1, d, k);
      MulAdd(u, 1, k);
    }
    if d < u {
      MulMono(d + 1, u, k);
      MulAdd(d, 1, k);
    }
    if d >= 0 {
      MulMono(0, d, k);
    } else {
      MulMono(d, -1, k);
    }
  }

  // a number that has no place below the last one kept is its own rounding
  lemma {:induction false} RoundedSame(mode: Mode, sign: bool, m: nat, ulp: nat, a: nat)
    requires ulp > 0 && m == a * ulp
    ensures Rounded(mode, sign, m, m, ulp)
  {
    QuotientIs(m, ulp, a, 0);
  }

  lemma {:induction false} TwoOrder(a: nat, b: nat)
    ensures a < b <==> Two(a) < Two(b)
  {
    if a < b {
      TwoGrows(a, b - a);
    } else if b < a {
      TwoGrows(b, a - b);
    }
  }

  lemma {:induction false} TwoGrows(a: nat, d: nat)
    requires d > 0
    ensures Two(a) < Two(a + d)
  {
    if d > 1 {
      TwoGrows(a, d - 1);
    }
  }

  // a significand with its top bit set keeps that when it is rounded, or becomes a power of two
  lemma {:induction false} SigRange(mode: Mode, sign: bool, m: nat, n: nat, prec: int)
    requires n > 0 && prec > 0 && Two(n - 1) <= m < Two(n)
    ensures Two(n - 1) <= RoundedSig(mode, sign, m, n, prec) <= Two(n)
  {
    hide UpBit, Two, Times;
    if prec < n {
      var t, c := Two(n - prec), Two(prec - 1);
      TwoAdd(prec - 1, n - prec);
      TwoAdd(prec, n - prec);
      TwoNext(n - prec - 1);
      TwoNext(prec - 1);
      DivMod(m, t);
      assert t * (m / t) == (m / t) * t;
      MulAdd(m / t, 1, t);
      Cancel(c - 1, m / t, t);
      MulAdd(c, -1, t);
      Cancel(m / t, 2 * c, t);
      MulMono(c, m / t, t);
      MulMono(m / t + 1, 2 * c, t);
      TimesIs(m / t, t);
      TimesIs(m / t + 1, t);
    }
  }

  lemma {:induction false} TimesIs(q: nat, t: nat)
    ensures Times(q, t) == q * t
  {
  }

  // On which side of 2^h the rounded number is can be read off its exponent.
  lemma {:induction false} Threshold(x: nat, n: nat, e0: int, q: int, h: int)
    requires n > 0 && Two(n - 1) <= x <= Two(n) && q <= e0 - n && q <= h
    ensures x * Two(e0 - n - q) >= Two(h - q) <==> e0 + (if x >= Two(n) then 1 else 0) > h
  {
    hide Two;
    var k := Two(e0 - n - q);
    TwoAdd(n, e0 - n - q);
    TwoAdd(n - 1, e0 - n - q);
    MulMono(Two(n - 1), x, k);
    if x < Two(n) {
      MulMono(x + 1, Two(n), k);
      MulAdd(x, 1, k);
      TwoOrder(h - q, e0 - 1 - q);
      TwoOrder(e0 - 1 - q, h - q);
      TwoOrder(e0 - q, h - q);
      TwoOrder(h - q, e0 - q);
    } else {
      TwoOrder(e0 - q, h - q);
      TwoOrder(h - q, e0 - q);
    }
  }

  // the rounded significand, in units of 2^q, is the number rounded at its place
  lemma {:induction false} SigOnValues(mode: Mode, sign: bool, m: seq<Limb>, e0: int, prec: int, q: int)
    requires |m| >= 1 && q <= e0 - 64 * |m| && q <= e0 - prec
    ensures var x := RoundedSig(mode, sign, Val(m), 64 * |m|, prec);
            var k := Two(e0 - 64 * |m| - q);
            && Units(m, e0, q) == Val(m) * k && k > 0
            && x * k >= 0 && Rounded(mode, sign, Units(m, e0, q), x * k, Two(e0 - prec - q))
            && (x == Val(m) <==> x * k == Val(m) * k)
  {
    hide Two, Val, Rounded, UpBit;
    var n := 64 * |m|;
    var x := RoundedSig(mode, sign, Val(m), n, prec);
    var k, ulp := Two(e0 - n - q), Two(e0 - prec - q);
    TimesIs(Val(m), k);
    MulNat(x, k);
    CompareScaled(x, Val(m), k);
    if prec < n {
      RoundedSigCorrect(mode, sign, Val(m), n, prec);
      RoundedScaled(mode, sign, Val(m), x, Two(n - prec), k);
      TwoAdd(n - prec, e0 - n - q);
    } else {
      TwoAdd(prec - n, e0 - prec - q);
      var a := Val(m) * Two(prec - n);
      MulNat(Val(m), Two(prec - n));
      assert a * ulp == Val(m) * (Two(prec - n) * ulp);
      RoundedSame(mode, sign, Val(m) * k, ulp, a);
    }
  }

  // what a row holds, in units of 2^q
  lemma {:induction false} HeldUnits(tab: seq<Limb>, l: nat, grown: bool, x: nat, e0: int, q: int)
    requires Holds(tab, l, grown, x) && q <= e0 - 64 * l
    ensures var e1 := if grown then e0 + 1 else e0;
            q <= e1 - 64 * |tab| && Units(tab, e1, q) == x * Two(e0 - 64 * l - q)
  {
    hide Two, Pow, Val;
    var e1, d, k := if grown then e0 + 1 else e0, l - |tab|, e0 - 64 * l - q;
    TwoPow(d);
    TwoAdd(64 * d, k);
    TwoNext(64 * d + k);
    TimesIs(Val(tab), Two(e1 - 64 * |tab| - q));
    var v, p, t := Val(tab), Two(64 * d), Two(k);
    assert (v * p) * t == v * (p * t);
    assert (v * p * 2) * t == v * (2 * (p * t));
  }

  // one unit of the place rounded to
  lemma {:induction false} UnitUnits(u: int, q: int)
    requires q <= u - 63
    ensures Units([B / 2], u + 1, q) == Two(u - q)
  {
    TwoAdd(63, u - 63 - q);
    TwoNext(63);
    TwoLimb();
    ValOne(B / 2);
    hide Two, Val;
    TimesIs(B / 2, Two(u - 63 - q));
  }

  // __bf_round on numbers, in every mode.
  lemma {:induction false} RoundsOnValues(sign: bool, m: seq<Limb>, e0: int, prec1: nat, flags: Flags, known: bool,
                                          expn: int, tab: seq<Limb>, ret: Status, q: int) returns (y: nat)
    requires flags.expBits >= 1 && |m| >= 1 && m[|m| - 1] >= B / 2
    requires RoundsTo(sign, m, e0, prec1, flags, known, expn, tab, ret) && Small(m, e0, prec1, flags, q)
    ensures Rounded(flags.mode, sign, Units(m, e0, q), y, Two(Place(e0, prec1, flags) - q))
    ensures Delivers(m, e0, prec1, flags, known, expn, tab, ret, q, y)
  {
    hide Two, Val, Pow, Rounded, RoundedSig, Holds, Inexact, Units, Precision, Place, Dropped;
    var n, prec := 64 * |m|, Precision(e0, prec1, flags);
    var hi: int := Two(flags.expBits - 1);
    PlaceIs(e0, prec1, flags);
    var x, k := RoundedSig(flags.mode, sign, Val(m), n, prec), Two(e0 - n - q);
    SigOnValues(flags.mode, sign, m, e0, prec, q);
    y := x * k;
    if flags.mode != RNDF {
      ChangedOnValues(flags.mode, sign, m, prec);
    } else {
      FaithfulInexact(Val(m), n, prec);
    }
    TopNormal(m);
    if prec <= 0 {
      NoBitsLeft(sign, m, e0, prec1, flags, known, expn, tab, ret, q);
    } else {
      SigRange(flags.mode, sign, Val(m), n, prec);
      Threshold(x, n, e0, q, hi);
      Threshold(x, n, e0, q, 2 - hi);
      if Holds(tab, |m|, x >= Two(n), x) {
        HeldUnits(tab, |m|, x >= Two(n), x, e0, q);
        HeldTop(tab, |m|, x >= Two(n), x);
      }
    }
  }

  lemma {:induction false} HeldTop(tab: seq<Limb>, l: nat, grown: bool, x: nat)
    requires Holds(tab, l, grown, x)
    ensures tab != [] && tab[|tab| - 1] >= B / 2
  {
  }

  lemma {:induction false} ChangedOnValues(mode: Mode, sign: bool, m: seq<Limb>, prec: int)
    requires mode != RNDF
    ensures Inexact(mode, Val(m), 64 * |m|, prec) <==> RoundedSig(mode, sign, Val(m), 64 * |m|, prec) != Val(m)
  {
    hide Two, Val;
    if prec < 64 * |m| {
      InexactChanged(mode, sign, Val(m), 64 * |m|, prec);
    }
  }

  lemma {:induction false} FaithfulInexact(m: nat, n: nat, prec: int)
    ensures Inexact(RNDF, m, n, prec)
  {
    hide Dropped;
  }

  lemma {:induction false} TopNormal(m: seq<Limb>)
    requires |m| >= 1 && m[|m| - 1] >= B / 2
    ensures Two(64 * |m| - 1) <= Val(m) < Two(64 * |m|)
  {
    hide Val;
    NormalizedVal(m);
    TwoPow(|m|);
    TwoPow(|m| - 1);
    TwoNext(64 * |m| - 1);
  }

  // nothing or one unit is left of a number below one unit
  lemma {:induction false} NoBitsLeft(sign: bool, m: seq<Limb>, e0: int, prec1: nat, flags: Flags, known: bool,
                                      expn: int, tab: seq<Limb>, ret: Status, q: int)
    requires flags.expBits >= 1 && |m| >= 1 && m[|m| - 1] >= B / 2
    requires RoundsTo(sign, m, e0, prec1, flags, known, expn, tab, ret) && Small(m, e0, prec1, flags, q)
    requires Precision(e0, prec1, flags) <= 0
    ensures var x := RoundedSig(flags.mode, sign, Val(m), 64 * |m|, Precision(e0, prec1, flags));
            Delivers(m, e0, prec1, flags, known, expn, tab, ret, q, x * Two(e0 - 64 * |m| - q))
  {
    hide Two, Val, Pow, RoundedSig, Holds, Inexact, Overflowed, Precision, Place, Dropped;
    var n, prec := 64 * |m|, Precision(e0, prec1, flags);
    PlaceIs(e0, prec1, flags);
    var u, x, k := e0 - prec, RoundedSig(flags.mode, sign, Val(m), n, prec), Two(e0 - n - q);
    TwoAdd(n - prec, e0 - n - q);
    UnitUnits(u, q);
    TopNormal(m);
    TwoOrder(n - 1, n - prec);
    TwoOrder(n, n - prec);
    SigOnValues(flags.mode, sign, m, e0, prec, q);
  }

  // In the deterministic modes this holds of the one correctly rounded number.
  lemma {:induction false} RoundsExactly(sign: bool, m: seq<Limb>, e0: int, prec1: nat, flags: Flags, known: bool,
                                         expn: int, tab: seq<Limb>, ret: Status, q: int, y: nat)
    requires flags.expBits >= 1 && |m| >= 1 && m[|m| - 1] >= B / 2 && flags.mode != RNDF
    requires RoundsTo(sign, m, e0, prec1, flags, known, expn, tab, ret) && Small(m, e0, prec1, flags, q)
    requires Rounded(flags.mode, sign, Units(m, e0, q), y, Two(Place(e0, prec1, flags) - q))
    ensures Delivers(m, e0, prec1, flags, known, expn, tab, ret, q, y)
  {
    hide Rounded, RoundsTo, Delivers, Units, Place;
    var z := RoundsOnValues(sign, m, e0, prec1, flags, known, expn, tab, ret, q);
    RoundedUnique(flags.mode, sign, Units(m, e0, q), y, z, Two(Place(e0, prec1, flags) - q));
  }

  // Underflow should tell that the result is tiny and inexact. It does, except for a number
  // below one unit of the last place kept that is rounded up to it, where that is not tiny.
  lemma {:induction false} UnderflowExact(sign: bool, m: seq<Limb>, e0: int, prec1: nat, flags: Flags, known: bool,
                                          expn: int, tab: seq<Limb>, ret: Status, q: int, y: nat)
    requires flags.expBits >= 1 && |m| >= 1 && m[|m| - 1] >= B / 2 && flags.mode != RNDF
    requires RoundsTo(sign, m, e0, prec1, flags, known, expn, tab, ret) && Small(m, e0, prec1, flags, q)
    requires Rounded(flags.mode, sign, Units(m, e0, q), y, Two(Place(e0, prec1, flags) - q))
    ensures var u, hi := Place(e0, prec1, flags), Two(flags.expBits - 1);
            (ret.underflow <==> ret.inexact && y < Two(2 - hi - q)) <==> !(e0 <= u && 2 - hi <= u && y > 0)
  {
    hide Two, Val, Rounded, RoundedSig, UpBit, Holds, Inexact, Overflowed, Units, Precision, Place, Dropped;
    var n, prec := 64 * |m|, Precision(e0, prec1, flags);
    var hi: int := Two(flags.expBits - 1);
    RoundsExactly(sign, m, e0, prec1, flags, known, expn, tab, ret, q, y);
    PlaceIs(e0, prec1, flags);
    var x, k := RoundedSig(flags.mode, sign, Val(m), n, prec), Two(e0 - n - q);
    SigOnValues(flags.mode, sign, m, e0, prec, q);
    RoundedUnique(flags.mode, sign, Units(m, e0, q), y, x * k, Two(e0 - prec - q));
    if prec <= 0 {
      TwoAdd(n - prec, e0 - n - q);
      TwoOrder(e0 - prec - q, 2 - hi - q);
      TwoOrder(2 - hi - q, e0 - prec - q);
      assert x == 0 ==> y == 0;
    } else {
      TwoOrder(2 - hi - q, hi - q);
    }
  }

  // 0.75 rounded to an integer is 1, and reported as an underflow.
  lemma {:induction false} RintUnderflow(expBits: nat)
    requires expBits >= 2
    ensures RoundsTo(false, [0xc000_0000_0000_0000], 0, 0, Flags(RNDN, false, true, expBits), false, 1, [B / 2],
                     Status(false, true, true))
  {
    var m: seq<Limb> := [0xc000_0000_0000_0000];
    ValOne(0xc000_0000_0000_0000);
    TwoNext(63);
    TwoLimb();
    hide Val, Two;
    assert 0xc000_0000_0000_0000 / Two(63) == 1 && 0xc000_0000_0000_0000 % Two(63) != 0;
    TimesIs(1, Two(64));
  }
}
