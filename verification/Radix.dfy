/** bf_integer_from_radix and bf_integer_to_radix of libbf.c: between an integer and its digits
    by halving the number of digits, with one cached power for each level. */
module Radix {
  import opened Limbs
  import opened LimbBits
  import opened Powers
  import opened RadixQuotient

  function PowN(r: nat, n: nat): (p: nat)
    requires r > 0
    ensures p > 0
  {
    PowPositive(r, n);
    PowI(r, n)
  }

  // digits are in the order of the array, the lowest first
  function DigitVal(s: seq<Limb>, r: nat): nat {
    if s == [] then 0 else
      MulNat(r, DigitVal(s[1..], r));
      s[0] + r * DigitVal(s[1..], r)
  }

  function Low(a: nat, r: Limb): Limb
    requires r > 0
  {
    a % r
  }

  function Rest(a: nat, r: Limb): nat
    requires r > 0
  {
    DivMod(a, r);
    a / r
  }

  function Digits(a: nat, n: nat, r: Limb): (s: seq<Limb>)
    requires r > 0
    ensures |s| == n
    decreases n
  {
    if n == 0 then [] else [Low(a, r)] + Digits(Rest(a, r), n - 1, r)
  }

  lemma {:induction false} LowRest(a: nat, r: Limb)
    requires r > 0
    ensures a == Rest(a, r) * r + Low(a, r) && Low(a, r) < r
  {
    DivMod(a, r);
    assert r * (a / r) == (a / r) * r;
  }

  lemma {:induction false} LowRestAre(q: nat, e: nat, r: Limb)
    requires e < r
    ensures q * r + e >= 0 && Rest(q * r + e, r) == q && Low(q * r + e, r) == e
  {
    MulNat(q, r);
    QuotientIs(q * r + e, r, q, e);
  }

  predicate AreDigits(s: seq<Limb>, r: nat) {
    forall i | 0 <= i < |s| :: s[i] < r
  }

  lemma {:induction false} DigitValAppend(s: seq<Limb>, t: seq<Limb>, r: nat)
    requires r > 0
    ensures DigitVal(s + t, r) == DigitVal(s, r) + PowN(r, |s|) * DigitVal(t, r)
  {
    if s == [] {
      assert s + t == t;
    } else {
      assert (s + t)[1..] == s[1..] + t;
      DigitValAppend(s[1..], t, r);
      PowNextI(r, |s| - 1);
      AppendStep(r, DigitVal(s[1..], r), PowN(r, |s| - 1), DigitVal(t, r));
    }
  }

  lemma {:induction false} AppendStep(r: int, x: int, p: int, y: int)
    ensures r * (x + p * y) == r * x + (p * r) * y
  {
    assert r * (x + p * y) == r * x + r * (p * y);
    assert r * (p * y) == (p * r) * y;
  }

  // The digits of a number are the number again,
  lemma {:induction false} DigitsRight(a: nat, n: nat, r: Limb)
    requires r > 0 && a < PowN(r, n)
    ensures DigitVal(Digits(a, n, r), r) == a && AreDigits(Digits(a, n, r), r)
  {
    hide Low, Rest;
    if n > 0 {
      LowRest(a, r);
      RestBelow(a, n, r);
      DigitsRight(Rest(a, r), n - 1, r);
      var s := Digits(Rest(a, r), n - 1, r);
      assert Digits(a, n, r) == [Low(a, r)] + s && ([Low(a, r)] + s)[1..] == s;
      assert r * Rest(a, r) == Rest(a, r) * r;
    } else {
      PowNextI(r, 0);
    }
  }

  lemma {:induction false} RestBelow(a: nat, n: nat, r: Limb)
    requires n > 0 && r > 0 && a < PowN(r, n)
    ensures Rest(a, r) < PowN(r, n - 1)
  {
    hide Low, Rest;
    LowRest(a, r);
    PowNextI(r, n - 1);
    Cancel(Rest(a, r), PowN(r, n - 1), r);
  }

  // and digits are those of the number they stand for: the two conversions undo each other.
  lemma {:induction false} DigitsOfValue(s: seq<Limb>, r: Limb)
    requires r > 0 && AreDigits(s, r)
    ensures DigitVal(s, r) < PowN(r, |s|) && Digits(DigitVal(s, r), |s|, r) == s
  {
    if s != [] {
      var t, v := s[1..], DigitVal(s[1..], r);
      DigitsOfValue(t, r);
      PowNextI(r, |t|);
      assert r * v == v * r;
      LowRestAre(v, s[0], r);
      MulMono(v + 1, PowN(r, |t|), r);
      MulAdd(v, 1, r);
      assert s == [s[0]] + t;
    } else {
      PowNextI(r, 0);
    }
  }

  // the digits of a quotient and of a remainder, side by side
  lemma {:induction false} DigitsSplit(q: nat, m: nat, n1: nat, n2: nat, r: Limb)
    requires r > 0 && m < PowN(r, n2)
    ensures q * PowN(r, n2) >= 0 && Digits(q * PowN(r, n2) + m, n1 + n2, r) == Digits(m, n2, r) + Digits(q, n1, r)
  {
    hide Low, Rest;
    MulNat(q, PowN(r, n2));
    if n2 == 0 {
      PowNextI(r, 0);
      assert Digits(m, 0, r) + Digits(q, n1, r) == Digits(q, n1, r);
    } else {
      LowRest(m, r);
      RestBelow(m, n2, r);
      DigitsSplit(q, Rest(m, r), n1, n2 - 1, r);
      SplitLow(q, m, n2, r);
      var x, y := Digits(Rest(m, r), n2 - 1, r), Digits(q, n1, r);
      assert ([Low(m, r)] + x) + y == [Low(m, r)] + (x + y);
    }
  }

  lemma {:induction false} SplitLow(q: nat, m: nat, n: nat, r: Limb)
    requires n > 0 && r > 0
    ensures q * PowN(r, n) >= 0 && q * PowN(r, n - 1) >= 0
    ensures Low(q * PowN(r, n) + m, r) == Low(m, r)
    ensures Rest(q * PowN(r, n) + m, r) == q * PowN(r, n - 1) + Rest(m, r)
  {
    hide Low, Rest;
    var p := PowN(r, n - 1);
    PowNextI(r, n - 1);
    MulNat(q, PowN(r, n));
    MulNat(q, p);
    LowRest(m, r);
    assert q * (p * r) == (q * p) * r;
    MulAdd(q * p, Rest(m, r), r);
    LowRestAre(q * p + Rest(m, r), Low(m, r), r);
  }

  // n2 of both recursions: n0 / 2^(level + 1), rounded to nearest
  function Half(n0: nat, level: nat): nat {
    (Wrap(n0 * 2) / Two(level + 1) + 1) / 2
  }

  function CeilLog2(a: nat): nat {
    if a <= 1 then 0 else Bits(a - 1)
  }

  lemma {:induction false} CeilLog2Bound(a: nat)
    requires a > 0
    ensures a <= Two(CeilLog2(a))
  {
    if a > 1 {
      BitsBound(a - 1);
    }
  }

  // how many digits a call at some level can be given
  ghost predicate AtLevel(n: nat, n0: nat, level: nat) {
    2 * n0 < B && n >= 1 && n0 / Two(level) <= n <= n0 / Two(level) + 1
  }

  // The half only depends on the level, leaves both parts at the next one, and the level is in the table.
  lemma {:induction false} LevelStep(n: nat, n0: nat, level: nat)
    requires AtLevel(n, n0, level) && n >= 2
    ensures var n2 := Half(n0, level);
            && 1 <= n2 < n && n - n2 <= n2 + 1
            && AtLevel(n2, n0, level + 1) && AtLevel(n - n2, n0, level + 1)
    ensures level <= CeilLog2(n0)
  {
    hide Two, Half, CeilLog2;
    var c := n0 / Two(level);
    HalfIs(n0, level);
    DivMod(n0, Two(level));
    QuotientPositive(n0, Two(level));
    CeilLog2Bound(n0);
    if CeilLog2(n0) < level {
      SmallerTwo(CeilLog2(n0), level);
    }
  }

  lemma {:induction false} HalfIs(n0: nat, level: nat)
    requires 2 * n0 < B
    ensures Half(n0, level) == (n0 / Two(level) + 1) / 2 && n0 / Two(level + 1) == (n0 / Two(level)) / 2
  {
    var t := Two(level);
    TwoNext(level);
    hide Two;
    DoubleQuotient(n0, t);
    DivDiv(n0, t, 2);
    assert t * 2 == 2 * t;
  }

  lemma {:induction false} SmallerTwo(m: nat, n: nat)
    requires m < n
    ensures Two(m) < Two(n)
  {
    TwoMono(m + 1, n);
  }

  lemma {:induction false} QuotientPositive(a: nat, b: nat)
    requires b > 0 && a / b >= 1
    ensures a >= b
  {
    DivMod(a, b);
    MulMono(1, a / b, b);
    assert b * (a / b) == (a / b) * b;
  }

  lemma {:induction false} DoubleQuotient(a: nat, b: nat)
    requires b > 0
    ensures (a * 2) / (2 * b) == a / b
  {
    var q, e := a / b, a % b;
    DivMod(a, b);
    assert (2 * b) * q == 2 * (b * q) && q * (2 * b) == (2 * b) * q;
    QuotientIs(a * 2, 2 * b, q, 2 * e);
  }

  // r is the power for the bits of b from i on
  ghost predicate PowOfBits(r: nat, a: nat, b: nat, i: nat) {
    HighBits(b, i) >= 0 && r == PowI(a, HighBits(b, i))
  }

  function HighBits(b: nat, i: nat): (h: nat) {
    DivMod(b, Two(i));
    b / Two(i)
  }

  // bf_pow_ui with exact products: the bits of b from the highest down
  method BfPowUi(a: nat, b: Limb) returns (r: nat)
    ensures r == PowI(a, b)
  {
    if b == 0 {
      return 1;
    }
    hide Bits, Two, PowI, PowOfBits, HighBits;
    r := a;
    TopBit(a, b);
    var i := Bits(b) - 1;
    while i > 0
      invariant 0 <= i && PowOfBits(r, a, b, i)
    {
      i := i - 1;
      BitStep(a, b, i, r);
      r := Square(r);
      if HighBits(b, i) % 2 == 1 {
        r := Product(r, a);
      }
    }
    AllBits(r, a, b);
  }

  function Product(x: nat, y: nat): nat {
    MulNat(x, y);
    x * y
  }

  function Square(x: nat): nat { Product(x, x) }

  lemma {:induction false} TopBit(a: nat, b: nat)
    requires b > 0
    ensures Bits(b) > 0 && PowOfBits(a, a, b, Bits(b) - 1)
  {
    BitsBound(b);
    PowNextI(a, 0);
    assert Two(Bits(b)) == 2 * Two(Bits(b) - 1);
    QuotientIs(b, Two(Bits(b) - 1), 1, b - Two(Bits(b) - 1));
  }

  lemma {:induction false} BitStep(a: nat, b: nat, i: nat, r: nat)
    requires PowOfBits(r, a, b, i + 1)
    ensures PowOfBits(if HighBits(b, i) % 2 == 1 then Product(Square(r), a) else Square(r), a, b, i)
  {
    hide PowI;
    var h := HighBits(b, i + 1);
    NextBit(b, i);
    PowAddI(a, h, h);
    PowNextI(a, 2 * h);
  }

  lemma {:induction false} NextBit(b: nat, i: nat)
    ensures HighBits(b, i) == 2 * HighBits(b, i + 1) + HighBits(b, i) % 2
  {
    DivDiv(b, Two(i), 2);
    assert Two(i) * 2 == Two(i + 1);
    DivMod(HighBits(b, i), 2);
  }

  lemma {:induction false} AllBits(r: nat, a: nat, b: nat)
    requires PowOfBits(r, a, b, 0)
    ensures r == PowI(a, b)
  {
    hide PowI;
    WholeNumber(b);
  }

  lemma {:induction false} WholeNumber(b: nat)
    ensures b / Two(0) == b
  {
  }

  // an entry with no limbs is not computed yet
  ghost predicate Cached(tab: seq<Num>, n0: nat, r: Limb) {
    && r > 0 && |tab| == CeilLog2(n0) + 2
    && forall l | 0 <= l < |tab| :: tab[l].sig != 0 ==> tab[l] == Num(PowN(r, Half(n0, l)), 0)
  }

  // whichever call computed it, the power of a level is the one this call needs
  lemma {:induction false} CachedAt(tab: seq<Num>, n0: nat, r: Limb, l: nat)
    requires Cached(tab, n0, r) && l < |tab|
    ensures r > 0 && |tab| == CeilLog2(n0) + 2
    ensures tab[l].sig != 0 ==> tab[l] == Num(PowN(r, Half(n0, l)), 0)
    ensures Cached(tab[l := Num(PowN(r, Half(n0, l)), 0)], n0, r)
  {
    hide Half, PowN;
  }

  lemma {:induction false} HalvesJoin(s: seq<Limb>, n2: nat, r: nat)
    requires n2 <= |s| && r > 0
    ensures DigitVal(s, r) == DigitVal(s[n2..], r) * PowN(r, n2) + DigitVal(s[..n2], r)
  {
    hide DigitVal, PowN;
    assert s == s[..n2] + s[n2..];
    DigitValAppend(s[..n2], s[n2..], r);
    assert PowN(r, n2) * DigitVal(s[n2..], r) == DigitVal(s[n2..], r) * PowN(r, n2);
  }

  lemma {:induction false} OneDigit(s: seq<Limb>, r: nat)
    requires |s| == 1
    ensures DigitVal(s, r) == s[0]
  {
    assert s[1..] == [] && r * DigitVal(s[1..], r) == 0;
  }

  // bf_integer_from_radix_rec
  method FromRadixRec(tab: array<Limb>, o: nat, n: nat, level: nat, n0: nat, radix: Limb, powTab: array<Num>)
    returns (r: nat)
    requires o + n <= tab.Length && AtLevel(n, n0, level) && Cached(powTab[..], n0, radix) && (powTab as object) != tab
    modifies powTab
    ensures Cached(powTab[..], n0, radix) && r == DigitVal(tab[o..o + n], radix)
    decreases n
  {
    hide Half, PowI, PowN, DigitVal, AtLevel, Cached, CeilLog2, Two;
    if n == 1 {
      OneDigit(tab[o..o + 1], radix);
      r := tab[o];
    } else {
      AtLeastOne(n, n0, level);
      LevelStep(n, n0, level);
      TableSize(powTab[..], n0, radix);
      CachedAt(powTab[..], n0, radix, level);
      var n2 := Half(n0, level);
      var n1 := n - n2;
      if powTab[level].sig == 0 {
        HalfFits(n, n0, level);
        var p := BfPowUi(radix, n2);
        ghost var was := powTab[..];
        powTab[level] := Num(p, 0);
        assert p == PowN(radix, n2) by { PowNIs(radix, n2); }
        assert powTab[..] == was[level := Num(p, 0)];
      }
      var b := powTab[level].sig;
      r := FromRadixRec(tab, o + n2, n1, level + 1, n0, radix, powTab);
      MulNat(r, b);
      r := r * b;
      var t := FromRadixRec(tab, o, n2, level + 1, n0, radix, powTab);
      HalvesJoin(tab[o..o + n], n2, radix);
      assert tab[o..o + n][n2..] == tab[o + n2..o + n] && tab[o..o + n][..n2] == tab[o..o + n2];
      r := r + t;
    }
  }

  lemma {:induction false} PowNIs(r: nat, n: nat)
    requires r > 0
    ensures PowN(r, n) == PowI(r, n)
  {
  }

  lemma {:induction false} AtLeastOne(n: nat, n0: nat, level: nat)
    requires AtLevel(n, n0, level)
    ensures n >= 1
  {
  }

  lemma {:induction false} HalfFits(n: nat, n0: nat, level: nat)
    requires AtLevel(n, n0, level) && n >= 2
    ensures Half(n0, level) < B
  {
    HalfIs(n0, level);
    hide Half;
    QuotientAtMost(n0, Two(level));
  }

  lemma {:induction false} QuotientAtMost(a: nat, b: nat)
    requires b > 0
    ensures 0 <= a / b <= a
  {
    DivMod(a, b);
    if a / b > 0 {
      MulMono(1, b, a / b);
    }
  }

  lemma {:induction false} TableSize(tab: seq<Num>, n0: nat, r: Limb)
    requires Cached(tab, n0, r)
    ensures |tab| == CeilLog2(n0) + 2 && r > 0
  {
  }

  // bf_integer_from_radix, with a fresh table of powers
  method FromRadix(tab: array<Limb>, n: nat, radixl: Limb) returns (r: nat)
    requires 1 <= n <= tab.Length && 2 * n < B && radixl > 0
    ensures r == DigitVal(tab[..n], radixl)
  {
    var powTab := new Num[CeilLog2(n) + 2](i => Num(0, 0));
    assert AtLevel(n, n, 0) by { WholeNumber(n); }
    r := FromRadixRec(tab, 0, n, 0, n, radixl, powTab);
    assert tab[0..0 + n] == tab[..n];
  }

  const RADIXL_10: Limb := 10000000000000000000

  // the bits kept of a reciprocal, enough for the longest quotient of its level
  function InversePrec(n2: nat, bits: nat): nat {
    MulNat(n2 + 1, bits);
    (n2 + 1) * bits + 2
  }

  // two entries a level: the power and its reciprocal
  ghost predicate CachedPairs(tab: seq<Num>, n0: nat, r: Limb, bits: nat) {
    && r > 0 && |tab| == 2 * (CeilLog2(n0) + 2)
    && forall l | 0 <= l < CeilLog2(n0) + 2 ::
         tab[2 * l].sig != 0 ==> IsPair(tab[2 * l], tab[2 * l + 1], n0, r, bits, l)
  }

  ghost predicate IsPair(x: Num, y: Num, n0: nat, r: Limb, bits: nat, l: nat)
    requires r > 0
  {
    var p := PowN(r, Half(n0, l));
    x == Num(p, 0) && y == Reciprocal(p, InversePrec(Half(n0, l), bits))
  }

  lemma {:induction false} PairAt(tab: seq<Num>, n0: nat, r: Limb, bits: nat, l: nat)
    requires CachedPairs(tab, n0, r, bits) && l < CeilLog2(n0) + 2
    ensures r > 0 && |tab| == 2 * (CeilLog2(n0) + 2)
    ensures tab[2 * l].sig != 0 ==> IsPair(tab[2 * l], tab[2 * l + 1], n0, r, bits, l)
    ensures forall x, y | IsPair(x, y, n0, r, bits, l) :: CachedPairs(tab[2 * l := x][2 * l + 1 := y], n0, r, bits)
  {
    hide IsPair;
  }

  // the bound of the digits gives the bounds the precisions were chosen for
  lemma {:induction false} PrecisionCovers(a: nat, n1: nat, n2: nat, r: Limb, bits: nat)
    requires r > 0 && bits > 0 && r <= Two(bits) && 1 <= n1 <= n2 + 1 && a < PowN(r, n1 + n2)
    ensures n1 * bits >= 0 && Covered(a, PowN(r, n2), n1 * bits, InversePrec(n2, bits))
  {
    hide PowN, Two, Bits, InversePrec;
    var b, q := PowN(r, n2), n1 * bits;
    MulNat(n1, bits);
    MulMono(1, n1, bits);
    PowNBelow(r, n1, bits);
    PowNAdd(r, n1, n2);
    MulMono(PowN(r, n1), Two(q), b);
    BitsBound(b);
    MulMono(b, Two(Bits(b)), Two(q));
    assert Two(q) * b == b * Two(q) && Two(Bits(b)) * Two(q) == Two(Bits(b) + q) by {
      TwoAdd(Bits(b), q);
    }
    PrecIs(n1, n2, bits);
    TwoMono(Bits(b) + q, Bits(b) + InversePrec(n2, bits) - 2);
  }

  lemma {:induction false} PrecIs(n1: nat, n2: nat, bits: nat)
    requires bits > 0 && n1 <= n2 + 1
    ensures 0 <= n1 * bits <= InversePrec(n2, bits) - 2 && InversePrec(n2, bits) > 1
  {
    MulNat(n1, bits);
    MulMono(n1, n2 + 1, bits);
  }

  lemma {:induction false} PowNAdd(r: nat, a: nat, b: nat)
    requires r > 0
    ensures PowN(r, a + b) == PowN(r, a) * PowN(r, b)
  {
    PowAddI(r, a, b);
  }

  lemma {:induction false} PowNBelow(r: nat, n: nat, bits: nat)
    requires 0 < r <= Two(bits)
    ensures n * bits >= 0 && PowN(r, n) <= Two(n * bits)
  {
    MulNat(n, bits);
    if n == 0 {
      PowNextI(r, 0);
    } else {
      PowNBelow(r, n - 1, bits);
      PowNextI(r, n - 1);
      var p, t := PowN(r, n - 1), Two((n - 1) * bits);
      TwoAdd((n - 1) * bits, bits);
      assert (n - 1) * bits + bits == n * bits;
      MulMono(p, t, r);
      MulMono(r, Two(bits), t);
      assert r * t == t * r && Two(bits) * t == t * Two(bits);
    }
  }

  // the correction loops: the estimate is at most one off, so each makes at most one step
  method Adjust(a: nat, q: nat, b: nat) returns (q': nat, r: nat, qAdd: int)
    requires b > 0 && OneOff(a, b, q)
    ensures a == q' * b + r && r < b && q' == q + qAdd && -1 <= qAdd <= 1
  {
    var rem := a - q * b;
    qAdd := 0;
    while rem < 0
      invariant rem == a - q * b - qAdd * b && 0 - b < rem < 2 * b
      invariant qAdd == 0 || (qAdd == -1 && 0 <= rem < b)
      decreases -rem
    {
      rem := rem + b;
      qAdd := qAdd - 1;
    }
    while rem >= b
      invariant rem == a - q * b - qAdd * b && 0 <= rem < 2 * b
      invariant qAdd == 0 || (qAdd in {-1, 1} && rem < b)
      decreases rem
    {
      rem := rem - b;
      qAdd := qAdd + 1;
    }
    MulAdd(q, qAdd, b);
    Cancel(-1, q + qAdd, b);
    q', r := q + qAdd, rem;
  }

  // the one digit and the two digits of the short cases
  lemma {:induction false} FewDigits(a: nat, r: Limb)
    requires r > 0
    ensures a < PowN(r, 1) ==> a < r && Digits(a, 1, r) == [a]
    ensures a < PowN(r, 2) ==> a < B * B && Rest(a, r) < r && Digits(a, 2, r) == [Low(a, r), Rest(a, r)]
  {
    assert PowN(r, 1) == r && PowN(r, 2) == r * r by {
      PowNextI(r, 0);
      PowNextI(r, 1);
    }
    hide Low, PowN;
    if a < r {
      LowRestAre(0, a, r);
      assert Digits(a, 1, r) == [a] + Digits(0, 0, r);
    }
    if a < r * r {
      MulMono(r, B, r);
      MulMono(r, B, B);
      LowRest(a, r);
      Cancel(Rest(a, r), r, r);
      LowRestAre(0, Rest(a, r), r);
      assert Digits(Rest(a, r), 1, r) == [Rest(a, r)] + Digits(0, 0, r);
      assert Digits(a, 2, r) == [Low(a, r)] + Digits(Rest(a, r), 1, r);
    }
  }

  lemma {:induction false} QuotientSmall(a: nat, q: nat, m: nat, n1: nat, n2: nat, r: nat)
    requires r > 0 && a == q * PowN(r, n2) + m && a < PowN(r, n1 + n2)
    ensures q < PowN(r, n1)
  {
    hide PowN;
    PowNAdd(r, n1, n2);
    Cancel(q, PowN(r, n1), PowN(r, n2));
  }

  // Q and R of one level, from the cached power and reciprocal
  method DivideByPower(powTab: array<Num>, a: nat, n1: nat, n2: nat, level: nat, n0: nat, radixl: Limb, bits: nat)
    returns (q: nat, r: nat)
    requires CachedPairs(powTab[..], n0, radixl, bits) && level < CeilLog2(n0) + 2 && n2 == Half(n0, level) < B
    requires bits > 0 && radixl <= Two(bits) && 1 <= n1 <= n2 + 1 && a < PowN(radixl, n1 + n2)
    modifies powTab
    ensures CachedPairs(powTab[..], n0, radixl, bits)
    ensures a == q * PowN(radixl, n2) + r && r < PowN(radixl, n2)
  {
    hide Half, PowN, CachedPairs, CeilLog2, Two, InversePrec, Reciprocal, Covered, OneOff, Scaled, Truncated, IsPair;
    PairAt(powTab[..], n0, radixl, bits, level);
    if powTab[2 * level].sig == 0 {
      ghost var was := powTab[..];
      var p := BfPowUi(radixl, n2);
      PowNIs(radixl, n2);
      powTab[2 * level] := Num(p, 0);
      powTab[2 * level + 1] := Reciprocal(p, InversePrec(n2, bits));
      assert powTab[..] == was[2 * level := powTab[2 * level]][2 * level + 1 := powTab[2 * level + 1]];
      PairIs(p, n0, radixl, bits, level);
    }
    var b, bInv := powTab[2 * level], powTab[2 * level + 1];
    PairParts(b, bInv, n0, radixl, bits, level);
    MulNat(n1, bits);
    var qPrec := n1 * bits;
    PrecisionCovers(a, n1, n2, radixl, bits);
    EstimateClose(a, b.sig, qPrec, InversePrec(n2, bits));
    var estimate := Truncated(Scaled(a, bInv, qPrec));
    var qAdd;
    q, r, qAdd := Adjust(a, estimate, b.sig);
  }

  lemma {:induction false} PairIs(p: nat, n0: nat, r: Limb, bits: nat, l: nat)
    requires r > 0 && p == PowN(r, Half(n0, l))
    ensures IsPair(Num(p, 0), Reciprocal(p, InversePrec(Half(n0, l), bits)), n0, r, bits, l)
  {
  }

  lemma {:induction false} PairParts(x: Num, y: Num, n0: nat, r: Limb, bits: nat, l: nat)
    requires r > 0 && IsPair(x, y, n0, r, bits, l)
    ensures var p := PowN(r, Half(n0, l));
            x == Num(p, 0) && y == Reciprocal(p, InversePrec(Half(n0, l), bits)) && y.exp <= 0
  {
  }

  // bf_integer_to_radix_rec
  method ToRadixRec(powTab: array<Num>, out: array<Limb>, o: nat, a: nat, n: nat, level: nat, n0: nat, radixl: Limb,
                    bits: nat)
    requires CachedPairs(powTab[..], n0, radixl, bits) && bits > 0 && radixl <= Two(bits) && (powTab as object) != out
    requires o + n <= out.Length && AtLevel(n, n0, level) && radixl > 0 && a < PowN(radixl, n)
    modifies powTab, out
    ensures CachedPairs(powTab[..], n0, radixl, bits)
    ensures out[o..o + n] == Digits(a, n, radixl) && Kept(old(out[..]), out[..], o, n)
    decreases n
  {
    hide Half, PowI, PowN, Digits, AtLevel, CachedPairs, CeilLog2, Two, Low, Rest, Kept;
    AtLeastOne(n, n0, level);
    ghost var was := out[..];
    if n == 1 {
      FewDigits(a, radixl);
      out[o] := a;
      PlaceKept(was, out[..], o, 1);
      assert out[o..o + 1] == [a];
    } else if n == 2 {
      FewDigits(a, radixl);
      if radixl == RADIXL_10 {
        out[o] := Low(a, RADIXL_10);
        out[o + 1] := Rest(a, RADIXL_10);
      } else {
        out[o] := Low(a, radixl);
        out[o + 1] := Rest(a, radixl);
      }
      PlaceKept(was, out[..], o, 2);
      assert out[o..o + 2] == [Low(a, radixl), Rest(a, radixl)];
    } else {
      LevelStep(n, n0, level);
      HalfFits(n, n0, level);
      var n2 := Half(n0, level);
      var n1 := n - n2;
      var q, r := DivideByPower(powTab, a, n1, n2, level, n0, radixl, bits);
      QuotientSmall(a, q, r, n1, n2, radixl);
      ToRadixRec(powTab, out, o + n2, q, n1, level + 1, n0, radixl, bits);
      ghost var high := out[..];
      assert high[o + n2..o + n] == out[o + n2..o + n2 + n1];
      ToRadixRec(powTab, out, o, r, n2, level + 1, n0, radixl, bits);
      DigitsSplit(q, r, n1, n2, radixl);
      PartsJoin(was, high, out[..], o, n2, n);
      assert out[..][o..o + n2] == out[o..o + n2] && out[..][o..o + n] == out[o..o + n];
    }
  }

  lemma {:induction false} PlaceKept(was: seq<Limb>, now: seq<Limb>, o: nat, n: nat)
    requires |now| == |was| && o + n <= |was| && now[..o] == was[..o] && now[o + n..] == was[o + n..]
    ensures Kept(was, now, o, n)
  {
    forall j | 0 <= j < |was| && !(o <= j < o + n) ensures now[j] == was[j] {
      if j < o {
        assert now[..o][j] == was[..o][j];
      } else {
        assert now[o + n..][j - o - n] == was[o + n..][j - o - n];
      }
    }
  }

  // the low digits are written below the high ones
  lemma {:induction false} PartsJoin(was: seq<Limb>, high: seq<Limb>, now: seq<Limb>, o: nat, n2: nat, n: nat)
    requires n2 <= n && o + n <= |was| && Kept(was, high, o + n2, n - n2) && Kept(high, now, o, n2)
    ensures |now| == |high| == |was| && Kept(was, now, o, n)
    ensures now[o..o + n] == now[o..o + n2] + high[o + n2..o + n]
  {
  }

  // bf_integer_to_radix: the mantissa of r is filled with the digits of a
  method ToRadix(out: array<Limb>, a: nat, radixl: Limb)
    requires 1 <= out.Length && 2 * out.Length < B && radixl >= 2 && a < PowN(radixl, out.Length)
    modifies out
    ensures out[..] == Digits(a, out.Length, radixl) && DigitVal(out[..], radixl) == a && AreDigits(out[..], radixl)
  {
    var n := out.Length;
    var powTab := new Num[2 * (CeilLog2(n) + 2)](i => Num(0, 0));
    assert AtLevel(n, n, 0) by { WholeNumber(n); }
    CeilLog2Bound(radixl);
    assert CeilLog2(radixl) > 0 by { BitsBound(radixl - 1); }
    ToRadixRec(powTab, out, 0, a, n, 0, n, radixl, CeilLog2(radixl));
    DigitsRight(a, n, radixl);
    assert out[0..0 + n] == out[..];
  }
}
