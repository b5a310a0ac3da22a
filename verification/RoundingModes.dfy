/** The rounding modes of libbf.c on integers: what a correctly rounded significand is
    (section 4.3 of IEEE 754-2008), and the decision on two bits that delivers it. */
module RoundingModes {
  import opened Limbs

  datatype Mode = RNDN | RNDZ | RNDD | RNDU | RNDNA | RNDA | RNDF

  // x is m rounded to a multiple of ulp; sign is the sign of the number m is the magnitude of
  ghost predicate Rounded(mode: Mode, sign: bool, m: int, x: int, ulp: int)
    requires ulp > 0
  {
    x % ulp == 0 &&
    match mode
    case RNDZ => x <= m < x + ulp
    case RNDA => x - ulp < m <= x
    case RNDD => if sign then x - ulp < m <= x else x <= m < x + ulp
    case RNDU => if sign then x <= m < x + ulp else x - ulp < m <= x
    case RNDN => -ulp <= 2 * (x - m) <= ulp && (2 * (x - m) in {-ulp, ulp} ==> (x / ulp) % 2 == 0)
    case RNDNA => -ulp < 2 * (x - m) <= ulp
    case RNDF => x - ulp < m < x + ulp
  }

  // add one to the truncated significand: bit1 and bit0 are the first dropped bit and whether any other is set
  function AddOne(mode: Mode, sign: bool, odd: bool, bit1: bool, bit0: bool): bool {
    match mode
    case RNDZ => false
    case RNDN => bit1 && (bit0 || odd)
    case RNDD => sign && (bit1 || bit0)
    case RNDU => !sign && (bit1 || bit0)
    case RNDA => bit1 || bit0
    case RNDNA => bit1
    case RNDF => bit1
  }

  function Times(q: nat, ulp: nat): nat {
    MulNat(q, ulp);
    q * ulp
  }

  // u rounded down to a multiple of t
  function Down(u: nat, t: nat): nat
    requires t > 0
  {
    DivMod(u, t);
    Times(u / t, t)
  }

  // whether m goes up when its bits below 2 * h are dropped
  function UpBit(mode: Mode, sign: bool, m: nat, h: nat): bool
    requires h > 0
  {
    AddOne(mode, sign, (m / (2 * h)) % 2 == 1, (m / h) % 2 == 1, m % h != 0)
  }

  // the significand m of n bits, rounded to prec bits
  function RoundedSig(mode: Mode, sign: bool, m: nat, n: nat, prec: int): nat {
    if prec >= n then m
    else
      var h := Two(n - prec - 1);
      DivMod(m, 2 * h);
      Times((m / (2 * h)) + if UpBit(mode, sign, m, h) then 1 else 0, 2 * h)
  }

  lemma {:induction false} HalfBits(m: nat, h: nat)
    requires h > 0
    ensures var q, rem := m / (2 * h), m % (2 * h);
            && m == q * (2 * h) + rem && 0 <= rem < 2 * h
            && ((m / h) % 2 == 1 <==> rem >= h)
            && (m % h != 0 <==> rem != 0 && rem != h)
  {
    var q, rem := m / (2 * h), m % (2 * h);
    DivMod(m, 2 * h);
    assert (2 * h) * q == (2 * q) * h;
    if rem >= h {
      QuotientIs(m, h, 2 * q + 1, rem - h);
    } else {
      QuotientIs(m, h, 2 * q, rem);
    }
  }

  // The rounded significand is correctly rounded in every mode.
  lemma {:induction false} RoundedSigCorrect(mode: Mode, sign: bool, m: nat, n: nat, prec: int)
    requires prec < n
    ensures Rounded(mode, sign, m, RoundedSig(mode, sign, m, n, prec), Two(n - prec))
  {
    var h := Two(n - prec - 1);
    var ulp := 2 * h;
    assert Two(n - prec) == ulp;
    HalfBits(m, h);
    var q, rem := m / ulp, m % ulp;
    var up := AddOne(mode, sign, q % 2 == 1, (m / h) % 2 == 1, m % h != 0);
    MulAdd(q, 1, ulp);
    QuotientIs(q * ulp, ulp, q, 0);
    QuotientIs((q + 1) * ulp, ulp, q + 1, 0);
  }

  // In the deterministic modes there is only one correctly rounded value.
  lemma {:induction false} RoundedUnique(mode: Mode, sign: bool, m: int, x: int, y: int, ulp: int)
    requires ulp > 0 && mode != RNDF && Rounded(mode, sign, m, x, ulp) && Rounded(mode, sign, m, y, ulp)
    ensures x == y
  {
    hide Rounded;
    var a, b := x / ulp, y / ulp;
    RoundedMultiple(mode, sign, m, x, ulp);
    RoundedMultiple(mode, sign, m, y, ulp);
    if mode == RNDN {
      NearestUnique(m, a, b, ulp);
    } else {
      RoundedClose(mode, sign, m, x, y, ulp);
      CloseEqual(a, b, ulp);
    }
  }

  lemma {:induction false} RoundedMultiple(mode: Mode, sign: bool, m: int, x: int, ulp: int)
    requires ulp > 0 && Rounded(mode, sign, m, x, ulp)
    ensures x == x / ulp * ulp
    ensures mode == RNDN ==> -ulp <= 2 * (x - m) <= ulp && (2 * (x - m) in {-ulp, ulp} ==> (x / ulp) % 2 == 0)
  {
    assert x == ulp * (x / ulp) + x % ulp;
  }

  lemma {:induction false} RoundedClose(mode: Mode, sign: bool, m: int, x: int, y: int, ulp: int)
    requires ulp > 0 && mode != RNDF && mode != RNDN && Rounded(mode, sign, m, x, ulp) && Rounded(mode, sign, m, y, ulp)
    ensures -ulp < x - y < ulp
  {
  }

  lemma {:induction false} CloseEqual(a: int, b: int, ulp: int)
    requires ulp > 0 && -ulp < a * ulp - b * ulp < ulp
    ensures a == b
  {
    MulAdd(a, -b, ulp);
    assert (-1) * ulp == -ulp && (-b) * ulp == -(b * ulp);
    Cancel(a - b, 1, ulp);
    Cancel(-1, a - b, ulp);
  }

  lemma {:induction false} NearestUnique(m: int, a: int, b: int, ulp: int)
    requires ulp > 0 && -ulp <= 2 * (a * ulp - m) <= ulp && -ulp <= 2 * (b * ulp - m) <= ulp
    requires 2 * (a * ulp - m) in {-ulp, ulp} ==> a % 2 == 0
    requires 2 * (b * ulp - m) in {-ulp, ulp} ==> b % 2 == 0
    ensures a == b
  {
    MulAdd(a, 1, ulp);
    MulAdd(b, 1, ulp);
    if a * ulp == b * ulp + ulp {
      OneApart(a, b + 1, ulp);
    } else if b * ulp == a * ulp + ulp {
      OneApart(b, a + 1, ulp);
    } else {
      CloseEqual(a, b, ulp);
    }
  }

  lemma {:induction false} OneApart(a: int, b: int, ulp: int)
    requires ulp > 0 && a * ulp == b * ulp
    ensures a == b
  {
    Cancel(a, b, ulp);
    Cancel(b, a, ulp);
  }

  // A number that fits is its own rounding, and no other number is: inexact means changed.
  lemma {:induction false} RoundedExact(mode: Mode, sign: bool, m: nat, n: nat, prec: int)
    requires prec < n
    ensures var h := Two(n - prec - 1);
            RoundedSig(mode, sign, m, n, prec) == m <==> !((m / h) % 2 == 1 || m % h != 0)
  {
    var h := Two(n - prec - 1);
    HalfBits(m, h);
    var ulp, q := 2 * h, m / (2 * h);
    MulAdd(q, 1, ulp);
  }
}
