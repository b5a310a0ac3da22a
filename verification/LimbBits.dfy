/** Bits of rows of limbs, as the rounding code of libbf.c reads them. */
module LimbBits {
  import opened Limbs

  lemma {:induction false} TwoLimb()
    ensures Two(64) == B && Two(63) == B / 2
  {
    hide Two;
    TwoNext(63);
    TwoFour();
    TwoAdd(4, 4);
    TwoAdd(8, 8);
    TwoAdd(16, 16);
    TwoAdd(32, 32);
  }

  lemma {:induction false} TwoFour()
    ensures Two(4) == 16
  {
  }

  lemma {:induction false} TwoNext(n: nat)
    ensures Two(n + 1) == 2 * Two(n)
  {
  }

  lemma {:induction false} TwoPow(i: nat)
    ensures Two(64 * i) == Pow(i)
  {
    if i > 0 {
      TwoPow(i - 1);
      TwoLimb();
      TwoAdd(64, 64 * (i - 1));
    }
  }

  lemma {:induction false} TwoMono(m: nat, n: nat)
    requires m <= n
    ensures Two(m) <= Two(n)
  {
    TwoAdd(m, n - m);
    MulMono(1, Two(n - m), Two(m));
  }

  // a position of bits splits into limb and bit, and a limb into two powers
  lemma {:induction false} TwoSplit(i: nat, j: nat)
    requires j <= 64
    ensures Two(64 * i + j) == Pow(i) * Two(j) && Two(j) * Two(64 - j) == B
  {
    TwoPow(i);
    TwoAdd(64 * i, j);
    TwoAdd(j, 64 - j);
    TwoLimb();
  }

  // limb i and what is above it
  lemma {:induction false} ValAbove(s: seq<Limb>, i: nat)
    requires i < |s|
    ensures Val(s) / Pow(i) == s[i] + B * Val(s[i + 1..]) && Val(s) % Pow(i) == Val(s[..i])
  {
    hide Val, Pow;
    ValSplit(s, i);
    ValBound(s[..i]);
    assert s[i..] == [s[i]] + s[i + 1..];
    ValFirst(s[i], s[i + 1..]);
    assert Pow(i) * Val(s[i..]) == Val(s[i..]) * Pow(i);
    QuotientIs(Val(s), Pow(i), Val(s[i..]), Val(s[..i]));
  }

  lemma {:induction false} BitOf(s: seq<Limb>, i: nat, j: nat)
    requires i < |s| && j < 64
    ensures (Val(s) / Two(64 * i + j)) % 2 == (s[i] / Two(j)) % 2
  {
    hide Val, Pow, Two;
    TwoSplit(i, j);
    DivDiv(Val(s), Pow(i), Two(j));
    ValAbove(s, i);
    TwoSplitEven(j);
    BitNumbers(s[i], Val(s[i + 1..]), Two(j), Two(63 - j));
  }

  lemma {:induction false} BitNumbers(x: nat, v: nat, t: nat, u: nat)
    requires t > 0 && t * (2 * u) == B
    ensures ((x + B * v) / t) % 2 == (x / t) % 2
  {
    DivMod(x, t);
    EvenMultiple(v, t, u);
    var k := u * v;
    AddMultiple(x, t, x / t, x % t, 2 * k, B * v);
    EvenSum(x / t, k);
  }

  lemma {:induction false} EvenSum(q: int, k: int)
    ensures (q + 2 * k) % 2 == q % 2
  {
  }

  lemma {:induction false} AddMultiple(x: int, t: int, q: int, r: int, k: int, m: int)
    requires 0 <= r < t && x == t * q + r && m == k * t
    ensures (x + m) / t == q + k && (x + m) % t == r
  {
    MulAdd(q, k, t);
    assert t * q == q * t;
    QuotientIs(x + m, t, q + k, r);
  }

  lemma {:induction false} EvenMultiple(v: nat, t: nat, u: nat)
    requires t * (2 * u) == B
    ensures B * v == (2 * (u * v)) * t
  {
    assert (t * (2 * u)) * v == t * (2 * (u * v));
  }

  lemma {:induction false} TwoSplitEven(j: nat)
    requires j < 64
    ensures Two(j) * (2 * Two(63 - j)) == B
  {
    TwoSplit(0, j);
  }

  // the bits below a position
  lemma {:induction false} LowBits(s: seq<Limb>, i: nat, j: nat)
    requires i < |s| && j <= 64
    ensures Val(s) % Two(64 * i + j) == Val(s[..i]) + Pow(i) * (s[i] % Two(j))
    ensures Val(s) / Two(64 * i + j) == Val(s[i..]) / Two(j)
  {
    hide Val, Pow, Two;
    TwoSplit(i, j);
    ValSplit(s, i);
    ValBound(s[..i]);
    assert s[i..] == [s[i]] + s[i + 1..];
    ValFirst(s[i], s[i + 1..]);
    LimbLow(s[i], Val(s[i + 1..]), Two(j), Two(64 - j));
    LowNumbers(Val(s[..i]), Val(s[i..]), Pow(i), Two(j));
  }

  // within a limb that others follow
  lemma {:induction false} LimbLow(x: nat, v: nat, t: nat, u: nat)
    requires t > 0 && t * u == B
    ensures (x + B * v) % t == x % t
  {
    DivMod(x, t);
    assert B * v == (u * v) * t by { assert (t * u) * v == (u * v) * t; }
    AddMultiple(x, t, x / t, x % t, u * v, B * v);
  }

  lemma {:induction false} LowNumbers(lo: nat, hi: nat, p: nat, t: nat)
    requires lo < p && t > 0
    ensures p * t > 0 && (lo + p * hi) % (p * t) == lo + p * (hi % t) && (lo + p * hi) / (p * t) == hi / t
  {
    var q, r := hi / t, hi % t;
    DivMod(hi, t);
    MulMono(1, p, t);
    assert p * hi == q * (p * t) + p * r by { assert p * (t * q + r) == q * (p * t) + p * r; }
    MulMono(r, t - 1, p);
    assert (t - 1) * p == p * t - p && r * p == p * r;
    MulNat(p, r);
    QuotientIs(lo + p * hi, p * t, q, lo + p * r);
  }

  // get_bit: nothing is set outside the row
  method GetBit(tab: seq<Limb>, len: nat, pos: int) returns (bit: bool)
    requires len <= |tab|
    ensures bit == (pos >= 0 && (Val(tab[..len]) / Two(pos)) % 2 == 1)
  {
    hide Val, Two;
    var i := FloorDiv(pos);
    if i < 0 {
      return false;
    }
    if i >= len {
      BitAbove(tab[..len], pos);
      return false;
    }
    BitOf(tab[..len], i, pos % 64);
    bit := (tab[i] / Two(pos % 64)) % 2 == 1;
  }

  // an arithmetic shift by LIMB_LOG2_BITS
  function FloorDiv(pos: int): (i: int)
    ensures pos == 64 * i + pos % 64
  {
    pos / 64
  }

  lemma {:induction false} BitAbove(s: seq<Limb>, pos: nat)
    requires 64 * |s| <= pos
    ensures Val(s) / Two(pos) == 0 && Val(s) % Two(pos) == Val(s)
  {
    hide Val, Two;
    ValBound(s);
    TwoPow(|s|);
    TwoMono(64 * |s|, pos);
    QuotientIs(Val(s), Two(pos), 0, Val(s));
  }

  // scan_bit_nz: whether a bit from 0 to bitPos is set
  method ScanBitNz(tab: seq<Limb>, len: nat, bitPos: int) returns (nz: bool)
    requires len <= |tab| && bitPos < 64 * len
    ensures nz == (bitPos >= 0 && Val(tab[..len]) % Two(bitPos + 1) != 0)
  {
    hide Val, Two, Pow;
    var pos := FloorDiv(bitPos);
    if pos < 0 {
      return false;
    }
    ghost var s, j := tab[..len], bitPos % 64;
    LowBits(s, pos, j + 1);
    ghost var i, low := pos, Val(s[..pos]);
    MulNat(Pow(pos), s[pos] % Two(j + 1));
    var v := tab[pos] % Two(bitPos % 64 + 1);
    if v != 0 {
      MulMono(1, v, Pow(i));
      assert v * Pow(i) == Pow(i) * v;
      return true;
    }
    pos := pos - 1;
    while pos >= 0
      invariant -1 <= pos < i && (Val(s[..pos + 1]) == 0 <==> low == 0)
    {
      ValNext(s, pos);
      MulNat(s[pos], Pow(pos));
      if tab[pos] != 0 {
        MulMono(1, s[pos], Pow(pos));
        return true;
      }
      pos := pos - 1;
    }
    assert s[..0] == [];
    ValNone();
    nz := false;
  }
}
