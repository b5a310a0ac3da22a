/** Modular arithmetic of the number-theoretic transform of libbf.c: residues of double limbs
    by a precomputed inverse, and products with a constant that are reduced only to [0, 2m). */
module NttModular {
  import opened Limbs

  // 2 ^ NTT_MOD_LOG2_MIN and 2 ^ NTT_MOD_LOG2_MAX
  const MOD_MIN: nat := 0x2000_0000_0000_0000
  const MOD_MAX: nat := 0x4000_0000_0000_0000

  // what the asserts of init_mul_mod_fast allow
  predicate IsModulus(m: Limb) { MOD_MIN <= m < MOD_MAX }

  ghost predicate Cong(a: int, b: int, m: int) {
    exists k: int :: a - b == k * m
  }

  lemma {:induction false} CongBy(a: int, b: int, m: int, k: int)
    requires a - b == k * m
    ensures Cong(a, b, m)
  {
  }

  lemma {:induction false} CongSame(a: int, m: int)
    ensures Cong(a, a, m)
  {
    CongBy(a, a, m, 0);
  }

  lemma {:induction false} CongTrans(a: int, b: int, c: int, m: int)
    requires Cong(a, b, m) && Cong(b, c, m)
    ensures Cong(a, c, m)
  {
    var k: int :| a - b == k * m;
    var l: int :| b - c == l * m;
    MulAdd(k, l, m);
    CongBy(a, c, m, k + l);
  }

  lemma {:induction false} CongSymm(a: int, b: int, m: int)
    requires Cong(a, b, m)
    ensures Cong(b, a, m)
  {
    var k: int :| a - b == k * m;
    assert (-k) * m == -(k * m);
    CongBy(b, a, m, -k);
  }

  lemma {:induction false} CongAdd(a: int, b: int, c: int, d: int, m: int)
    requires Cong(a, b, m) && Cong(c, d, m)
    ensures Cong(a + c, b + d, m) && Cong(a - c, b - d, m)
  {
    var k: int :| a - b == k * m;
    var l: int :| c - d == l * m;
    MulAdd(k, l, m);
    MulAdd(k, -l, m);
    assert (-l) * m == -(l * m);
    CongBy(a + c, b + d, m, k + l);
    CongBy(a - c, b - d, m, k - l);
  }

  lemma {:induction false} CongMul(a: int, b: int, c: int, d: int, m: int)
    requires Cong(a, b, m) && Cong(c, d, m)
    ensures Cong(a * c, b * d, m)
  {
    var k: int :| a - b == k * m;
    var l: int :| c - d == l * m;
    assert a * c - b * d == (a - b) * c + b * (c - d);
    assert (k * m) * c + b * (l * m) == (k * c + b * l) * m;
    CongBy(a * c, b * d, m, k * c + b * l);
  }

  // add_mod and sub_mod
  function AddMod(a: Limb, b: Limb, m: Limb): Limb {
    var r: int := Wrap((a as int) + b);
    if r >= m then r - m else r
  }

  function SubMod(a: Limb, b: Limb, m: Limb): Limb {
    var r: int := Wrap((a as int) - b);
    if r > a then Wrap(r + m) else r
  }

  lemma {:induction false} AddSubExact(a: Limb, b: Limb, m: Limb)
    requires a < m && b < m && 2 * m <= B
    ensures AddMod(a, b, m) < m && (AddMod(a, b, m) == a + b || AddMod(a, b, m) == a + b - m)
    ensures SubMod(a, b, m) < m && (SubMod(a, b, m) == a - b || SubMod(a, b, m) == a - b + m)
  {
  }

  // init_mul_mod_fast: the quotient is cut to a limb
  function InitMulModFast(m: Limb): Limb
    requires IsModulus(m)
  {
    Wrap((B * MOD_MIN) / m)
  }

  // The inverse fits a limb for every modulus the asserts allow but the smallest.
  lemma {:induction false} InverseFits(m: Limb)
    requires IsModulus(m)
    ensures m > MOD_MIN <==> (B * MOD_MIN) / m < B
    ensures m > MOD_MIN ==> 0 <= B * MOD_MIN - InitMulModFast(m) * m < m
  {
    var q := (B * MOD_MIN) / m;
    DivMod(B * MOD_MIN, m);
    if m > MOD_MIN {
      MulMono(MOD_MIN, m, B);
      MulMono(MOD_MIN + 1, m, B);
      assert m * B == B * m && q * m == m * q;
      Cancel(q, B, m);
      assert InitMulModFast(m) == q;
    }
  }

  // mod_fast: the estimated quotient leaves a rest below 3m, brought into range by two masks
  function ModFast(r: int, m: Limb, mInv: Limb): Limb
    requires 0 <= r < B * MOD_MIN
  {
    var a1 := r / MOD_MIN;
    var q := (a1 * mInv) / B;
    var s := (r - q * m - 2 * m) % (B * B);
    var t0 := if s / B >= B / 2 then m else 0;
    var u := (s + t0) % (B * B);
    var r1 := u / B;
    Wrap(u % B + if r1 == 0 then 0 else m)
  }

  // The rest after subtracting the estimate.
  lemma {:induction false} EstimateRest(r: int, m: Limb, mInv: Limb, e: int)
    requires 0 <= r < B * MOD_MIN && MOD_MIN < m < MOD_MAX && mInv * m == B * MOD_MIN - e && 0 <= e < m
    ensures var q := ((r / MOD_MIN) * mInv) / B; 0 <= r - q * m < 3 * m
  {
    var a1, r0 := r / MOD_MIN, r % MOD_MIN;
    var x := a1 * mInv;
    var q, g := x / B, x % B;
    assert (r - q * m) * B == r0 * B + a1 * e + g * m by {
      assert x * m == a1 * (mInv * m) == a1 * (B * MOD_MIN) - a1 * e by {
        assert x * m == a1 * (mInv * m);
        assert a1 * (B * MOD_MIN - e) == a1 * (B * MOD_MIN) - a1 * e;
      }
      assert x == B * q + g;
      assert (B * q + g) * m == B * (q * m) + g * m;
      assert r == MOD_MIN * a1 + r0;
    }
    MulNat(a1, e);
    MulNat(g, m);
    MulMono(a1, B, e);
    MulMono(g, B, m);
    assert B * e <= B * m && r0 * B < m * B;
    Cancel(0, r - q * m + 1, B);
    Cancel(r - q * m, 3 * m, B);
  }

  // mod_fast returns the exact residue.
  lemma {:induction false} ModFastExact(r: int, m: Limb)
    requires 0 <= r < B * MOD_MIN && MOD_MIN < m < MOD_MAX
    ensures ModFast(r, m, InitMulModFast(m)) == r % m
  {
    InverseFits(m);
    hide InitMulModFast;
    var mInv := InitMulModFast(m);
    var e := B * MOD_MIN - mInv * m;
    EstimateRest(r, m, mInv, e);
    var q := ((r / MOD_MIN) * mInv) / B;
    var rest := r - q * m;
    MaskRest(rest, m);
    var k, res := rest / m, rest % m;
    DivMod(rest, m);
    assert r == (q + k) * m + res by {
      MulAdd(q, k, m);
      assert m * k == k * m;
    }
    QuotientIs(r, m, q + k, res);
  }

  lemma {:induction false} MaskRest(rest: int, m: Limb)
    requires 0 <= rest < 3 * m && m < MOD_MAX
    ensures var s := (rest - 2 * m) % (B * B);
            var u := (s + if s / B >= B / 2 then m else 0) % (B * B);
            Wrap(u % B + if u / B == 0 then 0 else m)
            == (if rest < m then rest else if rest < 2 * m then rest - m else rest - 2 * m)
    ensures rest % m == (if rest < m then rest else if rest < 2 * m then rest - m else rest - 2 * m)
  {
    var s := (rest - 2 * m) % (B * B);
    assert s == if rest < 2 * m then rest - 2 * m + B * B else rest - 2 * m;
    QuotientIs(rest, m, if rest < m then 0 else if rest < 2 * m then 1 else 2,
                   if rest < m then rest else if rest < 2 * m then rest - m else rest - 2 * m);
  }

  // For the modulus 2^61, which the asserts allow, the inverse wraps to zero and the result is
  // wrong; so mod_fast is exact for a modulus exactly when that is larger.
  lemma {:induction false} ModFastExactly(m: Limb)
    requires 0x2000_0000_0000_0000 <= m < 0x4000_0000_0000_0000
    ensures m > 0x2000_0000_0000_0000 <==>
              forall r: int | 0 <= r < B * MOD_MIN :: ModFast(r, m, InitMulModFast(m)) == r % m
  {
    hide ModFast, InitMulModFast;
    if m > MOD_MIN {
      forall r: int | 0 <= r < B * MOD_MIN ensures ModFast(r, m, InitMulModFast(m)) == r % m {
        ModFastExact(r, m);
      }
    } else {
      SmallestModulus();
    }
  }

  lemma {:induction false} SmallestModulus()
    ensures InitMulModFast(MOD_MIN) == 0 && ModFast(8 * MOD_MIN, MOD_MIN, 0) == 6 * MOD_MIN != (8 * MOD_MIN) % MOD_MIN
  {
    assert (8 * MOD_MIN / MOD_MIN) * 0 / B == 0;
  }

  function InitMulModFast2(b: Limb, m: Limb): Limb
    requires b < m
  {
    SmallQuotient(b, m);
    b * B / m
  }

  lemma {:induction false} SmallQuotient(b: Limb, m: Limb)
    requires b < m
    ensures 0 <= b * B / m < B
  {
    MulMono(b + 1, m, B);
    assert m * B == B * m;
    DivMod(b * B, m);
    assert (b * B / m) * m == m * (b * B / m);
    Cancel(b * B / m, B, m);
  }

  // mul_mod_fast3: the product with b, reduced to [0, 2m)
  function MulModFast3(a: Limb, b: Limb, m: Limb, bInv: Limb): Limb {
    var q := (a * bInv) / B;
    Wrap(a * b - q * m)
  }

  // mul_mod_fast2: fully reduced
  function MulModFast2(a: Limb, b: Limb, m: Limb, bInv: Limb): Limb {
    var r: int := MulModFast3(a, b, m, bInv);
    if r >= m then r - m else r
  }

  lemma {:induction false} ConstantRest(a: Limb, b: Limb, m: Limb)
    requires b < m
    ensures var q := (a * InitMulModFast2(b, m)) / B; 0 <= a * b - q * m < 2 * m
  {
    SmallQuotient(b, m);
    var v, e := b * B / m, (b * B) % m;
    DivMod(b * B, m);
    var x := a * v;
    var q, g := x / B, x % B;
    assert (a * b - q * m) * B == a * e + g * m by {
      assert x * m == a * (m * v);
      assert a * (b * B - e) == (a * b) * B - a * e;
      assert (B * q + g) * m == B * (q * m) + g * m;
    }
    MulNat(a, e);
    MulNat(g, m);
    MulMono(a, B - 1, e);
    MulMono(g, B - 1, m);
    assert (B - 1) * e <= (B - 1) * m;
    Cancel(0, a * b - q * m + 1, B);
    Cancel(a * b - q * m, 2 * m, B);
  }

  lemma {:induction false} MulModExact(a: Limb, b: Limb, m: Limb)
    requires b < m && 2 * m <= B
    ensures var r := MulModFast3(a, b, m, InitMulModFast2(b, m)); r < 2 * m && Cong(r, a * b, m)
    ensures var r := MulModFast2(a, b, m, InitMulModFast2(b, m)); r < m && r == (a * b) % m
  {
    ConstantRest(a, b, m);
    hide InitMulModFast2;
    var q := (a * InitMulModFast2(b, m)) / B;
    var r := a * b - q * m;
    assert Wrap(r) == r;
    assert r - a * b == (-q) * m by { assert (-q) * m == -(q * m); }
    CongBy(r, a * b, m, -q);
    MulAdd(q, 1, m);
    QuotientIs(a * b, m, if r >= m then q + 1 else q, if r >= m then r - m else r);
  }

  // n elements from o on: a buffer given by a pointer into a longer one
  function Part(s: seq<Limb>, o: nat, n: nat): (r: seq<Limb>)
    requires o + n <= |s|
    ensures |r| == n
  {
    s[o..o + n]
  }

  // s and t differ at most there
  predicate Outside(s: seq<Limb>, t: seq<Limb>, o: nat, n: nat) {
    |s| == |t| && o + n <= |s| && s[..o] == t[..o] && s[o + n..] == t[o + n..]
  }

  lemma {:induction false} PartUpdate(s: seq<Limb>, was: seq<Limb>, o: nat, n: nat, i: nat, v: Limb)
    requires Outside(s, was, o, n) && i < n
    ensures Outside(s[o + i := v], was, o, n) && Part(s[o + i := v], o, n) == Part(s, o, n)[i := v]
  {
  }

  lemma {:induction false} OutsideSame(s: seq<Limb>, o: nat, n: nat)
    requires o + n <= |s|
    ensures Outside(s, s, o, n)
  {
  }

  lemma {:induction false} OutsideTrans(s: seq<Limb>, t: seq<Limb>, u: seq<Limb>, o: nat, n: nat)
    requires Outside(s, t, o, n) && Outside(t, u, o, n)
    ensures Outside(s, u, o, n)
  {
  }

  // the products of the first i elements, scaled and below 2m
  ghost predicate VecDone(x: seq<Limb>, y: seq<Limb>, z: seq<Limb>, norm: Limb, m: Limb, i: nat) {
    && |x| == |y| == |z| && i <= |x|
    && (forall k | 0 <= k < i :: z[k] < 2 * m && Cong(z[k], (x[k] as int) * y[k] * norm, m))
    && (forall k | i <= k < |x| :: z[k] == x[k])
  }

  lemma {:induction false} VecStart(x: seq<Limb>, y: seq<Limb>, norm: Limb, m: Limb)
    requires |x| == |y|
    ensures VecDone(x, y, x, norm, m, 0)
  {
  }

  lemma {:induction false} VecNext(x: seq<Limb>, y: seq<Limb>, z: seq<Limb>, norm: Limb, m: Limb, i: nat, v: Limb)
    requires VecDone(x, y, z, norm, m, i) && i < |x| && v < 2 * m && Cong(v, (x[i] as int) * y[i] * norm, m)
    ensures VecDone(x, y, z[i := v], norm, m, i + 1)
  {
    hide Cong;
  }

  // ntt_vec_mul: the pointwise product, scaled by norm; the elements stay below 2m
  method NttVecMul(tab1: array<Limb>, o1: nat, tab2: array<Limb>, o2: nat, n: nat, norm: Limb, normInv: Limb, m: Limb,
                   mInv: Limb)
    requires MOD_MIN < m < MOD_MAX && mInv == InitMulModFast(m) && norm < m && normInv == InitMulModFast2(norm, m)
    requires o1 + n <= tab1.Length && o2 + n <= tab2.Length && tab1 != tab2
    requires forall i | 0 <= i < n :: Part(tab1[..], o1, n)[i] < 2 * m && Part(tab2[..], o2, n)[i] < 2 * m
    modifies tab1
    ensures VecDone(old(Part(tab1[..], o1, n)), Part(tab2[..], o2, n), Part(tab1[..], o1, n), norm, m, n)
    ensures Outside(tab1[..], old(tab1[..]), o1, n)
  {
    hide InitMulModFast, InitMulModFast2, ModFast, MulModFast3, Cong, VecDone, Outside;
    ghost var was, y := tab1[..], Part(tab2[..], o2, n);
    ghost var x := Part(was, o1, n);
    var i := 0;
    VecStart(x, y, norm, m);
    OutsideSame(was, o1, n);
    while i < n
      invariant 0 <= i <= n && VecDone(x, y, Part(tab1[..], o1, n), norm, m, i) && Outside(tab1[..], was, o1, n)
    {
      ghost var now := tab1[..];
      VecSame(x, y, Part(now, o1, n), norm, m, i);
      assert tab1[o1 + i] == Part(now, o1, n)[i] == x[i] && tab2[o2 + i] == y[i];
      VecMulStep(x[i], y[i], norm, m);
      var a: int := tab1[o1 + i];
      if a >= m {
        a := a - m;
      }
      a := ModFast(a * tab2[o2 + i], m, mInv);
      var v := MulModFast3(a, norm, m, normInv);
      tab1[o1 + i] := v;
      PartUpdate(now, was, o1, n, i, v);
      VecNext(x, y, Part(now, o1, n), norm, m, i, v);
      i := i + 1;
    }
  }

  lemma {:induction false} VecSame(x: seq<Limb>, y: seq<Limb>, z: seq<Limb>, norm: Limb, m: Limb, i: nat)
    requires VecDone(x, y, z, norm, m, i) && i < |x|
    ensures |z| == |x| && z[i] == x[i]
  {
  }

  lemma {:induction false} VecMulStep(x: Limb, y: Limb, norm: Limb, m: Limb)
    requires MOD_MIN < m < MOD_MAX && norm < m && x < 2 * m && y < 2 * m
    ensures var a: int := if x >= m then x - m else x;
            && 0 <= a * y < B * MOD_MIN
            && var r := MulModFast3(ModFast(a * y, m, InitMulModFast(m)), norm, m, InitMulModFast2(norm, m));
               r < 2 * m && Cong(r, x * y * norm, m)
  {
    hide InitMulModFast, InitMulModFast2, ModFast, MulModFast3;
    var a: int := if x >= m then x - m else x;
    MulNat(a, y);
    MulMono(a, MOD_MAX, y);
    ModFastExact(a * y, m);
    var b := ModFast(a * y, m, InitMulModFast(m));
    MulModExact(b, norm, m);
    DivMod(a * y, m);
    assert (-((a * y) / m)) * m == -(m * ((a * y) / m));
    CongBy(b, a * y, m, -((a * y) / m));
    CongBy(a, x, m, if x >= m then -1 else 0);
    CongSame(y, m);
    CongMul(a, x, y, y, m);
    CongTrans(b, a * y, x * y, m);
    CongSame(norm, m);
    CongMul(b, x * y, norm, norm, m);
    CongTrans(MulModFast3(b, norm, m, InitMulModFast2(norm, m)), b * norm, x * y * norm, m);
  }
}
