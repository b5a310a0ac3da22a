/** Square roots of libbf.c: of one limb by a table and two refinements, of two limbs, and of
    any number of limbs by the Karatsuba recursion. */
module LimbSqrt {
  import opened Limbs
  import opened LimbQuotient
  import opened LimbDivide
  import opened SqrtBounds

  // sqrt_table, in rows of sixteen
  function TableRow(k: nat): (row: seq<nat>)
    ensures |row| == 16
  {
    if k == 0 then [128, 128, 129, 130, 131, 132, 133, 134, 135, 136, 137, 138, 139, 140, 141, 142]
    else if k == 1 then [143, 144, 144, 145, 146, 147, 148, 149, 150, 150, 151, 152, 153, 154, 155, 155]
    else if k == 2 then [156, 157, 158, 159, 160, 160, 161, 162, 163, 163, 164, 165, 166, 167, 167, 168]
    else if k == 3 then [169, 170, 170, 171, 172, 173, 173, 174, 175, 176, 176, 177, 178, 178, 179, 180]
    else if k == 4 then [181, 181, 182, 183, 183, 184, 185, 185, 186, 187, 187, 188, 189, 189, 190, 191]
    else if k == 5 then [192, 192, 193, 193, 194, 195, 195, 196, 197, 197, 198, 199, 199, 200, 201, 201]
    else if k == 6 then [202, 203, 203, 204, 204, 205, 206, 206, 207, 208, 208, 209, 209, 210, 211, 211]
    else if k == 7 then [212, 212, 213, 214, 214, 215, 215, 216, 217, 217, 218, 218, 219, 219, 220, 221]
    else if k == 8 then [221, 222, 222, 223, 224, 224, 225, 225, 226, 226, 227, 227, 228, 229, 229, 230]
    else if k == 9 then [230, 231, 231, 232, 232, 233, 234, 234, 235, 235, 236, 236, 237, 237, 238, 238]
    else if k == 10 then [239, 240, 240, 241, 241, 242, 242, 243, 243, 244, 244, 245, 245, 246, 246, 247]
    else [247, 248, 248, 249, 249, 250, 250, 251, 251, 252, 252, 253, 253, 254, 254, 255]
  }

  function SqrtTable(i: nat): nat
    requires i < 192
  {
    TableRow(i / 16)[i % 16]
  }

  predicate EntryGood(t: nat, i: nat) {
    128 <= t <= 255 && t * t <= 256 * (i + 64) && 256 * (i + 64) + 255 < (t + 2) * (t + 2)
  }

  lemma {:induction false} RowGood(r: seq<nat>, i: nat, j: nat)
    requires |r| == 16 && j < 16
    requires EntryGood(r[0], i) && EntryGood(r[1], i + 1) && EntryGood(r[2], i + 2) && EntryGood(r[3], i + 3)
    requires EntryGood(r[4], i + 4) && EntryGood(r[5], i + 5) && EntryGood(r[6], i + 6) && EntryGood(r[7], i + 7)
    requires EntryGood(r[8], i + 8) && EntryGood(r[9], i + 9) && EntryGood(r[10], i + 10) && EntryGood(r[11], i + 11)
    requires EntryGood(r[12], i + 12) && EntryGood(r[13], i + 13) && EntryGood(r[14], i + 14)
             && EntryGood(r[15], i + 15)
    ensures EntryGood(r[j], i + j)
  {
    hide EntryGood;
  }

  lemma {:induction false} RowsGood0(k: nat, j: nat)
    requires 0 <= k < 3 && j < 16
    ensures EntryGood(TableRow(k)[j], 16 * k + j)
  {
    if k == 0 { RowGood(TableRow(0), 0, j); }
    if k == 1 { RowGood(TableRow(1), 16, j); }
    if k == 2 { RowGood(TableRow(2), 32, j); }
  }

  lemma {:induction false} RowsGood1(k: nat, j: nat)
    requires 3 <= k < 6 && j < 16
    ensures EntryGood(TableRow(k)[j], 16 * k + j)
  {
    if k == 3 { RowGood(TableRow(3), 48, j); }
    if k == 4 { RowGood(TableRow(4), 64, j); }
    if k == 5 { RowGood(TableRow(5), 80, j); }
  }

  lemma {:induction false} RowsGood2(k: nat, j: nat)
    requires 6 <= k < 9 && j < 16
    ensures EntryGood(TableRow(k)[j], 16 * k + j)
  {
    if k == 6 { RowGood(TableRow(6), 96, j); }
    if k == 7 { RowGood(TableRow(7), 112, j); }
    if k == 8 { RowGood(TableRow(8), 128, j); }
  }

  lemma {:induction false} RowsGood3(k: nat, j: nat)
    requires 9 <= k < 12 && j < 16
    ensures EntryGood(TableRow(k)[j], 16 * k + j)
  {
    if k == 9 { RowGood(TableRow(9), 144, j); }
    if k == 10 { RowGood(TableRow(10), 160, j); }
    if k == 11 { RowGood(TableRow(11), 176, j); }
  }

  // The table holds the root of the 16 bits it is looked up with, or one less.
  lemma {:induction false} TableGood(i: nat)
    requires i < 192
    ensures EntryGood(SqrtTable(i), i)
  {
    hide EntryGood, TableRow;
    var k, j := i / 16, i % 16;
    if k < 3 {
      RowsGood0(k, j);
    } else if k < 6 {
      RowsGood1(k, j);
    } else if k < 9 {
      RowsGood2(k, j);
    } else {
      RowsGood3(k, j);
    }
  }

  // one iteration: from the root of the high bits of a to twice as many bits. The remainder is
  // kept in an unsigned limb, whose top bit is its sign.
  method Refine(s1: Limb, r1: Limb, b: Limb, a1: Limb, a0: Limb, ghost a: int) returns (s: Limb, r: Limb)
    requires IsSqrt(a, s1, r1) && 0 < b <= 0x1_0000 && b <= 2 * s1 && s1 < b && a1 < b && a0 < b
    ensures IsSqrt(a * (b * b) + a1 * b + a0, s, r)
  {
    hide IsSqrt, Wrap;
    var num := r1 * b + a1;
    SqrtBoundsOf(a, s1, r1);
    RefineFits(s1, r1, b, a1, a0);
    var q: int, u: int := num / (2 * s1), num % (2 * s1);
    Refined(a, s1, r1, b, a1, a0, q, u);
    s := s1 * b + q;
    var rest := Wrap(u * b + a0 - q * q);
    if rest >= B / 2 {
      s := s - 1;
      var twice: int := 2 * s + 1;
      rest := Wrap(rest + twice);
    }
    r := rest;
  }

  lemma {:induction false} SqrtBoundsOf(a: int, s: int, r: int)
    requires IsSqrt(a, s, r)
    ensures 0 <= r <= 2 * s
  {
  }

  lemma {:induction false} Refined(a: int, s1: int, r1: int, b: int, a1: int, a0: int, q: int, u: int)
    requires IsSqrt(a, s1, r1) && 0 < b <= 2 * s1 && 0 <= a1 < b && 0 <= a0 < b
    requires r1 * b + a1 == 2 * s1 * q + u && 0 <= u < 2 * s1 && 0 <= q
    requires 0 < s1 * b + q < B / 4 && 0 - B / 4 <= u * b + a0 - q * q < B / 4
    ensures var s, w := s1 * b + q, Wrap(u * b + a0 - q * q);
            IsSqrt(a * (b * b) + a1 * b + a0, if w >= B / 2 then s - 1 else s,
                   if w >= B / 2 then Wrap(w + 2 * (s - 1) + 1) else w)
  {
    SqrtStep(s1, r1, b, a1, a0, q, u);
    WrapSign(s1 * b + q, u * b + a0 - q * q);
  }

  lemma {:induction false} WrapSign(s: int, r: int)
    requires 0 < s < B / 4 && 0 - B / 4 <= r < B / 4
    ensures Wrap(r) >= B / 2 <==> r < 0
    ensures r >= 0 ==> Wrap(r) == r
    ensures r < 0 && 0 <= r + 2 * s - 1 ==> Wrap(Wrap(r) + 2 * (s - 1) + 1) == r + 2 * s - 1
  {
  }

  lemma {:induction false} RefineFits(s1: int, r1: int, b: int, a1: int, a0: int)
    requires 0 < b <= 0x1_0000 && b <= 2 * s1 && s1 < b && 0 <= r1 <= 2 * s1 && 0 <= a1 < b && 0 <= a0 < b
    ensures var num := r1 * b + a1;
            var q, u := num / (2 * s1), num % (2 * s1);
            && num == 2 * s1 * q + u && 0 <= u < 2 * s1
            && 0 <= q <= b && 0 < s1 * b + q && s1 * b + q < B / 4 && 0 - B / 4 <= u * b + a0 - q * q < B / 4
  {
    var num := r1 * b + a1;
    MulNat(r1, b);
    DivMod(num, 2 * s1);
    var q, u := num / (2 * s1), num % (2 * s1);
    LowHalf(s1, r1, b, a1, q, u);
    MulMono(s1, b, b);
    MulMono(b, 0x1_0000, b);
    MulMono(1, s1, b);
    RemainderRange(s1, b, a0, q, u);
    MulMono(q, b, q);
    MulMono(q, b, b);
    assert b * q == q * b;
    MulNat(u, b);
    assert 2 * s1 * q == (2 * s1) * q;
  }

  const TWO8: nat := 0x100
  const TWO16: nat := 0x1_0000
  const TWO32: nat := 0x1_0000_0000
  const TWO40: nat := 0x100_0000_0000
  const TWO48: nat := 0x1_0000_0000_0000
  const TWO56: nat := 0x100_0000_0000_0000

  // a >= 2^(LIMB_BITS - 2)
  method MpSqrtrem1(a: Limb) returns (s: Limb, r: Limb)
    requires B / 4 <= a
    ensures IsSqrt(a, s, r)
  {
    hide SqrtTable, IsSqrt, EntryGood;
    TableGood(a / TWO56 - 64);
    var s1: nat := SqrtTable(a / TWO56 - 64);
    var r1: int := a / TWO48 - s1 * s1;
    TableRoot(a, s1);
    if r1 > 2 * s1 {
      r1 := r1 - (2 * s1 + 1);
      s1 := s1 + 1;
    }
    FirstRoot(a, s1, r1);
    s, r := Refine(s1, r1, TWO8, (a / TWO40) % TWO8, (a / TWO32) % TWO8, a / TWO48);
    SecondRoot(a, s, r);
    s, r := Refine(s, r, TWO16, (a / TWO16) % TWO16, a % TWO16, a / TWO32);
  }

  lemma {:induction false} TableRoot(a: Limb, s1: nat)
    requires B / 4 <= a && EntryGood(s1, a / TWO56 - 64)
    ensures var r1 := a / TWO48 - s1 * s1;
            if r1 > 2 * s1 then IsSqrt(a / TWO48, s1 + 1, r1 - (2 * s1 + 1)) else IsSqrt(a / TWO48, s1, r1)
  {
    var i := a / TWO56;
    assert 256 * i <= a / TWO48 <= 256 * i + 255;
    assert (s1 + 1) * (s1 + 1) == s1 * s1 + 2 * s1 + 1;
    assert (s1 + 2) * (s1 + 2) == s1 * s1 + 4 * s1 + 4;
  }

  lemma {:induction false} FirstRoot(a: Limb, s1: int, r1: int)
    requires B / 4 <= a && 0 <= s1 && IsSqrt(a / TWO48, s1, r1)
    ensures TWO8 <= 2 * s1 && s1 < TWO8 && 0 <= r1 < B
    ensures a / TWO32 == (a / TWO48) * (TWO8 * TWO8) + ((a / TWO40) % TWO8) * TWO8 + (a / TWO32) % TWO8
  {
    HighBits(a);
    RootRange(a / TWO48, s1, r1, TWO8);
  }

  lemma {:induction false} HighBits(a: Limb)
    ensures a / TWO32 == (a / TWO48) * (TWO8 * TWO8) + ((a / TWO40) % TWO8) * TWO8 + (a / TWO32) % TWO8
    ensures a == (a / TWO32) * (TWO16 * TWO16) + ((a / TWO16) % TWO16) * TWO16 + a % TWO16
    ensures B / 4 <= a ==> TWO16 <= 4 * (a / TWO48) && TWO32 <= 4 * (a / TWO32)
    ensures a / TWO48 < TWO16 && a / TWO32 < TWO32
  {
    DivDiv(a, TWO32, TWO8);
    DivDiv(a, TWO32, TWO16);
    LowSquare(a / TWO32, TWO8);
    DivDiv(a, TWO16, TWO16);
    LowSquare(a, TWO16);
  }

  lemma {:induction false} LowSquare(c: nat, p: nat)
    requires p > 0
    ensures p * p > 0 && c == (c / (p * p)) * (p * p) + ((c / p) % p) * p + c % p
  {
    DivDiv(c, p, p);
    DivMod(c, p);
    DivMod(c / p, p);
    var x, y := (c / p) / p, (c / p) % p;
    assert p * (p * x + y) == x * (p * p) + y * p;
  }

  lemma {:induction false} RootRange(a: int, s: int, r: int, p: int)
    requires (p == TWO8 || p == TWO16) && p * p <= 4 * a < 4 * (p * p) && 0 <= s && IsSqrt(a, s, r)
    ensures p <= 2 * s && s < p && 0 <= r < B
  {
    RootNormalized(a, s, r, p);
  }

  lemma {:induction false} SecondRoot(a: Limb, s1: int, r1: int)
    requires B / 4 <= a && 0 <= s1 && IsSqrt(a / TWO32, s1, r1)
    ensures TWO16 <= 2 * s1 && s1 < TWO16
    ensures a == (a / TWO32) * (TWO16 * TWO16) + ((a / TWO16) % TWO16) * TWO16 + a % TWO16
  {
    HighBits(a);
    RootRange(a / TWO32, s1, r1, TWO16);
  }

  // the number of leading zero bits
  function Clz(a: Limb): nat
    requires 0 < a
    decreases B - a
  {
    if a >= B / 2 then 0 else 1 + Clz(2 * a)
  }

  lemma {:induction false} ClzScales(a: Limb)
    requires 0 < a
    ensures B / 2 <= a * Two(Clz(a)) < B
    decreases B - a
  {
    if a < B / 2 {
      ClzScales(2 * a);
      var p: int := Two(Clz(2 * a));
      assert (2 * a) * p == a * (2 * p);
    }
  }

  // floor(sqrt(a)): scaled by an even power of two, and back
  method BfIsqrt(a: Limb) returns (s: Limb)
    ensures s * s <= a < (s + 1) * (s + 1)
  {
    if a == 0 {
      return 0;
    }
    ClzScales(a);
    var k := Clz(a) - Clz(a) % 2;
    ScaleEven(a, k);
    var rem;
    s, rem := MpSqrtrem1(a * Two(k));
    ScaleBack(a, Two(k / 2), s, rem);
    s := s / Two(k / 2);
  }

  lemma {:induction false} TwoHalf(j: nat)
    ensures Two(2 * j) == Two(j) * Two(j)
  {
    if j > 0 {
      TwoHalf(j - 1);
      assert Two(2 * j) == 2 * (2 * Two(2 * j - 2));
      var t := Two(j - 1);
      assert (2 * t) * (2 * t) == 4 * (t * t);
    }
  }

  lemma {:induction false} ScaleEven(a: Limb, k: nat)
    requires 0 < a && k == Clz(a) - Clz(a) % 2 && B / 2 <= a * Two(Clz(a)) < B
    ensures k % 2 == 0 && B / 4 <= a * Two(k) < B && Two(k) == Two(k / 2) * Two(k / 2)
  {
    TwoHalf(k / 2);
    if Clz(a) % 2 == 1 {
      assert Two(Clz(a)) == 2 * Two(k);
      assert a * (2 * Two(k)) == 2 * (a * Two(k));
      MulNat(a, Two(k));
    }
  }

  lemma {:induction false} ScaleBack(a: int, c: int, s: int, r: int)
    requires 0 <= a && 0 < c && 0 <= s && IsSqrt(a * (c * c), s, r)
    ensures var t := s / c; 0 <= t <= s && t * t <= a < (t + 1) * (t + 1)
  {
    var t := s / c;
    FloorScale(s, c);
    SqrtFloor(a * (c * c), s, r);
    ScaledSquare(t, c, s);
    NextSquare(s, (t + 1) * c);
    ScaledProduct(t, c);
    ScaledProduct(t + 1, c);
    MulMono(1, c, c);
    Between(a, t * t, (t + 1) * (t + 1), c * c, s * s, (s + 1) * (s + 1));
  }

  lemma {:induction false} FloorScale(s: int, c: int)
    requires 0 <= s && 0 < c
    ensures var t := s / c; t * c <= s < (t + 1) * c && 0 <= t <= s
  {
    DivMod(s, c);
    var t := s / c;
    MulMono(1, c, t);
    assert t * c == c * t && (t + 1) * c == t * c + c;
  }

  lemma {:induction false} Between(a: int, x: int, y: int, k: int, m: int, n: int)
    requires 0 < k && x * k <= m <= a * k < n <= y * k
    ensures x <= a < y
  {
    Cancel(x, a, k);
    Cancel(a, y, k);
  }

  lemma {:induction false} NextSquare(s: int, t: int)
    requires 0 <= s < t
    ensures (s + 1) * (s + 1) <= t * t
  {
    MulMono(s + 1, t, s + 1);
    MulMono(s + 1, t, t);
  }

  lemma {:induction false} ScaledSquare(t: int, c: int, s: int)
    requires 0 <= t && 0 < c && t * c <= s
    ensures (t * c) * (t * c) <= s * s
  {
    var lo := t * c;
    MulNat(t, c);
    MulMono(lo, s, lo);
    MulMono(lo, s, s);
    assert lo * s == s * lo;
  }

  lemma {:induction false} ScaledProduct(t: int, c: int)
    ensures (t * c) * (t * c) == (t * t) * (c * c)
  {
  }

  // what is stored is right modulo B * B, and its top bit is the sign
  lemma {:induction false} DoubleSign(r: int)
    requires 0 - B * B / 2 <= r < B * B / 2
    ensures r % (B * B) == (if r < 0 then r + B * B else r)
    ensures (r % (B * B)) / B >= B / 2 <==> r < 0
  {
  }

  // two limbs: s and the remainder may wrap, and are put right
  method MpSqrtrem2(a1: Limb, a0: Limb) returns (s: Limb, r0: Limb, rh: Limb)
    requires B / 4 <= a1
    ensures IsSqrt(a1 * B + a0, s, r0 + rh * B) && rh <= 1
  {
    hide IsSqrt, Wrap;
    var s1, r1 := MpSqrtrem1(a1);
    HighRoot(a1, s1, r1);
    var num := r1 * TWO32 + a0 / TWO32;
    var q: int, u: int := num / (2 * s1), num % (2 * s1);
    DivMod(num, 2 * s1);
    TwoLimbs(a1, a0, s1, r1, q, u);
    s := Wrap(s1 * TWO32 + q);
    var r: int := u * TWO32 + a0 % TWO32;
    if q / TWO32 != 0 {
      r := (r - B) % (B * B);
    } else {
      r := (r - q * q) % (B * B);
    }
    Corrected(a1 * B + a0, s1 * TWO32 + q, u * TWO32 + a0 % TWO32 - q * q);
    if r / B >= B / 2 {
      var down: int := s - 1;
      s := Wrap(down);
      r := (r + 2 * s + 1) % (B * B);
    }
    r0, rh := r % B, r / B;
  }

  // root and remainder as they are stored, and after the correction
  lemma {:induction false} Corrected(a: int, w: int, rest: int)
    requires 0 < w <= B && 0 - B <= rest < 2 * B
    requires if rest >= 0 then IsSqrt(a, w, rest) && w < B else IsSqrt(a, w - 1, rest + 2 * w - 1)
    ensures var s, r := Wrap(w), rest % (B * B);
            if r / B >= B / 2 then
              var s' := Wrap(s - 1);
              IsSqrt(a, s', (r + 2 * s' + 1) % (B * B)) && 0 <= ((r + 2 * s' + 1) % (B * B)) / B <= 1
            else IsSqrt(a, s, r) && 0 <= r / B <= 1
  {
    DoubleSign(rest);
    if rest < 0 {
      DoubleSign(rest + 2 * w - 1);
      StoredRoot(w, rest);
      TopRemainder(a, w - 1, rest + 2 * w - 1);
    } else {
      TopRemainder(a, w, rest);
    }
  }

  lemma {:induction false} StoredRoot(w: int, rest: int)
    requires 0 < w <= B && 0 - B <= rest < 0 <= rest + 2 * w - 1
    ensures Wrap(Wrap(w) - 1) == w - 1
    ensures (rest + B * B + 2 * (w - 1) + 1) % (B * B) == rest + 2 * w - 1
  {
  }

  lemma {:induction false} TopRemainder(a: int, s: Limb, r: int)
    requires IsSqrt(a, s, r)
    ensures 0 <= r / B <= 1
  {
  }

  lemma {:induction false} HighRoot(a1: Limb, s1: int, r1: int)
    requires B / 4 <= a1 && 0 <= s1 && IsSqrt(a1, s1, r1)
    ensures TWO32 <= 2 * s1 && s1 < TWO32 && 0 <= r1 <= 2 * s1
  {
    RootNormalized(a1, s1, r1, TWO32);
  }

  lemma {:induction false} TwoLimbs(a1: Limb, a0: Limb, s1: int, r1: int, q: int, u: int)
    requires IsSqrt(a1, s1, r1) && TWO32 <= 2 * s1 && s1 < TWO32
    requires r1 * TWO32 + a0 / TWO32 == (2 * s1) * q + u && 0 <= u < 2 * s1
    ensures var a, s, r := a1 * B + a0, s1 * TWO32 + q, u * TWO32 + a0 % TWO32 - q * q;
            && 0 <= q <= TWO32 && 0 < s <= B && (q == TWO32 ==> q * q == B) && 0 - B <= r < 2 * B
            && (if r >= 0 then IsSqrt(a, s, r) && s < B else IsSqrt(a, s - 1, r + 2 * s - 1))
            && 0 <= q * q
  {
    assert 2 * s1 * q == (2 * s1) * q;
    SqrtStep(s1, r1, TWO32, a0 / TWO32, a0 % TWO32, q, u);
    assert a1 * B + a0 == (s1 * s1 + r1) * (TWO32 * TWO32) + (a0 / TWO32) * TWO32 + a0 % TWO32;
    MulNat(q, q);
    MulMono(q, TWO32, q);
    var s, r := s1 * TWO32 + q, u * TWO32 + a0 % TWO32 - q * q;
    if r >= 0 {
      MulNat(s, s);
      RootLess(s, B);
    }
  }

  // The recursion on 2n limbs: l = n / 2 low limbs of the root come from a division.

  // subtract the root from the remainder when that has a high bit
  method SubtractRoot(taba: array<Limb>, o: nat, tabs: array<Limb>, so: nat, h: nat, qh: Limb)
    requires Fits(taba, o, h) && Fits(tabs, so, h) && taba != tabs && qh <= 1
    requires Val(taba[o..o + h]) + qh * Pow(h) <= 2 * Val(tabs[so..so + h])
    modifies taba
    ensures Kept(old(taba[..]), taba[..], o, h)
    ensures Val(taba[o..o + h]) + qh * Val(tabs[so..so + h]) == old(Val(taba[o..o + h])) + qh * Pow(h)
  {
    hide Val, Pow;
    if qh != 0 {
      ghost var r, s := Val(taba[o..o + h]), Val(tabs[so..so + h]);
      var k := MpSub(taba, o, taba, o, tabs, so, h, 0);
      ValBound(taba[o..o + h]);
      ValBound(tabs[so..so + h]);
      BorrowOne(Val(taba[o..o + h]), r, s, k, Pow(h));
    }
  }

  lemma {:induction false} BorrowOne(t: int, r: int, s: int, k: Limb, p: int)
    requires t + s == r + k * p && 0 <= t < p && 0 <= r && s < p && r + p <= 2 * s && k <= 1
    ensures k == 1
  {
  }

  // halve the quotient: qh is above the l limbs of tmp
  method HalveQuotient(tabs: array<Limb>, so: nat, tmp: array<Limb>, l: nat, high: Limb) returns (ql: Limb, qh: Limb)
    requires Fits(tabs, so, l) && Fits(tmp, 0, l + 1) && tabs != tmp && high <= 1 && tmp[l] <= 1
    modifies tabs
    ensures Kept(old(tabs[..]), tabs[..], so, l) && ql <= 1 && qh <= 1
    ensures Val(tmp[0..l + 1]) + high * Pow(l) == 2 * (Val(tabs[so..so + l]) + qh * Pow(l)) + ql
  {
    hide Val, Pow;
    qh := high + tmp[l];
    TopLimb(tmp[0..l + 1], l);
    SubRow(tmp[..], 0, l + 1, 0, l);
    Copy(tabs, so, tmp, 0, l);
    ql := MpShr(tabs, so, tabs, so, l, 2, B / 2, qh % 2);
    HalveNumbers(Val(tmp[0..l]), high, tmp[l], Pow(l), Val(tabs[so..so + l]), ql);
    qh := qh / 2;
  }

  lemma {:induction false} HalveNumbers(v: int, high: int, top: int, p: int, w: int, ql: int)
    requires 0 <= high <= 1 && 0 <= top <= 1 && v + ((high + top) % 2 % 2) * p == 2 * w + ql
    ensures v + top * p + high * p == 2 * (w + ((high + top) / 2) * p) + ql
  {
    var q := high + top;
    assert top * p + high * p == q * p;
    if q == 2 {
      assert 2 * p == 2 * (1 * p);
    }
  }

  // an odd quotient leaves the root in the remainder
  method AddRoot(taba: array<Limb>, o: nat, tabs: array<Limb>, so: nat, h: nat, ql: Limb) returns (rh: Limb)
    requires Fits(taba, o, h) && Fits(tabs, so, h) && taba != tabs && ql <= 1
    modifies taba
    ensures Kept(old(taba[..]), taba[..], o, h) && rh <= 1
    ensures Val(taba[o..o + h]) + rh * Pow(h) == old(Val(taba[o..o + h])) + ql * Val(tabs[so..so + h])
  {
    hide Val, Pow;
    if ql != 0 {
      rh := MpAdd(taba, o, taba, o, tabs, so, h, 0);
    } else {
      rh := 0;
    }
  }

  // dividing by s and halving is dividing by 2 * s
  lemma {:induction false} Halved(s1: int, r1: int, low: int, qh: int, a1: int, a0: int, p: int, qt: int, rem: int,
                                  q: int, ql: int)
    requires 0 < p <= 2 * s1 && 0 <= r1 <= 2 * s1 && 0 <= a1 < p && 0 <= a0 < p && 0 <= ql <= 1
    requires r1 == low + qh * s1 && IsQuotient(a1 + p * low, s1, qt, rem) && qt + qh * p == 2 * q + ql
    ensures RootEstimate(s1, r1, p, a1, a0, q, rem + ql * s1)
  {
    assert r1 * p == p * low + (qh * s1) * p;
    assert (qh * s1) * p == (qh * p) * s1;
    assert qt * s1 + (qh * p) * s1 == (2 * q + ql) * s1;
    assert (2 * q + ql) * s1 == 2 * s1 * q + ql * s1;
  }

  // the remainder and the limbs a1 below it are divided by the root
  method DivideByRoot(tabs: array<Limb>, so: nat, taba: array<Limb>, ao: nat, l: nat, h: nat, tmp: array<Limb>,
                      high: Limb)
    requires 1 <= l <= h && Fits(tabs, so, l + h) && Fits(taba, ao, 2 * l + h) && Fits(tmp, 0, l + 1)
    requires tabs != taba && tabs != tmp && taba != tmp && high <= 1 && Normalized(tabs[so + l + h - 1])
    requires Val(taba[ao + 2 * l..ao + 2 * l + h]) + high * Pow(h) <= 2 * Val(tabs[so + l..so + l + h])
    modifies taba, tmp
    ensures Kept(old(taba[..]), taba[..], ao + l, l + h) && Kept(old(tmp[..]), tmp[..], 0, l + 1) && tmp[l] <= 1
    ensures DividedByRoot(Val(tabs[so + l..so + l + h]), old(Val(taba[ao + 2 * l..ao + 2 * l + h]) + high * Pow(h)),
                          high,
                          old(Val(taba[ao + l..ao + 2 * l])), Pow(l), Val(tmp[0..l + 1]), Val(taba[ao + l..ao + l + h]))
  {
    hide Val, Pow, IsQuotient, Kept, DividedByRoot;
    ghost var was, s1 := taba[..], Val(tabs[so + l..so + l + h]);
    SubtractRoot(taba, ao + 2 * l, tabs, so + l, h, high);
    ghost var mid := taba[..];
    MpDivnorm(tmp, 0, taba, ao + l, l + h, tabs, so + l, h);
    KeptTwice(was, mid, taba[..], ao, l, h);
    DividedRows(was, mid, ao, l, h, s1, high, Val(tmp[0..l + 1]), Val(taba[ao + l..ao + l + h]));
  }

  lemma {:induction false} DividedRows(was: seq<Limb>, mid: seq<Limb>, o: nat, l: nat, h: nat, s1: int, high: int,
                                       qt: int, rem: int)
    requires o + 2 * l + h <= |was| && Kept(was, mid, o + 2 * l, h)
    requires Val(mid[o + 2 * l..o + 2 * l + h]) + high * s1 == Val(was[o + 2 * l..o + 2 * l + h]) + high * Pow(h)
    requires IsQuotient(Val(mid[o + l..o + l + (l + h)]), s1, qt, rem)
    ensures DividedByRoot(s1, Val(was[o + 2 * l..o + 2 * l + h]) + high * Pow(h), high, Val(was[o + l..o + 2 * l]),
                          Pow(l), qt, rem)
  {
    hide Val, Pow, IsQuotient, DividedByRoot;
    var low, a1 := mid[o + 2 * l..o + 2 * l + h], mid[o + l..o + 2 * l];
    KeptRow(was, mid, o + 2 * l, h, o + l, o + 2 * l);
    JoinedRow(mid, o + l, o + 2 * l, o + 2 * l + h);
    ValAppend(a1, low);
    DividedFacts(s1, Val(low) + high * s1, Val(low), high, Val(a1), Pow(l), qt, rem);
  }

  lemma {:induction false} KeptTwice(s: seq<Limb>, t: seq<Limb>, u: seq<Limb>, o: nat, l: nat, h: nat)
    requires Kept(s, t, o + 2 * l, h) && Kept(t, u, o + l, l + h)
    ensures Kept(s, u, o + l, l + h)
  {
  }

  // r1 and a1 below it are qt times the root and rem, when high roots are counted in
  ghost predicate DividedByRoot(s1: int, r1: int, high: int, a1: int, p: int, qt: int, rem: int) {
    exists low: int :: r1 == low + high * s1 && IsQuotient(a1 + p * low, s1, qt, rem)
  }

  lemma {:induction false} DividedFacts(s1: int, r1: int, low: int, high: int, a1: int, p: int, qt: int, rem: int)
    requires r1 == low + high * s1 && IsQuotient(a1 + p * low, s1, qt, rem)
    ensures DividedByRoot(s1, r1, high, a1, p, qt, rem)
  {
    hide IsQuotient;
  }

  lemma {:induction false} HalvedFrom(s1: int, r1: int, qh: int, a1: int, a0: int, p: int, qt: int, rem: int, q: int,
                                      ql: int)
    requires DividedByRoot(s1, r1, qh, a1, p, qt, rem) && qt + qh * p == 2 * q + ql
    requires 0 < p <= 2 * s1 && 0 <= r1 <= 2 * s1 && 0 <= a1 < p && 0 <= a0 < p && 0 <= ql <= 1
    ensures RootEstimate(s1, r1, p, a1, a0, q, rem + ql * s1)
  {
    var low: int :| r1 == low + qh * s1 && IsQuotient(a1 + p * low, s1, qt, rem);
    Halved(s1, r1, low, qh, a1, a0, p, qt, rem, q, ql);
  }

  method LowRoot(tabs: array<Limb>, so: nat, taba: array<Limb>, ao: nat, l: nat, h: nat, tmp: array<Limb>, high: Limb)
      returns (qh: Limb, rh: Limb)
    requires 1 <= l <= h && Fits(tabs, so, l + h) && Fits(taba, ao, 2 * l + h) && Fits(tmp, 0, l + 1)
    requires tabs != taba && tabs != tmp && taba != tmp && high <= 1 && Normalized(tabs[so + l + h - 1])
    requires Val(taba[ao + 2 * l..ao + 2 * l + h]) + high * Pow(h) <= 2 * Val(tabs[so + l..so + l + h])
    modifies tabs, taba, tmp
    ensures Kept(old(tabs[..]), tabs[..], so, l) && Kept(old(taba[..]), taba[..], ao + l, l + h) && rh <= 1 && qh <= 1
    ensures Kept(old(tmp[..]), tmp[..], 0, l + 1)
    ensures RootEstimate(Val(tabs[so + l..so + l + h]), old(Val(taba[ao + 2 * l..ao + 2 * l + h]) + high * Pow(h)),
                         Pow(l),
                         old(Val(taba[ao + l..ao + 2 * l])), Val(taba[ao..ao + l]),
                         Val(tabs[so..so + l]) + qh * Pow(l), Val(taba[ao + l..ao + l + h]) + rh * Pow(h))
  {
    hide Val, Pow, RootEstimate, DividedByRoot, Kept;
    ghost var r1, a1 := Val(taba[ao + 2 * l..ao + 2 * l + h]) + high * Pow(h), taba[ao + l..ao + 2 * l];
    ghost var was, wasS := taba[..], tabs[..];
    LowSizes(was, tabs[so + l..so + l + h], ao, l, r1);
    DivideByRoot(tabs, so, taba, ao, l, h, tmp, high);
    ghost var mid, qt, rem := taba[..], Val(tmp[0..l + 1]), Val(taba[ao + l..ao + l + h]);
    var ql;
    ql, qh := HalveQuotient(tabs, so, tmp, l, high);
    KeptRow(wasS, tabs[..], so, l, so + l, so + l + h);
    rh := AddRoot(taba, ao + l, tabs, so + l, h, ql);
    KeptOver(was, mid, taba[..], ao, l, h);
    HalvedFrom(Val(tabs[so + l..so + l + h]), r1, high, Val(a1), Val(taba[ao..ao + l]), Pow(l), qt, rem,
               Val(tabs[so..so + l]) + qh * Pow(l), ql);
  }

  lemma {:induction false} LowSizes(a: seq<Limb>, s1: seq<Limb>, o: nat, l: nat, r1: int)
    requires o + 2 * l <= |a| && |s1| >= l >= 1 && Normalized(s1[|s1| - 1])
    ensures Val(a[o + l..o + 2 * l]) < Pow(l) && Val(a[o..o + l]) < Pow(l) && 0 < Pow(l) <= 2 * Val(s1)
  {
    ValBound(a[o + l..o + 2 * l]);
    ValBound(a[o..o + l]);
    RootSizes(s1, l);
  }

  lemma {:induction false} KeptOver(s: seq<Limb>, t: seq<Limb>, u: seq<Limb>, o: nat, l: nat, h: nat)
    requires o + 2 * l + h <= |s| && Kept(s, t, o + l, l + h) && Kept(t, u, o + l, h)
    ensures Kept(s, u, o + l, l + h) && u[o..o + l] == s[o..o + l]
  {
    KeptRow(s, t, o + l, l + h, o, o + l);
    KeptRow(t, u, o + l, h, o, o + l);
  }

  lemma {:induction false} RootSizes(s1: seq<Limb>, l: nat)
    requires |s1| >= l && |s1| >= 1 && Normalized(s1[|s1| - 1])
    ensures 0 < Pow(l) <= 2 * Val(s1)
  {
    hide Val, Pow;
    NormalizedVal(s1);
    PowMono(l, |s1|);
  }

  // a subtraction in two parts, the high part taking the borrow of the low one
  lemma {:induction false} SubParts(s: seq<Limb>, t: seq<Limb>, n: nat, x: int, c: int, c1: int)
    requires |s| == |t| && n <= |s| && Val(t[..n]) + x == Val(s[..n]) + c * Pow(n)
    requires Val(t[n..]) + c == Val(s[n..]) + c1 * Pow(|s| - n)
    ensures Val(t) + x == Val(s) + c1 * Pow(|s|)
  {
    hide Val, Pow;
    ValSplit(s, n);
    ValSplit(t, n);
    PowAdd(n, |s| - n);
    var p, q := Pow(n), Pow(|s| - n);
    assert p * (Val(t[n..]) + c) == p * Val(t[n..]) + c * p;
    assert p * (Val(s[n..]) + c1 * q) == p * Val(s[n..]) + c1 * (p * q);
  }

  // the product of the low limbs of the root, taken from the 2l low limbs; mp_mul of the source
  // goes over to fft_mul for many limbs
  method SubtractProduct(tabs: array<Limb>, so: nat, taba: array<Limb>, ao: nat, n: nat, l: nat) returns (c: Limb)
    requires 1 <= l && 2 * l <= n && Fits(tabs, so, l) && Fits(taba, ao, 2 * n) && tabs != taba
    modifies taba
    ensures Kept(old(taba[..]), taba[..], ao, 2 * n) && c <= 1
            && taba[ao + 2 * l..ao + n] == old(taba[ao + 2 * l..ao + n])
    ensures var q := Val(tabs[so..so + l]);
            Val(taba[ao..ao + 2 * l]) + q * q == old(Val(taba[ao..ao + 2 * l])) + c * Pow(2 * l)
  {
    hide Val, Pow, Kept;
    ghost var was := taba[..];
    MpMulBasecase(taba, ao + n, tabs, so, l, tabs, so, l);
    ghost var mid := taba[..];
    KeptRow(was, mid, ao + n, 2 * l, ao, ao + 2 * l);
    KeptRow(was, mid, ao + n, 2 * l, ao + 2 * l, ao + n);
    c := MpSub(taba, ao, taba, ao, taba, ao + n, 2 * l, 0);
    KeptRow(mid, taba[..], ao, 2 * l, ao + 2 * l, ao + n);
    KeptBoth(was, mid, taba[..], ao, n, l);
  }

  lemma {:induction false} KeptBoth(s: seq<Limb>, t: seq<Limb>, u: seq<Limb>, o: nat, n: nat, l: nat)
    requires 2 * l <= n && Kept(s, t, o + n, 2 * l) && Kept(t, u, o, 2 * l)
    ensures Kept(s, u, o, 2 * n)
  {
  }

  // subtract q * q, with a shortcut when q is B^l
  method SubtractSquare(tabs: array<Limb>, so: nat, taba: array<Limb>, ao: nat, n: nat, l: nat, qh: Limb)
    returns (k: Limb)
    requires 1 <= l && 2 * l <= n && Fits(tabs, so, l) && Fits(taba, ao, 2 * n) && tabs != taba
    requires qh <= 1 && (qh == 1 ==> Val(tabs[so..so + l]) == 0)
    modifies taba
    ensures Kept(old(taba[..]), taba[..], ao, 2 * n) && k <= 1
    ensures var q := Val(tabs[so..so + l]) + qh * Pow(l);
            Val(taba[ao..ao + n]) + q * q == old(Val(taba[ao..ao + n])) + k * Pow(n)
  {
    hide Val, Pow, Kept;
    ghost var was := taba[..];
    ghost var low := Val(tabs[so..so + l]);
    KeptNone(was, ao, 2 * n);
    var c: Limb := qh;
    if qh == 0 {
      c := SubtractProduct(tabs, so, taba, ao, n, l);
    }
    ghost var mid := taba[..];
    SquareLow(Val(was[ao..ao + 2 * l]), Val(mid[ao..ao + 2 * l]), low, qh, c, l);
    k := MpSubUi(taba, ao + 2 * l, c, n - 2 * l);
    SquareHigh(was, mid, taba[..], ao, n, l, (low + qh * Pow(l)) * (low + qh * Pow(l)), c, k);
  }

  lemma {:induction false} KeptNone(s: seq<Limb>, o: nat, n: nat)
    requires o + n <= |s|
    ensures Kept(s, s, o, n)
  {
  }

  lemma {:induction false} SquareLow(was: int, now: int, low: int, qh: int, c: int, l: nat)
    requires 0 <= qh <= 1 && (qh == 1 ==> low == 0 && was == now && c == 1)
    requires qh == 0 ==> now + low * low == was + c * Pow(2 * l)
    ensures var q := low + qh * Pow(l); now + q * q == was + c * Pow(2 * l)
  {
    hide Pow;
    PowAdd(l, l);
    if qh == 1 {
      assert 1 * Pow(l) == Pow(l);
    } else {
      assert 0 * Pow(l) == 0;
    }
  }

  lemma {:induction false} SquareHigh(was: seq<Limb>, mid: seq<Limb>, now: seq<Limb>, o: nat, n: nat, l: nat, x: int,
                                      c: Limb, k: Limb)
    requires 2 * l <= n && o + 2 * n <= |was| && c <= 1 && Kept(was, mid, o, 2 * n)
             && Kept(mid, now, o + 2 * l, n - 2 * l)
    requires mid[o + 2 * l..o + n] == was[o + 2 * l..o + n] && (n > 2 * l ==> k <= 1)
    requires Val(mid[o..o + 2 * l]) + x == Val(was[o..o + 2 * l]) + c * Pow(2 * l)
    requires Val(now[o + 2 * l..o + n]) + c == Val(mid[o + 2 * l..o + n]) + k * Pow(n - 2 * l)
    ensures Kept(was, now, o, 2 * n) && k <= 1
    ensures Val(now[o..o + n]) + x == Val(was[o..o + n]) + k * Pow(n)
  {
    hide Val, Pow;
    SubRow(was, o, n, 0, 2 * l);
    SubRow(was, o, n, 2 * l, n);
    KeptRow(mid, now, o + 2 * l, n - 2 * l, o, o + 2 * l);
    SubRow(now, o, n, 0, 2 * l);
    SubRow(now, o, n, 2 * l, n);
    SubParts(was[o..o + n], now[o..o + n], 2 * l, x, c, k);
    if n == 2 * l {
      EmptyRow(now[o + 2 * l..o + n], mid[o + 2 * l..o + n]);
    }
  }

  lemma {:induction false} EmptyRow(s: seq<Limb>, t: seq<Limb>)
    requires |s| == 0 && |t| == 0
    ensures Val(s) == Val(t) == 0 && Pow(0) == 1
  {
  }

  // root and remainder before the last step: the root may have wrapped, the remainder may be negative
  ghost predicate Pending(a: int, s: int, r: int, p: int) {
    && 0 < p && 0 < s && a < p * p
    && (if r >= 0 then IsSqrt(a, s, r) && s < p else IsSqrt(a, s - 1, r + 2 * s - 1) && s - 1 < p)
  }

  lemma {:induction false} PendingNow(a: int, s: int, r: int, p: int, s1: int, k: int, v: int, rh: int)
    requires Pending(a, s, r, p) && 0 <= s1 < p && 0 <= v < p && s1 + k * p == s && 0 <= k && r == v + rh * p
    ensures rh >= 0 ==> IsSqrt(a, s1, v + rh * p) && r >= 0
    ensures rh < 0 ==> IsSqrt(a, s - 1, r + 2 * s - 1) && s - 1 < p
  {
    if rh >= 0 {
      MulNat(rh, p);
      Cancel(k, 1, p);
      MulNat(k, p);
    } else {
      MulMono(rh, -1, p);
    }
  }

  lemma {:induction false} SameResidue(x: int, y: int, d: int, p: int)
    requires 0 <= x < p && 0 <= y < p && x == y + d * p
    ensures x == y
  {
    assert (0 - 1) * p == 0 - p;
    Cancel(d, 1, p);
    Cancel(-1, d, p);
  }

  // the remainder was negative: one step back is enough
  method CorrectRoot(tabs: array<Limb>, so: nat, taba: array<Limb>, ao: nat, n: nat, high: Limb, ghost s: int,
                     ghost k: int, ghost r: int)
      returns (rh: Limb)
    requires n >= 1 && Fits(tabs, so, n) && Fits(taba, ao, n) && tabs != taba && high == B - 1
    requires 0 < s <= Pow(n) && Val(tabs[so..so + n]) + k * Pow(n) == s && r == Val(taba[ao..ao + n]) - Pow(n)
    requires 0 <= r + 2 * s - 1 < 2 * Pow(n)
    modifies tabs, taba
    ensures Kept(old(tabs[..]), tabs[..], so, n) && Kept(old(taba[..]), taba[..], ao, n) && rh <= 1
    ensures Val(tabs[so..so + n]) == s - 1 && Val(taba[ao..ao + n]) + rh * Pow(n) == r + 2 * s - 1
  {
    hide Val, Pow, Wrap;
    ghost var p := Pow(n);
    var k3 := MpSubUi(tabs, so, 1, n);
    ValBound(tabs[so..so + n]);
    Wrapped(Val(tabs[so..so + n]), s, k, k3, p);
    var c1: int := MpAddMul1(taba, ao, tabs, so, n, 2);
    var c2: int := MpAddUi(taba, ao, 1, n);
    ValBound(taba[ao..ao + n]);
    CarriesTwo(Val(taba[ao..ao + n]), r + 2 * s - 1, c1, c2, p);
    rh := Wrap(high + c1);
    var h1: int := rh;
    rh := Wrap(h1 + c2);
    HighLimb(c1, c2);
  }

  lemma {:induction false} Wrapped(t: int, s: int, k: int, k3: int, p: int)
    requires 0 <= t < p && 0 < s <= p && t + 1 == (s - k * p) + k3 * p
    ensures t == s - 1
  {
    assert (k3 - k) * p == k3 * p - k * p;
    SameResidue(t, s - 1, k3 - k, p);
  }

  lemma {:induction false} CarriesTwo(v: int, x: int, c1: int, c2: int, p: int)
    requires 0 <= v < p && 0 <= x < 2 * p && v + c2 * p + c1 * p - p == x
    ensures 1 <= c1 + c2 <= 2 && v + (c1 + c2 - 1) * p == x
  {
    assert (c1 + c2 - 1) * p == c2 * p + c1 * p - p;
    Cancel(c1 + c2 - 1, 2, p);
    assert (0 - 1) * p == 0 - p;
    Cancel(-1, c1 + c2 - 1, p);
  }

  lemma {:induction false} HighLimb(c1: int, c2: int)
    requires 0 <= c1 && 0 <= c2 && 1 <= c1 + c2 <= 2
    ensures Wrap(Wrap(B - 1 + c1) + c2) == c1 + c2 - 1
  {
  }

  // the root is put together and the square subtracted
  method FinishRoot(tabs: array<Limb>, so: nat, taba: array<Limb>, ao: nat, n: nat, l: nat, qh: Limb, high: Limb,
                    ghost a: int, ghost s1: int, ghost w: int)
    returns (rh: Limb)
    requires 1 <= l && 2 * l <= n && Fits(tabs, so, n) && Fits(taba, ao, 2 * n) && tabs != taba
    requires qh <= 1 && high <= 1 && (qh == 1 ==> Val(tabs[so..so + l]) == 0)
    requires s1 == Val(tabs[so + l..so + n]) && w == Val(taba[ao..ao + n]) + high * Pow(n)
    requires var q := Val(tabs[so..so + l]) + qh * Pow(l); Pending(a, s1 * Pow(l) + q, w - q * q, Pow(n))
    modifies tabs, taba
    ensures Kept(old(tabs[..]), tabs[..], so, n) && Kept(old(taba[..]), taba[..], ao, 2 * n) && rh <= 1
    ensures IsSqrt(a, Val(tabs[so..so + n]), Val(taba[ao..ao + n]) + rh * Pow(n))
  {
    hide Val, Pow, Wrap, IsSqrt, Pending;
    ghost var q, p := Val(tabs[so..so + l]) + qh * Pow(l), Pow(n);
    ghost var s, r := s1 * Pow(l) + q, w - q * q;
    ghost var low, was := tabs[so..so + l], tabs[..];
    var k := MpAddUi(tabs, so + l, qh, n - l);
    KeptRow(was, tabs[..], so + l, n - l, so, so + l);
    SubRow(tabs[..], so, n, 0, l);
    SubRow(tabs[..], so, n, l, n);
    JoinRoot(tabs[so..so + n], l, s1, qh, k, Val(low));
    ghost var k0: int := k;
    var k2: int := SubtractSquare(tabs, so, taba, ao, n, l, qh);
    ghost var h: int := high - k2;
    ValBound(tabs[so..so + n]);
    ValBound(taba[ao..ao + n]);
    RestNow(w, q, Val(taba[ao..ao + n]), high, k2, p);
    PendingNow(a, s, r, p, Val(tabs[so..so + n]), k0, Val(taba[ao..ao + n]), h);
    rh := Wrap(high - k2);
    SignLimb(high, k2);
    if rh >= B / 2 {
      PendingRange(a, s, r, p);
      rh := CorrectRoot(tabs, so, taba, ao, n, rh, s, k0, r);
    }
  }

  lemma {:induction false} JoinRoot(row: seq<Limb>, l: nat, s1: int, qh: int, k: int, low: int)
    requires l <= |row| && Val(row[..l]) == low && Val(row[l..]) + k * Pow(|row| - l) == s1 + qh
    ensures Val(row) + k * Pow(|row|) == s1 * Pow(l) + (low + qh * Pow(l))
  {
    hide Val, Pow;
    ValSplit(row, l);
    PowAdd(l, |row| - l);
    var p := Pow(l);
    assert (Val(row[l..]) + k * Pow(|row| - l)) * p == p * Val(row[l..]) + k * (p * Pow(|row| - l));
    assert (s1 + qh) * p == s1 * p + qh * p;
  }

  lemma {:induction false} RestNow(w: int, q: int, v: int, high: int, k2: int, p: int)
    requires v + q * q == (w - high * p) + k2 * p
    ensures w - q * q == v + (high - k2) * p
  {
    assert (high - k2) * p == high * p - k2 * p;
  }

  lemma {:induction false} SignLimb(high: int, k: int)
    requires 0 <= high <= 1 && 0 <= k <= 1
    ensures Wrap(high - k) >= B / 2 <==> high - k < 0
    ensures high - k < 0 ==> Wrap(high - k) == B - 1 && high - k == -1
    ensures high - k >= 0 ==> Wrap(high - k) == high - k
  {
  }

  lemma {:induction false} PendingRange(a: int, s: int, r: int, p: int)
    requires Pending(a, s, r, p) && r < 0
    ensures 0 < s <= p && 0 <= r + 2 * s - 1 < 2 * p && IsSqrt(a, s - 1, r + 2 * s - 1)
  {
  }

  // mp_sqrtrem_rec
  method MpSqrtremRec(tabs: array<Limb>, so: nat, taba: array<Limb>, ao: nat, n: nat, tmp: array<Limb>)
    returns (rh: Limb)
    requires n >= 1 && Fits(tabs, so, n) && Fits(taba, ao, 2 * n) && Fits(tmp, 0, n / 2 + 1)
    requires tabs != taba && tabs != tmp && taba != tmp && taba[ao + 2 * n - 1] >= B / 4
    modifies tabs, taba, tmp
    ensures Kept(old(tabs[..]), tabs[..], so, n) && Kept(old(taba[..]), taba[..], ao, 2 * n) && rh <= 1
    ensures IsSqrt(old(Val(taba[ao..ao + 2 * n])), Val(tabs[so..so + n]), Val(taba[ao..ao + n]) + rh * Pow(n))
    decreases n, 1
  {
    hide Val, Pow, IsSqrt, Kept;
    if n == 1 {
      rh := SqrtTwoLimbs(tabs, so, taba, ao);
    } else {
      rh := SqrtFromHigh(tabs, so, taba, ao, n, n / 2, tmp);
    }
  }

  method SqrtFromHigh(tabs: array<Limb>, so: nat, taba: array<Limb>, ao: nat, n: nat, l: nat, tmp: array<Limb>)
    returns (rh: Limb)
    requires n >= 2 && l == n / 2 && Fits(tabs, so, n) && Fits(taba, ao, 2 * n) && Fits(tmp, 0, n / 2 + 1)
    requires tabs != taba && tabs != tmp && taba != tmp && taba[ao + 2 * n - 1] >= B / 4
    modifies tabs, taba, tmp
    ensures Kept(old(tabs[..]), tabs[..], so, n) && Kept(old(taba[..]), taba[..], ao, 2 * n) && rh <= 1
    ensures IsSqrt(old(Val(taba[ao..ao + 2 * n])), Val(tabs[so..so + n]), Val(taba[ao..ao + n]) + rh * Pow(n))
    decreases n, 0
  {
    hide Val, Pow, IsSqrt, Kept;
    ghost var a, was, wasS, h := taba[ao..ao + 2 * n], taba[..], tabs[..], n - l;
    HighRow(was, ao, a, l);
    var qh := MpSqrtremRec(tabs, so + l, taba, ao + 2 * l, n - l, tmp);
    ghost var mid, midS := taba[..], tabs[..];
    LowRows(was, mid, ao, a, l, h);
    rh := SqrtCombine(tabs, so, taba, ao, n, l, n - l, tmp, qh, a);
    KeptInside(was, mid, taba[..], ao + 2 * l, 2 * h, ao, 2 * n);
    KeptInside(wasS, midS, tabs[..], so + l, h, so, n);
  }

  lemma {:induction false} KeptInside(s: seq<Limb>, t: seq<Limb>, u: seq<Limb>, i: nat, m: nat, o: nat, n: nat)
    requires Kept(s, t, i, m) && Kept(t, u, o, n) && o <= i && i + m <= o + n
    ensures Kept(s, u, o, n)
  {
  }

  lemma {:induction false} HighRow(was: seq<Limb>, o: nat, a: seq<Limb>, l: nat)
    requires o + |a| <= |was| && a == was[o..o + |a|] && 2 * l <= |a|
    ensures a[2 * l..] == was[o + 2 * l..o + |a|]
  {
    SubRow(was, o, |a|, 2 * l, |a|);
  }

  lemma {:induction false} LowRows(was: seq<Limb>, now: seq<Limb>, o: nat, a: seq<Limb>, l: nat, h: nat)
    requires o + |a| <= |was| && a == was[o..o + |a|] && |a| == 2 * l + 2 * h && Kept(was, now, o + 2 * l, 2 * h)
    ensures now[o..o + l] == a[..l] && now[o + l..o + 2 * l] == a[l..2 * l]
  {
    SubRow(was, o, |a|, 0, l);
    SubRow(was, o, |a|, l, 2 * l);
    KeptRow(was, now, o + 2 * l, 2 * h, o, o + l);
    KeptRow(was, now, o + 2 * l, 2 * h, o + l, o + 2 * l);
  }

  method SqrtTwoLimbs(tabs: array<Limb>, so: nat, taba: array<Limb>, ao: nat) returns (rh: Limb)
    requires Fits(tabs, so, 1) && Fits(taba, ao, 2) && tabs != taba && taba[ao + 1] >= B / 4
    modifies tabs, taba
    ensures Kept(old(tabs[..]), tabs[..], so, 1) && Kept(old(taba[..]), taba[..], ao, 2) && rh <= 1
    ensures IsSqrt(old(Val(taba[ao..ao + 2])), Val(tabs[so..so + 1]), Val(taba[ao..ao + 1]) + rh * Pow(1))
  {
    hide Val, Pow, IsSqrt;
    TwoLimbRow(taba[ao..ao + 2]);
    var s, r0;
    s, r0, rh := MpSqrtrem2(taba[ao + 1], taba[ao]);
    tabs[so] := s;
    taba[ao] := r0;
    assert tabs[so..so + 1] == [s];
    assert taba[ao..ao + 1] == [r0];
    ValOne(s);
    ValOne(r0);
  }

  // from the root of the 2h high limbs of a to the root of a
  method SqrtCombine(tabs: array<Limb>, so: nat, taba: array<Limb>, ao: nat, n: nat, l: nat, h: nat, tmp: array<Limb>,
                     high: Limb, ghost a: seq<Limb>)
    returns (rh: Limb)
    requires 1 <= l <= h && n == l + h && Fits(tabs, so, n) && Fits(taba, ao, 2 * n) && Fits(tmp, 0, l + 1) && high <= 1
    requires tabs != taba && tabs != tmp && taba != tmp && |a| == 2 * n && a[2 * n - 1] >= B / 4
    requires taba[ao..ao + l] == a[..l] && taba[ao + l..ao + 2 * l] == a[l..2 * l]
    requires IsSqrt(Val(a[2 * l..]), Val(tabs[so + l..so + n]), Val(taba[ao + 2 * l..ao + 2 * l + h]) + high * Pow(h))
    modifies tabs, taba, tmp
    ensures Kept(old(tabs[..]), tabs[..], so, n) && Kept(old(taba[..]), taba[..], ao, 2 * n) && rh <= 1
    ensures IsSqrt(Val(a), Val(tabs[so..so + n]), Val(taba[ao..ao + n]) + rh * Pow(n))
  {
    hide Val, Pow, IsSqrt, RootEstimate, Pending;
    ghost var s1, r1, mid, midS := tabs[so + l..so + n], Val(taba[ao + 2 * l..ao + 2 * l + h]) + high * Pow(h),
      taba[..], tabs[..];
    HighNormalized(a, s1, r1, l, h);
    var qh;
    qh, rh := LowRoot(tabs, so, taba, ao, l, h, tmp, high);
    KeptRow(midS, tabs[..], so, l, so + l, so + n);
    KeptRow(mid, taba[..], ao + l, l + h, ao, ao + l);
    ghost var low, u := Val(tabs[so..so + l]), Val(taba[ao + l..ao + n]) + rh * Pow(h);
    RootPending(a, Val(s1), r1, low + qh * Pow(l), u, n, l, h, low, qh);
    SubRow(taba[..], ao, n, 0, l);
    SubRow(taba[..], ao, n, l, n);
    JoinRest(taba[ao..ao + n], l, Val(a[..l]), u, rh, h);
    rh := FinishRoot(tabs, so, taba, ao, n, l, qh, rh, Val(a), Val(s1), u * Pow(l) + Val(a[..l]));
  }

  lemma {:induction false} TwoLimbRow(s: seq<Limb>)
    requires |s| == 2
    ensures Val(s) == s[1] * B + s[0] && Pow(1) == B
  {
    assert s == [s[0]] + [s[1]];
    ValFirst(s[0], [s[1]]);
    ValOne(s[1]);
  }

  // the root of the high limbs is normalized
  lemma {:induction false} HighNormalized(a: seq<Limb>, s1: seq<Limb>, r1: int, l: nat, h: nat)
    requires h >= 1 && |a| == 2 * l + 2 * h && |s1| == h && a[|a| - 1] >= B / 4 && IsSqrt(Val(a[2 * l..]), Val(s1), r1)
    ensures Normalized(s1[h - 1]) && 0 <= r1 <= 2 * Val(s1)
  {
    hide Val, Pow;
    var hi := a[2 * l..];
    QuarterVal(hi, h);
    ValBound(hi);
    PowAdd(h, h);
    PowEven(h);
    RootNormalized(Val(hi), Val(s1), r1, Pow(h));
    TopNormalized(s1);
  }

  lemma {:induction false} PowEven(h: nat)
    requires h >= 1
    ensures Pow(h) % 2 == 0
  {
    var p := Pow(h - 1);
    assert Pow(h) == 2 * (0x8000_0000_0000_0000 * p);
  }

  lemma {:induction false} QuarterVal(s: seq<Limb>, h: nat)
    requires h >= 1 && |s| == 2 * h && s[2 * h - 1] >= B / 4
    ensures Pow(h) * Pow(h) <= 4 * Val(s)
  {
    hide Val, Pow;
    TopOf(s, 2 * h - 1);
    PowNext(2 * h - 1);
    PowAdd(h, h);
    var top: int := s[2 * h - 1];
    MulMono(B, 4 * top, Pow(2 * h - 1));
    assert (4 * top) * Pow(2 * h - 1) == 4 * (top * Pow(2 * h - 1));
  }

  lemma {:induction false} JoinRest(row: seq<Limb>, l: nat, a0: int, u: int, rh: int, h: nat)
    requires |row| == l + h && Val(row[..l]) == a0 && u == Val(row[l..]) + rh * Pow(h)
    ensures u * Pow(l) + a0 == Val(row) + rh * Pow(l + h)
  {
    hide Val, Pow;
    ValSplit(row, l);
    PowAdd(l, h);
    assert u * Pow(l) == Pow(l) * Val(row[l..]) + rh * (Pow(l) * Pow(h));
  }

  lemma {:induction false} RootPending(a: seq<Limb>, s1: int, r1: int, q: int, u: int, n: nat, l: nat, h: nat, low: int,
                                       qh: int)
    requires n == l + h && 1 <= l && |a| == 2 * n && IsSqrt(Val(a[2 * l..]), s1, r1) && 0 <= low && 0 <= qh
             && q == low + qh * Pow(l)
    requires RootEstimate(s1, r1, Pow(l), Val(a[l..2 * l]), Val(a[..l]), q, u)
    ensures Pending(Val(a), s1 * Pow(l) + q, u * Pow(l) + Val(a[..l]) - q * q, Pow(n))
    ensures qh == 1 ==> low == 0
  {
    hide Val, Pow;
    ThreeRows(a, l);
    SqrtStep(s1, r1, Pow(l), Val(a[l..2 * l]), Val(a[..l]), q, u);
    ValBound(a);
    PowAdd(n, n);
    RootPositive(s1, Pow(l), q);
    var s, r := s1 * Pow(l) + q, u * Pow(l) + Val(a[..l]) - q * q;
    if r >= 0 {
      MulNat(s, s);
      RootLess(s, Pow(n));
    } else {
      MulNat(s - 1, s - 1);
      RootLess(s - 1, Pow(n));
    }
    if qh == 1 {
      assert 1 * Pow(l) == Pow(l);
    }
  }

  lemma {:induction false} RootPositive(s1: int, b: int, q: int)
    requires 0 < b <= 2 * s1 && 0 <= q
    ensures 0 < s1 * b + q
  {
    MulMono(1, s1, b);
  }

  lemma {:induction false} ThreeRows(a: seq<Limb>, l: nat)
    requires 2 * l <= |a|
    ensures Val(a) == Val(a[2 * l..]) * (Pow(l) * Pow(l)) + Val(a[l..2 * l]) * Pow(l) + Val(a[..l])
  {
    hide Val, Pow;
    ValSplit(a, 2 * l);
    ValSplit(a[..2 * l], l);
    assert a[..2 * l][..l] == a[..l] && a[..2 * l][l..] == a[l..2 * l];
    PowAdd(l, l);
  }

  // mp_sqrtrem: the root in tabs, the remainder in the n + 1 low limbs of taba
  method MpSqrtrem(tabs: array<Limb>, taba: array<Limb>, n: nat)
    requires n >= 1 && tabs.Length == n && taba.Length == 2 * n && tabs != taba && taba[2 * n - 1] >= B / 4
    modifies tabs, taba
    ensures var a, s, r := old(Val(taba[..])), Val(tabs[..]), Val(taba[..n + 1]);
            s * s <= a < (s + 1) * (s + 1) && r == a - s * s
  {
    hide Val, Pow;
    var tmp := new Limb[n / 2 + 1](_ => 0);
    assert taba[0..2 * n] == taba[..] && tabs[0..n] == tabs[..];
    var rh := MpSqrtremRec(tabs, 0, taba, 0, n, tmp);
    ghost var low := taba[0..n];
    taba[n] := rh;
    assert taba[..n + 1] == low + [rh] && tabs[0..n] == tabs[..];
    ValPush(low, rh);
    SqrtFloor(old(Val(taba[..])), Val(tabs[..]), Val(taba[..n + 1]));
  }
}
