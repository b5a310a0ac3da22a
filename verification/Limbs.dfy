/** Multi-precision limb arithmetic of libbf.c: carry and borrow loops over arrays of limbs,
    each proved against the integers the arrays stand for. */
module Limbs {

  const B: nat := 0x1_0000_0000_0000_0000

  type Limb = x: int | 0 <= x < B

  function Pow(n: nat): (p: nat)
    ensures p > 0
  {
    if n == 0 then 1 else B * Pow(n - 1)
  }

  function Two(n: nat): (p: nat)
    ensures p > 0
  {
    if n == 0 then 1 else 2 * Two(n - 1)
  }

  // the integer a row of limbs stands for, lowest limb first
  function Val(s: seq<Limb>): nat {
    if s == [] then 0 else Val(s[..|s| - 1]) + s[|s| - 1] * Pow(|s| - 1)
  }

  // an unsigned limb operation
  function Wrap(x: int): (r: Limb) {
    x % B
  }

  lemma {:induction false} PowAdd(m: nat, n: nat)
    ensures Pow(m + n) == Pow(m) * Pow(n)
  {
    if m > 0 {
      PowAdd(m - 1, n);
      var p, q := Pow(m - 1), Pow(n);
      assert B * (p * q) == (B * p) * q;
    }
  }

  lemma {:induction false} TwoAdd(m: nat, n: nat)
    ensures Two(m + n) == Two(m) * Two(n)
  {
    if m > 0 {
      TwoAdd(m - 1, n);
      assert 2 * (Two(m - 1) * Two(n)) == (2 * Two(m - 1)) * Two(n);
    }
  }

  lemma {:induction false} ValPush(s: seq<Limb>, x: Limb)
    ensures Val(s + [x]) == Val(s) + x * Pow(|s|)
  {
    assert (s + [x])[..|s|] == s;
  }

  lemma {:induction false} ValAppend(s: seq<Limb>, t: seq<Limb>)
    ensures Val(s + t) == Val(s) + Pow(|s|) * Val(t)
  {
    if t == [] {
      assert s + t == s;
    } else {
      var u, x := t[..|t| - 1], t[|t| - 1];
      assert s + t == (s + u) + [x] && t == u + [x];
      ValPush(s + u, x);
      ValPush(u, x);
      ValAppend(s, u);
      PowAdd(|s|, |u|);
      Distribute(Pow(|s|), Val(u), x, Pow(|u|));
    }
  }

  lemma {:induction false} Distribute(p: int, v: int, x: int, q: int)
    ensures p * (v + x * q) == p * v + x * (p * q)
  {
    assert p * (v + x * q) == p * v + p * (x * q);
    assert p * (x * q) == x * (p * q);
  }

  lemma {:induction false} ValFirst(x: Limb, s: seq<Limb>)
    ensures Val([x] + s) == x + B * Val(s)
  {
    ValAppend([x], s);
    ValOne(x);
  }

  lemma {:induction false} ValOne(x: Limb)
    ensures Val([x]) == x && Pow(1) == B
  {
    ValPush([], x);
    assert [] + [x] == [x];
    assert Pow(1) == B * Pow(0);
  }

  lemma {:induction false} ValBound(s: seq<Limb>)
    ensures Val(s) < Pow(|s|)
  {
    if s != [] {
      var u, x, p := s[..|s| - 1], s[|s| - 1], Pow(|s| - 1);
      ValBound(u);
      MulMono(x, B - 1, p);
    }
  }

  lemma {:induction false} MulMono(x: int, y: int, p: int)
    requires x <= y && p >= 0
    ensures x * p <= y * p
  {
  }

  lemma {:induction false} MulAdd(x: int, y: int, p: int)
    ensures (x + y) * p == x * p + y * p
  {
  }


  lemma {:induction false} Cancel(a: int, b: int, k: int)
    requires k > 0
    ensures a * k < b * k ==> a < b
    ensures a * k <= b * k ==> a <= b
  {
    if a >= b {
      MulMono(b, a, k);
    }
    if a > b {
      MulMono(b + 1, a, k);
      MulAdd(b, 1, k);
    }
  }

  // rows of equal length that stand for the same integer are the same
  lemma {:induction false} ValUnique(s: seq<Limb>, t: seq<Limb>)
    requires |s| == |t| && Val(s) == Val(t)
    ensures s == t
  {
    if s != [] {
      var u, v, n := s[..|s| - 1], t[..|s| - 1], |s| - 1;
      ValBound(u);
      ValBound(v);
      DigitUnique(Val(u), s[n], Val(v), t[n], Pow(n));
      ValUnique(u, v);
      assert s == u + [s[n]] && t == v + [t[n]];
    }
  }

  lemma {:induction false} DigitUnique(u: int, x: int, v: int, y: int, p: int)
    requires 0 <= u < p && 0 <= v < p && u + x * p == v + y * p
    ensures u == v && x == y
  {
    if x < y {
      MulMono(x + 1, y, p);
    } else if y < x {
      MulMono(y + 1, x, p);
    }
  }

  // the low and high limbs of a row are remainder and quotient
  lemma {:induction false} ValSplit(s: seq<Limb>, k: nat)
    requires k <= |s|
    ensures Val(s) == Val(s[..k]) + Pow(k) * Val(s[k..])
  {
    ValAppend(s[..k], s[k..]);
    assert s[..k] + s[k..] == s;
  }

  lemma {:induction false} TopLimb(s: seq<Limb>, n: nat)
    requires |s| == n + 1
    ensures Val(s) == Val(s[..n]) + s[n] * Pow(n)
  {
    assert s == s[..n] + [s[n]];
    ValPush(s[..n], s[n]);
  }

  // the top limb of a row is its value over the power of the others
  lemma {:induction false} TopOf(s: seq<Limb>, n: nat)
    requires |s| == n + 1
    ensures s[n] * Pow(n) <= Val(s) < s[n] * Pow(n) + Pow(n)
    ensures s[n] != 0 <==> Val(s) >= Pow(n)
    ensures Pow(n) <= Val(s) < 2 * Pow(n) ==> s[n] == 1
    ensures s[n] == 0 ==> Val(s) == Val(s[..n])
  {
    hide Val, Pow;
    TopLimb(s, n);
    ValBound(s[..n]);
    if s[n] >= 1 {
      MulMono(1, s[n], Pow(n));
    }
    if s[n] >= 2 {
      MulMono(2, s[n], Pow(n));
    }
  }

  // a limb with its top bit set
  predicate Normalized(d: Limb) { d >= B / 2 }

  lemma {:induction false} TopNormalized(s: seq<Limb>)
    requires |s| >= 1 && Pow(|s|) <= 2 * Val(s)
    ensures Normalized(s[|s| - 1])
  {
    hide Val, Pow;
    var n := |s| - 1;
    var top: int := s[n];
    TopOf(s, n);
    PowNext(n);
    assert (2 * top + 2) * Pow(n) == 2 * (top * Pow(n)) + 2 * Pow(n);
    Cancel(B, 2 * top + 2, Pow(n));
  }

  // a normalized divisor is at least half of what its limbs can hold
  lemma {:induction false} NormalizedVal(bs: seq<Limb>)
    requires |bs| >= 1 && Normalized(bs[|bs| - 1])
    ensures Pow(|bs|) <= 2 * Val(bs) < 2 * Pow(|bs|)
  {
    hide Val;
    var n := |bs| - 1;
    TopLimb(bs, n);
    ValBound(bs);
    var d: int := bs[n];
    MulMono(B, 2 * d, Pow(n));
    assert (2 * d) * Pow(n) == 2 * (d * Pow(n));
  }

  lemma {:induction false} PowMono(m: nat, n: nat)
    requires m <= n
    ensures Pow(m) <= Pow(n)
  {
    PowAdd(m, n - m);
    MulMono(1, Pow(n - m), Pow(m));
    assert Pow(n - m) * Pow(m) == Pow(m) * Pow(n - m);
  }

  lemma {:induction false} QuotientIs(m: int, h: int, q: int, r: int)
    requires 0 <= r < h && m == q * h + r
    ensures m / h == q && m % h == r
  {
    var d := m / h - q;
    assert m == h * (m / h) + m % h;
    assert d * h == h * (m / h) - q * h;
    Cancel(d, 1, h);
    assert (0 - 1) * h == 0 - h;
    Cancel(-1, d, h);
  }

  lemma {:induction false} DivDiv(m: nat, p: nat, q: nat)
    requires p > 0 && q > 0
    ensures p * q > 0 && m / (p * q) == (m / p) / q
  {
    MulMono(1, p, q);
    DivMod(m, p);
    DivMod(m / p, q);
    var a, b, c := (m / p) / q, (m / p) % q, m % p;
    assert p * (q * a + b) == (p * q) * a + p * b;
    MulMono(b, q - 1, p);
    assert (q - 1) * p == p * q - p;
    MulNat(p, b);
    assert b * p == p * b && a * (p * q) == (p * q) * a;
    QuotientIs(m, p * q, a, p * b + c);
  }

  // only the limbs from o on, n of them, may differ
  ghost predicate Kept(was: seq<Limb>, now: seq<Limb>, o: nat, n: nat) {
    |now| == |was| && forall j | 0 <= j < |was| && !(o <= j < o + n) :: now[j] == was[j]
  }

  predicate Fits(a: array<Limb>, o: nat, n: nat) {
    o + n <= a.Length
  }

  lemma {:induction false} KeptRow(was: seq<Limb>, now: seq<Limb>, o: nat, n: nat, i: nat, j: nat)
    requires Kept(was, now, o, n) && i <= j <= |was| && (j <= o || o + n <= i)
    ensures now[i..j] == was[i..j]
  {
  }

  lemma {:induction false} SubRow(s: seq<Limb>, o: nat, n: nat, i: nat, j: nat)
    requires i <= j <= n && o + n <= |s|
    ensures s[o..o + n][i..j] == s[o + i..o + j]
  {
    var t := s[o..o + n];
    assert forall k | 0 <= k < n :: t[k] == s[o + k];
    assert |t[i..j]| == |s[o + i..o + j]|;
    assert forall k | 0 <= k < j - i :: t[i..j][k] == s[o + i..o + j][k];
  }

  lemma {:induction false} JoinedRow(s: seq<Limb>, i: nat, j: nat, k: nat)
    requires i <= j <= k <= |s|
    ensures s[i..k] == s[i..j] + s[j..k]
  {
  }

  // an operand may be the result itself, or must not meet it
  predicate Apart(r: array<Limb>, ro: nat, a: array<Limb>, ao: nat, n: nat) {
    r != a || ro == ao || ro + n <= ao || ao + n <= ro
  }

  lemma {:induction false} ValNext(s: seq<Limb>, i: nat)
    requires i < |s|
    ensures Val(s[..i + 1]) == Val(s[..i]) + s[i] * Pow(i) && Pow(i + 1) == B * Pow(i)
  {
    assert s[..i + 1] == s[..i] + [s[i]];
    ValPush(s[..i], s[i]);
  }

  lemma {:induction false} PowNext(n: nat)
    ensures Pow(n + 1) == B * Pow(n)
  {
  }

  lemma {:induction false} ValNone()
    ensures Val([]) == 0 && Pow(0) == 1
  {
  }

  // one digit more in r + l * p == z + x * b + c
  lemma {:induction false} RowStep(p: int, r: int, l: int, z: int, x: int, b: int, c: int, d: int, l1: int, zd: int,
                                   xd: int)
    requires r + l * p == z + x * b + c && d + l1 * B == zd + xd * b + l
    ensures r + d * p + l1 * (B * p) == z + zd * p + (x + xd * p) * b + c
  {
    assert (d + l1 * B) * p == (zd + xd * b + l) * p;
    assert (d + l1 * B) * p == d * p + (l1 * B) * p;
    assert (zd + xd * b + l) * p == zd * p + (xd * b) * p + l * p;
    assert l1 * (B * p) == (l1 * B) * p;
    assert (x + xd * p) * b == x * b + (xd * p) * b;
    assert (xd * p) * b == (xd * b) * p;
  }

  lemma {:induction false} AddLimb(v: Limb, w: Limb, k: Limb)
    requires k <= 1
    ensures var a := Wrap(v + w);
            var s := Wrap(a + k);
            s + (if s < k || a < v then 1 else 0) * B == v + w + k
  {
  }

  lemma {:induction false} SubLimb(v: Limb, w: Limb, k: Limb)
    requires k <= 1
    ensures var a := Wrap(v - w);
            var s := Wrap(a - k);
            v + (if s > a || a > v then 1 else 0) * B == s + w + k
  {
  }

  // the first i limbs are added, or subtracted, with k to carry or to borrow
  ghost predicate AddedRows(r: seq<Limb>, x: seq<Limb>, y: seq<Limb>, i: nat, c: int, k: Limb) {
    |r| == i <= |x| == |y| && k <= 1 && Val(r) + k * Pow(i) == Val(x[..i]) + Val(y[..i]) + c
  }

  ghost predicate SubtractedRows(r: seq<Limb>, x: seq<Limb>, y: seq<Limb>, i: nat, c: int, k: Limb) {
    |r| == i <= |x| == |y| && k <= 1 && Val(r) + Val(y[..i]) + c == Val(x[..i]) + k * Pow(i)
  }

  lemma {:induction false} RowsStart(x: seq<Limb>, y: seq<Limb>, c: Limb)
    requires |x| == |y| && c <= 1
    ensures AddedRows([], x, y, 0, c, c) && SubtractedRows([], x, y, 0, c, c)
  {
    assert x[..0] == [] && y[..0] == [];
  }

  lemma {:induction false} RowsEnd(r: seq<Limb>, x: seq<Limb>, y: seq<Limb>, c: int, k: Limb)
    ensures AddedRows(r, x, y, |x|, c, k) ==> k <= 1 && Val(r) + k * Pow(|x|) == Val(x) + Val(y) + c
    ensures SubtractedRows(r, x, y, |x|, c, k) ==> k <= 1 && Val(r) + Val(y) + c == Val(x) + k * Pow(|x|)
  {
    assert x[..|x|] == x && (|y| == |x| ==> y[..|x|] == y);
  }

  lemma {:induction false} AddRowsStep(r: seq<Limb>, x: seq<Limb>, y: seq<Limb>, i: nat, c: int, k: Limb)
    requires AddedRows(r, x, y, i, c, k) && i < |x|
    ensures var a := Wrap((x[i] as int) + y[i]);
            var s := Wrap((a as int) + k);
            AddedRows(r + [s], x, y, i + 1, c, if s < k || a < x[i] then 1 else 0)
  {
    hide Val, Pow, Wrap;
    AddLimb(x[i], y[i], k);
    var a := Wrap((x[i] as int) + y[i]);
    var s := Wrap((a as int) + k);
    ValPush(r, s);
    ValNext(x, i);
    ValNext(y, i);
    RowStep(Pow(i), Val(r), k, Val(x[..i]), Val(y[..i]), 1, c, s, if s < k || a < x[i] then 1 else 0, x[i], y[i]);
  }

  lemma {:induction false} SubRowsStep(r: seq<Limb>, x: seq<Limb>, y: seq<Limb>, i: nat, c: int, k: Limb)
    requires SubtractedRows(r, x, y, i, c, k) && i < |x|
    ensures var a := Wrap((x[i] as int) - y[i]);
            var s := Wrap((a as int) - k);
            SubtractedRows(r + [s], x, y, i + 1, c, if s > a || a > x[i] then 1 else 0)
  {
    hide Val, Pow, Wrap;
    SubLimb(x[i], y[i], k);
    var a := Wrap((x[i] as int) - y[i]);
    var s := Wrap((a as int) - k);
    ValPush(r, s);
    ValNext(x, i);
    ValNext(y, i);
    RowStep(Pow(i), Val(x[..i]), k, Val(r), Val(y[..i]), 1, c, x[i], if s > a || a > x[i] then 1 else 0, s, y[i]);
  }

  method MpAdd(res: array<Limb>, ro: nat, op1: array<Limb>, o1: nat, op2: array<Limb>, o2: nat, n: nat, carry: Limb)
      returns (k: Limb)
    requires Fits(res, ro, n) && Fits(op1, o1, n) && Fits(op2, o2, n) && carry <= 1
    requires Apart(res, ro, op1, o1, n) && Apart(res, ro, op2, o2, n)
    modifies res
    ensures k <= 1 && Kept(old(res[..]), res[..], ro, n)
    ensures Val(res[ro..ro + n]) + k * Pow(n) == old(Val(op1[o1..o1 + n])) + old(Val(op2[o2..o2 + n])) + carry
  {
    hide Val, Pow, Wrap, AddedRows, SubtractedRows;
    ghost var x, y := op1[o1..o1 + n], op2[o2..o2 + n];
    k := carry;
    RowsStart(x, y, carry);
    assert res[ro..ro] == [];
    var i := 0;
    while i < n
      invariant 0 <= i <= n && k <= 1
      invariant forall j | i <= j < n :: op1[o1 + j] == x[j] && op2[o2 + j] == y[j]
      invariant forall j | 0 <= j < res.Length && !(ro <= j < ro + i) :: res[j] == old(res[j])
      invariant AddedRows(res[ro..ro + i], x, y, i, carry, k)
    {
      ghost var done := res[ro..ro + i];
      AddRowsStep(done, x, y, i, carry, k);
      var v: int := op1[o1 + i];
      var a := Wrap(v + op2[o2 + i]);
      var k1 := if a < v then 1 else 0;
      a := Wrap(a + k);
      k := if a < k || k1 == 1 then 1 else 0;
      res[ro + i] := a;
      assert res[ro..ro + i + 1] == done + [a];
      i := i + 1;
    }
    RowsEnd(res[ro..ro + n], x, y, carry, k);
  }

  // Subtraction with borrow.
  method MpSub(res: array<Limb>, ro: nat, op1: array<Limb>, o1: nat, op2: array<Limb>, o2: nat, n: nat, carry: Limb)
      returns (k: Limb)
    requires Fits(res, ro, n) && Fits(op1, o1, n) && Fits(op2, o2, n) && carry <= 1
    requires Apart(res, ro, op1, o1, n) && Apart(res, ro, op2, o2, n)
    modifies res
    ensures k <= 1 && Kept(old(res[..]), res[..], ro, n)
    ensures Val(res[ro..ro + n]) + old(Val(op2[o2..o2 + n])) + carry == old(Val(op1[o1..o1 + n])) + k * Pow(n)
  {
    hide Val, Pow, Wrap, AddedRows, SubtractedRows;
    ghost var x, y := op1[o1..o1 + n], op2[o2..o2 + n];
    k := carry;
    RowsStart(x, y, carry);
    assert res[ro..ro] == [];
    var i := 0;
    while i < n
      invariant 0 <= i <= n && k <= 1
      invariant forall j | i <= j < n :: op1[o1 + j] == x[j] && op2[o2 + j] == y[j]
      invariant forall j | 0 <= j < res.Length && !(ro <= j < ro + i) :: res[j] == old(res[j])
      invariant SubtractedRows(res[ro..ro + i], x, y, i, carry, k)
    {
      ghost var done := res[ro..ro + i];
      SubRowsStep(done, x, y, i, carry, k);
      var v: int := op1[o1 + i];
      var a := Wrap(v - op2[o2 + i]);
      var k1 := if a > v then 1 else 0;
      v := Wrap((a as int) - k);
      k := if v > a || k1 == 1 then 1 else 0;
      res[ro + i] := v;
      assert res[ro..ro + i + 1] == done + [v];
      i := i + 1;
    }
    RowsEnd(res[ro..ro + n], x, y, carry, k);
  }

  // 0 - op2
  method MpNeg(res: array<Limb>, ro: nat, op2: array<Limb>, o2: nat, n: nat, carry: Limb) returns (k: Limb)
    requires Fits(res, ro, n) && Fits(op2, o2, n) && carry <= 1 && Apart(res, ro, op2, o2, n)
    modifies res
    ensures k <= 1 && Kept(old(res[..]), res[..], ro, n)
    ensures Val(res[ro..ro + n]) + old(Val(op2[o2..o2 + n])) + carry == k * Pow(n)
  {
    hide Val, Pow, Wrap;
    ghost var y := op2[o2..o2 + n];
    k := carry;
    ValNone();
    assert res[ro..ro] == y[..0] == [];
    var i := 0;
    while i < n
      invariant 0 <= i <= n && k <= 1
      invariant forall j | i <= j < n :: op2[o2 + j] == y[j]
      invariant forall j | 0 <= j < res.Length && !(ro <= j < ro + i) :: res[j] == old(res[j])
      invariant Val(res[ro..ro + i]) + Val(y[..i]) + carry == k * Pow(i)
    {
      ghost var done, k0 := res[ro..ro + i], k;
      var v := 0;
      var a := Wrap(v - op2[o2 + i]);
      var k1 := if a > v then 1 else 0;
      v := Wrap(a - k);
      k := if v > a || k1 == 1 then 1 else 0;
      res[ro + i] := v;
      assert res[ro..ro + i + 1] == done + [v];
      SubLimb(0, y[i], k0);
      ValPush(done, v);
      ValNext(y, i);
      RowStep(Pow(i), 0, k0, Val(done), Val(y[..i]), 1, carry, 0, k, v, y[i]);
      i := i + 1;
    }
    assert y[..n] == y;
  }

  lemma {:induction false} UiLimb(v: Limb, k: Limb)
    ensures Wrap(v + k) + (if Wrap(v + k) < k then 1 else 0) * B == v + k
    ensures v + (if Wrap(v - k) > v then 1 else 0) * B == Wrap(v - k) + k
  {
  }

  // a row that is being rewritten from o on: r is done, the rest is still the old row
  lemma {:induction false} Rewrite(now: seq<Limb>, was: seq<Limb>, o: nat, r: seq<Limb>, d: Limb)
    requires o + |r| < |was| && now == was[..o] + r + was[o + |r|..]
    ensures |now| == |was| && now[o + |r|] == was[o + |r|]
    ensures now[o + |r| := d] == was[..o] + (r + [d]) + was[o + |r| + 1..]
  {
  }

  lemma {:induction false} Middle(a: seq<Limb>, b: seq<Limb>, c: seq<Limb>)
    ensures (a + b + c)[|a|..|a| + |b|] == b && (a + b + c)[|a| + |b|..] == c
  {
  }

  // the first i limbs are added up, with k to carry
  ghost predicate AddedUi(r: seq<Limb>, x: seq<Limb>, i: nat, b: Limb, k: Limb) {
    |r| == i <= |x| && Val(r) + k * Pow(i) == Val(x[..i]) + b
  }

  // the first i limbs are subtracted, with k to borrow
  ghost predicate SubtractedUi(r: seq<Limb>, x: seq<Limb>, i: nat, b: Limb, k: Limb) {
    |r| == i <= |x| && Val(r) + b == Val(x[..i]) + k * Pow(i)
  }

  lemma {:induction false} UiStart(x: seq<Limb>, b: Limb)
    ensures AddedUi([], x, 0, b, b) && SubtractedUi([], x, 0, b, b)
  {
    assert x[..0] == [];
  }

  lemma {:induction false} AddUiStep(r: seq<Limb>, x: seq<Limb>, i: nat, b: Limb, k: Limb)
    requires i < |x| && AddedUi(r, x, i, b, k)
    ensures var a := Wrap(x[i] + k); AddedUi(r + [a], x, i + 1, b, if a < k then 1 else 0)
  {
    hide Val, Pow, Wrap;
    var a := Wrap(x[i] + k);
    UiLimb(x[i], k);
    ValPush(r, a);
    ValNext(x, i);
    RowStep(Pow(i), Val(r), k, Val(x[..i]), 0, 1, b, a, if a < k then 1 else 0, x[i], 0);
  }

  lemma {:induction false} SubUiStep(r: seq<Limb>, x: seq<Limb>, i: nat, b: Limb, k: Limb)
    requires i < |x| && SubtractedUi(r, x, i, b, k)
    ensures var a := Wrap(x[i] - k); SubtractedUi(r + [a], x, i + 1, b, if a > x[i] then 1 else 0)
  {
    hide Val, Pow, Wrap;
    var a := Wrap(x[i] - k);
    UiLimb(x[i], k);
    ValPush(r, a);
    ValNext(x, i);
    RowStep(Pow(i), Val(x[..i]), k, Val(r), 0, 1, b, x[i], if a > x[i] then 1 else 0, a, 0);
  }

  // the loop may stop early when nothing is left to carry
  lemma {:induction false} UiEnd(now: seq<Limb>, was: seq<Limb>, o: nat, r: seq<Limb>, n: nat, b: Limb, k: Limb)
    requires |r| <= n && o + n <= |was| && now == was[..o] + r + was[o + |r|..] && (k == 0 || |r| == n)
    ensures Kept(was, now, o, n)
    ensures AddedUi(r, was[o..o + n], |r|, b, k) ==> Val(now[o..o + n]) + k * Pow(n) == Val(was[o..o + n]) + b
    ensures SubtractedUi(r, was[o..o + n], |r|, b, k) ==> Val(now[o..o + n]) + b == Val(was[o..o + n]) + k * Pow(n)
  {
    hide Val, Pow, Kept;
    Rewritten(now, was, o, r, n);
    assert was[o..o + n][..|r|] == was[o..o + |r|];
  }

  // what the finished row looks like
  lemma {:induction false} Rewritten(now: seq<Limb>, was: seq<Limb>, o: nat, r: seq<Limb>, n: nat)
    requires |r| <= n && o + n <= |was| && now == was[..o] + r + was[o + |r|..]
    ensures Kept(was, now, o, n)
    ensures Val(now[o..o + n]) - Val(was[o..o + n]) == Val(r) - Val(was[o..o + |r|])
    ensures |r| == n ==> now[o..o + n] == r
  {
    hide Val, Pow;
    var s, t, k := now[o..o + n], was[o..o + n], |r|;
    Middle(was[..o], r, was[o + k..]);
    ValSplit(s, k);
    ValSplit(t, k);
    assert s[..k] == now[o..o + k] && t[..k] == was[o..o + k];
    assert s[k..] == now[o + k..][..n - k] && t[k..] == was[o + k..][..n - k];
  }

  // the limbs r are rewritten from o on, and k is left to carry or to borrow
  ghost predicate AddingUi(was: seq<Limb>, now: seq<Limb>, o: nat, n: nat, r: seq<Limb>, b: Limb, k: Limb) {
    && o + n <= |was| && |r| <= n && now == was[..o] + r + was[o + |r|..]
    && AddedUi(r, was[o..o + n], |r|, b, k)
  }

  ghost predicate SubtractingUi(was: seq<Limb>, now: seq<Limb>, o: nat, n: nat, r: seq<Limb>, b: Limb, k: Limb) {
    && o + n <= |was| && |r| <= n && now == was[..o] + r + was[o + |r|..]
    && SubtractedUi(r, was[o..o + n], |r|, b, k)
  }

  lemma {:induction false} UiBegin(was: seq<Limb>, o: nat, n: nat, b: Limb)
    requires o + n <= |was|
    ensures AddingUi(was, was, o, n, [], b, b) && SubtractingUi(was, was, o, n, [], b, b)
  {
    UiStart(was[o..o + n], b);
    assert was == was[..o] + [] + was[o..];
  }

  lemma {:induction false} AddUiNext(was: seq<Limb>, now: seq<Limb>, o: nat, n: nat, r: seq<Limb>, b: Limb, k: Limb)
    requires |r| < n && AddingUi(was, now, o, n, r, b, k) && o + n <= |now|
    ensures var a := Wrap(now[o + |r|] + k);
            |now| == |was| && AddingUi(was, now[o + |r| := a], o, n, r + [a], b, if a < k then 1 else 0)
  {
    hide AddedUi, Wrap;
    var a := Wrap(now[o + |r|] + k);
    Rewrite(now, was, o, r, a);
    AddUiStep(r, was[o..o + n], |r|, b, k);
  }

  lemma {:induction false} SubUiNext(was: seq<Limb>, now: seq<Limb>, o: nat, n: nat, r: seq<Limb>, b: Limb, k: Limb)
    requires |r| < n && SubtractingUi(was, now, o, n, r, b, k) && o + n <= |now|
    ensures var v := now[o + |r|];
            var a := Wrap(v - k);
            |now| == |was| && SubtractingUi(was, now[o + |r| := a], o, n, r + [a], b, if a > v then 1 else 0)
  {
    hide SubtractedUi, Wrap;
    var v: int := now[o + |r|];
    var a := Wrap(v - k);
    Rewrite(now, was, o, r, a);
    SubUiStep(r, was[o..o + n], |r|, b, k);
  }

  lemma {:induction false} UiDone(was: seq<Limb>, now: seq<Limb>, o: nat, n: nat, r: seq<Limb>, b: Limb, k: Limb)
    requires o + n <= |was| && o + n <= |now| && |r| <= n && (k == 0 || |r| == n)
    requires AddingUi(was, now, o, n, r, b, k) || SubtractingUi(was, now, o, n, r, b, k)
    ensures Kept(was, now, o, n)
    ensures AddingUi(was, now, o, n, r, b, k) ==> Val(now[o..o + n]) + k * Pow(n) == Val(was[o..o + n]) + b
    ensures SubtractingUi(was, now, o, n, r, b, k) ==> Val(now[o..o + n]) + b == Val(was[o..o + n]) + k * Pow(n)
  {
    hide Val, Pow, AddedUi, SubtractedUi, Kept;
    UiEnd(now, was, o, r, n, b, k);
  }

  // tab += b; the loop stops when there is nothing left to carry
  method MpAddUi(tab: array<Limb>, o: nat, b: Limb, n: nat) returns (k: Limb)
    requires Fits(tab, o, n)
    modifies tab
    ensures Kept(old(tab[..]), tab[..], o, n) && (n > 0 ==> k <= 1)
    ensures Val(tab[o..o + n]) + k * Pow(n) == old(Val(tab[o..o + n])) + b
  {
    hide Val, Pow, Wrap, Kept, AddingUi, SubtractingUi;
    ghost var was := tab[..];
    ghost var r: seq<Limb> := [];
    k := b;
    UiBegin(was, o, n, b);
    var i := 0;
    while i < n && k != 0
      invariant 0 <= i <= n && (i > 0 ==> k <= 1) && |r| == i
      invariant AddingUi(was, tab[..], o, n, r, b, k)
    {
      AddUiNext(was, tab[..], o, n, r, b, k);
      var a := Wrap(tab[o + i] + k);
      k := if a < k then 1 else 0;
      tab[o + i] := a;
      r := r + [a];
      i := i + 1;
    }
    UiDone(was, tab[..], o, n, r, b, k);
  }

  method MpSubUi(tab: array<Limb>, o: nat, b: Limb, n: nat) returns (k: Limb)
    requires Fits(tab, o, n)
    modifies tab
    ensures Kept(old(tab[..]), tab[..], o, n) && (n > 0 ==> k <= 1)
    ensures Val(tab[o..o + n]) + b == old(Val(tab[o..o + n])) + k * Pow(n)
  {
    hide Val, Pow, Wrap, Kept, AddingUi, SubtractingUi;
    ghost var was := tab[..];
    ghost var r: seq<Limb> := [];
    k := b;
    UiBegin(was, o, n, b);
    var i := 0;
    while i < n
      invariant 0 <= i <= n && (i > 0 ==> k <= 1) && |r| == i
      invariant SubtractingUi(was, tab[..], o, n, r, b, k)
    {
      SubUiNext(was, tab[..], o, n, r, b, k);
      var v: int := tab[o + i];
      var a := Wrap(v - k);
      k := if a > v then 1 else 0;
      tab[o + i] := a;
      r := r + [a];
      i := i + 1;
      if k == 0 {
        break;
      }
    }
    UiDone(was, tab[..], o, n, r, b, k);
  }

  // r = (a + high * B^n) >> shift with S = 2^shift and T = B / S; the or of disjoint bits is a sum
  method MpShr(tabR: array<Limb>, ro: nat, tab: array<Limb>, o: nat, n: nat, S: nat, T: nat, high: Limb)
    returns (rem: Limb)
    requires Fits(tabR, ro, n) && Fits(tab, o, n) && Apart(tabR, ro, tab, o, n) && S > 1 && T > 1 && S * T == B
    modifies tabR
    ensures Kept(old(tabR[..]), tabR[..], ro, n) && rem < S
    ensures old(Val(tab[o..o + n])) + (high % S) * Pow(n) == S * Val(tabR[ro..ro + n]) + rem
  {
    hide Val, Pow;
    ghost var x := tab[o..o + n];
    var l: Limb := high;
    var i := n;
    ValNone();
    assert x[n..] == [] && tabR[ro + n..ro + n] == [];
    while i > 0
      invariant 0 <= i <= n
      invariant forall j | 0 <= j < i :: tab[o + j] == x[j]
      invariant forall j | 0 <= j < tabR.Length && !(ro + i <= j < ro + n) :: tabR[j] == old(tabR[j])
      invariant Val(x[i..]) + (high % S) * Pow(n - i) == S * Val(tabR[ro + i..ro + n]) + l % S
    {
      ghost var done, l0 := tabR[ro + i..ro + n], l;
      i := i - 1;
      var a: Limb := tab[o + i];
      ShrLimb(a, l, S, T);
      tabR[ro + i] := a / S + (l % S) * T;
      l := a;
      assert tabR[ro + i..ro + n] == [a / S + (l0 % S) * T] + done;
      assert x[i..] == [a] + x[i + 1..];
      ValFirst(a / S + (l0 % S) * T, done);
      ValFirst(a, x[i + 1..]);
      PowNext(n - i - 1);
      ShrStep(a, a / S, a % S, l0 % S, S, T, Val(x[i + 1..]), Val(done), high % S, Pow(n - i - 1));
    }
    assert x[0..] == x;
    rem := l % S;
  }

  lemma {:induction false} ShrLimb(a: Limb, l: Limb, S: nat, T: nat)
    requires S > 1 && T > 1 && S * T == B
    ensures 0 <= a / S + (l % S) * T < B && a == S * (a / S) + a % S
  {
    var q, m := a / S, l % S;
    DivMod(a, S);
    DivMod(l, S);
    if q >= T {
      MulMono(T, q, S);
    }
    MulMono(m, S - 1, T);
    MulNat(m, T);
    assert (S - 1) * T == S * T - T;
  }

  lemma {:induction false} DivMod(a: nat, s: nat)
    requires s > 0
    ensures a == s * (a / s) + a % s && 0 <= a % s < s && a / s >= 0
  {
  }

  lemma {:induction false} MulNat(a: int, b: int)
    requires a >= 0 && b >= 0
    ensures a * b >= 0
  {
  }

  lemma {:induction false} ShrStep(a: nat, q: int, m: int, l: nat, S: nat, T: nat, vx: int, vd: int, h: int, p: int)
    requires S * T == B && a == S * q + m && vx + h * p == S * vd + l
    ensures a + B * vx + h * (B * p) == S * (q + l * T + B * vd) + m
  {
    assert h * (B * p) == B * (h * p);
    assert S * (l * T) == (S * T) * l;
    assert S * (B * vd) == B * (S * vd);
    assert S * (q + l * T + B * vd) == S * q + S * (l * T) + S * (B * vd);
  }

  // a product of limbs with two limbs added does not overflow a double limb
  lemma {:induction false} DoubleLimb(x: Limb, b: Limb, l: Limb, z: Limb)
    ensures 0 <= x * b + l + z < B * B && x * b + l <= (B - 1) * B
    ensures var t := x * b + l + z; 0 <= t / B < B && t == t % B + (t / B) * B
  {
    MulMono(x, B - 1, b);
  }

  // tabr = taba * b + l
  method MpMul1(tabr: array<Limb>, ro: nat, taba: array<Limb>, ao: nat, n: nat, b: Limb, carry: Limb) returns (l: Limb)
    requires Fits(tabr, ro, n) && Fits(taba, ao, n) && Apart(tabr, ro, taba, ao, n)
    modifies tabr
    ensures Kept(old(tabr[..]), tabr[..], ro, n)
    ensures Val(tabr[ro..ro + n]) + l * Pow(n) == old(Val(taba[ao..ao + n])) * b + carry
  {
    hide Val, Pow, Wrap;
    ghost var x := taba[ao..ao + n];
    l := carry;
    ValNone();
    assert tabr[ro..ro] == x[..0] == [];
    var i := 0;
    while i < n
      invariant 0 <= i <= n
      invariant forall j | i <= j < n :: taba[ao + j] == x[j]
      invariant forall j | 0 <= j < tabr.Length && !(ro <= j < ro + i) :: tabr[j] == old(tabr[j])
      invariant Val(tabr[ro..ro + i]) + l * Pow(i) == Val(x[..i]) * b + carry
    {
      ghost var done, l0 := tabr[ro..ro + i], l;
      DoubleLimb(x[i], b, l, 0);
      var t := taba[ao + i] * b + l;
      tabr[ro + i] := t % B;
      l := t / B;
      assert tabr[ro..ro + i + 1] == done + [t % B];
      ValPush(done, t % B);
      ValNext(x, i);
      RowStep(Pow(i), Val(done), l0, 0, Val(x[..i]), b, carry, t % B, l, 0, x[i]);
      i := i + 1;
    }
    assert x[..n] == x;
  }

  // the lowest i limbs of z + x * b, and the carry
  ghost predicate ProductAdded(r: seq<Limb>, x: seq<Limb>, z: seq<Limb>, i: nat, b: Limb, l: Limb) {
    && i <= |x| && |z| == |x| && |r| == i
    && Val(r) + l * Pow(i) == Val(z[..i]) + Val(x[..i]) * b
  }

  lemma {:induction false} ProductStart(x: seq<Limb>, z: seq<Limb>, b: Limb)
    requires |z| == |x|
    ensures ProductAdded([], x, z, 0, b, 0)
  {
  }

  lemma {:induction false} ProductNext(r: seq<Limb>, x: seq<Limb>, z: seq<Limb>, i: nat, b: Limb, l: Limb)
    requires ProductAdded(r, x, z, i, b, l) && i < |x|
    ensures var t := x[i] * b + l + z[i]; 0 <= t < B * B && ProductAdded(r + [t % B], x, z, i + 1, b, t / B)
  {
    hide Val, Pow;
    DoubleLimb(x[i], b, l, z[i]);
    var t := x[i] * b + l + z[i];
    ValPush(r, t % B);
    ValNext(x, i);
    ValNext(z, i);
    RowStep(Pow(i), Val(r), l, Val(z[..i]), Val(x[..i]), b, 0, t % B, t / B, z[i], x[i]);
  }

  lemma {:induction false} ProductEnd(r: seq<Limb>, x: seq<Limb>, z: seq<Limb>, n: nat, b: Limb, l: Limb)
    requires ProductAdded(r, x, z, n, b, l) && n == |x|
    ensures Val(r) + l * Pow(n) == Val(z) + Val(x) * b
  {
    assert x[..n] == x && z[..n] == z;
  }

  // tabr += taba * b
  method MpAddMul1(tabr: array<Limb>, ro: nat, taba: array<Limb>, ao: nat, n: nat, b: Limb) returns (l: Limb)
    requires Fits(tabr, ro, n) && Fits(taba, ao, n) && Apart(tabr, ro, taba, ao, n)
    modifies tabr
    ensures Kept(old(tabr[..]), tabr[..], ro, n)
    ensures Val(tabr[ro..ro + n]) + l * Pow(n) == old(Val(tabr[ro..ro + n])) + old(Val(taba[ao..ao + n])) * b
  {
    hide Val, Pow, Wrap, ProductAdded;
    ghost var x, z := taba[ao..ao + n], tabr[ro..ro + n];
    l := 0;
    ProductStart(x, z, b);
    assert tabr[ro..ro] == [];
    var i := 0;
    while i < n
      invariant 0 <= i <= n
      invariant forall j | i <= j < n :: taba[ao + j] == x[j]
      invariant forall j | 0 <= j < tabr.Length && !(ro <= j < ro + i) :: tabr[j] == old(tabr[j])
      invariant ProductAdded(tabr[ro..ro + i], x, z, i, b, l)
    {
      ghost var done := tabr[ro..ro + i];
      DoubleLimb(x[i], b, l, z[i]);
      ProductNext(done, x, z, i, b, l);
      var t := taba[ao + i] * b + l + tabr[ro + i];
      tabr[ro + i] := t % B;
      l := t / B;
      assert tabr[ro..ro + i + 1] == done + [t % B];
      i := i + 1;
    }
    ProductEnd(tabr[ro..ro + n], x, z, n, b, l);
  }

  // the double limb wraps; its negated high half is the borrow
  lemma {:induction false} SubMulLimb(z: Limb, x: Limb, b: Limb, l: Limb)
    ensures var t := (z - x * b - l) % (B * B);
            z + Wrap(-(t / B)) * B == t % B + x * b + l && 0 <= t / B < B
  {
    DoubleLimb(x, b, l, 0);
    WrapDouble(z, x * b + l);
  }

  lemma {:induction false} WrapDouble(z: Limb, m: nat)
    requires m <= (B - 1) * B
    ensures var t := (z - m) % (B * B);
            z + Wrap(-(t / B)) * B == t % B + m && 0 <= t / B < B
  {
    var w := z - m;
    assert w % (B * B) == if w >= 0 then w else w + B * B;
  }

  // tabr -= taba * b, returning what is to be subtracted from the next limb
  method MpSubMul1(tabr: array<Limb>, ro: nat, taba: array<Limb>, ao: nat, n: nat, b: Limb) returns (l: Limb)
    requires Fits(tabr, ro, n) && Fits(taba, ao, n) && Apart(tabr, ro, taba, ao, n)
    modifies tabr
    ensures Kept(old(tabr[..]), tabr[..], ro, n)
    ensures Val(tabr[ro..ro + n]) + old(Val(taba[ao..ao + n])) * b == old(Val(tabr[ro..ro + n])) + l * Pow(n)
  {
    hide Val, Pow, Wrap;
    ghost var x, z := taba[ao..ao + n], tabr[ro..ro + n];
    l := 0;
    ValNone();
    assert tabr[ro..ro] == x[..0] == z[..0] == [];
    var i := 0;
    while i < n
      invariant 0 <= i <= n
      invariant forall j | i <= j < n :: taba[ao + j] == x[j]
      invariant forall j | 0 <= j < tabr.Length && !(ro <= j < ro + i) :: tabr[j] == old(tabr[j])
      invariant Val(tabr[ro..ro + i]) + Val(x[..i]) * b == Val(z[..i]) + l * Pow(i)
    {
      ghost var done, l0 := tabr[ro..ro + i], l;
      SubMulLimb(z[i], x[i], b, l);
      var t := (tabr[ro + i] - taba[ao + i] * b - l) % (B * B);
      tabr[ro + i] := t % B;
      l := Wrap(-(t / B));
      assert tabr[ro..ro + i + 1] == done + [t % B];
      ValPush(done, t % B);
      ValNext(x, i);
      ValNext(z, i);
      RowStep(Pow(i), Val(z[..i]), l0, Val(done), Val(x[..i]), b, 0, z[i], l, t % B, x[i]);
      i := i + 1;
    }
    assert x[..n] == x && z[..n] == z;
  }

  // schoolbook multiplication, one limb of op2 at a time
  method MpMulBasecase(result: array<Limb>, ro: nat, op1: array<Limb>, o1: nat, n1: nat, op2: array<Limb>, o2: nat,
                       n2: nat)
    requires Fits(result, ro, n1 + n2) && Fits(op1, o1, n1) && Fits(op2, o2, n2) && n2 >= 1
    requires result != op1 && result != op2
    modifies result
    ensures Kept(old(result[..]), result[..], ro, n1 + n2)
    ensures Val(result[ro..ro + n1 + n2]) == Val(op1[o1..o1 + n1]) * Val(op2[o2..o2 + n2])
  {
    hide Val, Pow, Kept, Products;
    ghost var x, y, was := op1[o1..o1 + n1], op2[o2..o2 + n2], result[..];
    var r := MpMul1(result, ro, op1, o1, n1, op2[o2], 0);
    ghost var low := result[ro..ro + n1];
    FirstRow(was, result[..], ro, low, r, x, y);
    result[ro + n1] := r;
    ghost var s := low + [r];
    var i := 1;
    while i < n2
      invariant 1 <= i <= n2 && Products(was, result[..], ro, s, x, y, i)
    {
      ghost var before := result[..];
      RowSizes(was, before, ro, s, x, y, i);
      r := MpAddMul1(result, ro + i, op1, o1, n1, op2[o2 + i]);
      ghost var high := result[ro + i..ro + i + n1];
      NextRow(was, before, result[..], ro, s, x, y, i, high, r);
      result[ro + i + n1] := r;
      s := s[..i] + (high + [r]);
      i := i + 1;
    }
    LastRow(was, result[..], ro, s, x, y);
  }

  // the rows for the first i limbs of y are added up in s
  ghost predicate Products(was: seq<Limb>, now: seq<Limb>, o: nat, s: seq<Limb>, x: seq<Limb>, y: seq<Limb>, i: nat) {
    && i <= |y| && |s| == |x| + i && o + |x| + |y| <= |was|
    && now == was[..o] + s + was[o + |s|..] && Val(s) == Val(x) * Val(y[..i])
  }

  lemma {:induction false} RowSizes(was: seq<Limb>, now: seq<Limb>, o: nat, s: seq<Limb>, x: seq<Limb>, y: seq<Limb>,
                                    i: nat)
    requires Products(was, now, o, s, x, y, i)
    ensures |now| == |was| && now[o + i..o + i + |x|] == s[i..] && |s| == |x| + i
  {
    SliceOf(was[..o], s, was[o + |s|..], i);
  }

  lemma {:induction false} FirstRow(was: seq<Limb>, now: seq<Limb>, o: nat, low: seq<Limb>, r: Limb, x: seq<Limb>,
                                    y: seq<Limb>)
    requires o + |x| + |y| <= |was| && Kept(was, now, o, |x|) && low == now[o..o + |x|] && y != []
    requires Val(low) + r * Pow(|x|) == Val(x) * y[0] + 0
    ensures Products(was, now[o + |x| := r], o, low + [r], x, y, 1)
  {
    hide Val, Pow;
    var n := |x|;
    assert now == was[..o] + low + was[o + n..];
    Rewrite(now, was, o, low, r);
    ValPush(low, r);
    assert y[..1] == [y[0]];
    ValOne(y[0]);
  }

  lemma {:induction false} NextRow(was: seq<Limb>, before: seq<Limb>, now: seq<Limb>, o: nat, s: seq<Limb>,
                                   x: seq<Limb>, y: seq<Limb>, i: nat, high: seq<Limb>, r: Limb)
    requires i < |y| && Products(was, before, o, s, x, y, i) && Kept(before, now, o + i, |x|)
    requires |now| == |was| && high == now[o + i..o + i + |x|]
    requires Val(high) + r * Pow(|x|) == Val(s[i..]) + Val(x) * y[i]
    ensures Products(was, now[o + i + |x| := r], o, s[..i] + (high + [r]), x, y, i + 1)
  {
    hide Val, Pow;
    Splice(before, now, was, o, s, i, |x|, high, r);
    BasecaseRow(s, high, r, x, y, i);
  }

  lemma {:induction false} LastRow(was: seq<Limb>, now: seq<Limb>, o: nat, s: seq<Limb>, x: seq<Limb>, y: seq<Limb>)
    requires Products(was, now, o, s, x, y, |y|)
    ensures Kept(was, now, o, |x| + |y|) && Val(now[o..o + |x| + |y|]) == Val(x) * Val(y)
  {
    hide Val, Pow;
    Middle(was[..o], s, was[o + |s|..]);
    assert y[..|y|] == y;
  }

  lemma {:induction false} SliceOf(p: seq<Limb>, s: seq<Limb>, t: seq<Limb>, i: nat)
    requires i <= |s|
    ensures (p + s + t)[|p| + i..|p| + |s|] == s[i..]
  {
  }

  // the high part of a finished row replaced, and one limb more
  lemma {:induction false} Splice(before: seq<Limb>, now: seq<Limb>, was: seq<Limb>, o: nat, s: seq<Limb>, i: nat,
                                  n: nat, high: seq<Limb>, r: Limb)
    requires |s| == n + i && o + n + i < |was| && before == was[..o] + s + was[o + n + i..]
    requires Kept(before, now, o + i, n) && high == now[o + i..o + i + n]
    ensures now[o + i + n := r] == was[..o] + (s[..i] + (high + [r])) + was[o + n + i + 1..]
  {
    assert now == before[..o + i] + high + before[o + i + n..];
    assert before[..o + i] == was[..o] + s[..i] && before[o + i + n..] == was[o + n + i..];
  }

  lemma {:induction false} BasecaseRow(s: seq<Limb>, high: seq<Limb>, r: Limb, x: seq<Limb>, y: seq<Limb>, i: nat)
    requires i < |y| && |s| == |x| + i && |high| == |x| && Val(s) == Val(x) * Val(y[..i])
    requires Val(high) + r * Pow(|x|) == Val(s[i..]) + Val(x) * y[i]
    ensures Val(s[..i] + (high + [r])) == Val(x) * Val(y[..i + 1])
  {
    hide Val, Pow;
    ValSplit(s, i);
    ValAppend(s[..i], high + [r]);
    ValPush(high, r);
    ValNext(y, i);
    MulRow(Val(s[..i]), Val(s[i..]), Val(high), r, Pow(i), Pow(|x|), Val(x), Val(y[..i]), y[i]);
  }

  lemma {:induction false} MulRow(s0: int, s1: int, h: int, r: int, p: int, q: int, x: int, y: int, d: int)
    requires s0 + p * s1 == x * y && h + r * q == s1 + x * d
    ensures s0 + p * (h + r * q) == x * (y + d * p)
  {
    assert p * (s1 + x * d) == p * s1 + p * (x * d);
    assert x * (y + d * p) == x * y + x * (d * p);
    assert p * (x * d) == x * (d * p);
  }

  // the copying loops
  method Copy(dst: array<Limb>, to: nat, src: array<Limb>, from: nat, n: nat)
    requires Fits(dst, to, n) && Fits(src, from, n) && dst != src
    modifies dst
    ensures dst[to..to + n] == src[from..from + n] && Kept(old(dst[..]), dst[..], to, n)
  {
    forall i | 0 <= i < n {
      dst[to + i] := src[from + i];
    }
  }

  // -1, 0 or 1 as the rows compare
  method MpCmp(taba: array<Limb>, ao: nat, tabb: array<Limb>, bo: nat, n: nat) returns (c: int)
    requires Fits(taba, ao, n) && Fits(tabb, bo, n)
    ensures c == Sign(Val(taba[ao..ao + n]) - Val(tabb[bo..bo + n]))
  {
    ghost var x, y := taba[ao..ao + n], tabb[bo..bo + n];
    var i := n;
    while i > 0
      invariant 0 <= i <= n && x[i..] == y[i..]
    {
      i := i - 1;
      if taba[ao + i] != tabb[bo + i] {
        if taba[ao + i] < tabb[bo + i] {
          FirstDifference(x, y, i);
          return -1;
        } else {
          FirstDifference(y, x, i);
          return 1;
        }
      }
      assert x[i..] == [x[i]] + x[i + 1..] && y[i..] == [y[i]] + y[i + 1..];
    }
    assert x[0..] == x && y[0..] == y;
    c := 0;
  }

  function Sign(x: int): int { if x < 0 then -1 else if x > 0 then 1 else 0 }

  lemma {:induction false} FirstDifference(x: seq<Limb>, y: seq<Limb>, i: nat)
    requires |x| == |y| && i < |x| && x[i + 1..] == y[i + 1..] && x[i] < y[i]
    ensures Val(x) < Val(y)
  {
    hide Val, Pow;
    ValSplit(x, i + 1);
    ValSplit(y, i + 1);
    ValNext(x, i);
    ValNext(y, i);
    ValBound(x[..i]);
    MulMono(x[i] + 1, y[i], Pow(i));
    MulAdd(x[i], 1, Pow(i));
  }

  // whether any limb is set
  method MpScanNz(tab: array<Limb>, o: nat, n: nat) returns (nz: bool)
    requires Fits(tab, o, n)
    ensures nz <==> Val(tab[o..o + n]) != 0
  {
    hide Val, Pow;
    ghost var x := tab[o..o + n];
    ValNone();
    assert x[..0] == [];
    var i := 0;
    while i < n
      invariant 0 <= i <= n && Val(x[..i]) == 0
    {
      ValNext(x, i);
      if tab[o + i] != 0 {
        MulMono(1, x[i], Pow(i));
        ValSplit(x, i + 1);
        MulNat(Pow(i + 1), Val(x[i + 1..]));
        return true;
      }
      i := i + 1;
    }
    assert x[..n] == x;
    nz := false;
  }
}
