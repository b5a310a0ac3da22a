/** Polynomials modulo m at the powers of a root of unity: the identities that halve a
    discrete Fourier transform. */
module NttPolynomial {
  import opened Limbs
  import opened NttModular
  import opened Powers

  // the polynomial with the coefficients x, at z
  function Eval(x: seq<int>, z: int): int {
    if x == [] then 0 else Eval(x[..|x| - 1], z) + x[|x| - 1] * PowI(z, |x| - 1)
  }

  function Plus(x: seq<int>, y: seq<int>): (r: seq<int>)
    requires |x| == |y|
    ensures |r| == |x|
  {
    seq(|x|, i requires 0 <= i < |x| => x[i] + y[i])
  }

  function Minus(x: seq<int>, y: seq<int>): (r: seq<int>)
    requires |x| == |y|
    ensures |r| == |x|
  {
    seq(|x|, i requires 0 <= i < |x| => x[i] - y[i])
  }

  // the coefficients multiplied by the powers of w
  function Twist(x: seq<int>, w: int): (r: seq<int>)
    ensures |r| == |x|
  {
    seq(|x|, i requires 0 <= i < |x| => x[i] * PowI(w, i))
  }

  lemma {:induction false} MulSwap(a: int, b: int, w: int, v: int)
    ensures (a * b) * (w * v) == (a * w) * (b * v)
  {
  }

  lemma {:induction false} PowProduct(w: int, v: int, k: nat)
    ensures PowI(w * v, k) == PowI(w, k) * PowI(v, k)
  {
    hide PowI;
    if k > 0 {
      PowProduct(w, v, k - 1);
      PowNextI(w * v, k - 1);
      PowNextI(w, k - 1);
      PowNextI(v, k - 1);
      MulSwap(PowI(w, k - 1), PowI(v, k - 1), w, v);
    } else {
      PowNextI(w * v, 0);
      PowNextI(w, 0);
      PowNextI(v, 0);
    }
  }

  lemma {:induction false} CongPow(a: int, b: int, k: nat, m: int)
    requires Cong(a, b, m)
    ensures Cong(PowI(a, k), PowI(b, k), m)
  {
    hide Cong;
    if k == 0 {
      CongSame(1, m);
    } else {
      CongPow(a, b, k - 1, m);
      CongMul(PowI(a, k - 1), PowI(b, k - 1), a, b, m);
    }
  }

  // powers of a number congruent to 1 or to -1
  lemma {:induction false} PowOne(a: int, k: nat, m: int)
    requires Cong(a, 1, m)
    ensures Cong(PowI(a, k), 1, m)
  {
    hide Cong;
    CongPow(a, 1, k, m);
    OnesPower(k);
  }

  lemma {:induction false} OnesPower(k: nat)
    ensures PowI(1, k) == 1
  {
    if k > 0 {
      OnesPower(k - 1);
    }
  }

  lemma {:induction false} PowMinusOne(a: int, k: nat, m: int)
    requires Cong(a, -1, m)
    ensures Cong(PowI(a, k), if k % 2 == 0 then 1 else -1, m)
  {
    hide Cong;
    CongPow(a, -1, k, m);
    MinusOnesPower(k);
  }

  lemma {:induction false} MinusOnesPower(k: nat)
    ensures PowI(-1, k) == if k % 2 == 0 then 1 else -1
  {
    if k > 0 {
      MinusOnesPower(k - 1);
    }
  }

  lemma {:induction false} EvalAppend(x: seq<int>, y: seq<int>, z: int)
    ensures Eval(x + y, z) == Eval(x, z) + PowI(z, |x|) * Eval(y, z)
  {
    hide PowI;
    if y == [] {
      assert x + y == x;
      assert PowI(z, |x|) * 0 == 0;
    } else {
      var u, c := y[..|y| - 1], y[|y| - 1];
      assert (x + y)[..|x + y| - 1] == x + u && (x + y)[|x + y| - 1] == c;
      EvalAppend(x, u, z);
      PowAddI(z, |x|, |u|);
      Distribute(PowI(z, |x|), Eval(u, z), c, PowI(z, |u|));
    }
  }

  lemma {:induction false} EvalPlus(x: seq<int>, y: seq<int>, z: int)
    requires |x| == |y|
    ensures Eval(Plus(x, y), z) == Eval(x, z) + Eval(y, z)
    ensures Eval(Minus(x, y), z) == Eval(x, z) - Eval(y, z)
  {
    if x != [] {
      var n := |x| - 1;
      EvalPlus(x[..n], y[..n], z);
      assert Plus(x, y)[..n] == Plus(x[..n], y[..n]) && Minus(x, y)[..n] == Minus(x[..n], y[..n]);
      MulAdd(x[n], y[n], PowI(z, n));
      MulAdd(x[n], -y[n], PowI(z, n));
      assert (-y[n]) * PowI(z, n) == -(y[n] * PowI(z, n));
    }
  }

  lemma {:induction false} EvalTwist(x: seq<int>, w: int, v: int)
    ensures Eval(x, w * v) == Eval(Twist(x, w), v)
  {
    if x != [] {
      var n := |x| - 1;
      EvalTwist(x[..n], w, v);
      assert Twist(x, w)[..n] == Twist(x[..n], w);
      PowProduct(w, v, n);
      assert x[n] * (PowI(w, n) * PowI(v, n)) == (x[n] * PowI(w, n)) * PowI(v, n);
    }
  }

  // coefficients congruent one by one
  ghost predicate CongAll(x: seq<int>, y: seq<int>, m: int) {
    |x| == |y| && forall i | 0 <= i < |x| :: Cong(x[i], y[i], m)
  }

  lemma {:induction false} EvalCong(x: seq<int>, y: seq<int>, z: int, m: int)
    requires CongAll(x, y, m)
    ensures Cong(Eval(x, z), Eval(y, z), m)
  {
    hide Cong;
    if x == [] {
      CongSame(0, m);
    } else {
      var n := |x| - 1;
      EvalCong(x[..n], y[..n], z, m);
      CongSame(PowI(z, n), m);
      CongMul(x[n], y[n], PowI(z, n), PowI(z, n), m);
      CongAdd(Eval(x[..n], z), Eval(y[..n], z), x[n] * PowI(z, n), y[n] * PowI(z, n), m);
    }
  }

  // Where z to the half is 1 or -1, the halves are added or subtracted.
  lemma {:induction false} EvalHalves(x: seq<int>, g: nat, z: int, m: int)
    requires |x| == 2 * g
    ensures Cong(PowI(z, g), 1, m) ==> Cong(Eval(x, z), Eval(Plus(x[..g], x[g..]), z), m)
    ensures Cong(PowI(z, g), -1, m) ==> Cong(Eval(x, z), Eval(Minus(x[..g], x[g..]), z), m)
  {
    hide Cong;
    var lo, hi := x[..g], x[g..];
    assert x == lo + hi;
    EvalAppend(lo, hi, z);
    EvalPlus(lo, hi, z);
    var a, b, p := Eval(lo, z), Eval(hi, z), PowI(z, g);
    CongSame(a, m);
    CongSame(b, m);
    if Cong(p, 1, m) {
      CongMul(p, 1, b, b, m);
      CongAdd(a, a, p * b, 1 * b, m);
    }
    if Cong(p, -1, m) {
      CongMul(p, -1, b, b, m);
      CongAdd(a, a, p * b, (-1) * b, m);
    }
  }
}
