/** The two laws a convolution by transforms rests on: transforming with the inverse root undoes a
    transform up to the length, and transforms turn cyclic convolution into pointwise products. */
module NttInverse {
  import opened Limbs
  import opened NttModular
  import opened NttPolynomial
  import opened Powers

  // every other value, from the first or from the second
  function Every(x: seq<int>, g: nat, o: nat): (r: seq<int>)
    requires |x| == 2 * g && o < 2
    ensures |r| == g
  {
    seq(g, i requires 0 <= i < g => x[2 * i + o])
  }

  lemma {:induction false} PowTwice(z: int, k: nat)
    ensures PowI(z, 2 * k) == PowI(z * z, k) && PowI(z, 2 * k + 1) == PowI(z * z, k) * z
  {
    PowMulI(z, 2, k);
    assert PowI(z, 2) == PowI(z, 1) * z && PowI(z, 1) == PowI(z, 0) * z == z;
    PowNextI(z, 2 * k);
  }

  lemma {:induction false} EvalPairs(x: seq<int>, g: nat, z: int)
    requires |x| == 2 * g
    ensures Eval(x, z) == Eval(Every(x, g, 0), z * z) + z * Eval(Every(x, g, 1), z * z)
  {
    hide PowI;
    if g > 0 {
      var h := g - 1;
      var u, s := x[..2 * h], z * z;
      EvalPairs(u, h, z);
      assert Every(x, g, 0)[..h] == Every(u, h, 0) && Every(x, g, 1)[..h] == Every(u, h, 1);
      assert x[..2 * h + 1][..2 * h] == u && x[..2 * g - 1] == x[..2 * h + 1];
      PowTwice(z, h);
      var a, b, p := x[2 * h], x[2 * h + 1], PowI(s, h);
      assert Eval(x, z) == Eval(u, z) + a * p + b * (p * z);
      PairSum(Eval(Every(u, h, 0), s), Eval(Every(u, h, 1), s), a, b, p, z);
    }
  }

  lemma {:induction false} PairSum(e: int, o: int, a: int, b: int, p: int, z: int)
    ensures e + z * o + a * p + b * (p * z) == (e + a * p) + z * (o + b * p)
  {
    assert b * (p * z) == z * (b * p);
    assert z * (o + b * p) == z * o + z * (b * p);
  }

  lemma {:induction false} EvalPoint(x: seq<int>, y: int, z: int, m: int)
    requires Cong(y, z, m)
    ensures Cong(Eval(x, y), Eval(x, z), m)
  {
    hide Cong;
    if x == [] {
      CongSame(0, m);
    } else {
      var n := |x| - 1;
      EvalPoint(x[..n], y, z, m);
      CongPow(y, z, n, m);
      CongSame(x[n], m);
      CongMul(x[n], x[n], PowI(y, n), PowI(z, n), m);
      CongAdd(Eval(x[..n], y), Eval(x[..n], z), x[n] * PowI(y, n), x[n] * PowI(z, n), m);
    }
  }

  // X holds the values of x at the powers of w
  ghost predicate IsDft(x: seq<int>, X: seq<int>, w: int, m: int) {
    |X| == |x| && forall e: nat | e < |x| :: Cong(X[e], Eval(x, PowI(w, e)), m)
  }

  // w has order 2^k, and v is its inverse
  ghost predicate InverseRoots(w: int, v: int, k: nat, m: int) {
    Cong(w * v, 1, m) && (k > 0 ==> Cong(PowI(w, Two(k - 1)), -1, m))
  }

  lemma {:induction false} SquaredRoots(w: int, v: int, k: nat, m: int)
    requires InverseRoots(w, v, k, m) && k > 0
    ensures InverseRoots(w * w, v * v, k - 1, m)
  {
    hide Cong, PowI;
    CongMul(w * v, 1, w * v, 1, m);
    assert (w * v) * (w * v) == (w * w) * (v * v);
    if k > 1 {
      PowTwice(w, Two(k - 2));
      assert Two(k - 1) == 2 * Two(k - 2);
    }
  }

  // the inverse root also reaches -1 halfway
  lemma {:induction false} InverseHalf(w: int, v: int, k: nat, m: int)
    requires InverseRoots(w, v, k, m) && k > 0
    ensures Cong(PowI(v, Two(k - 1)), -1, m)
  {
    hide Cong, PowI;
    var h := Two(k - 1);
    var a, b := PowI(w, h), PowI(v, h);
    PowProduct(w, v, h);
    PowOne(w * v, h, m);
    CongSame(b, m);
    CongMul(a, -1, b, b, m);
    CongSymm(a * b, -1 * b, m);
    CongTrans(-1 * b, a * b, 1, m);
    CongSame(-1, m);
    CongMul(-1, -1, -1 * b, 1, m);
    assert -1 * (-1 * b) == b;
  }

  lemma {:induction false} PowersCancel(w: int, v: int, i: nat, m: int)
    requires Cong(w * v, 1, m)
    ensures Cong(PowI(v, i) * PowI(w, i), 1, m)
  {
    hide Cong, PowI;
    PowProduct(w, v, i);
    PowOne(w * v, i, m);
    assert PowI(v, i) * PowI(w, i) == PowI(w, i) * PowI(v, i);
  }

  // the even values are the transform of the sum of the halves, the odd ones of the twisted difference
  lemma {:induction false} DftHalves(x: seq<int>, X: seq<int>, w: int, k: nat, m: int)
    requires IsDft(x, X, w, m) && k > 0 && |x| == Two(k) && Cong(PowI(w, Two(k - 1)), -1, m)
    ensures var g := Two(k - 1); var lo, hi := x[..g], x[g..];
            && IsDft(Plus(lo, hi), Every(X, g, 0), w * w, m)
            && IsDft(Twist(Minus(lo, hi), w), Every(X, g, 1), w * w, m)
  {
    hide Cong, PowI, Eval, Plus, Minus, Twist;
    var g := Two(k - 1);
    var lo, hi := x[..g], x[g..];
    forall q: nat | q < g
      ensures Cong(X[2 * q], Eval(Plus(lo, hi), PowI(w * w, q)), m)
      ensures Cong(X[2 * q + 1], Eval(Twist(Minus(lo, hi), w), PowI(w * w, q)), m)
    {
      DftPair(x, X, w, g, m, q);
    }
  }

  lemma {:induction false} DftPair(x: seq<int>, X: seq<int>, w: int, g: nat, m: int, q: nat)
    requires IsDft(x, X, w, m) && |x| == 2 * g && Cong(PowI(w, g), -1, m) && q < g
    ensures var lo, hi := x[..g], x[g..];
            && Cong(X[2 * q], Eval(Plus(lo, hi), PowI(w * w, q)), m)
            && Cong(X[2 * q + 1], Eval(Twist(Minus(lo, hi), w), PowI(w * w, q)), m)
  {
    hide Cong, PowI, Eval, Plus, Minus, Twist;
    var lo, hi := x[..g], x[g..];
    PowTwice(w, q);
    var s := PowI(w * w, q);
    UnitPower(w, g, 2 * q, m);
    UnitPower(w, g, 2 * q + 1, m);
    EvalHalves(x, g, s, m);
    EvalHalves(x, g, s * w, m);
    CongTrans(X[2 * q], Eval(x, s), Eval(Plus(lo, hi), s), m);
    CongTrans(X[2 * q + 1], Eval(x, s * w), Eval(Minus(lo, hi), s * w), m);
    assert s * w == w * s;
    EvalTwist(Minus(lo, hi), w, s);
  }

  lemma {:induction false} UnitPower(w: int, g: nat, r: nat, m: int)
    requires Cong(PowI(w, g), -1, m)
    ensures Cong(PowI(PowI(w, r), g), if r % 2 == 0 then 1 else -1, m)
  {
    hide Cong, PowI;
    PowMulI(w, r, g);
    PowMulI(w, g, r);
    assert r * g == g * r;
    PowMinusOne(PowI(w, g), r, m);
  }

  // The transform with the inverse root gives the coefficients back, times the length.
  lemma {:induction false} InverseLaw(x: seq<int>, X: seq<int>, w: int, v: int, k: nat, m: int, i: nat)
    requires InverseRoots(w, v, k, m) && |x| == Two(k) && IsDft(x, X, w, m) && i < Two(k)
    ensures Cong(Eval(X, PowI(v, i)), Two(k) * x[i], m)
    decreases k
  {
    hide Cong, PowI, Eval, Plus, Minus, Twist, Every;
    if k == 0 {
      OnlyValue(x, X, w, v, m);
    } else {
      var g := Two(k - 1);
      var lo, hi := x[..g], x[g..];
      var j := if i < g then i else i - g;
      DftHalves(x, X, w, k, m);
      SquaredRoots(w, v, k, m);
      InverseLaw(Plus(lo, hi), Every(X, g, 0), w * w, v * v, k - 1, m, j);
      InverseLaw(Twist(Minus(lo, hi), w), Every(X, g, 1), w * w, v * v, k - 1, m, j);
      InverseHalf(w, v, k, m);
      PowersCancel(w, v, j, m);
      HalvesMeet(x, X, w, v, g, m, i, j);
    }
  }

  lemma {:induction false} OnlyValue(x: seq<int>, X: seq<int>, w: int, v: int, m: int)
    requires |x| == 1 && IsDft(x, X, w, m)
    ensures Cong(Eval(X, PowI(v, 0)), 1 * x[0], m)
  {
    hide Cong;
    assert Eval(x, PowI(w, 0)) == x[0] && Eval(X, PowI(v, 0)) == X[0] by {
      assert Eval(x[..0], 1) == 0 && Eval(X[..0], 1) == 0;
    }
  }

  lemma {:induction false} HalvesMeet(x: seq<int>, X: seq<int>, w: int, v: int, g: nat, m: int, i: nat, j: nat)
    requires |x| == |X| == 2 * g && i < 2 * g && j == (if i < g then i else i - g)
    requires Cong(PowI(v, g), -1, m) && Cong(PowI(v, j) * PowI(w, j), 1, m)
    requires var lo, hi := x[..g], x[g..];
             && Cong(Eval(Every(X, g, 0), PowI(v * v, j)), g * Plus(lo, hi)[j], m)
             && Cong(Eval(Every(X, g, 1), PowI(v * v, j)), g * Twist(Minus(lo, hi), w)[j], m)
    ensures Cong(Eval(X, PowI(v, i)), (2 * g) * x[i], m)
  {
    hide Cong, PowI, Eval, Every;
    var z, t, p := PowI(v, i), PowI(v * v, j), PowI(v, j);
    var c := if i < g then 1 else -1;
    SignedPower(v, g, i, j, m);
    var e, o := Eval(Every(X, g, 0), z * z), Eval(Every(X, g, 1), z * z);
    EvalPairs(X, g, z);
    EvalPoint(Every(X, g, 0), z * z, t, m);
    EvalPoint(Every(X, g, 1), z * z, t, m);
    var a, b := x[j], x[g + j];
    CongTrans(e, Eval(Every(X, g, 0), t), g * (a + b), m);
    CongTrans(o, Eval(Every(X, g, 1), t), g * ((a - b) * PowI(w, j)), m);
    CongMul(z, c * p, o, g * ((a - b) * PowI(w, j)), m);
    assert (c * p) * (g * ((a - b) * PowI(w, j))) == (c * g * (a - b)) * (p * PowI(w, j)) by {
      Regroup(c, p, g, a - b, PowI(w, j));
    }
    CongSame(c * g * (a - b), m);
    CongMul(c * g * (a - b), c * g * (a - b), p * PowI(w, j), 1, m);
    CongTrans(z * o, (c * g * (a - b)) * (p * PowI(w, j)), c * g * (a - b), m);
    CongAdd(e, g * (a + b), z * o, c * g * (a - b), m);
    assert g * (a + b) + c * g * (a - b) == (2 * g) * x[i] by {
      SumOrDifference(g, a, b, c);
    }
  }

  lemma {:induction false} Regroup(c: int, p: int, g: int, d: int, u: int)
    ensures (c * p) * (g * (d * u)) == (c * g * d) * (p * u)
  {
    MulSwap(c, p, g, d * u);
    MulSwap(c * g, p, d, u);
    assert (c * g) * (p * (d * u)) == ((c * g) * p) * (d * u);
  }

  lemma {:induction false} SumOrDifference(g: int, a: int, b: int, c: int)
    requires c == 1 || c == -1
    ensures g * (a + b) + c * g * (a - b) == (2 * g) * (if c == 1 then a else b)
  {
    assert g * (a + b) == g * a + g * b && g * (a - b) == g * a - g * b;
    assert c * g * (a - b) == c * (g * (a - b));
    assert (2 * g) * a == 2 * (g * a) && (2 * g) * b == 2 * (g * b);
  }

  // past the half the powers are those before it, negated
  lemma {:induction false} SignedPower(v: int, g: nat, i: nat, j: nat, m: int)
    requires Cong(PowI(v, g), -1, m) && i == (if i < g then j else g + j)
    ensures var c := if i < g then 1 else -1;
            && Cong(PowI(v, i), c * PowI(v, j), m)
            && Cong(PowI(v, i) * PowI(v, i), PowI(v * v, j), m)
  {
    hide Cong, PowI;
    var c := if i < g then 1 else -1;
    var z, p := PowI(v, i), PowI(v, j);
    if i < g {
      CongSame(p, m);
    } else {
      PowAddI(v, g, j);
      CongSame(p, m);
      CongMul(PowI(v, g), -1, p, p, m);
    }
    CongMul(z, c * p, z, c * p, m);
    PowProduct(v, v, j);
    assert (c * p) * (c * p) == p * p;
  }

  // sum of x[i - j] * y[j] over j < k, with the indices of x taken around the end
  function Coefficient(x: seq<int>, y: seq<int>, i: nat, k: nat): int
    requires |x| == |y| && i < |x| && k <= |x|
  {
    if k == 0 then 0 else
      Coefficient(x, y, i, k - 1) + (if i >= k - 1 then x[i - (k - 1)] else x[|x| + i - (k - 1)]) * y[k - 1]
  }

  // the cyclic convolution, up to the first k elements of y
  function Cyclic(x: seq<int>, y: seq<int>, k: nat): (r: seq<int>)
    requires |x| == |y| && k <= |x|
    ensures |r| == |x|
  {
    seq(|x|, i requires 0 <= i < |x| => Coefficient(x, y, i, k))
  }

  function Scale(x: seq<int>, c: int): (r: seq<int>)
    ensures |r| == |x|
  {
    seq(|x|, i requires 0 <= i < |x| => x[i] * c)
  }

  function Rotate(x: seq<int>, k: nat): (r: seq<int>)
    requires k <= |x|
    ensures |r| == |x|
  {
    x[|x| - k..] + x[..|x| - k]
  }

  lemma {:induction false} EvalScale(x: seq<int>, c: int, z: int)
    ensures Eval(Scale(x, c), z) == Eval(x, z) * c
  {
    hide PowI;
    if x != [] {
      var n := |x| - 1;
      EvalScale(x[..n], c, z);
      assert Scale(x, c)[..n] == Scale(x[..n], c);
      assert (x[n] * c) * PowI(z, n) == (x[n] * PowI(z, n)) * c;
      MulAdd(Eval(x[..n], z), x[n] * PowI(z, n), c);
    }
  }

  lemma {:induction false} EvalRotate(x: seq<int>, k: nat, z: int, m: int)
    requires k <= |x| && Cong(PowI(z, |x|), 1, m)
    ensures Cong(Eval(Rotate(x, k), z), PowI(z, k) * Eval(x, z), m)
  {
    hide Cong, PowI;
    var n := |x|;
    var lo, hi := x[..n - k], x[n - k..];
    assert x == lo + hi && Rotate(x, k) == hi + lo;
    EvalAppend(lo, hi, z);
    EvalAppend(hi, lo, z);
    PowAddI(z, k, n - k);
    RotatedSum(Eval(lo, z), Eval(hi, z), PowI(z, k), PowI(z, n - k), m);
  }

  lemma {:induction false} RotatedSum(a: int, b: int, p: int, q: int, m: int)
    requires Cong(p * q, 1, m)
    ensures Cong(b + p * a, p * (a + q * b), m)
  {
    hide Cong;
    assert p * (a + q * b) == p * a + (p * q) * b by {
      assert p * (q * b) == (p * q) * b;
    }
    CongSame(b, m);
    CongMul(p * q, 1, b, b, m);
    CongSymm((p * q) * b, 1 * b, m);
    CongSame(p * a, m);
    CongAdd(p * a, p * a, 1 * b, (p * q) * b, m);
  }

  lemma {:induction false} CyclicNext(x: seq<int>, y: seq<int>, k: nat)
    requires |x| == |y| && k < |x|
    ensures Cyclic(x, y, k + 1) == Plus(Cyclic(x, y, k), Scale(Rotate(x, k), y[k]))
  {
  }

  // at a point whose power of the length is 1, the convolution is the product
  lemma {:induction false} EvalCyclic(x: seq<int>, y: seq<int>, k: nat, z: int, m: int)
    requires |x| == |y| && k <= |x| && Cong(PowI(z, |x|), 1, m)
    ensures Cong(Eval(Cyclic(x, y, k), z), Eval(x, z) * Eval(y[..k], z), m)
  {
    hide Cong, PowI, Cyclic, Coefficient, Rotate, Plus;
    if k == 0 {
      Zeros(x, y, z);
      CongSame(0, m);
    } else {
      var h := k - 1;
      var c, e, p, d := y[h], Eval(x, z), PowI(z, h), Eval(y[..h], z);
      EvalCyclic(x, y, h, z, m);
      CyclicNext(x, y, h);
      var u := Cyclic(x, y, h);
      EvalPlus(u, Scale(Rotate(x, h), c), z);
      EvalScale(Rotate(x, h), c, z);
      EvalRotate(x, h, z, m);
      CongSame(c, m);
      CongMul(Eval(Rotate(x, h), z), p * e, c, c, m);
      CongAdd(Eval(u, z), e * d, Eval(Rotate(x, h), z) * c, (p * e) * c, m);
      assert y[..k][..h] == y[..h];
      assert e * (d + c * p) == e * d + (p * e) * c by {
        assert e * (d + c * p) == e * d + e * (c * p);
        assert e * (c * p) == (p * e) * c;
      }
    }
  }

  lemma {:induction false} Zeros(x: seq<int>, y: seq<int>, z: int)
    requires |x| == |y|
    ensures Eval(Cyclic(x, y, 0), z) == 0 && Eval(x, z) * Eval(y[..0], z) == 0
  {
    assert Cyclic(x, y, 0) == Scale(x, 0);
    EvalScale(x, 0, z);
  }
}
