/** The law behind the split transform of libbf.c: a buffer seen as rows is folded into one row
    for each power of the root, and the cyclic convolution of the folded rows is the folded
    cyclic convolution. */
module NttSplit {
  import opened Limbs
  import opened NttModular
  import opened NttPolynomial
  import opened Powers
  import opened NttTransform
  import opened NttInverse

  lemma {:induction false} RowFits(i: nat, f: nat, h: nat)
    requires i < h
    ensures 0 <= i * f && i * f + f <= h * f
  {
    MulMono(i + 1, h, f);
    MulAdd(i, 1, f);
    MulNat(i, f);
  }

  // the row of number i, in h rows of f
  function Row(x: seq<int>, f: nat, h: nat, i: nat): (r: seq<int>)
    requires |x| == h * f && i < h
    ensures |r| == f
  {
    RowFits(i, f, h);
    x[i * f..i * f + f]
  }

  // the polynomial x at z * u, reduced for a u whose power of f is 1
  function Folded(x: seq<int>, f: nat, h: nat, z: int): (r: seq<int>)
    requires |x| == h * f
    ensures |r| == f
  {
    seq(f, j requires 0 <= j < f => Eval(Column(x, f, h, j), PowI(z, f)) * PowI(z, j))
  }

  lemma {:induction false} ColumnNext(x: seq<int>, f: nat, h: nat, j: nat)
    requires h > 0 && |x| == h * f && j < f
    ensures (h - 1) * f >= 0 && (h - 1) * f + f == h * f
    ensures Column(x, f, h, j) == Column(x[..(h - 1) * f], f, h - 1, j) + [Row(x, f, h, h - 1)[j]]
  {
    MulAdd(h - 1, 1, f);
    MulNat(h - 1, f);
    var u := x[..(h - 1) * f];
    forall i: nat | i < h - 1 ensures Entry(u, f, h - 1, i, j) == Entry(x, f, h, i, j) {
      CellFits(i, j, f, h - 1);
    }
    hide Entry;
    assert Column(x, f, h, j)[..h - 1] == Column(u, f, h - 1, j);
    LastEntry(x, f, h, j);
  }

  lemma {:induction false} LastEntry(x: seq<int>, f: nat, h: nat, j: nat)
    requires h > 0 && |x| == h * f && j < f
    ensures Entry(x, f, h, h - 1, j) == Row(x, f, h, h - 1)[j]
  {
    RowFits(h - 1, f, h);
  }

  // one more row
  lemma {:induction false} FoldedNext(x: seq<int>, f: nat, h: nat, z: int)
    requires h > 0 && |x| == h * f
    ensures (h - 1) * f >= 0 && (h - 1) * f + f == h * f
    ensures Folded(x, f, h, z) == Plus(Folded(x[..(h - 1) * f], f, h - 1, z),
                                       Scale(Twist(Row(x, f, h, h - 1), z), PowI(PowI(z, f), h - 1)))
  {
    hide PowI, Eval, Column, Row;
    MulAdd(h - 1, 1, f);
    MulNat(h - 1, f);
    var u, r, p := x[..(h - 1) * f], Row(x, f, h, h - 1), PowI(PowI(z, f), h - 1);
    forall j: nat | j < f ensures Folded(x, f, h, z)[j] == Folded(u, f, h - 1, z)[j] + Scale(Twist(r, z), p)[j] {
      ColumnNext(x, f, h, j);
      LastCoefficient(Column(u, f, h - 1, j), r[j], PowI(z, f));
      var e := Eval(Column(u, f, h - 1, j), PowI(z, f));
      MulAdd(e, r[j] * p, PowI(z, j));
      assert (r[j] * p) * PowI(z, j) == (r[j] * PowI(z, j)) * p;
    }
  }

  lemma {:induction false} LastCoefficient(c: seq<int>, a: int, z: int)
    ensures Eval(c + [a], z) == Eval(c, z) + a * PowI(z, |c|)
  {
    assert (c + [a])[..|c|] == c;
  }

  lemma {:induction false} EvalZeros(x: seq<int>, z: int)
    requires forall i | 0 <= i < |x| :: x[i] == 0
    ensures Eval(x, z) == 0
  {
    assert x == Scale(x, 0);
    EvalScale(x, 0, z);
  }

  lemma {:induction false} EvalFolded(x: seq<int>, f: nat, h: nat, z: int, u: int, m: int)
    requires |x| == h * f && Cong(PowI(u, f), 1, m)
    ensures Cong(Eval(Folded(x, f, h, z), u), Eval(x, z * u), m)
    decreases h
  {
    hide Cong, PowI, Folded, Plus, Scale, Twist, Row;
    if h == 0 {
      NoRows(x, f, z, u);
      CongSame(0, m);
    } else {
      FoldedNext(x, f, h, z);
      var k := (h - 1) * f;
      var lo, r, p := x[..k], Row(x, f, h, h - 1), PowI(PowI(z, f), h - 1);
      EvalFolded(lo, f, h - 1, z, u, m);
      EvalPlus(Folded(lo, f, h - 1, z), Scale(Twist(r, z), p), u);
      EvalScale(Twist(r, z), p, u);
      EvalTwist(r, z, u);
      LastRow(x, f, h);
      EvalAppend(lo, r, z * u);
      RowPower(z, u, f, h - 1, m);
      CongSymm(PowI(z * u, k), p, m);
      CongSame(Eval(r, z * u), m);
      CongMul(Eval(r, z * u), Eval(r, z * u), p, PowI(z * u, k), m);
      CongAdd(Eval(Folded(lo, f, h - 1, z), u), Eval(lo, z * u), Eval(r, z * u) * p, Eval(r, z * u) * PowI(z * u, k),
              m);
      assert PowI(z * u, k) * Eval(r, z * u) == Eval(r, z * u) * PowI(z * u, k);
    }
  }

  lemma {:induction false} LastRow(x: seq<int>, f: nat, h: nat)
    requires h > 0 && |x| == h * f
    ensures (h - 1) * f >= 0 && (h - 1) * f + f == h * f && x == x[..(h - 1) * f] + Row(x, f, h, h - 1)
  {
    MulAdd(h - 1, 1, f);
    MulNat(h - 1, f);
  }

  lemma {:induction false} NoRows(x: seq<int>, f: nat, z: int, u: int)
    requires |x| == 0 * f
    ensures Eval(Folded(x, f, 0, z), u) == 0 == Eval(x, z * u)
  {
    hide PowI;
    forall j: nat | j < f ensures Folded(x, f, 0, z)[j] == 0 {
      assert Column(x, f, 0, j) == [];
    }
    hide Folded;
    EvalZeros(Folded(x, f, 0, z), u);
    assert x == [];
  }

  lemma {:induction false} RowPower(z: int, u: int, f: nat, k: nat, m: int)
    requires Cong(PowI(u, f), 1, m)
    ensures k * f >= 0 && Cong(PowI(z * u, k * f), PowI(PowI(z, f), k), m)
  {
    hide Cong, PowI;
    PowMulI(z * u, f, k);
    assert f * k == k * f;
    PowProduct(z, u, f);
    CongSame(PowI(z, f), m);
    CongMul(PowI(z, f), PowI(z, f), PowI(u, f), 1, m);
    CongPow(PowI(z * u, f), PowI(z, f), k, m);
  }

  // Two polynomials with the same values at all powers of a root are the same.
  lemma {:induction false} SameValues(a: seq<int>, b: seq<int>, w: int, v: int, k: nat, t: int, m: int)
    requires InverseRoots(w, v, k, m) && |a| == |b| == Two(k) && Cong(Two(k) * t, 1, m)
    requires forall q: nat | q < Two(k) :: Cong(Eval(a, PowI(w, q)), Eval(b, PowI(w, q)), m)
    ensures CongAll(a, b, m)
  {
    hide Cong, PowI, Eval, InverseRoots;
    var A := seq(Two(k), q requires 0 <= q < Two(k) => Eval(a, PowI(w, q)));
    forall q: nat | q < Two(k) ensures Cong(A[q], Eval(a, PowI(w, q)), m) {
      CongSame(A[q], m);
    }
    forall i: nat | i < Two(k) ensures Cong(a[i], b[i], m) {
      InverseLaw(a, A, w, v, k, m, i);
      InverseLaw(b, A, w, v, k, m, i);
      CongSymm(Eval(A, PowI(v, i)), Two(k) * a[i], m);
      CongTrans(Two(k) * a[i], Eval(A, PowI(v, i)), Two(k) * b[i], m);
      Divide(Two(k), t, a[i], b[i], m);
    }
  }

  lemma {:induction false} Divide(n: int, t: int, a: int, b: int, m: int)
    requires Cong(n * t, 1, m) && Cong(n * a, n * b, m)
    ensures Cong(a, b, m)
  {
    hide Cong;
    CongSame(t, m);
    CongMul(n * a, n * b, t, t, m);
    assert (n * a) * t == (n * t) * a && (n * b) * t == (n * t) * b;
    CongSame(a, m);
    CongSame(b, m);
    CongMul(n * t, 1, a, a, m);
    CongMul(n * t, 1, b, b, m);
    CongSymm((n * t) * a, a, m);
    CongTrans(a, (n * t) * a, (n * t) * b, m);
    CongTrans(a, (n * t) * b, b, m);
  }

  // The rows can be convolved one by one: folding commutes with cyclic convolution.
  lemma {:induction false} FoldedCyclic(x: seq<int>, y: seq<int>, f: nat, h: nat, z: int, w: int, v: int, k: nat,
                                        t: int, m: int)
    requires |x| == |y| == h * f && f == Two(k) && Cong(PowI(z, h * f), 1, m)
    requires InverseRoots(w, v, k, m) && Cong(PowI(w, f), 1, m) && Cong(f * t, 1, m)
    ensures CongAll(Cyclic(Folded(x, f, h, z), Folded(y, f, h, z), f), Folded(Cyclic(x, y, h * f), f, h, z), m)
  {
    hide Cong, PowI, Eval, InverseRoots, Folded, Cyclic;
    var a, b := Cyclic(Folded(x, f, h, z), Folded(y, f, h, z), f), Folded(Cyclic(x, y, h * f), f, h, z);
    forall q: nat | q < f ensures Cong(Eval(a, PowI(w, q)), Eval(b, PowI(w, q)), m) {
      UnitRoot(w, f, q, m);
      FoldedProduct(x, y, f, h, z, PowI(w, q), m);
    }
    SameValues(a, b, w, v, k, t, m);
  }

  lemma {:induction false} UnitRoot(w: int, f: nat, q: nat, m: int)
    requires Cong(PowI(w, f), 1, m)
    ensures Cong(PowI(PowI(w, q), f), 1, m)
  {
    hide Cong, PowI;
    PowMulI(w, q, f);
    PowMulI(w, f, q);
    assert q * f == f * q;
    PowOne(PowI(w, f), q, m);
  }

  lemma {:induction false} FoldedProduct(x: seq<int>, y: seq<int>, f: nat, h: nat, z: int, u: int, m: int)
    requires |x| == |y| == h * f && Cong(PowI(z, h * f), 1, m) && Cong(PowI(u, f), 1, m)
    ensures Cong(Eval(Cyclic(Folded(x, f, h, z), Folded(y, f, h, z), f), u),
                 Eval(Folded(Cyclic(x, y, h * f), f, h, z), u), m)
  {
    hide Cong, PowI, Eval, Folded, Cyclic;
    var n := h * f;
    var p, q, c := Folded(x, f, h, z), Folded(y, f, h, z), Cyclic(x, y, n);
    EvalCyclic(p, q, f, u, m);
    assert q[..f] == q && y[..n] == y;
    EvalFolded(x, f, h, z, u, m);
    EvalFolded(y, f, h, z, u, m);
    CongMul(Eval(p, u), Eval(x, z * u), Eval(q, u), Eval(y, z * u), m);
    CongTrans(Eval(Cyclic(p, q, f), u), Eval(p, u) * Eval(q, u), Eval(x, z * u) * Eval(y, z * u), m);
    UnitProduct(z, u, f, h, m);
    EvalCyclic(x, y, n, z * u, m);
    CongSymm(Eval(c, z * u), Eval(x, z * u) * Eval(y, z * u), m);
    CongTrans(Eval(Cyclic(p, q, f), u), Eval(x, z * u) * Eval(y, z * u), Eval(c, z * u), m);
    EvalFolded(c, f, h, z, u, m);
    CongSymm(Eval(Folded(c, f, h, z), u), Eval(c, z * u), m);
    CongTrans(Eval(Cyclic(p, q, f), u), Eval(c, z * u), Eval(Folded(c, f, h, z), u), m);
  }

  lemma {:induction false} UnitProduct(z: int, u: int, f: nat, h: nat, m: int)
    requires h * f >= 0 && Cong(PowI(z, h * f), 1, m) && Cong(PowI(u, f), 1, m)
    ensures Cong(PowI(z * u, h * f), 1, m)
  {
    hide Cong, PowI;
    PowProduct(z, u, h * f);
    PowMulI(u, f, h);
    assert f * h == h * f;
    PowOne(PowI(u, f), h, m);
    CongMul(PowI(z, h * f), 1, PowI(u, h * f), 1, m);
  }

  // congruent factors have congruent convolutions
  lemma {:induction false} CyclicCong(x: seq<int>, x': seq<int>, y: seq<int>, y': seq<int>, k: nat, m: int)
    requires CongAll(x, x', m) && CongAll(y, y', m) && |x| == |y| && k <= |x|
    ensures CongAll(Cyclic(x, y, k), Cyclic(x', y', k), m)
  {
    hide Cong, Coefficient;
    forall i: nat | i < |x| ensures Cong(Coefficient(x, y, i, k), Coefficient(x', y', i, k), m) {
      CoefficientCong(x, x', y, y', i, k, m);
    }
  }

  lemma {:induction false} CoefficientCong(x: seq<int>, x': seq<int>, y: seq<int>, y': seq<int>, i: nat, k: nat, m: int)
    requires CongAll(x, x', m) && CongAll(y, y', m) && |x| == |y| && i < |x| && k <= |x|
    ensures Cong(Coefficient(x, y, i, k), Coefficient(x', y', i, k), m)
    decreases k
  {
    hide Cong;
    if k == 0 {
      CongSame(0, m);
    } else {
      CoefficientCong(x, x', y, y', i, k - 1, m);
      var p := if i >= k - 1 then i - (k - 1) else |x| + i - (k - 1);
      CongMul(x[p], x'[p], y[k - 1], y'[k - 1], m);
      CongAdd(Coefficient(x, y, i, k - 1), Coefficient(x', y', i, k - 1), x[p] * y[k - 1], x'[p] * y'[k - 1], m);
    }
  }

  // One column of a partial transform: the forward one transforms and then multiplies by the
  // powers of c, the inverse one multiplies first.
  ghost predicate ColumnDone(x: seq<int>, X: seq<int>, w: int, c: int, inverse: bool, m: int) {
    && |X| == |x|
    && if inverse then IsDft(Twist(x, c), X, w, m)
       else forall e: nat | e < |x| :: Cong(X[e], Eval(x, PowI(w, e)) * PowI(c, e), m)
  }

  // the first k columns are done, with the powers of w as their c; the others are as they were
  ghost predicate ColumnsDone(x: seq<int>, X: seq<int>, f: nat, h: nat, w1: int, w: int, inverse: bool, m: int,
                              k: nat) {
    && |x| == |X| == h * f && k <= f
    && (forall j: nat | j < k ::
          ColumnDone(Column(x, f, h, j), Column(X, f, h, j), w1, PowI(w, j), inverse, m))
    && (forall j: nat | k <= j < f :: Column(X, f, h, j) == Column(x, f, h, j))
  }

  lemma {:induction false} RowColumn(x: seq<int>, f: nat, h: nat, i: nat, j: nat)
    requires |x| == h * f && i < h && j < f
    ensures Row(x, f, h, i)[j] == Entry(x, f, h, i, j) == Column(x, f, h, j)[i]
  {
    RowFits(i, f, h);
  }

  lemma {:induction false} PowSwap(w: int, a: nat, b: nat)
    ensures PowI(PowI(w, a), b) == PowI(PowI(w, b), a)
  {
    hide PowI;
    PowMulI(w, a, b);
    PowMulI(w, b, a);
    assert a * b == b * a;
  }

  // the values of a column at the power e of the root of the columns
  lemma {:induction false} ColumnPoint(c: seq<int>, f: nat, w1: int, w: int, e: nat, m: int)
    requires Cong(PowI(w, f), w1, m)
    ensures Cong(Eval(c, PowI(PowI(w, e), f)), Eval(c, PowI(w1, e)), m)
  {
    hide Cong, PowI, Eval;
    PowSwap(w, e, f);
    CongPow(PowI(w, f), w1, e, m);
    EvalPoint(c, PowI(PowI(w, e), f), PowI(w1, e), m);
  }

  // After the forward columns each row holds the polynomial folded at a power of the root.
  lemma {:induction false} RowsFolded(x: seq<int>, X: seq<int>, f: nat, h: nat, w1: int, w: int, m: int, e: nat)
    requires ColumnsDone(x, X, f, h, w1, w, false, m, f) && Cong(PowI(w, f), w1, m) && e < h
    ensures CongAll(Row(X, f, h, e), Folded(x, f, h, PowI(w, e)), m)
  {
    hide Cong, PowI, Eval, Row, Column;
    forall j: nat | j < f ensures Cong(Row(X, f, h, e)[j], Folded(x, f, h, PowI(w, e))[j], m) {
      RowColumn(X, f, h, e, j);
      var c := Column(x, f, h, j);
      assert ColumnDone(c, Column(X, f, h, j), w1, PowI(w, j), false, m);
      ColumnPoint(c, f, w1, w, e, m);
      PowSwap(w, j, e);
      var p := PowI(PowI(w, e), j);
      CongSame(p, m);
      CongSymm(Eval(c, PowI(PowI(w, e), f)), Eval(c, PowI(w1, e)), m);
      CongMul(Eval(c, PowI(w1, e)), Eval(c, PowI(PowI(w, e), f)), p, p, m);
      CongTrans(Row(X, f, h, e)[j], Eval(c, PowI(w1, e)) * p, Eval(c, PowI(PowI(w, e), f)) * p, m);
    }
  }

  // rows that hold a folded polynomial, scaled
  ghost predicate RowsAre(Z: seq<int>, c: seq<int>, f: nat, h: nat, w: int, s: int, m: int) {
    |Z| == |c| == h * f
    && forall e: nat | e < h :: CongAll(Row(Z, f, h, e), Scale(Folded(c, f, h, PowI(w, e)), s), m)
  }

  // before the inverse columns: each, untwisted, is the transform of a column of the result
  lemma {:induction false} ColumnDft(Z: seq<int>, c: seq<int>, f: nat, h: nat, w1: int, w: int, v: int, s: int, m: int,
                                     j: nat)
    requires RowsAre(Z, c, f, h, w, s, m) && Cong(PowI(w, f), w1, m) && Cong(w * v, 1, m) && j < f
    ensures IsDft(Scale(Column(c, f, h, j), s), Twist(Column(Z, f, h, j), PowI(v, j)), w1, m)
  {
    hide Cong, PowI, Eval, Row, Column, RowsAre, Scale;
    RowsSize(Z, c, f, h, w, s, m);
    var col := Column(c, f, h, j);
    forall e: nat | e < h
      ensures Cong(Twist(Column(Z, f, h, j), PowI(v, j))[e], Eval(Scale(col, s), PowI(w1, e)), m)
    {
      RowValue(Z, c, f, h, w, s, m, e, j);
      ColumnPoint(col, f, w1, w, e, m);
      PowSwap(v, j, e);
      PowerPair(w, v, e, j, m);
      EvalScale(col, s, PowI(w1, e));
      Untwist(Column(Z, f, h, j)[e], Eval(col, PowI(PowI(w, e), f)), Eval(col, PowI(w1, e)), PowI(PowI(w, e), j),
              PowI(PowI(v, e), j), s, m);
    }
  }

  lemma {:induction false} RowsSize(Z: seq<int>, c: seq<int>, f: nat, h: nat, w: int, s: int, m: int)
    requires RowsAre(Z, c, f, h, w, s, m)
    ensures |Z| == |c| == h * f
  {
  }

  lemma {:induction false} RowValue(Z: seq<int>, c: seq<int>, f: nat, h: nat, w: int, s: int, m: int, e: nat, j: nat)
    requires RowsAre(Z, c, f, h, w, s, m) && e < h && j < f
    ensures |Z| == |c| == h * f
    ensures Cong(Column(Z, f, h, j)[e], (Eval(Column(c, f, h, j), PowI(PowI(w, e), f)) * PowI(PowI(w, e), j)) * s, m)
  {
    hide Cong, PowI, Eval, Row, Column;
    RowColumn(Z, f, h, e, j);
  }

  lemma {:induction false} PowerPair(w: int, v: int, e: nat, j: nat, m: int)
    requires Cong(w * v, 1, m)
    ensures Cong(PowI(PowI(w, e), j) * PowI(PowI(v, e), j), 1, m)
  {
    hide Cong, PowI;
    PowProduct(w, v, e);
    PowProduct(PowI(w, e), PowI(v, e), j);
    PowOne(w * v, e, m);
    PowOne(PowI(w * v, e), j, m);
  }

  lemma {:induction false} Untwist(z: int, a: int, b: int, p: int, q: int, s: int, m: int)
    requires Cong(z, (a * p) * s, m) && Cong(a, b, m) && Cong(p * q, 1, m)
    ensures Cong(z * q, b * s, m)
  {
    hide Cong;
    CongSame(q, m);
    CongMul(z, (a * p) * s, q, q, m);
    assert ((a * p) * s) * q == (a * s) * (p * q) by {
      MulSwap(a, p, s, q);
      assert ((a * p) * s) * q == (a * p) * (s * q);
    }
    CongSame(s, m);
    CongMul(a, b, s, s, m);
    CongMul(a * s, b * s, p * q, 1, m);
    CongTrans(z * q, (a * s) * (p * q), b * s, m);
  }

  // The inverse columns give the result, times the height.
  lemma {:induction false} ColumnsBack(Z: seq<int>, c: seq<int>, out: seq<int>, f: nat, h: nat, k: nat, w1: int,
                                       v1: int,
                                       w: int, v: int, s: int, m: int)
    requires RowsAre(Z, c, f, h, w, s, m) && ColumnsDone(Z, out, f, h, v1, v, true, m, f) && h == Two(k)
    requires Cong(PowI(w, f), w1, m) && Cong(w * v, 1, m) && InverseRoots(w1, v1, k, m)
    ensures CongAll(out, Scale(c, h * s), m)
  {
    hide Cong, PowI, Eval, Column, RowsAre, ColumnDone, InverseRoots, Twist;
    RowsSize(Z, c, f, h, w, s, m);
    forall p: nat | p < h * f ensures Cong(out[p], Scale(c, h * s)[p], m) {
      var i, j := InRow(p, f, h);
      ColumnDft(Z, c, f, h, w1, w, v, s, m, j);
      var twisted := Twist(Column(Z, f, h, j), PowI(v, j));
      assert ColumnDone(Column(Z, f, h, j), Column(out, f, h, j), v1, PowI(v, j), true, m);
      ColumnValue(Column(Z, f, h, j), Column(out, f, h, j), v1, PowI(v, j), m, i);
      InverseLaw(Scale(Column(c, f, h, j), s), twisted, w1, v1, k, m, i);
      CongTrans(Column(out, f, h, j)[i], Eval(twisted, PowI(v1, i)), h * Scale(Column(c, f, h, j), s)[i], m);
      assert h * (c[p] * s) == c[p] * (h * s);
    }
  }

  lemma {:induction false} ColumnValue(x: seq<int>, X: seq<int>, w: int, c: int, m: int, i: nat)
    requires ColumnDone(x, X, w, c, true, m) && i < |x|
    ensures |X| == |x| && Cong(X[i], Eval(Twist(x, c), PowI(w, i)), m)
  {
    hide Cong, Eval, PowI, Twist;
  }

  // the row and the column of a place
  lemma {:induction false} InRow(p: nat, f: nat, h: nat) returns (i: nat, j: nat)
    requires p < h * f
    ensures i < h && j < f && p == i * f + j
    ensures forall x: seq<int> | |x| == h * f :: Column(x, f, h, j)[i] == x[p]
  {
    assert f > 0 by {
      assert f == 0 ==> h * f == 0;
    }
    DivMod(p, f);
    i, j := p / f, p % f;
    assert f * i == i * f;
    Cancel(i, h, f);
  }

  // A split convolution: the columns forward, every row convolved, the columns back.
  lemma {:induction false} SplitConvolved(x: seq<int>, y: seq<int>, X: seq<int>, Y: seq<int>, Z: seq<int>,
                                          out: seq<int>,
                                          k1: nat, k2: nat, w1: int, v1: int, w: int, v: int, w2: int, v2: int, t: int,
                                          s: int, m: int)
    requires var f, h := Two(k2), Two(k1);
             && ColumnsDone(x, X, f, h, w1, w, false, m, f) && ColumnsDone(y, Y, f, h, w1, w, false, m, f)
             && RowsConvolved(X, Y, Z, f, h, s, m) && ColumnsDone(Z, out, f, h, v1, v, true, m, f)
             && Cong(PowI(w, f), w1, m) && Cong(PowI(w, h * f), 1, m) && Cong(w * v, 1, m)
             && InverseRoots(w1, v1, k1, m)
             && InverseRoots(w2, v2, k2, m) && Cong(PowI(w2, f), 1, m) && Cong(f * t, 1, m)
    ensures |x| == |y| == Two(k1) * Two(k2)
    ensures CongAll(out, Scale(Cyclic(x, y, |x|), Two(k1) * s), m)
  {
    hide Cong, PowI, Row, Column, ColumnDone, InverseRoots, Cyclic, Folded, ColumnsDone;
    var f, h := Two(k2), Two(k1);
    ColumnsSize(x, X, f, h, w1, w, false, m);
    ColumnsSize(y, Y, f, h, w1, w, false, m);
    var c := Cyclic(x, y, |x|);
    forall e: nat | e < h ensures CongAll(Row(Z, f, h, e), Scale(Folded(c, f, h, PowI(w, e)), s), m) {
      RowsFolded(x, X, f, h, w1, w, m, e);
      RowsFolded(y, Y, f, h, w1, w, m, e);
      var p, q := Folded(x, f, h, PowI(w, e)), Folded(y, f, h, PowI(w, e));
      CyclicCong(Row(X, f, h, e), p, Row(Y, f, h, e), q, f, m);
      UnitRoot(w, h * f, e, m);
      FoldedCyclic(x, y, f, h, PowI(w, e), w2, v2, k2, t, m);
      AllTrans(Cyclic(Row(X, f, h, e), Row(Y, f, h, e), f), Cyclic(p, q, f), Folded(c, f, h, PowI(w, e)), m);
      ScaleCong(Cyclic(Row(X, f, h, e), Row(Y, f, h, e), f), Folded(c, f, h, PowI(w, e)), s, m);
      AllTrans(Row(Z, f, h, e), Scale(Cyclic(Row(X, f, h, e), Row(Y, f, h, e), f), s),
               Scale(Folded(c, f, h, PowI(w, e)), s), m);
    }
    ColumnsBack(Z, c, out, f, h, k1, w1, v1, w, v, s, m);
  }

  // every row is convolved, up to a factor
  ghost predicate RowsConvolved(X: seq<int>, Y: seq<int>, Z: seq<int>, f: nat, h: nat, s: int, m: int) {
    |X| == |Y| == |Z| == h * f
    && forall e: nat | e < h ::
         CongAll(Row(Z, f, h, e), Scale(Cyclic(Row(X, f, h, e), Row(Y, f, h, e), f), s), m)
  }

  lemma {:induction false} ColumnsSize(x: seq<int>, X: seq<int>, f: nat, h: nat, w1: int, w: int, inverse: bool, m: int)
    requires ColumnsDone(x, X, f, h, w1, w, inverse, m, f)
    ensures |x| == |X| == h * f
  {
  }

  lemma {:induction false} AllTrans(x: seq<int>, y: seq<int>, z: seq<int>, m: int)
    requires CongAll(x, y, m) && CongAll(y, z, m)
    ensures CongAll(x, z, m)
  {
    hide Cong;
    forall i | 0 <= i < |x| ensures Cong(x[i], z[i], m) {
      CongTrans(x[i], y[i], z[i], m);
    }
  }

  lemma {:induction false} ScaleCong(x: seq<int>, y: seq<int>, s: int, m: int)
    requires CongAll(x, y, m)
    ensures CongAll(Scale(x, s), Scale(y, s), m)
  {
    hide Cong;
    CongSame(s, m);
    forall i | 0 <= i < |x| ensures Cong(x[i] * s, y[i] * s, m) {
      CongMul(x[i], y[i], s, s, m);
    }
  }
}
