/** ntt_fft of libbf.c: the stages of a number-theoretic transform on two buffers, whose
    elements stay below 2m, and the discrete Fourier transform they compute modulo m. */
module NttTransform {
  import opened Limbs
  import opened NttModular
  import opened NttPolynomial
  import opened Powers

  predicate Small(s: seq<Limb>, m: Limb) {
    forall i | 0 <= i < |s| :: s[i] < 2 * m
  }

  lemma {:induction false} CellFits(i: nat, j: nat, f: nat, h: nat)
    requires i < h && j < f
    ensures 0 <= i * f + j < h * f
  {
    MulMono(i + 1, h, f);
    MulAdd(i, 1, f);
    MulNat(i, f);
  }

  // the element of block i at place j, in h blocks of f
  function Entry(s: seq<int>, f: nat, h: nat, i: nat, j: nat): int
    requires |s| == h * f && i < h && j < f
  {
    CellFits(i, j, f, h);
    s[i * f + j]
  }

  function Cell(s: seq<Limb>, f: nat, h: nat, i: nat, j: nat): Limb
    requires |s| == h * f && i < h && j < f
  {
    CellFits(i, j, f, h);
    Entry(s, f, h, i, j)
  }

  // what the buffer holds of the transform number j
  function Column(s: seq<int>, f: nat, h: nat, j: nat): (c: seq<int>)
    requires |s| == h * f && j < f
    ensures |c| == h
  {
    seq(h, i requires 0 <= i < h => Entry(s, f, h, i, j))
  }

  lemma {:induction false} ColumnCells(s: seq<Limb>, f: nat, h: nat, j: nat)
    requires |s| == h * f && j < f
    ensures forall i: nat | i < h :: Column(s, f, h, j)[i] == Cell(s, f, h, i, j)
  {
    hide Entry;
  }

  // both results of a butterfly
  function Sum(a0: Limb, a1: Limb, m: Limb): Limb
    requires m < MOD_MAX
  {
    AddMod(a0, a1, 2 * m)
  }

  function Product(a0: Limb, a1: Limb, m: Limb, c: Limb, cInv: Limb): Limb
    requires m < MOD_MAX
  {
    MulModFast3(Wrap(Wrap((a0 as int) - a1) + 2 * m), c, m, cInv)
  }

  lemma {:induction false} ButterflyExact(a0: Limb, a1: Limb, m: Limb, c: Limb)
    requires a0 < 2 * m && a1 < 2 * m && m < MOD_MAX && c < m
    ensures Sum(a0, a1, m) < 2 * m && Cong(Sum(a0, a1, m), a0 + a1, m)
    ensures var r := Product(a0, a1, m, c, InitMulModFast2(c, m)); r < 2 * m && Cong(r, (a0 - a1) * c, m)
  {
    hide InitMulModFast2, MulModFast3, AddMod, Wrap, Cong;
    AddSubExact(a0, a1, 2 * m);
    CongBy(Sum(a0, a1, m), a0 + a1, m, if Sum(a0, a1, m) == a0 + a1 then 0 else -2);
    Lifted(a0, a1, m);
    var d: int := Wrap(Wrap((a0 as int) - a1) + 2 * m);
    MulModExact(d, c, m);
    CongBy(d, a0 - a1, m, 2);
    CongSame(c, m);
    CongMul(d, a0 - a1, c, c, m);
    CongTrans(Product(a0, a1, m, c, InitMulModFast2(c, m)), d * c, (a0 - a1) * c, m);
  }

  lemma {:induction false} Lifted(a0: int, a1: int, m: int)
    requires 0 <= a0 < 2 * m && 0 <= a1 < 2 * m && m < MOD_MAX
    ensures Wrap(Wrap(a0 - a1) + 2 * m) == a0 - a1 + 2 * m
  {
  }

  // a table of g multipliers with their inverses
  predicate IsTable(trig: seq<(Limb, Limb)>, m: Limb) {
    forall i | 0 <= i < |trig| :: trig[i].0 < m && trig[i].1 == InitMulModFast2(trig[i].0, m)
  }

  // block i of the next buffer: f sums, then f products
  function Block(s: seq<Limb>, f: nat, g: nat, m: Limb, trig: seq<(Limb, Limb)>, i: nat): (r: seq<Limb>)
    requires |s| == (2 * g) * f && |trig| == g && i < g && m < MOD_MAX
    ensures |r| == 2 * f
  {
    SumRow(s, f, g, m, i, f) + ProductRow(s, f, g, m, trig, i, f)
  }

  function SumRow(s: seq<Limb>, f: nat, g: nat, m: Limb, i: nat, k: nat): (r: seq<Limb>)
    requires |s| == (2 * g) * f && i < g && m < MOD_MAX && k <= f
    ensures |r| == k
  {
    seq(k, j requires 0 <= j < k => Sum(Cell(s, f, 2 * g, i, j), Cell(s, f, 2 * g, i + g, j), m))
  }

  function ProductRow(s: seq<Limb>, f: nat, g: nat, m: Limb, trig: seq<(Limb, Limb)>, i: nat, k: nat): (r: seq<Limb>)
    requires |s| == (2 * g) * f && |trig| == g && i < g && m < MOD_MAX && k <= f
    ensures |r| == k
  {
    seq(k, j requires 0 <= j < k => Product(Cell(s, f, 2 * g, i, j), Cell(s, f, 2 * g, i + g, j), m, trig[i].0,
                                            trig[i].1))
  }

  // the first k blocks
  function Stage(s: seq<Limb>, f: nat, g: nat, m: Limb, trig: seq<(Limb, Limb)>, k: nat): (r: seq<Limb>)
    requires |s| == (2 * g) * f && |trig| == g && k <= g && m < MOD_MAX
    ensures |r| == k * (2 * f)
  {
    if k == 0 then [] else
      MulAdd(k - 1, 1, 2 * f);
      Stage(s, f, g, m, trig, k - 1) + Block(s, f, g, m, trig, k - 1)
  }

  lemma {:induction false} StageCell(s: seq<Limb>, f: nat, g: nat, m: Limb, trig: seq<(Limb, Limb)>, k: nat, i: nat,
                                     j: nat)
    requires |s| == (2 * g) * f && |trig| == g && k <= g && m < MOD_MAX && i < k && j < 2 * f
    ensures Cell(Stage(s, f, g, m, trig, k), 2 * f, k, i, j) == Block(s, f, g, m, trig, i)[j]
  {
    hide Block;
    CellFits(i, j, 2 * f, k);
    if i < k - 1 {
      StageCell(s, f, g, m, trig, k - 1, i, j);
      CellFits(i, j, 2 * f, k - 1);
    }
  }

  // the exact butterflies the stage is congruent to
  lemma {:induction false} StageExact(s: seq<Limb>, f: nat, g: nat, m: Limb, trig: seq<(Limb, Limb)>, i: nat, j: nat)
    requires |s| == (2 * g) * f && |trig| == g && Small(s, m) && m < MOD_MAX && IsTable(trig, m) && i < g && j < f
    ensures var t := Stage(s, f, g, m, trig, g);
            var a, b := Cell(s, f, 2 * g, i, j), Cell(s, f, 2 * g, i + g, j);
            && Cell(t, 2 * f, g, i, j) < 2 * m && Cong(Cell(t, 2 * f, g, i, j), a + b, m)
            && Cell(t, 2 * f, g, i, j + f) < 2 * m && Cong(Cell(t, 2 * f, g, i, j + f), (a - b) * trig[i].0, m)
  {
    hide Stage, Cell, Product, Sum;
    StageCell(s, f, g, m, trig, g, i, j);
    StageCell(s, f, g, m, trig, g, i, j + f);
    CellSmall(s, f, 2 * g, i, j, m);
    CellSmall(s, f, 2 * g, i + g, j, m);
    ButterflyExact(Cell(s, f, 2 * g, i, j), Cell(s, f, 2 * g, i + g, j), m, trig[i].0);
  }

  lemma {:induction false} CellSmall(s: seq<Limb>, f: nat, h: nat, i: nat, j: nat, m: Limb)
    requires |s| == h * f && i < h && j < f && Small(s, m)
    ensures Cell(s, f, h, i, j) < 2 * m
  {
    CellFits(i, j, f, h);
  }

  // every element of a buffer is in some cell
  lemma {:induction false} AllCells(s: seq<Limb>, f: nat, h: nat, m: Limb)
    requires |s| == h * f && f > 0 && forall i: nat, j: nat | i < h && j < f :: Cell(s, f, h, i, j) < 2 * m
    ensures Small(s, m)
  {
    forall k | 0 <= k < |s| ensures s[k] < 2 * m {
      DivMod(k, f);
      var i, j := k / f, k % f;
      assert f * i == i * f;
      if i >= h {
        MulMono(h, i, f);
      }
      assert Cell(s, f, h, i, j) == s[k];
    }
  }

  lemma {:induction false} StageSmall(s: seq<Limb>, f: nat, g: nat, m: Limb, trig: seq<(Limb, Limb)>)
    requires |s| == (2 * g) * f && f > 0 && |trig| == g && Small(s, m) && m < MOD_MAX && IsTable(trig, m)
    ensures Small(Stage(s, f, g, m, trig, g), m)
  {
    hide Stage, Cell, Small;
    var t := Stage(s, f, g, m, trig, g);
    forall i: nat, j: nat | i < g && j < 2 * f ensures Cell(t, 2 * f, g, i, j) < 2 * m {
      StageExact(s, f, g, m, trig, i, if j < f then j else j - f);
    }
    AllCells(t, 2 * f, g, m);
  }

  // Buffer column j, at a power of w, gives the transform of x at the powers j + f * q of w.
  ghost predicate Follows(x: seq<int>, s: seq<Limb>, f: nat, h: nat, w: int, m: int, j: nat, q: nat)
    requires |s| == h * f && j < f
  {
    MulNat(f, q);
    Cong(Eval(x, PowI(w, j + f * q)), Eval(Column(s, f, h, j), PowI(w, f * q)), m)
  }

  ghost predicate Transformed(x: seq<int>, s: seq<Limb>, f: nat, h: nat, w: int, m: int) {
    |s| == h * f && forall j: nat, q: nat | j < f && q < h :: Follows(x, s, f, h, w, m, j, q)
  }

  lemma {:induction false} FollowsAt(x: seq<int>, s: seq<Limb>, f: nat, h: nat, w: int, m: int, j: nat, q: nat)
    requires Transformed(x, s, f, h, w, m) && j < f && q < h
    ensures f * q >= 0 && Cong(Eval(x, PowI(w, j + f * q)), Eval(Column(s, f, h, j), PowI(w, f * q)), m)
  {
    hide Cong, Eval, Column, PowI;
    assert Follows(x, s, f, h, w, m, j, q);
  }

  // to start with, the buffer is the polynomial itself
  lemma {:induction false} TransformStart(s: seq<Limb>, w: int, m: int)
    ensures Transformed(s, s, 1, |s|, w, m)
  {
    hide Cong, Eval, PowI;
    forall j: nat, q: nat | j < 1 && q < |s| ensures Follows(s, s, 1, |s|, w, m, j, q) {
      assert Column(s, 1, |s|, 0) == s;
      CongSame(Eval(s, PowI(w, q)), m);
    }
  }

  // the table for a stage holds the powers of w in steps of f
  ghost predicate TableFor(trig: seq<(Limb, Limb)>, g: nat, m: Limb, w: int, f: nat) {
    |trig| == g && IsTable(trig, m) && forall i | 0 <= i < g :: Cong(trig[i].0, PowI(PowI(w, f), i), m)
  }

  // A stage halves the number of coefficients in each column and doubles the columns.
  lemma {:induction false} StageTransforms(x: seq<int>, s: seq<Limb>, f: nat, g: nat, w: int, m: Limb,
                                           trig: seq<(Limb, Limb)>)
    requires Transformed(x, s, f, 2 * g, w, m) && Small(s, m) && 0 < f && m < MOD_MAX && TableFor(trig, g, m, w, f)
    requires f * g >= 0 && Cong(PowI(w, f * g), -1, m)
    ensures Transformed(x, Stage(s, f, g, m, trig, g), 2 * f, g, w, m)
  {
    hide Cong, Eval, Column, PowI, Stage, Transformed, TableFor, Follows;
    TransformedSize(x, s, f, 2 * g, w, m, trig, g);
    var t := Stage(s, f, g, m, trig, g);
    forall j: nat, q: nat | j < 2 * f && q < g ensures Follows(x, t, 2 * f, g, w, m, j, q) {
      if j < f {
        EvenPower(x, s, f, g, w, m, trig, j, q);
      } else {
        OddPower(x, s, f, g, w, m, trig, j - f, q);
      }
    }
    AllFollow(x, t, 2 * f, g, w, m);
  }

  lemma {:induction false} TransformedSize(x: seq<int>, s: seq<Limb>, f: nat, h: nat, w: int, m: int,
                                           trig: seq<(Limb, Limb)>, g: nat)
    requires Transformed(x, s, f, h, w, m)
    ensures |s| == h * f
    ensures forall m': Limb, w': int, f': nat :: TableFor(trig, g, m', w', f') ==> |trig| == g && IsTable(trig, m')
  {
  }

  lemma {:induction false} AllFollow(x: seq<int>, s: seq<Limb>, f: nat, h: nat, w: int, m: int)
    requires |s| == h * f && forall j: nat, q: nat | j < f && q < h :: Follows(x, s, f, h, w, m, j, q)
    ensures Transformed(x, s, f, h, w, m)
  {
    hide Follows;
  }

  // the point raised to half the number of coefficients is 1 or -1
  lemma {:induction false} HalfPower(w: int, f: nat, g: nat, r: nat, m: int)
    requires f * g >= 0 && Cong(PowI(w, f * g), -1, m)
    ensures f * r >= 0 && Cong(PowI(PowI(w, f * r), g), if r % 2 == 0 then 1 else -1, m)
  {
    hide Cong, PowI;
    MulNat(f, r);
    PowMulI(w, f * r, g);
    assert (f * r) * g == (f * g) * r;
    PowMulI(w, f * g, r);
    PowMinusOne(PowI(w, f * g), r, m);
  }

  lemma {:induction false} EvenPower(x: seq<int>, s: seq<Limb>, f: nat, g: nat, w: int, m: Limb,
                                     trig: seq<(Limb, Limb)>, j: nat, q: nat)
    requires Transformed(x, s, f, 2 * g, w, m) && Small(s, m) && m < MOD_MAX && TableFor(trig, g, m, w, f) && j < f
             && q < g
    requires |s| == (2 * g) * f && |trig| == g && f * g >= 0 && Cong(PowI(w, f * g), -1, m)
    ensures Follows(x, Stage(s, f, g, m, trig, g), 2 * f, g, w, m, j, q)
  {
    hide Cong, Eval, Column, PowI, Stage, Transformed;
    FollowsAt(x, s, f, 2 * g, w, m, j, 2 * q);
    HalfPower(w, f, g, 2 * q, m);
    assert f * (2 * q) == (2 * f) * q;
    var z, col, t := PowI(w, f * (2 * q)), Column(s, f, 2 * g, j), Stage(s, f, g, m, trig, g);
    EvalHalves(col, g, z, m);
    SumColumn(s, f, g, m, trig, j);
    var sums := Plus(col[..g], col[g..]);
    EvalCong(sums, Column(t, 2 * f, g, j), z, m);
    CongTrans(Eval(x, PowI(w, j + f * (2 * q))), Eval(col, z), Eval(sums, z), m);
    CongTrans(Eval(x, PowI(w, j + f * (2 * q))), Eval(sums, z), Eval(Column(t, 2 * f, g, j), z), m);
  }

  lemma {:induction false} SumColumn(s: seq<Limb>, f: nat, g: nat, m: Limb, trig: seq<(Limb, Limb)>, j: nat)
    requires |s| == (2 * g) * f && |trig| == g && Small(s, m) && m < MOD_MAX && IsTable(trig, m) && j < f
    ensures var col := Column(s, f, 2 * g, j);
            CongAll(Plus(col[..g], col[g..]), Column(Stage(s, f, g, m, trig, g), 2 * f, g, j), m)
  {
    hide Cong, Stage, Cell, Column;
    var t := Stage(s, f, g, m, trig, g);
    ColumnCells(s, f, 2 * g, j);
    ColumnCells(t, 2 * f, g, j);
    forall i: nat | i < g
      ensures Cong(Cell(s, f, 2 * g, i, j) + Cell(s, f, 2 * g, i + g, j), Cell(t, 2 * f, g, i, j), m)
    {
      StageExact(s, f, g, m, trig, i, j);
      CongSymm(Cell(t, 2 * f, g, i, j), Cell(s, f, 2 * g, i, j) + Cell(s, f, 2 * g, i + g, j), m);
    }
  }

  lemma {:induction false} OddPower(x: seq<int>, s: seq<Limb>, f: nat, g: nat, w: int, m: Limb, trig: seq<(Limb, Limb)>,
                                    j: nat, q: nat)
    requires Transformed(x, s, f, 2 * g, w, m) && Small(s, m) && m < MOD_MAX && TableFor(trig, g, m, w, f) && j < f
             && q < g
    requires |s| == (2 * g) * f && |trig| == g && f * g >= 0 && Cong(PowI(w, f * g), -1, m)
    ensures Follows(x, Stage(s, f, g, m, trig, g), 2 * f, g, w, m, j + f, q)
  {
    hide Cong, Eval, Column, PowI, Stage, Transformed;
    var r := 2 * q + 1;
    FollowsAt(x, s, f, 2 * g, w, m, j, r);
    HalfPower(w, f, g, r, m);
    MulNat(2 * f, q);
    assert f * r == (2 * f) * q + f;
    PowAddI(w, f, (2 * f) * q);
    var u, v := PowI(w, f), PowI(w, (2 * f) * q);
    var z, col, t := PowI(w, f * r), Column(s, f, 2 * g, j), Stage(s, f, g, m, trig, g);
    var diffs := Minus(col[..g], col[g..]);
    EvalHalves(col, g, z, m);
    EvalTwist(diffs, u, v);
    ProductColumn(s, f, g, m, trig, j, w);
    EvalCong(Twist(diffs, u), Column(t, 2 * f, g, j + f), v, m);
    CongTrans(Eval(x, PowI(w, j + f * r)), Eval(col, z), Eval(diffs, z), m);
    CongTrans(Eval(x, PowI(w, j + f * r)), Eval(diffs, z), Eval(Column(t, 2 * f, g, j + f), v), m);
  }

  lemma {:induction false} ProductColumn(s: seq<Limb>, f: nat, g: nat, m: Limb, trig: seq<(Limb, Limb)>, j: nat, w: int)
    requires |s| == (2 * g) * f && |trig| == g && Small(s, m) && m < MOD_MAX && TableFor(trig, g, m, w, f) && j < f
    ensures var col := Column(s, f, 2 * g, j);
            CongAll(Twist(Minus(col[..g], col[g..]), PowI(w, f)), Column(Stage(s, f, g, m, trig, g), 2 * f, g, j + f),
                    m)
  {
    hide Cong, Stage, Cell, PowI, Column;
    var t, u := Stage(s, f, g, m, trig, g), PowI(w, f);
    ColumnCells(s, f, 2 * g, j);
    ColumnCells(t, 2 * f, g, j + f);
    forall i: nat | i < g
      ensures Cong((Cell(s, f, 2 * g, i, j) - Cell(s, f, 2 * g, i + g, j)) * PowI(u, i), Cell(t, 2 * f, g, i, j + f), m)
    {
      var d := Cell(s, f, 2 * g, i, j) - Cell(s, f, 2 * g, i + g, j);
      StageExact(s, f, g, m, trig, i, j);
      CongSame(d, m);
      CongMul(d, d, trig[i].0, PowI(u, i), m);
      CongTrans(Cell(t, 2 * f, g, i, j + f), d * trig[i].0, d * PowI(u, i), m);
      CongSymm(Cell(t, 2 * f, g, i, j + f), d * PowI(u, i), m);
    }
  }

  // the last step, which needs no multiplications
  function LastStage(s: seq<Limb>, f: nat, m: Limb): (r: seq<Limb>)
    requires |s| == 2 * f && m < MOD_MAX
    ensures |r| == 2 * f
  {
    seq(2 * f, k requires 0 <= k < 2 * f => if k < f then AddMod(s[k], s[k + f], 2 * m)
      else SubMod(s[k - f], s[k], 2 * m))
  }

  // the discrete Fourier transform of x, up to a multiple of m below 2m
  ghost predicate IsTransform(x: seq<int>, t: seq<Limb>, w: int, m: Limb) {
    |t| == |x| && Small(t, m) && forall e: nat | e < |x| :: Cong(t[e], Eval(x, PowI(w, e)), m)
  }

  lemma {:induction false} LastTransforms(x: seq<int>, s: seq<Limb>, f: nat, w: int, m: Limb)
    requires Transformed(x, s, f, 2, w, m) && Small(s, m) && m < MOD_MAX && |x| == 2 * f && Cong(PowI(w, f), -1, m)
    ensures |s| == 2 * f && IsTransform(x, LastStage(s, f, m), w, m)
  {
    hide Cong, PowI, Eval, Transformed, Column, AddMod, SubMod;
    TransformedSize(x, s, f, 2, w, m, [], 0);
    var t := LastStage(s, f, m);
    forall e: nat | e < 2 * f ensures t[e] < 2 * m && Cong(t[e], Eval(x, PowI(w, e)), m) {
      LastOne(x, s, f, w, m, if e < f then e else e - f, if e < f then 0 else 1);
    }
  }

  lemma {:induction false} LastOne(x: seq<int>, s: seq<Limb>, f: nat, w: int, m: Limb, j: nat, q: nat)
    requires Transformed(x, s, f, 2, w, m) && Small(s, m) && m < MOD_MAX && |s| == 2 * f && Cong(PowI(w, f), -1, m)
    requires j < f && q < 2
    ensures var r := if q == 0 then AddMod(s[j], s[j + f], 2 * m) else SubMod(s[j], s[j + f], 2 * m);
            r < 2 * m && Cong(r, Eval(x, PowI(w, j + f * q)), m)
  {
    hide Cong, PowI, Transformed, AddMod, SubMod;
    FollowsAt(x, s, f, 2, w, m, j, q);
    AddSubExact(s[j], s[j + f], 2 * m);
    var a, b, col, z := s[j], s[j + f], Column(s, f, 2, j), PowI(w, f * q);
    TwoCoefficients(s, f, j, z);
    var r := if q == 0 then AddMod(a, b, 2 * m) else SubMod(a, b, 2 * m);
    var exact := if q == 0 then a + b else a - b;
    CongBy(r, exact, m, if r == exact then 0 else if q == 0 then -2 else 2);
    var v := if q == 0 then 1 else -1;
    if q == 0 {
      PowNextI(w, 0);
      CongSame(1, m);
    }
    CongSame(b, m);
    CongMul(b, b, z, v, m);
    CongSame(a, m);
    CongAdd(a, a, b * z, b * v, m);
    CongSymm(Eval(col, z), exact, m);
    CongSymm(Eval(x, PowI(w, j + f * q)), Eval(col, z), m);
    CongTrans(r, exact, Eval(col, z), m);
    CongTrans(r, Eval(col, z), Eval(x, PowI(w, j + f * q)), m);
  }

  lemma {:induction false} TwoCoefficients(s: seq<Limb>, f: nat, j: nat, z: int)
    requires |s| == 2 * f && j < f
    ensures Eval(Column(s, f, 2, j), z) == s[j] + s[j + f] * z
  {
    var c := Column(s, f, 2, j);
    assert c[..1] == [s[j] as int] && c[1] == s[j + f] && c[..1][..0] == [];
    assert PowI(z, 1) == PowI(z, 0) * z == z;
    assert Eval(c[..1], z) == s[j];
  }
}
