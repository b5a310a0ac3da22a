/** The driver of the number-theoretic transform of libbf.c: the powers of the primitive root, the
    cached tables of multipliers, and ntt_fft, which moves between two buffers. */
module NttFft {
  import opened Limbs
  import opened NttModular
  import opened NttPolynomial
  import opened Powers
  import opened NttTransform

  const NTT_TRIG_K_MAX: nat := 19

  predicate IsFactor(p: (Limb, Limb), m: Limb) {
    p.0 < m && p.1 == InitMulModFast2(p.0, m)
  }

  // entry l is the root of order 2^l: the last one, squared down
  ghost predicate IsRoots(roots: seq<(Limb, Limb)>, m: Limb) {
    && |roots| >= 2 && MOD_MIN < m < MOD_MAX
    && (forall l | 1 <= l < |roots| :: IsFactor(roots[l], m) && RootLevel(roots, m, l))
    && Cong(PowI(roots[|roots| - 1].0, Two(|roots| - 2)), -1, m)
  }

  ghost predicate RootLevel(roots: seq<(Limb, Limb)>, m: Limb, l: nat)
    requires l < |roots|
  {
    Cong(roots[l].0, PowI(roots[|roots| - 1].0, Two(|roots| - 1 - l)), m)
  }

  // the root of level k, squared t times
  lemma {:induction false} RootPower(roots: seq<(Limb, Limb)>, m: Limb, k: nat, t: nat)
    requires IsRoots(roots, m) && t < k < |roots|
    ensures Cong(PowI(roots[k].0, Two(t)), roots[k - t].0, m)
  {
    hide Cong, PowI, IsFactor;
    var top := |roots| - 1;
    var w: int := roots[top].0;
    assert RootLevel(roots, m, k) && RootLevel(roots, m, k - t);
    CongPow(roots[k].0, PowI(w, Two(top - k)), Two(t), m);
    PowMulI(w, Two(top - k), Two(t));
    TwoAdd(top - k, t);
    CongSymm(roots[k - t].0, PowI(w, Two(top - k + t)), m);
    CongTrans(PowI(roots[k].0, Two(t)), PowI(w, Two(top - k + t)), roots[k - t].0, m);
  }

  // the root of level k has order 2^k
  lemma {:induction false} HalfTurn(roots: seq<(Limb, Limb)>, m: Limb, k: nat)
    requires IsRoots(roots, m) && 1 <= k < |roots|
    ensures Cong(PowI(roots[k].0, Two(k - 1)), -1, m)
  {
    hide Cong, PowI, IsFactor;
    var top := |roots| - 1;
    var w: int := roots[top].0;
    assert RootLevel(roots, m, k);
    CongPow(roots[k].0, PowI(w, Two(top - k)), Two(k - 1), m);
    PowMulI(w, Two(top - k), Two(k - 1));
    TwoAdd(top - k, k - 1);
    CongTrans(PowI(roots[k].0, Two(k - 1)), PowI(w, Two(top - 1)), -1, m);
  }

  // a table of the powers of one level's root is the one a stage of a longer transform needs
  lemma {:induction false} SharedTable(trig: seq<(Limb, Limb)>, g: nat, m: Limb, r: int, w: int, f: nat)
    requires TableFor(trig, g, m, r, 1) && Cong(PowI(w, f), r, m)
    ensures TableFor(trig, g, m, w, f)
  {
    hide Cong, PowI;
    PowNextI(r, 0);
    CongSymm(PowI(w, f), r, m);
    forall i | 0 <= i < g ensures Cong(trig[i].0, PowI(PowI(w, f), i), m) {
      CongPow(r, PowI(w, f), i, m);
      assert PowI(r, 1) == r;
      CongTrans(trig[i].0, PowI(r, i), PowI(PowI(w, f), i), m);
    }
  }

  // The tables of one modulus in one direction.
  class TrigCache {
    const m: Limb
    const roots: seq<(Limb, Limb)>
    var trig: map<nat, seq<(Limb, Limb)>>

    ghost predicate Valid()
      reads this
    {
      IsRoots(roots, m) && forall k | k in trig :: 1 <= k < |roots| && TableFor(trig[k], Two(k - 1), m, roots[k].0, 1)
    }

    // ntt_static_init: the primitive root of the highest level, squared down to level 1
    constructor (m: Limb, proot: Limb, top: nat)
      requires MOD_MIN < m < MOD_MAX && proot < m && top >= 1 && Cong(PowI(proot, Two(top - 1)), -1, m)
      ensures Valid() && this.m == m && |roots| == top + 1 && roots[top].0 == proot && trig == map[]
    {
      hide InitMulModFast, InitMulModFast2, ModFast, Cong, PowI;
      var mInv := InitMulModFast(m);
      var table: seq<(Limb, Limb)> := [];
      var c: Limb := proot;
      var i := 0;
      PowNextI(proot, 0);
      CongSame(proot, m);
      while i < top
        invariant 0 <= i <= top && |table| == i && c < m && Cong(c, PowI(proot, Two(i)), m)
        invariant i == 0 ==> c == proot
        invariant i > 0 ==> table[i - 1].0 == proot
        invariant forall j | 0 <= j < i :: IsFactor(table[j], m) && Cong(table[j].0, PowI(proot, Two(i - 1 - j)), m)
      {
        table := [(c, InitMulModFast2(c, m))] + table;
        Squared(c, m, proot, i);
        c := ModFast((c as int) * c, m, mInv);
        i := i + 1;
      }
      this.m := m;
      this.roots := [(0, 0)] + table;
      this.trig := map[];
    }

    // get_trig: builds the table of level k unless it is cached; there is none for a high level
    method GetTrig(k: nat) returns (ok: bool, tab: seq<(Limb, Limb)>)
      requires Valid() && 1 <= k < |roots|
      modifies this`trig
      ensures Valid() && ok == (k <= 19)
      ensures ok ==> TableFor(tab, Two(k - 1), m, roots[k].0, 1)
    {
      hide InitMulModFast2, MulModFast2, Cong, PowI, IsRoots, TableFor;
      if k > NTT_TRIG_K_MAX {
        return false, [];
      }
      if k in trig {
        return true, trig[k];
      }
      RootAt(roots, m, k);
      var root, rootInv := roots[k].0, roots[k].1;
      var n2 := Two(k - 1);
      ok, tab := true, [];
      var c: Limb := 1;
      var i := 0;
      PowNextI(root, 0);
      CongSame(1, m);
      while i < n2
        invariant 0 <= i <= n2 && |tab| == i && trig == old(trig) && c < m && Cong(c, PowI(root, i), m)
        invariant forall j | 0 <= j < i :: IsFactor(tab[j], m) && Cong(tab[j].0, PowI(root, j), m)
      {
        tab := tab + [(c, InitMulModFast2(c, m))];
        NextPower(c, root, m, i);
        c := MulModFast2(c, root, m, rootInv);
        i := i + 1;
      }
      TableDone(tab, n2, m, root);
      trig := trig[k := tab];
    }
  }

  lemma {:induction false} TableDone(tab: seq<(Limb, Limb)>, n: nat, m: Limb, root: Limb)
    requires |tab| == n && forall j | 0 <= j < n :: IsFactor(tab[j], m) && Cong(tab[j].0, PowI(root, j), m)
    ensures TableFor(tab, n, m, root, 1)
  {
    hide Cong, InitMulModFast2;
    PowNextI(root, 0);
    assert PowI(root, 1) == root;
    hide PowI;
  }

  lemma {:induction false} RootAt(roots: seq<(Limb, Limb)>, m: Limb, k: nat)
    requires IsRoots(roots, m) && 1 <= k < |roots|
    ensures MOD_MIN < m < MOD_MAX && IsFactor(roots[k], m)
  {
  }

  lemma {:induction false} Squared(c: Limb, m: Limb, w: int, i: nat)
    requires MOD_MIN < m < MOD_MAX && c < m && Cong(c, PowI(w, Two(i)), m)
    ensures 0 <= (c as int) * c < B * MOD_MIN
    ensures var d := ModFast((c as int) * c, m, InitMulModFast(m)); d < m && Cong(d, PowI(w, Two(i + 1)), m)
  {
    hide InitMulModFast, ModFast, Cong, PowI;
    var p := PowI(w, Two(i));
    MulMono(c, MOD_MAX, c);
    MulNat(c, c);
    ModFastExact((c as int) * c, m);
    ResidueCong((c as int) * c, m);
    CongMul(c, p, c, p, m);
    PowAddI(w, Two(i), Two(i));
    CongTrans(((c as int) * c) % m, (c as int) * c, p * p, m);
  }

  lemma {:induction false} ResidueCong(a: nat, m: nat)
    requires m > 0
    ensures 0 <= a % m < m && Cong(a % m, a, m)
  {
    DivMod(a, m);
    assert (-(a / m)) * m == -(m * (a / m));
    CongBy(a % m, a, m, -(a / m));
  }

  lemma {:induction false} NextPower(c: Limb, root: Limb, m: Limb, i: nat)
    requires MOD_MIN < m < MOD_MAX && c < m && root < m && Cong(c, PowI(root, i), m)
    ensures var d := MulModFast2(c, root, m, InitMulModFast2(root, m)); d < m && Cong(d, PowI(root, i + 1), m)
  {
    hide InitMulModFast2, MulModFast2, Cong, PowI;
    MulModExact(c, root, m);
    MulNat(c, root);
    ResidueCong(c * root, m);
    CongSame(root, m);
    CongMul(c, PowI(root, i), root, root, m);
    PowNextI(root, i);
    CongTrans((c * root) % m, c * root, PowI(root, i + 1), m);
  }

  // where the two inner loops of a stage stand
  ghost predicate RowsDone(s: seq<Limb>, out: seq<Limb>, f: nat, g: nat, m: Limb, trig: seq<(Limb, Limb)>, i: nat,
                           j: nat) {
    && |s| == (2 * g) * f && |out| == |s| && |trig| == g && m < MOD_MAX && i < g && j <= f
    && i * (2 * f) >= 0 && i * (2 * f) + 2 * f <= |s|
    && out[..i * (2 * f)] == Stage(s, f, g, m, trig, i)
    && out[i * (2 * f)..i * (2 * f) + j] == SumRow(s, f, g, m, i, j)
    && out[i * (2 * f) + f..i * (2 * f) + f + j] == ProductRow(s, f, g, m, trig, i, j)
  }

  ghost predicate BlocksDone(s: seq<Limb>, out: seq<Limb>, f: nat, g: nat, m: Limb, trig: seq<(Limb, Limb)>, i: nat) {
    && |s| == (2 * g) * f && |out| == |s| && |trig| == g && m < MOD_MAX && i <= g
    && 0 <= i * (2 * f) <= |s|
    && out[..i * (2 * f)] == Stage(s, f, g, m, trig, i)
  }

  lemma {:induction false} BlockStart(s: seq<Limb>, out: seq<Limb>, f: nat, g: nat, m: Limb, trig: seq<(Limb, Limb)>,
                                      i: nat)
    requires BlocksDone(s, out, f, g, m, trig, i) && i < g
    ensures RowsDone(s, out, f, g, m, trig, i, 0)
  {
    hide Stage, Sum, Product, Cell;
    MulMono(i + 1, g, 2 * f);
    MulAdd(i, 1, 2 * f);
    assert (2 * g) * f == g * (2 * f);
    assert SumRow(s, f, g, m, i, 0) == [] && ProductRow(s, f, g, m, trig, i, 0) == [];
  }

  lemma {:induction false} BlockNext(s: seq<Limb>, was: seq<Limb>, out: seq<Limb>, f: nat, g: nat, m: Limb,
                                     trig: seq<(Limb, Limb)>, i: nat, j: nat)
    requires RowsDone(s, was, f, g, m, trig, i, j) && j < f && |out| == |was|
    requires var p := i * (2 * f); var a, b := Cell(s, f, 2 * g, i, j), Cell(s, f, 2 * g, i + g, j);
             out == was[p + j := Sum(a, b, m)][p + j + f := Product(a, b, m, trig[i].0, trig[i].1)]
    ensures RowsDone(s, out, f, g, m, trig, i, j + 1)
  {
    hide Stage, Sum, Product, Cell;
    var p := i * (2 * f);
    var a, b := Cell(s, f, 2 * g, i, j), Cell(s, f, 2 * g, i + g, j);
    assert SumRow(s, f, g, m, i, j + 1) == SumRow(s, f, g, m, i, j) + [Sum(a, b, m)];
    var v := Product(a, b, m, trig[i].0, trig[i].1);
    assert ProductRow(s, f, g, m, trig, i, j + 1) == ProductRow(s, f, g, m, trig, i, j) + [v];
    assert out[..p] == was[..p];
    hide SumRow, ProductRow;
    assert out[p..p + j + 1] == was[p..p + j] + [Sum(a, b, m)];
    assert out[p + f..p + f + j + 1] == was[p + f..p + f + j] + [v];
  }

  lemma {:induction false} BlockEnd(s: seq<Limb>, out: seq<Limb>, f: nat, g: nat, m: Limb, trig: seq<(Limb, Limb)>,
                                    i: nat)
    requires RowsDone(s, out, f, g, m, trig, i, f)
    ensures BlocksDone(s, out, f, g, m, trig, i + 1)
  {
    hide SumRow, ProductRow;
    var p := i * (2 * f);
    MulAdd(i, 1, 2 * f);
    assert out[..p + 2 * f] == out[..p] + (out[p..p + f] + out[p + f..p + f + f]);
    assert Stage(s, f, g, m, trig, i + 1) == Stage(s, f, g, m, trig, i) + Block(s, f, g, m, trig, i);
  }

  // one pass of the main loop of ntt_fft: g blocks of f butterflies
  method NttStage(tabIn: array<Limb>, oIn: nat, tabOut: array<Limb>, oOut: nat, n: nat, f: nat, g: nat,
                  trig: seq<(Limb, Limb)>, m: Limb)
    requires tabIn != tabOut && n == (2 * g) * f && oIn + n <= tabIn.Length && oOut + n <= tabOut.Length
    requires |trig| == g && m < MOD_MAX
    modifies tabOut
    ensures Part(tabOut[..], oOut, n) == Stage(Part(tabIn[..], oIn, n), f, g, m, trig, g)
    ensures Outside(tabOut[..], old(tabOut[..]), oOut, n)
  {
    hide Stage, BlocksDone, RowsDone, AddMod, MulModFast3, Outside;
    ghost var s := Part(tabIn[..], oIn, n);
    ghost var was := tabOut[..];
    var strideIn := g * f;
    var p, k, i := 0, 0, 0;
    assert (2 * g) * f == 2 * (g * f);
    OutsideSame(was, oOut, n);
    BlocksStart(s, Part(was, oOut, n), f, g, m, trig);
    while i < g
      invariant 0 <= i <= g && p == i * (2 * f) && k == i * f
      invariant BlocksDone(s, Part(tabOut[..], oOut, n), f, g, m, trig, i) && Outside(tabOut[..], was, oOut, n)
    {
      var (c, cInv) := trig[i];
      BlockStart(s, Part(tabOut[..], oOut, n), f, g, m, trig, i);
      var j := 0;
      while j < f
        invariant 0 <= j <= f
        invariant RowsDone(s, Part(tabOut[..], oOut, n), f, g, m, trig, i, j) && Outside(tabOut[..], was, oOut, n)
      {
        ghost var out := tabOut[..];
        PlaceFits(s, Part(out, oOut, n), f, g, m, trig, i, j);
        var a0, a1 := tabIn[oIn + (k + j)], tabIn[oIn + (k + j + strideIn)];
        var b0, b1 := AddMod(a0, a1, 2 * m), MulModFast3(Wrap(Wrap((a0 as int) - a1) + 2 * m), c, m, cInv);
        tabOut[oOut + (p + j)] := b0;
        tabOut[oOut + (p + j + f)] := b1;
        PartUpdate(out, was, oOut, n, p + j, b0);
        PartUpdate(out[oOut + (p + j) := b0], was, oOut, n, p + j + f, b1);
        BlockNext(s, Part(out, oOut, n), Part(tabOut[..], oOut, n), f, g, m, trig, i, j);
        j := j + 1;
      }
      BlockEnd(s, Part(tabOut[..], oOut, n), f, g, m, trig, i);
      MulAdd(i, 1, f);
      MulAdd(i, 1, 2 * f);
      k := k + f;
      p := p + 2 * f;
      i := i + 1;
    }
    BlocksEnd(s, Part(tabOut[..], oOut, n), f, g, m, trig);
  }

  lemma {:induction false} BlocksStart(s: seq<Limb>, out: seq<Limb>, f: nat, g: nat, m: Limb, trig: seq<(Limb, Limb)>)
    requires |s| == (2 * g) * f && |out| == |s| && |trig| == g && m < MOD_MAX
    ensures BlocksDone(s, out, f, g, m, trig, 0)
  {
  }

  lemma {:induction false} BlocksEnd(s: seq<Limb>, out: seq<Limb>, f: nat, g: nat, m: Limb, trig: seq<(Limb, Limb)>)
    requires BlocksDone(s, out, f, g, m, trig, g)
    ensures |s| == (2 * g) * f && |trig| == g && m < MOD_MAX && out == Stage(s, f, g, m, trig, g)
  {
    assert (2 * g) * f == g * (2 * f);
    assert out[..g * (2 * f)] == out;
  }

  // the places a butterfly reads and writes
  lemma {:induction false} PlaceFits(s: seq<Limb>, out: seq<Limb>, f: nat, g: nat, m: Limb, trig: seq<(Limb, Limb)>,
                                     i: nat, j: nat)
    requires RowsDone(s, out, f, g, m, trig, i, j) && j < f
    ensures |s| == (2 * g) * f && |out| == |s| && m < MOD_MAX && i < g && |trig| == g
    ensures 0 <= i * f && 0 <= g * f && i * f + j + g * f < |s| && 0 <= i * (2 * f) && i * (2 * f) + j + f < |s|
    ensures Cell(s, f, 2 * g, i, j) == s[i * f + j] && Cell(s, f, 2 * g, i + g, j) == s[i * f + j + g * f]
  {
    hide Stage, SumRow, ProductRow;
    CellFits(i, j, f, 2 * g);
    CellFits(i + g, j, f, 2 * g);
    MulAdd(i, g, f);
    MulNat(i, f);
    MulNat(g, f);
  }

  // what the main loop keeps, with l levels to go
  ghost predicate Halfway(x: seq<int>, s: seq<Limb>, k: nat, l: nat, w: int, m: Limb) {
    1 <= l <= k && |s| == Two(k) && Small(s, m) && Transformed(x, s, Two(k - l), Two(l), w, m)
  }

  lemma {:induction false} HalfwayStart(s: seq<Limb>, k: nat, w: int, m: Limb)
    requires 1 <= k && |s| == Two(k) && Small(s, m)
    ensures Halfway(s, s, k, k, w, m)
  {
    TransformStart(s, w, m);
  }

  lemma {:induction false} HalfwaySizes(x: seq<int>, s: seq<Limb>, k: nat, l: nat, w: int, m: Limb)
    requires Halfway(x, s, k, l, w, m)
    ensures |s| == Two(k) == Two(l) * Two(k - l) && Small(s, m)
    ensures l > 1 ==> Two(k) == (2 * Two(l - 1)) * Two(k - l)
  {
    TwoAdd(l, k - l);
  }

  lemma {:induction false} HalfwayNext(x: seq<int>, s: seq<Limb>, k: nat, l: nat, roots: seq<(Limb, Limb)>, m: Limb,
                                       trig: seq<(Limb, Limb)>)
    requires IsRoots(roots, m) && k < |roots| && Halfway(x, s, k, l, roots[k].0, m) && l > 1
    requires TableFor(trig, Two(l - 1), m, roots[l].0, 1)
    ensures |s| == (2 * Two(l - 1)) * Two(k - l) && |trig| == Two(l - 1) && m < MOD_MAX
    ensures Halfway(x, Stage(s, Two(k - l), Two(l - 1), m, trig, Two(l - 1)), k, l - 1, roots[k].0, m)
  {
    hide IsRoots, Cong, PowI, Stage, Small, Transformed, IsTable;
    var w: int := roots[k].0;
    RootAt(roots, m, k);
    RootPower(roots, m, k, k - l);
    SharedTable(trig, Two(l - 1), m, roots[l].0, w, Two(k - l));
    HalfTurn(roots, m, k);
    TwoAdd(k - l, l - 1);
    TwoAdd(l, k - l);
    StageTransforms(x, s, Two(k - l), Two(l - 1), w, m, trig);
    StageSmall(s, Two(k - l), Two(l - 1), m, trig);
    assert (2 * Two(l - 1)) * Two(k - l) == Two(l - 1) * (2 * Two(k - l));
  }

  lemma {:induction false} HalfwayEnd(x: seq<int>, s: seq<Limb>, k: nat, roots: seq<(Limb, Limb)>, m: Limb,
                                      out: seq<Limb>)
    requires IsRoots(roots, m) && k < |roots| && Halfway(x, s, k, 1, roots[k].0, m) && |x| == Two(k)
    requires m < MOD_MAX && |s| == 2 * Two(k - 1) && out == LastStage(s, Two(k - 1), m)
    ensures IsTransform(x, out, roots[k].0, m)
  {
    hide IsRoots, Cong, PowI, LastStage, IsTransform, Transformed, Small;
    HalfTurn(roots, m, k);
    assert Two(1) == 2;
    LastTransforms(x, s, Two(k - 1), roots[k].0, m);
  }

  // ntt_fft: the transform of in_buf, which is scratch, into out_buf; the two may be one buffer.
  // Both are given by a place in an array, of which the rest stays.
  method NttFft(cache: TrigCache, outBuf: array<Limb>, oOut: nat, inBuf: array<Limb>, oIn: nat, tmpBuf: array<Limb>,
                fftLenLog2: nat) returns (ok: bool)
    requires cache.Valid() && 1 <= fftLenLog2 < |cache.roots|
    requires oOut + Two(fftLenLog2) <= outBuf.Length && oIn + Two(fftLenLog2) <= inBuf.Length
    requires tmpBuf.Length == Two(fftLenLog2) && tmpBuf != inBuf && tmpBuf != outBuf
             && (outBuf == inBuf ==> oOut == oIn)
    requires Small(Part(inBuf[..], oIn, Two(fftLenLog2)), cache.m)
    modifies cache`trig, outBuf, inBuf, tmpBuf
    ensures cache.Valid() && ok == (fftLenLog2 <= 19)
    ensures ok ==> IsTransform(old(Part(inBuf[..], oIn, Two(fftLenLog2))), Part(outBuf[..], oOut, Two(fftLenLog2)),
                               cache.roots[fftLenLog2].0, cache.m)
    ensures Outside(outBuf[..], old(outBuf[..]), oOut, Two(fftLenLog2))
    ensures Outside(inBuf[..], old(inBuf[..]), oIn, Two(fftLenLog2))
  {
    hide IsRoots, Stage, TableFor, Halfway, IsTransform, Small, Outside;
    var m := cache.m;
    var k := fftLenLog2;
    var n := Two(k);
    ghost var x, w := Part(inBuf[..], oIn, n), cache.roots[k].0;
    ghost var wasIn, wasOut := inBuf[..], outBuf[..];
    RootAt(cache.roots, m, k);
    OutsideSame(wasIn, oIn, n);
    OutsideSame(wasOut, oOut, n);
    var nbBlocks, fftPerBlock, strideIn := n, 1, Two(k - 1);
    var tabIn, tabOut, pIn, pOut := inBuf, tmpBuf, oIn, 0;
    var l := k;
    HalfwayStart(x, k, w, m);
    while nbBlocks != 2
      invariant cache.Valid()
      invariant 1 <= l <= k && nbBlocks == Two(l) && fftPerBlock == Two(k - l)
      invariant (tabIn == inBuf && pIn == oIn && tabOut == tmpBuf && pOut == 0)
                || (tabIn == tmpBuf && pIn == 0 && tabOut == inBuf && pOut == oIn)
      invariant Halfway(x, Part(tabIn[..], pIn, n), k, l, w, m) && (l < k ==> k <= NTT_TRIG_K_MAX)
      invariant Outside(inBuf[..], wasIn, oIn, n) && Outside(outBuf[..], wasOut, oOut, n)
      decreases l
    {
      nbBlocks := nbBlocks / 2;
      var found, trig := cache.GetTrig(l);
      if !found {
        return false;
      }
      ghost var was := inBuf[..];
      HalfwaySizes(x, Part(tabIn[..], pIn, n), k, l, w, m);
      HalfwayNext(x, Part(tabIn[..], pIn, n), k, l, cache.roots, m, trig);
      NttStage(tabIn, pIn, tabOut, pOut, n, fftPerBlock, nbBlocks, trig, m);
      if tabOut == inBuf {
        OutsideTrans(inBuf[..], was, wasIn, oIn, n);
      }
      fftPerBlock := 2 * fftPerBlock;
      l := l - 1;
      tabIn, tabOut, pIn, pOut := tabOut, tabIn, pOut, pIn;
    }
    ghost var s := Part(tabIn[..], pIn, n);
    OneLevel(l);
    HalfwaySizes(x, s, k, l, w, m);
    ghost var was := outBuf[..];
    LastPass(outBuf, oOut, tabIn, pIn, strideIn, m);
    OutsideTrans(outBuf[..], was, wasOut, oOut, n);
    ok := true;
    HalfwayEnd(x, s, k, cache.roots, m, Part(outBuf[..], oOut, n));
  }

  lemma {:induction false} OneLevel(l: nat)
    requires l >= 1
    ensures Two(l) == 2 <==> l == 1
  {
    if l > 1 {
      assert Two(l - 1) == 2 * Two(l - 2);
    }
  }

  // k butterflies of the closing loop are done, and the input of the others is still there
  ghost predicate PassDone(s: seq<Limb>, tab: seq<Limb>, out: seq<Limb>, f: nat, m: Limb, k: nat) {
    && |s| == |tab| == |out| == 2 * f && m < MOD_MAX && k <= f
    && (forall i | 0 <= i < 2 * f :: (k <= i < f || f + k <= i) ==> tab[i] == s[i])
    && (forall i | 0 <= i < 2 * f :: (i < k || f <= i < f + k) ==> out[i] == LastStage(s, f, m)[i])
  }

  lemma {:induction false} PassStart(s: seq<Limb>, out: seq<Limb>, f: nat, m: Limb)
    requires |s| == |out| == 2 * f && m < MOD_MAX
    ensures PassDone(s, s, out, f, m, 0)
  {
    hide LastStage;
  }

  lemma {:induction false} PassNext(s: seq<Limb>, tab: seq<Limb>, out: seq<Limb>, f: nat, m: Limb, k: nat,
                                    tab': seq<Limb>, out': seq<Limb>)
    requires PassDone(s, tab, out, f, m, k) && k < f
    requires out' == out[k := AddMod(tab[k], tab[k + f], 2 * m)][k + f := SubMod(tab[k], tab[k + f], 2 * m)]
    requires tab' == tab || (tab == out && tab' == out')
    ensures PassDone(s, tab', out', f, m, k + 1)
  {
    hide AddMod, SubMod;
    assert LastStage(s, f, m)[k] == out'[k] && LastStage(s, f, m)[k + f] == out'[k + f];
    hide LastStage;
  }

  lemma {:induction false} PassEnd(s: seq<Limb>, tab: seq<Limb>, out: seq<Limb>, f: nat, m: Limb)
    requires PassDone(s, tab, out, f, m, f)
    ensures |s| == 2 * f && m < MOD_MAX && out == LastStage(s, f, m)
  {
    hide AddMod, SubMod;
  }

  // the closing loop of ntt_fft: a butterfly at a time, also when both buffers are one
  method LastPass(outBuf: array<Limb>, oOut: nat, tabIn: array<Limb>, oIn: nat, strideIn: nat, m: Limb)
    requires oIn + 2 * strideIn <= tabIn.Length && oOut + 2 * strideIn <= outBuf.Length && m < MOD_MAX
    requires outBuf == tabIn ==> oOut == oIn
    modifies outBuf
    ensures Part(outBuf[..], oOut, 2 * strideIn) == LastStage(old(Part(tabIn[..], oIn, 2 * strideIn)), strideIn, m)
    ensures Outside(outBuf[..], old(outBuf[..]), oOut, 2 * strideIn)
  {
    var n := 2 * strideIn;
    ghost var s, was := Part(tabIn[..], oIn, n), outBuf[..];
    var k := 0;
    hide AddMod, SubMod, PassDone, Outside, LastStage, Wrap;
    PassStart(s, Part(was, oOut, n), strideIn, m);
    OutsideSame(was, oOut, n);
    while k < strideIn
      invariant 0 <= k <= strideIn
      invariant PassDone(s, Part(tabIn[..], oIn, n), Part(outBuf[..], oOut, n), strideIn, m, k)
      invariant Outside(outBuf[..], was, oOut, n)
    {
      ghost var tab, out := tabIn[..], outBuf[..];
      var a0, a1 := tabIn[oIn + k], tabIn[oIn + (k + strideIn)];
      assert a0 == Part(tab, oIn, n)[k] && a1 == Part(tab, oIn, n)[k + strideIn];
      var b0, b1 := AddMod(a0, a1, 2 * m), SubMod(a0, a1, 2 * m);
      outBuf[oOut + k] := b0;
      outBuf[oOut + (k + strideIn)] := b1;
      PartUpdate(out, was, oOut, n, k, b0);
      PartUpdate(out[oOut + k := b0], was, oOut, n, k + strideIn, b1);
      PassNext(s, Part(tab, oIn, n), Part(out, oOut, n), strideIn, m, k, Part(tabIn[..], oIn, n),
               Part(outBuf[..], oOut, n));
      k := k + 1;
    }
    PassEnd(s, Part(tabIn[..], oIn, n), Part(outBuf[..], oOut, n), strideIn, m);
  }
}
