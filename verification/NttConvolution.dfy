/** ntt_conv of libbf.c: both buffers are transformed, multiplied place by place and transformed
    back, which leaves their cyclic convolution modulo m. A long transform is split into columns,
    and the rows are convolved one by one in the same way. */
module NttConvolution {
  import opened Limbs
  import opened NttModular
  import opened NttPolynomial
  import opened Powers
  import opened NttTransform
  import opened NttFft
  import opened NttInverse
  import opened NttSplit
  import opened NttPartial

  // entry i is the inverse of 2^i
  ghost predicate IsLengthInverses(lenInv: seq<(Limb, Limb)>, m: Limb) {
    forall i | 0 <= i < |lenInv| :: IsFactor(lenInv[i], m) && Cong(Two(i) * lenInv[i].0, 1, m)
  }

  ghost predicate Opposite(r: seq<(Limb, Limb)>, s: seq<(Limb, Limb)>, m: Limb) {
    |r| == |s| && forall l | 1 <= l < |r| :: Cong((r[l].0 as int) * s[l].0, 1, m)
  }

  // The state kept for one modulus.
  class NttState {
    const m: Limb
    const mInv: Limb
    const lenInv: seq<(Limb, Limb)>
    const forward: TrigCache
    const inverse: TrigCache

    ghost predicate Valid()
      reads this, forward, inverse
    {
      && forward != inverse && forward.Valid() && inverse.Valid() && forward.m == m && inverse.m == m
      && Opposite(forward.roots, inverse.roots, m)
      && MOD_MIN < m < MOD_MAX && mInv == InitMulModFast(m)
      && IsLengthInverses(lenInv, m) && |lenInv| == |forward.roots|
    }

    // ntt_static_init for one modulus with its primitive root and the inverse of that
    constructor (m: Limb, proot: Limb, iroot: Limb, top: nat)
      requires MOD_MIN < m < MOD_MAX && m % 2 == 1 && proot < m && iroot < m && top >= 1
      requires Cong((proot as int) * iroot, 1, m) && Cong(PowI(proot, Two(top - 1)), -1, m)
      ensures Valid() && fresh(forward) && fresh(inverse) && this.m == m && |forward.roots| == top + 1
    {
      hide InitMulModFast, InitMulModFast2, ModFast, Cong, PowI, IsRoots;
      var mInv := InitMulModFast(m);
      var cInv2: Limb := (m + 1) / 2;
      var cInv: Limb := 1;
      var table: seq<(Limb, Limb)> := [];
      var i := 0;
      CongSame(1, m);
      while i <= top
        invariant 0 <= i <= top + 1 && |table| == i && cInv < m && Cong(Two(i) * cInv, 1, m)
        invariant IsLengthInverses(table, m)
      {
        table := table + [(cInv, InitMulModFast2(cInv, m))];
        HalfLength(cInv, m, i);
        cInv := ModFast((cInv as int) * cInv2, m, mInv);
        i := i + 1;
      }
      assert InverseRoots(proot, iroot, top, m);
      InverseHalf(proot, iroot, top, m);
      var f := new TrigCache(m, proot, top);
      var b := new TrigCache(m, iroot, top);
      OppositeLevels(f.roots, b.roots, m);
      this.m := m;
      this.mInv := mInv;
      this.lenInv := table;
      this.forward := f;
      this.inverse := b;
    }

    // ntt_conv: the 2^k elements of buf1 from o1 on become their cyclic convolution with those of
    // buf2, which is scratch. As a part of a convolution of length 2^kTot it is scaled by that length
    // already.
    method NttConv(buf1: array<Limb>, o1: nat, buf2: array<Limb>, o2: nat, k: nat, kTot: nat)
      requires Valid() && 1 <= k < |forward.roots| && kTot < |forward.roots| && buf1 != buf2
      requires o1 + Two(k) <= buf1.Length && o2 + Two(k) <= buf2.Length
      requires Small(Part(buf1[..], o1, Two(k)), m) && Small(Part(buf2[..], o2, Two(k)), m)
      modifies forward`trig, inverse`trig, buf1, buf2
      ensures Valid() && Small(Part(buf1[..], o1, Two(k)), m)
      ensures CongAll(Part(buf1[..], o1, Two(k)),
                      Scale(Cyclic(old(Part(buf1[..], o1, Two(k))), old(Part(buf2[..], o2, Two(k))), Two(k)),
                            Two(k) * lenInv[kTot].0), m)
      ensures k == kTot ==>
                CongAll(Part(buf1[..], o1, Two(k)),
                        Cyclic(old(Part(buf1[..], o1, Two(k))), old(Part(buf2[..], o2, Two(k))), Two(k)), m)
      ensures Outside(buf1[..], old(buf1[..]), o1, Two(k)) && Outside(buf2[..], old(buf2[..]), o2, Two(k))
      decreases k, 1
    {
      hide InitMulModFast, InitMulModFast2, Cong, IsRoots, Small, Cyclic, Outside, PartlyDone, RowsSoFar, Scale,
        VecDone;
      var k1 := if k <= NTT_TRIG_K_MAX then k else if k / 2 < NTT_TRIG_K_MAX then k / 2 else NTT_TRIG_K_MAX;
      var k2 := k - k1;
      var n1, n2, n := Two(k1), Two(k2), Two(k);
      TwoAdd(k1, k2);
      ghost var w1, w := forward.roots[k1].0, forward.roots[k].0;
      ghost var was1, was2 := buf1[..], buf2[..];
      ghost var x, y := Part(was1, o1, n), Part(was2, o2, n);
      NttFftPartial(forward, buf1, o1, k1, k2, n1, n2, false, mInv);
      NttFftPartial(forward, buf2, o2, k1, k2, n1, n2, false, mInv);
      ghost var mid1, mid2 := buf1[..], buf2[..];
      ghost var X, Y := Part(mid1, o1, n), Part(mid2, o2, n);
      PartlySize(x, X, n1, n2, w1, w, false, m, n2);
      PartlySize(y, Y, n1, n2, w1, w, false, m, n2);
      var norm, normInv := lenInv[kTot].0, lenInv[kTot].1;
      if k2 == 0 {
        SmallParts(X, Y, m);
        NttVecMul(buf1, o1, buf2, o2, n1, norm, normInv, m, mInv);
        SingleRows(X, Y, Part(buf1[..], o1, n1), norm, m);
      } else {
        ConvRows(buf1, o1, buf2, o2, k1, k2, kTot);
        OutsideTrans(buf2[..], mid2, was2, o2, n);
      }
      OutsideTrans(buf1[..], mid1, was1, o1, n);
      ghost var last := buf1[..];
      ghost var Z := Part(last, o1, n);
      NttFftPartial(inverse, buf1, o1, k1, k2, n1, n2, true, mInv);
      OutsideTrans(buf1[..], last, was1, o1, n);
      Convolved(x, y, X, Y, Z, Part(buf1[..], o1, n), forward.roots, inverse.roots, lenInv, m, k1, k2, kTot);
    }

    // the loop of ntt_conv over the rows
    method ConvRows(buf1: array<Limb>, o1: nat, buf2: array<Limb>, o2: nat, k1: nat, k2: nat, kTot: nat)
      requires Valid() && 1 <= k1 && 1 <= k2 && k1 + k2 < |forward.roots| && kTot < |forward.roots| && buf1 != buf2
      requires o1 + Two(k1) * Two(k2) <= buf1.Length && o2 + Two(k1) * Two(k2) <= buf2.Length
      requires Small(Part(buf1[..], o1, Two(k1) * Two(k2)), m) && Small(Part(buf2[..], o2, Two(k1) * Two(k2)), m)
      modifies forward`trig, inverse`trig, buf1, buf2
      ensures Valid() && Small(Part(buf1[..], o1, Two(k1) * Two(k2)), m)
      ensures RowsConvolved(old(Part(buf1[..], o1, Two(k1) * Two(k2))), old(Part(buf2[..], o2, Two(k1) * Two(k2))),
                            Part(buf1[..], o1, Two(k1) * Two(k2)), Two(k2), Two(k1), Two(k2) * lenInv[kTot].0, m)
      ensures Outside(buf1[..], old(buf1[..]), o1, Two(k1) * Two(k2))
      ensures Outside(buf2[..], old(buf2[..]), o2, Two(k1) * Two(k2))
      decreases k1 + k2, 0
    {
      hide Cong, IsRoots, Small, Cyclic, Outside, RowsSoFar, Scale, InitMulModFast, InitMulModFast2, RowsConvolved;
      var n1, n2 := Two(k1), Two(k2);
      var n := n1 * n2;
      ghost var mid1, mid2, s := buf1[..], buf2[..], n2 * lenInv[kTot].0;
      ghost var X, Y := Part(mid1, o1, n), Part(mid2, o2, n);
      NoRowDone(X, Y, n2, n1, s, m);
      OutsideSame(mid1, o1, n);
      OutsideSame(mid2, o2, n);
      var i := 0;
      while i < n1
        invariant 0 <= i <= n1 && Valid()
        invariant RowsSoFar(X, Y, Part(buf1[..], o1, n), Part(buf2[..], o2, n), n2, n1, s, m, i)
        invariant Outside(buf1[..], mid1, o1, n) && Outside(buf2[..], mid2, o2, n)
      {
        ghost var now1, now2 := buf1[..], buf2[..];
        var p := i * n2;
        ReadyRow(X, Y, Part(now1, o1, n), Part(now2, o2, n), n2, n1, s, m, i);
        PartOfPart(now1, o1, n, p, n2);
        PartOfPart(now2, o2, n, p, n2);
        NttConv(buf1, o1 + p, buf2, o2 + p, k2, kTot);
        PartOfPart(buf1[..], o1, n, p, n2);
        OutsidePart(buf1[..], now1, mid1, o1, n, p, n2);
        OutsidePart(buf2[..], now2, mid2, o2, n, p, n2);
        OneMoreRow(X, Y, Part(now1, o1, n), Part(now2, o2, n), Part(buf1[..], o1, n), Part(buf2[..], o2, n), n2, n1, s,
                   m, i);
        i := i + 1;
      }
      AllRowsDone(X, Y, Part(buf1[..], o1, n), Part(buf2[..], o2, n), n2, n1, s, m);
    }
  }

  lemma {:induction false} SmallParts(x: seq<Limb>, y: seq<Limb>, m: Limb)
    requires Small(x, m) && Small(y, m) && |x| == |y|
    ensures forall i | 0 <= i < |x| :: x[i] < 2 * m && y[i] < 2 * m
  {
  }

  // rows of one element are multiplied
  lemma {:induction false} SingleRows(x: seq<Limb>, y: seq<Limb>, z: seq<Limb>, norm: Limb, m: Limb)
    requires VecDone(x, y, z, norm, m, |x|)
    ensures |x| * 1 == |x| && Small(z, m) && RowsConvolved(x, y, z, 1, |x|, 1 * norm, m)
  {
    hide Cong;
    forall e: nat | e < |x|
      ensures CongAll(Row(z, 1, |x|, e), Scale(Cyclic(Row(x, 1, |x|, e), Row(y, 1, |x|, e), 1), 1 * norm), m)
    {
      var a, b := Row(x, 1, |x|, e), Row(y, 1, |x|, e);
      assert a == [x[e]] && b == [y[e]] && Row(z, 1, |x|, e) == [z[e]];
      assert Coefficient(a, b, 0, 0) == 0 && Coefficient(a, b, 0, 1) == (x[e] as int) * y[e];
    }
  }

  // i rows are convolved; the others, of both buffers, are as they were
  ghost predicate RowsSoFar(X: seq<Limb>, Y: seq<Limb>, Z: seq<Limb>, V: seq<Limb>, f: nat, h: nat, s: int, m: Limb,
                            i: nat) {
    && |X| == |Y| == |Z| == |V| == h * f && i <= h && Small(X, m) && Small(Y, m) && Small(Z, m)
    && (forall e: nat | e < i ::
          CongAll(Row(Z, f, h, e), Scale(Cyclic(Row(X, f, h, e), Row(Y, f, h, e), f), s), m))
    && (forall e: nat | i <= e < h :: Row(Z, f, h, e) == Row(X, f, h, e) && Row(V, f, h, e) == Row(Y, f, h, e))
  }

  lemma {:induction false} NoRowDone(X: seq<Limb>, Y: seq<Limb>, f: nat, h: nat, s: int, m: Limb)
    requires |X| == |Y| == h * f && Small(X, m) && Small(Y, m)
    ensures RowsSoFar(X, Y, X, Y, f, h, s, m, 0)
  {
  }

  lemma {:induction false} ReadyRow(X: seq<Limb>, Y: seq<Limb>, Z: seq<Limb>, V: seq<Limb>, f: nat, h: nat, s: int,
                                     m: Limb, i: nat)
    requires RowsSoFar(X, Y, Z, V, f, h, s, m, i) && i < h
    ensures 0 <= i * f && i * f + f <= |X| == |Y| == |Z| == |V|
    ensures Small(Part(Z, i * f, f), m) && Small(Part(V, i * f, f), m)
  {
    RowIsPart(X, f, h, i);
    RowIsPart(Y, f, h, i);
    RowIsPart(Z, f, h, i);
    RowIsPart(V, f, h, i);
  }

  lemma {:induction false} PartOfPart(s: seq<Limb>, o: nat, n: nat, p: nat, k: nat)
    requires o + n <= |s| && p + k <= n
    ensures Part(Part(s, o, n), p, k) == Part(s, o + p, k)
  {
    forall i | 0 <= i < k ensures Part(Part(s, o, n), p, k)[i] == Part(s, o + p, k)[i] {
      assert s[o..o + n][p + i] == s[o + (p + i)];
    }
  }

  lemma {:induction false} OutsidePart(s: seq<Limb>, t: seq<Limb>, u: seq<Limb>, o: nat, n: nat, p: nat, k: nat)
    requires Outside(s, t, o + p, k) && Outside(t, u, o, n) && p + k <= n
    ensures Outside(Part(s, o, n), Part(t, o, n), p, k) && Outside(s, u, o, n)
  {
    assert s[..o] == s[..o + p][..o] && t[..o] == t[..o + p][..o];
    var d := n - p - k;
    assert s[o + n..] == s[o + p + k..][d..] && t[o + n..] == t[o + p + k..][d..];
    assert Part(s, o, n)[..p] == s[..o + p][o..] && Part(t, o, n)[..p] == t[..o + p][o..];
    assert Part(s, o, n)[p + k..] == s[o + p + k..][..d] && Part(t, o, n)[p + k..] == t[o + p + k..][..d];
  }

  lemma {:induction false} OneMoreRow(X: seq<Limb>, Y: seq<Limb>, Z: seq<Limb>, V: seq<Limb>, Z': seq<Limb>,
                                      V': seq<Limb>,
                                    f: nat, h: nat, s: int, m: Limb, i: nat)
    requires RowsSoFar(X, Y, Z, V, f, h, s, m, i) && i < h && 0 <= i * f
    requires Outside(Z', Z, i * f, f) && Outside(V', V, i * f, f) && Small(Part(Z', i * f, f), m)
    requires CongAll(Part(Z', i * f, f), Scale(Cyclic(Part(Z, i * f, f), Part(V, i * f, f), f), s), m)
    ensures RowsSoFar(X, Y, Z', V', f, h, s, m, i + 1)
  {
    SmallAgain(Z, Z', i * f, f, m);
    OutsideSize(Z, Z', i * f, f);
    OutsideSize(V, V', i * f, f);
    hide Small, Outside, CongAll, Row, Scale, Cyclic;
    RowIsPart(Z, f, h, i);
    RowIsPart(V, f, h, i);
    RowIsPart(Z', f, h, i);
    forall e: nat | e < h && e != i
      ensures Row(Z', f, h, e) == Row(Z, f, h, e) && Row(V', f, h, e) == Row(V, f, h, e)
    {
      RowOutside(Z, Z', f, h, i, e);
      RowOutside(V, V', f, h, i, e);
    }
  }

  lemma {:induction false} AllRowsDone(X: seq<Limb>, Y: seq<Limb>, Z: seq<Limb>, V: seq<Limb>, f: nat, h: nat, s: int,
                                   m: Limb)
    requires RowsSoFar(X, Y, Z, V, f, h, s, m, h)
    ensures Small(Z, m) && RowsConvolved(X, Y, Z, f, h, s, m)
  {
    hide CongAll, Row, Scale, Cyclic;
  }

  lemma {:induction false} HalfLength(c: Limb, m: Limb, i: nat)
    requires MOD_MIN < m < MOD_MAX && m % 2 == 1 && c < m && Cong(Two(i) * c, 1, m)
    ensures var h := (m + 1) / 2;
            && 0 <= c * h < B * MOD_MIN
            && var d := ModFast(c * h, m, InitMulModFast(m)); d < m && Cong(Two(i + 1) * d, 1, m)
  {
    hide InitMulModFast, ModFast, Cong;
    var h: int := (m + 1) / 2;
    MulNat(c, h);
    MulMono(c, MOD_MAX, h);
    ModFastExact(c * h, m);
    ResidueCong(c * h, m);
    var d, p := (c * h) % m, Two(i);
    CongSame(2 * p, m);
    CongMul(2 * p, 2 * p, d, c * h, m);
    assert (2 * p) * (c * h) == (p * c) * (2 * h) by {
      MulSwap(2, p, h, c);
    }
    CongBy(2 * h, 1, m, 1);
    CongMul(p * c, 1, 2 * h, 1, m);
    CongTrans((2 * p) * d, (p * c) * (2 * h), 1, m);
  }

  lemma {:induction false} OppositeLevels(r: seq<(Limb, Limb)>, s: seq<(Limb, Limb)>, m: Limb)
    requires IsRoots(r, m) && IsRoots(s, m) && |r| == |s| && Cong((r[|r| - 1].0 as int) * s[|s| - 1].0, 1, m)
    ensures Opposite(r, s, m)
  {
    hide Cong, PowI, IsFactor;
    var top := |r| - 1;
    var w: int, v: int := r[top].0, s[top].0;
    forall l | 1 <= l < |r| ensures Cong((r[l].0 as int) * s[l].0, 1, m) {
      assert RootLevel(r, m, l) && RootLevel(s, m, l);
      var e := Two(top - l);
      CongMul(r[l].0, PowI(w, e), s[l].0, PowI(v, e), m);
      PowProduct(w, v, e);
      PowOne(w * v, e, m);
      CongTrans((r[l].0 as int) * s[l].0, PowI(w * v, e), 1, m);
    }
  }

  // What the split needs of the roots: those of the columns are powers of the whole's, and a
  // row has a root of its length.
  ghost predicate SplitRoots(w: int, v: int, w1: int, v1: int, w2: int, v2: int, t: int, k1: nat, k2: nat, m: int) {
    && Cong(PowI(w, Two(k2)), w1, m) && Cong(w * v, 1, m) && InverseRoots(w1, v1, k1, m)
    && Two(k1) * Two(k2) >= 0 && Cong(PowI(w, Two(k1) * Two(k2)), 1, m)
    && InverseRoots(w2, v2, k2, m) && Cong(PowI(w2, Two(k2)), 1, m) && Cong(Two(k2) * t, 1, m)
  }

  lemma {:induction false} TablesSplit(fwd: seq<(Limb, Limb)>, inv: seq<(Limb, Limb)>, lenInv: seq<(Limb, Limb)>,
                                       m: Limb, k1: nat, k2: nat) returns (w2: int, v2: int)
    requires IsRoots(fwd, m) && Opposite(fwd, inv, m) && IsLengthInverses(lenInv, m)
    requires 1 <= k1 && k1 + k2 < |fwd| == |lenInv|
    ensures SplitRoots(fwd[k1 + k2].0, inv[k1 + k2].0, fwd[k1].0, inv[k1].0, w2, v2, lenInv[k2].0, k1, k2, m)
  {
    hide Cong, PowI, IsRoots, IsFactor;
    var k := k1 + k2;
    RootPower(fwd, m, k, k2);
    HalfTurn(fwd, m, k1);
    HalfTurn(fwd, m, k);
    FullTurn(fwd[k].0, k, m);
    TwoAdd(k1, k2);
    if k2 == 0 {
      w2, v2 := 1, 1;
      OnesPower(1);
      CongSame(1, m);
    } else {
      w2, v2 := fwd[k2].0, inv[k2].0;
      HalfTurn(fwd, m, k2);
      FullTurn(w2, k2, m);
    }
  }

  lemma {:induction false} FullTurn(w: int, k: nat, m: int)
    requires k > 0 && Cong(PowI(w, Two(k - 1)), -1, m)
    ensures Cong(PowI(w, Two(k)), 1, m)
  {
    hide Cong, PowI;
    var g := Two(k - 1);
    PowMulI(w, g, 2);
    assert g * 2 == Two(k);
    PowMinusOne(PowI(w, g), 2, m);
  }

  lemma {:induction false} Convolved(x: seq<Limb>, y: seq<Limb>, X: seq<Limb>, Y: seq<Limb>, Z: seq<Limb>,
                                     out: seq<Limb>, fwd: seq<(Limb, Limb)>, inv: seq<(Limb, Limb)>,
                                     lenInv: seq<(Limb, Limb)>, m: Limb, k1: nat, k2: nat, kTot: nat)
    requires IsRoots(fwd, m) && Opposite(fwd, inv, m) && IsLengthInverses(lenInv, m)
    requires 1 <= k1 && k1 + k2 < |fwd| == |lenInv| && kTot < |lenInv|
    requires PartlyDone(x, X, Two(k1), Two(k2), fwd[k1].0, fwd[k1 + k2].0, false, m, Two(k2))
    requires PartlyDone(y, Y, Two(k1), Two(k2), fwd[k1].0, fwd[k1 + k2].0, false, m, Two(k2))
    requires RowsConvolved(X, Y, Z, Two(k2), Two(k1), Two(k2) * lenInv[kTot].0, m)
    requires PartlyDone(Z, out, Two(k1), Two(k2), inv[k1].0, inv[k1 + k2].0, true, m, Two(k2))
    ensures |x| == |y| == Two(k1 + k2) && Small(out, m)
    ensures CongAll(out, Scale(Cyclic(x, y, Two(k1 + k2)), Two(k1 + k2) * lenInv[kTot].0), m)
    ensures kTot == k1 + k2 ==> CongAll(out, Cyclic(x, y, Two(k1 + k2)), m)
  {
    assert |inv| == |fwd|;
    assert Cong(Two(kTot) * lenInv[kTot].0, 1, m);
    hide Cong, PowI, IsRoots, Opposite, IsLengthInverses, RowsConvolved, ColumnsDone, CongAll, Scale, Cyclic,
      InverseRoots;
    var w2, v2 := TablesSplit(fwd, inv, lenInv, m, k1, k2);
    var norm := lenInv[kTot].0;
    SplitConvolved(x, y, X, Y, Z, out, k1, k2, fwd[k1].0, inv[k1].0, fwd[k1 + k2].0, inv[k1 + k2].0, w2, v2,
                   lenInv[k2].0, Two(k2) * norm, m);
    TwoAdd(k1, k2);
    MulAssoc(Two(k1), Two(k2), norm);
    if kTot == k1 + k2 {
      WholeConvolution(out, x, y, Two(kTot), norm, m);
    }
  }

  lemma {:induction false} MulAssoc(a: int, b: int, c: int)
    ensures a * (b * c) == (a * b) * c
  {
  }

  // A convolution that is not part of a longer one is not scaled.
  lemma {:induction false} WholeConvolution(out: seq<Limb>, x: seq<Limb>, y: seq<Limb>, n: int, norm: int, m: Limb)
    requires |x| == |y| && Cong(n * norm, 1, m) && CongAll(out, Scale(Cyclic(x, y, |x|), n * norm), m)
    ensures CongAll(out, Cyclic(x, y, |x|), m)
  {
    hide Cong, Cyclic;
    var c := Cyclic(x, y, |x|);
    forall i | 0 <= i < |c| ensures Cong(out[i], c[i], m) {
      CongSame(c[i], m);
      CongMul(c[i], c[i], n * norm, 1, m);
      CongTrans(out[i], c[i] * (n * norm), c[i] * 1, m);
    }
  }
}
