/** ntt_fft_partial of libbf.c: the columns of a buffer seen as rows are transformed, in strips
    that are copied to a scratch buffer, and multiplied by powers of the root. */
module NttPartial {
  import opened Limbs
  import opened NttModular
  import opened NttPolynomial
  import opened Powers
  import opened NttTransform
  import opened NttFft
  import opened NttSplit

  const STRIP_LEN: nat := 16

  // i elements are multiplied by the powers of c
  ghost predicate TrigDone(x: seq<Limb>, X: seq<Limb>, c: int, m: Limb, i: nat) {
    && |X| == |x| && i <= |x| && Small(x, m)
    && (forall k | 0 <= k < i :: X[k] < 2 * m && Cong(X[k], x[k] * PowI(c, k), m))
    && (forall k | i <= k < |x| :: X[k] == x[k])
  }

  lemma {:induction false} TrigNext(x: seq<Limb>, X: seq<Limb>, c: Limb, m: Limb, i: nat, c0: Limb)
    requires TrigDone(x, X, c, m, i) && i < |x| && MOD_MIN < m < MOD_MAX
    requires c0 < m && c < m && Cong(c0, PowI(c, i), m)
    ensures |X| == |x| && 0 <= X[i] * c0 < B * MOD_MIN
    ensures TrigDone(x, X[i := ModFast(X[i] * c0, m, InitMulModFast(m))], c, m, i + 1)
  {
    hide InitMulModFast, ModFast, Cong, PowI;
    var a: int := X[i];
    MulNat(a, c0);
    MulMono(a, 2 * MOD_MAX, c0);
    ModFastExact(a * c0, m);
    ResidueCong(a * c0, m);
    CongSame(a, m);
    CongMul(a, a, c0, PowI(c, i), m);
    CongTrans((a * c0) % m, a * c0, a * PowI(c, i), m);
  }

  lemma {:induction false} TrigStart(x: seq<Limb>, c: int, m: Limb)
    requires Small(x, m)
    ensures TrigDone(x, x, c, m, 0)
  {
  }

  lemma {:induction false} TrigEnd(x: seq<Limb>, X: seq<Limb>, c: int, m: Limb)
    requires TrigDone(x, X, c, m, |x|)
    ensures Small(X, m) && CongAll(X, Twist(x, c), m)
  {
    hide Cong, PowI;
  }

  // mul_trig: element i is multiplied by the power i of c_mul
  method MulTrig(buf: array<Limb>, o: nat, n: nat, cMul: Limb, m: Limb, mInv: Limb)
    requires o + n <= buf.Length && Small(Part(buf[..], o, n), m)
    requires MOD_MIN < m < MOD_MAX && mInv == InitMulModFast(m) && cMul < m
    modifies buf
    ensures Small(Part(buf[..], o, n), m) && CongAll(Part(buf[..], o, n), Twist(old(Part(buf[..], o, n)), cMul), m)
    ensures Outside(buf[..], old(buf[..]), o, n)
  {
    hide InitMulModFast, InitMulModFast2, ModFast, MulModFast2, Cong, PowI, TrigDone, Outside, Small, Twist;
    ghost var was := buf[..];
    ghost var x := Part(was, o, n);
    var c0: Limb, cMulInv := 1, InitMulModFast2(cMul, m);
    var i := 0;
    PowNextI(cMul, 0);
    CongSame(1, m);
    TrigStart(x, cMul, m);
    OutsideSame(was, o, n);
    while i < n
      invariant 0 <= i <= n && c0 < m && Cong(c0, PowI(cMul, i), m)
      invariant TrigDone(x, Part(buf[..], o, n), cMul, m, i) && Outside(buf[..], was, o, n)
    {
      ghost var now := buf[..];
      TrigNext(x, Part(now, o, n), cMul, m, i, c0);
      assert Part(now, o, n)[i] == buf[o + i];
      var r := ModFast(buf[o + i] * c0, m, mInv);
      buf[o + i] := r;
      PartUpdate(now, was, o, n, i, r);
      NextPower(c0, cMul, m, i);
      c0 := MulModFast2(c0, cMul, m, cMulInv);
      i := i + 1;
    }
    TrigEnd(x, Part(buf[..], o, n), cMul, m);
  }

  lemma {:induction false} ForwardColumn(x: seq<Limb>, y: seq<Limb>, X: seq<Limb>, w: int, c: int, m: Limb)
    requires IsTransform(x, y, w, m) && |X| == |y| && CongAll(X, Twist(y, c), m)
    ensures ColumnDone(x, X, w, c, false, m)
  {
    hide Cong, PowI, Eval;
    forall e: nat | e < |x| ensures Cong(X[e], Eval(x, PowI(w, e)) * PowI(c, e), m) {
      var p := PowI(c, e);
      CongSame(p, m);
      CongMul(y[e], Eval(x, PowI(w, e)), p, p, m);
      CongTrans(X[e], y[e] * p, Eval(x, PowI(w, e)) * p, m);
    }
  }

  lemma {:induction false} InverseColumn(x: seq<Limb>, y: seq<Limb>, X: seq<Limb>, w: int, c: int, m: Limb)
    requires CongAll(y, Twist(x, c), m) && IsTransform(y, X, w, m)
    ensures ColumnDone(x, X, w, c, true, m)
  {
    hide Cong, PowI, Eval, Twist;
    forall e: nat | e < |x| ensures Cong(X[e], Eval(Twist(x, c), PowI(w, e)), m) {
      EvalCong(y, Twist(x, c), PowI(w, e), m);
      CongTrans(X[e], Eval(y, PowI(w, e)), Eval(Twist(x, c), PowI(w, e)), m);
    }
  }

  // one column in the scratch buffer: multiplied and transformed back, or transformed and multiplied
  method TransformColumn(cache: TrigCache, buf: array<Limb>, o: nat, tmp: array<Limb>, k1: nat, cMul: Limb,
                         inverse: bool, mInv: Limb)
    requires cache.Valid() && 1 <= k1 < |cache.roots| && k1 <= NTT_TRIG_K_MAX && o + Two(k1) <= buf.Length
    requires tmp.Length == Two(k1) && tmp != buf && Small(Part(buf[..], o, Two(k1)), cache.m)
    requires MOD_MIN < cache.m < MOD_MAX && cMul < cache.m && mInv == InitMulModFast(cache.m)
    modifies cache`trig, buf, tmp
    ensures cache.Valid() && Small(Part(buf[..], o, Two(k1)), cache.m)
    ensures ColumnDone(old(Part(buf[..], o, Two(k1))), Part(buf[..], o, Two(k1)), cache.roots[k1].0, cMul, inverse,
                       cache.m)
    ensures Outside(buf[..], old(buf[..]), o, Two(k1))
  {
    hide InitMulModFast, IsRoots, IsTransform, Small, Outside, ColumnDone, Twist;
    var n := Two(k1);
    ghost var was := buf[..];
    OutsideSame(was, o, n);
    if inverse {
      MulTrig(buf, o, n, cMul, cache.m, mInv);
    }
    ghost var mid := buf[..];
    var ok := NttFft.NttFft(cache, buf, o, buf, o, tmp, k1);
    ghost var now := buf[..];
    OutsideTrans(now, mid, was, o, n);
    TransformIsSmall(Part(mid, o, n), Part(now, o, n), cache.roots[k1].0, cache.m);
    if inverse {
      InverseColumn(Part(was, o, n), Part(mid, o, n), Part(now, o, n), cache.roots[k1].0, cMul, cache.m);
    } else {
      MulTrig(buf, o, n, cMul, cache.m, mInv);
      OutsideTrans(buf[..], now, was, o, n);
      ForwardColumn(Part(was, o, n), Part(now, o, n), Part(buf[..], o, n), cache.roots[k1].0, cMul, cache.m);
    }
  }

  lemma {:induction false} TransformIsSmall(x: seq<int>, t: seq<Limb>, w: int, m: Limb)
    requires IsTransform(x, t, w, m)
    ensures Small(t, m) && |t| == |x|
  {
  }

  lemma {:induction false} EntryAt(s: seq<Limb>, f: nat, h: nat, i: nat, j: nat)
    requires |s| == h * f && i < h && j < f
    ensures 0 <= i * f + j < |s| && Entry(s, f, h, i, j) == s[i * f + j]
  {
    CellFits(i, j, f, h);
  }

  // one place written, all the others as they were
  lemma {:induction false} EntryUpdate(s: seq<Limb>, f: nat, h: nat, i: nat, j: nat, v: Limb)
    requires |s| == h * f && i < h && j < f
    ensures 0 <= i * f + j < |s|
    ensures forall r: nat, c: nat | r < h && c < f ::
              Entry(s[i * f + j := v], f, h, r, c) == if r == i && c == j then v else Entry(s, f, h, r, c)
  {
    CellFits(i, j, f, h);
    var t := s[i * f + j := v];
    forall r: nat, c: nat | r < h && c < f
      ensures Entry(t, f, h, r, c) == if r == i && c == j then v else Entry(s, f, h, r, c)
    {
      CellFits(r, c, f, h);
      OnePlace(i, j, r, c, f);
    }
  }

  lemma {:induction false} OnePlace(i: nat, j: nat, r: nat, c: nat, f: nat)
    requires j < f && c < f
    ensures i * f + j == r * f + c <==> i == r && j == c
  {
    if i < r {
      MulMono(i + 1, r, f);
      MulAdd(i, 1, f);
    } else if r < i {
      MulMono(r + 1, i, f);
      MulAdd(r, 1, f);
    }
  }

  // place (r, c) has been copied when a double loop stands at (i, l)
  predicate Passed(r: nat, c: nat, i: nat, l: nat) {
    r < i || (r == i && c < l)
  }

  // what is copied of the strip of columns from j on
  ghost predicate Loaded(x: seq<Limb>, b: seq<Limb>, n1: nat, n2: nat, j: nat, i: nat, l: nat) {
    && |x| == n1 * n2 && |b| == STRIP_LEN * n1 && j + STRIP_LEN <= n2
    && forall r: nat, c: nat | r < n1 && c < STRIP_LEN && Passed(r, c, i, l) ::
         Entry(b, n1, STRIP_LEN, c, r) == Entry(x, n2, n1, r, j + c)
  }

  lemma {:induction false} LoadNext(x: seq<Limb>, b: seq<Limb>, n1: nat, n2: nat, j: nat, i: nat, l: nat)
    requires Loaded(x, b, n1, n2, j, i, l) && i < n1 && l < STRIP_LEN
    ensures |x| == n1 * n2 && 0 <= i * n2 + (j + l) < |x| && |b| == STRIP_LEN * n1 && 0 <= l * n1 + i < |b|
    ensures Loaded(x, b[l * n1 + i := x[i * n2 + (j + l)]], n1, n2, j, i, l + 1)
  {
    hide Entry;
    EntryAt(x, n2, n1, i, j + l);
    EntryAt(b, n1, STRIP_LEN, l, i);
    EntryUpdate(b, n1, STRIP_LEN, l, i, x[i * n2 + (j + l)]);
    LoadPlaces(x, b, b[l * n1 + i := x[i * n2 + (j + l)]], n1, n2, j, i, l);
  }

  lemma {:induction false} LoadPlaces(x: seq<Limb>, b: seq<Limb>, b': seq<Limb>, n1: nat, n2: nat, j: nat, i: nat,
                                      l: nat)
    requires Loaded(x, b, n1, n2, j, i, l) && i < n1 && l < STRIP_LEN && |b'| == |b|
    requires forall r: nat, c: nat | r < STRIP_LEN && c < n1 ::
               Entry(b', n1, STRIP_LEN, r, c) ==
               if r == l && c == i then Entry(x, n2, n1, i, j + l) else Entry(b, n1, STRIP_LEN, r, c)
    ensures Loaded(x, b', n1, n2, j, i, l + 1)
  {
    hide Entry;
  }

  lemma {:induction false} LoadRow(x: seq<Limb>, b: seq<Limb>, n1: nat, n2: nat, j: nat, i: nat)
    requires Loaded(x, b, n1, n2, j, i, STRIP_LEN)
    ensures Loaded(x, b, n1, n2, j, i + 1, 0)
  {
    hide Entry;
  }

  lemma {:induction false} LoadEnd(x: seq<Limb>, b: seq<Limb>, n1: nat, n2: nat, j: nat)
    requires Loaded(x, b, n1, n2, j, n1, 0)
    ensures |x| == n1 * n2 && |b| == STRIP_LEN * n1 && j + STRIP_LEN <= n2
    ensures forall l: nat | l < STRIP_LEN :: Row(b, n1, STRIP_LEN, l) == Column(x, n2, n1, j + l)
  {
    hide Entry, Row, Column;
    forall l: nat | l < STRIP_LEN ensures Row(b, n1, STRIP_LEN, l) == Column(x, n2, n1, j + l) {
      forall r: nat | r < n1 ensures Row(b, n1, STRIP_LEN, l)[r] == Column(x, n2, n1, j + l)[r] {
        RowColumn(b, n1, STRIP_LEN, l, r);
        RowColumn(x, n2, n1, r, j + l);
        assert Passed(r, l, n1, 0);
      }
    }
  }

  // the first copying loops: the strip's columns become rows of the scratch buffer
  method LoadStrip(buf1: array<Limb>, o: nat, buf2: array<Limb>, n1: nat, n2: nat, j: nat)
    requires buf1 != buf2 && o + n1 * n2 <= buf1.Length && buf2.Length == STRIP_LEN * n1 && j + STRIP_LEN <= n2
    modifies buf2
    ensures forall l: nat | l < STRIP_LEN ::
              Row(buf2[..], n1, STRIP_LEN, l) == Column(Part(buf1[..], o, n1 * n2), n2, n1, j + l)
  {
    ghost var x := Part(buf1[..], o, n1 * n2);
    var i := 0;
    assert Loaded(x, buf2[..], n1, n2, j, 0, 0);
    hide Loaded, Row, Column;
    while i < n1
      invariant 0 <= i <= n1 && Loaded(x, buf2[..], n1, n2, j, i, 0)
    {
      var l := 0;
      while l < STRIP_LEN
        invariant 0 <= l <= STRIP_LEN && Loaded(x, buf2[..], n1, n2, j, i, l)
      {
        LoadNext(x, buf2[..], n1, n2, j, i, l);
        buf2[l * n1 + i] := buf1[o + (i * n2 + (j + l))];
        l := l + 1;
      }
      LoadRow(x, buf2[..], n1, n2, j, i);
      i := i + 1;
    }
    LoadEnd(x, buf2[..], n1, n2, j);
  }

  // what is copied back of the strip
  ghost predicate Stored(x: seq<Limb>, y: seq<Limb>, b: seq<Limb>, n1: nat, n2: nat, j: nat, i: nat, l: nat) {
    && |x| == |y| == n1 * n2 && |b| == STRIP_LEN * n1 && j + STRIP_LEN <= n2
    && forall r: nat, c: nat | r < n1 && c < n2 ::
         Entry(y, n2, n1, r, c) == if j <= c < j + STRIP_LEN && Passed(r, c - j, i, l)
                                   then Entry(b, n1, STRIP_LEN, c - j, r) else Entry(x, n2, n1, r, c)
  }

  lemma {:induction false} StoreNext(x: seq<Limb>, y: seq<Limb>, b: seq<Limb>, n1: nat, n2: nat, j: nat, i: nat, l: nat)
    requires Stored(x, y, b, n1, n2, j, i, l) && i < n1 && l < STRIP_LEN
    ensures |y| == n1 * n2 && 0 <= i * n2 + (j + l) < |y| && |b| == STRIP_LEN * n1 && 0 <= l * n1 + i < |b|
    ensures Stored(x, y[i * n2 + (j + l) := b[l * n1 + i]], b, n1, n2, j, i, l + 1)
  {
    hide Entry;
    EntryAt(y, n2, n1, i, j + l);
    EntryAt(b, n1, STRIP_LEN, l, i);
    EntryUpdate(y, n2, n1, i, j + l, b[l * n1 + i]);
    StorePlaces(x, y, y[i * n2 + (j + l) := b[l * n1 + i]], b, n1, n2, j, i, l);
  }

  lemma {:induction false} StorePlaces(x: seq<Limb>, y: seq<Limb>, y': seq<Limb>, b: seq<Limb>, n1: nat, n2: nat,
                                       j: nat, i: nat, l: nat)
    requires Stored(x, y, b, n1, n2, j, i, l) && i < n1 && l < STRIP_LEN && |y'| == |y|
    requires forall r: nat, c: nat | r < n1 && c < n2 ::
               Entry(y', n2, n1, r, c) ==
               if r == i && c == j + l then Entry(b, n1, STRIP_LEN, l, i) else Entry(y, n2, n1, r, c)
    ensures Stored(x, y', b, n1, n2, j, i, l + 1)
  {
    hide Entry;
  }

  lemma {:induction false} StoreRow(x: seq<Limb>, y: seq<Limb>, b: seq<Limb>, n1: nat, n2: nat, j: nat, i: nat)
    requires Stored(x, y, b, n1, n2, j, i, STRIP_LEN)
    ensures Stored(x, y, b, n1, n2, j, i + 1, 0)
  {
    hide Entry;
  }

  lemma {:induction false} StoreEnd(x: seq<Limb>, y: seq<Limb>, b: seq<Limb>, n1: nat, n2: nat, j: nat)
    requires Stored(x, y, b, n1, n2, j, n1, 0)
    ensures |x| == |y| == n1 * n2 && |b| == STRIP_LEN * n1 && j + STRIP_LEN <= n2
    ensures forall c: nat | c < n2 ::
              Column(y, n2, n1, c) == if j <= c < j + STRIP_LEN then Row(b, n1, STRIP_LEN, c - j)
              else Column(x, n2, n1, c)
  {
    hide Entry, Row, Column;
    forall c: nat | c < n2
      ensures Column(y, n2, n1, c) ==
              if j <= c < j + STRIP_LEN then Row(b, n1, STRIP_LEN, c - j) else Column(x, n2, n1, c)
    {
      var e := if j <= c < j + STRIP_LEN then Row(b, n1, STRIP_LEN, c - j) else Column(x, n2, n1, c);
      forall r: nat | r < n1 ensures Column(y, n2, n1, c)[r] == e[r] {
        RowColumn(y, n2, n1, r, c);
        RowColumn(x, n2, n1, r, c);
        if j <= c < j + STRIP_LEN {
          RowColumn(b, n1, STRIP_LEN, c - j, r);
          assert Passed(r, c - j, n1, 0);
        }
      }
    }
  }

  // the last copying loops
  method StoreStrip(buf1: array<Limb>, o: nat, buf2: array<Limb>, n1: nat, n2: nat, j: nat)
    requires buf1 != buf2 && o + n1 * n2 <= buf1.Length && buf2.Length == STRIP_LEN * n1 && j + STRIP_LEN <= n2
    modifies buf1
    ensures forall c: nat | c < n2 :: Column(Part(buf1[..], o, n1 * n2), n2, n1, c) ==
              if j <= c < j + STRIP_LEN then Row(buf2[..], n1, STRIP_LEN, c - j)
              else Column(old(Part(buf1[..], o, n1 * n2)), n2, n1, c)
    ensures Outside(buf1[..], old(buf1[..]), o, n1 * n2)
  {
    ghost var was, b := buf1[..], buf2[..];
    var n := n1 * n2;
    ghost var x := Part(was, o, n);
    var i := 0;
    assert Stored(x, Part(was, o, n), b, n1, n2, j, 0, 0);
    hide Stored, Row, Column, Outside;
    OutsideSame(was, o, n);
    while i < n1
      invariant 0 <= i <= n1 && Stored(x, Part(buf1[..], o, n), b, n1, n2, j, i, 0) && Outside(buf1[..], was, o, n)
    {
      var l := 0;
      while l < STRIP_LEN
        invariant 0 <= l <= STRIP_LEN && Stored(x, Part(buf1[..], o, n), b, n1, n2, j, i, l)
        invariant Outside(buf1[..], was, o, n)
      {
        ghost var now := buf1[..];
        StoreNext(x, Part(now, o, n), b, n1, n2, j, i, l);
        buf1[o + (i * n2 + (j + l))] := buf2[l * n1 + i];
        PartUpdate(now, was, o, n, i * n2 + (j + l), b[l * n1 + i]);
        l := l + 1;
      }
      StoreRow(x, Part(buf1[..], o, n), b, n1, n2, j, i);
      i := i + 1;
    }
    StoreEnd(x, Part(buf1[..], o, n), b, n1, n2, j);
  }

  lemma {:induction false} ColumnCong(x: seq<int>, X: seq<int>, w: int, c: int, d: int, inverse: bool, m: int)
    requires ColumnDone(x, X, w, c, inverse, m) && Cong(c, d, m)
    ensures ColumnDone(x, X, w, d, inverse, m)
  {
    hide Cong, PowI, Eval;
    forall e: nat | e < |x| ensures Cong(x[e] * PowI(c, e), x[e] * PowI(d, e), m) {
      CongPow(c, d, e, m);
      CongSame(x[e], m);
      CongMul(x[e], x[e], PowI(c, e), PowI(d, e), m);
    }
    forall e: nat | e < |x|
      ensures inverse ==> Cong(X[e], Eval(Twist(x, d), PowI(w, e)), m)
      ensures !inverse ==> Cong(X[e], Eval(x, PowI(w, e)) * PowI(d, e), m)
    {
      var z := Eval(x, PowI(w, e));
      if inverse {
        EvalCong(Twist(x, c), Twist(x, d), PowI(w, e), m);
        CongTrans(X[e], Eval(Twist(x, c), PowI(w, e)), Eval(Twist(x, d), PowI(w, e)), m);
      } else {
        CongPow(c, d, e, m);
        CongSame(z, m);
        CongMul(z, z, PowI(c, e), PowI(d, e), m);
        CongTrans(X[e], z * PowI(c, e), z * PowI(d, e), m);
      }
    }
  }

  lemma {:induction false} TurnNext(c: Limb, w: Limb, m: Limb, i: nat)
    requires MOD_MIN < m < MOD_MAX && c < m && w < m && Cong(c, PowI(w, i), m)
    ensures 0 <= c * w < B * MOD_MIN
    ensures var d := ModFast(c * w, m, InitMulModFast(m)); d < m && Cong(d, PowI(w, i + 1), m)
  {
    hide InitMulModFast, ModFast, Cong, PowI;
    MulNat(c, w);
    MulMono(c, MOD_MAX, w);
    ModFastExact(c * w, m);
    ResidueCong(c * w, m);
    CongSame(w, m);
    CongMul(c, PowI(w, i), w, w, m);
    PowNextI(w, i);
    CongTrans((c * w) % m, c * w, PowI(w, i + 1), m);
  }

  // the first l rows of the scratch buffer, columns j, j + 1, .. of the whole, are done
  ghost predicate StripDone(b0: seq<Limb>, b: seq<Limb>, n1: nat, w1: int, w: int, j: nat, inverse: bool, m: Limb,
                            l: nat) {
    && |b0| == |b| == STRIP_LEN * n1 && l <= STRIP_LEN && Small(b, m)
    && (forall r: nat | r < l ::
          ColumnDone(Row(b0, n1, STRIP_LEN, r), Row(b, n1, STRIP_LEN, r), w1, PowI(w, j + r), inverse, m))
    && (forall r: nat | l <= r < STRIP_LEN :: Row(b, n1, STRIP_LEN, r) == Row(b0, n1, STRIP_LEN, r))
  }

  lemma {:induction false} StripPart(b0: seq<Limb>, b: seq<Limb>, n1: nat, w1: int, w: int, j: nat, inverse: bool,
                                     m: Limb, l: nat)
    requires StripDone(b0, b, n1, w1, w, j, inverse, m, l) && l < STRIP_LEN
    ensures 0 <= l * n1 && l * n1 + n1 <= |b| && Small(Part(b, l * n1, n1), m)
  {
    RowFits(l, n1, STRIP_LEN);
  }

  lemma {:induction false} RowOutside(b: seq<Limb>, b': seq<Limb>, f: nat, h: nat, l: nat, r: nat)
    requires |b| == h * f && l < h && r < h && r != l && l * f >= 0 && Outside(b', b, l * f, f)
    ensures Row(b', f, h, r) == Row(b, f, h, r)
  {
    RowFits(r, f, h);
    if r < l {
      RowFits(r, f, l);
      assert b[..l * f][r * f..r * f + f] == b[r * f..r * f + f];
      assert b'[..l * f][r * f..r * f + f] == b'[r * f..r * f + f];
    } else {
      RowFits(l, f, r);
      var k, p := l * f + f, r * f;
      assert b[k..][p - k..p - k + f] == b[p..p + f] && b'[k..][p - k..p - k + f] == b'[p..p + f];
    }
  }

  lemma {:induction false} StripNext(b0: seq<Limb>, b: seq<Limb>, b': seq<Limb>, n1: nat, w1: int, w: int, j: nat,
                                     inverse: bool, m: Limb, l: nat, c: int)
    requires StripDone(b0, b, n1, w1, w, j, inverse, m, l) && l < STRIP_LEN && l * n1 >= 0
             && Outside(b', b, l * n1, n1) && Small(Part(b', l * n1, n1), m) && Cong(c, PowI(w, j + l), m)
             && ColumnDone(Part(b, l * n1, n1), Part(b', l * n1, n1), w1, c, inverse, m)
    ensures StripDone(b0, b', n1, w1, w, j, inverse, m, l + 1)
  {
    SmallAgain(b, b', l * n1, n1, m);
    hide Cong, PowI, ColumnDone, Row, Outside, Small;
    RowIsPart(b, n1, STRIP_LEN, l);
    RowIsPart(b', n1, STRIP_LEN, l);
    OutsideSize(b, b', l * n1, n1);
    ColumnCong(Part(b, l * n1, n1), Part(b', l * n1, n1), w1, c, PowI(w, j + l), inverse, m);
    forall r: nat | r < STRIP_LEN && r != l ensures Row(b', n1, STRIP_LEN, r) == Row(b, n1, STRIP_LEN, r) {
      RowOutside(b, b', n1, STRIP_LEN, l, r);
    }
  }

  lemma {:induction false} OutsideSize(b: seq<Limb>, b': seq<Limb>, o: nat, n: nat)
    requires Outside(b', b, o, n)
    ensures |b'| == |b| && o + n <= |b|
  {
  }

  lemma {:induction false} RowIsPart(b: seq<Limb>, f: nat, h: nat, l: nat)
    requires |b| == h * f && l < h
    ensures 0 <= l * f && l * f + f <= |b| && Row(b, f, h, l) == Part(b, l * f, f)
  {
    RowFits(l, f, h);
  }

  lemma {:induction false} SmallAgain(s: seq<Limb>, t: seq<Limb>, o: nat, n: nat, m: Limb)
    requires Outside(t, s, o, n) && Small(s, m) && Small(Part(t, o, n), m)
    ensures Small(t, m)
  {
    forall i | 0 <= i < |t| ensures t[i] < 2 * m {
      if i < o {
        assert t[i] == t[..o][i] == s[..o][i];
      } else if i < o + n {
        assert t[i] == Part(t, o, n)[i - o];
      } else {
        assert t[i] == t[o + n..][i - (o + n)] == s[o + n..][i - (o + n)];
      }
    }
  }

  // the loop over the columns of a strip
  method TransformStrip(cache: TrigCache, buf2: array<Limb>, buf3: array<Limb>, k1: nat, c0: Limb, cMul0: Limb, j: nat,
                        inverse: bool, mInv: Limb) returns (cMul: Limb)
    requires cache.Valid() && 1 <= k1 < |cache.roots| && k1 <= NTT_TRIG_K_MAX && buf2.Length == STRIP_LEN * Two(k1)
    requires buf3.Length == Two(k1) && buf3 != buf2 && Small(buf2[..], cache.m)
    requires MOD_MIN < cache.m < MOD_MAX && c0 < cache.m && cMul0 < cache.m && mInv == InitMulModFast(cache.m)
    requires Cong(cMul0, PowI(c0, j), cache.m)
    modifies cache`trig, buf2, buf3
    ensures cache.Valid() && cMul < cache.m && Cong(cMul, PowI(c0, j + STRIP_LEN), cache.m)
    ensures StripDone(old(buf2[..]), buf2[..], Two(k1), cache.roots[k1].0, c0, j, inverse, cache.m, STRIP_LEN)
  {
    hide InitMulModFast, ModFast, IsRoots, Small, Outside, ColumnDone, StripDone, Cong, PowI;
    ghost var b0, w1 := buf2[..], cache.roots[k1].0;
    var m, n1 := cache.m, Two(k1);
    cMul := cMul0;
    var l := 0;
    StripStart(b0, n1, w1, c0, j, inverse, m);
    while l < STRIP_LEN
      invariant 0 <= l <= STRIP_LEN && cache.Valid() && cMul < m && Cong(cMul, PowI(c0, j + l), m)
      invariant StripDone(b0, buf2[..], n1, w1, c0, j, inverse, m, l)
    {
      ghost var b := buf2[..];
      StripPart(b0, b, n1, w1, c0, j, inverse, m, l);
      TransformColumn(cache, buf2, l * n1, buf3, k1, cMul, inverse, mInv);
      StripNext(b0, b, buf2[..], n1, w1, c0, j, inverse, m, l, cMul);
      TurnNext(cMul, c0, m, j + l);
      cMul := ModFast(cMul * c0, m, mInv);
      l := l + 1;
    }
  }

  lemma {:induction false} StripStart(b: seq<Limb>, n1: nat, w1: int, w: int, j: nat, inverse: bool, m: Limb)
    requires |b| == STRIP_LEN * n1 && Small(b, m)
    ensures StripDone(b, b, n1, w1, w, j, inverse, m, 0)
  {
  }

  lemma {:induction false} LoadedSmall(x: seq<Limb>, b: seq<Limb>, n1: nat, n2: nat, j: nat, m: Limb)
    requires |x| == n1 * n2 && |b| == STRIP_LEN * n1 && j + STRIP_LEN <= n2 && Small(x, m)
    requires forall l: nat | l < STRIP_LEN :: Row(b, n1, STRIP_LEN, l) == Column(x, n2, n1, j + l)
    ensures Small(b, m)
  {
    hide Row, Column;
    forall p: nat | p < |b| ensures b[p] < 2 * m {
      var l, r := InRow(p, n1, STRIP_LEN);
      RowColumn(b, n1, STRIP_LEN, l, r);
      RowColumn(x, n2, n1, r, j + l);
      EntryAt(x, n2, n1, r, j + l);
      assert b[p] == Row(b, n1, STRIP_LEN, l)[r] == Column(x, n2, n1, j + l)[r];
    }
  }

  // the columns before j are transformed
  ghost predicate PartlyDone(x: seq<Limb>, y: seq<Limb>, n1: nat, n2: nat, w1: int, w: int, inverse: bool, m: Limb,
                             j: nat) {
    Small(y, m) && ColumnsDone(x, y, n2, n1, w1, w, inverse, m, j)
  }

  lemma {:induction false} PartlyNext(x: seq<Limb>, y: seq<Limb>, y': seq<Limb>, b0: seq<Limb>, b: seq<Limb>, n1: nat,
                                      n2: nat, w1: int, w: int, inverse: bool, m: Limb, j: nat)
    requires PartlyDone(x, y, n1, n2, w1, w, inverse, m, j) && j + STRIP_LEN <= n2 && |y'| == n1 * n2
    requires StripDone(b0, b, n1, w1, w, j, inverse, m, STRIP_LEN)
    requires forall l: nat | l < STRIP_LEN :: Row(b0, n1, STRIP_LEN, l) == Column(y, n2, n1, j + l)
    requires forall c: nat | c < n2 :: Column(y', n2, n1, c) ==
               if j <= c < j + STRIP_LEN then Row(b, n1, STRIP_LEN, c - j) else Column(y, n2, n1, c)
    ensures PartlyDone(x, y', n1, n2, w1, w, inverse, m, j + STRIP_LEN)
  {
    StoredSmall(y, y', b, n1, n2, j, m);
    hide Row, Column, Small, ColumnDone, PowI;
    forall c: nat | c < j + STRIP_LEN
      ensures ColumnDone(Column(x, n2, n1, c), Column(y', n2, n1, c), w1, PowI(w, c), inverse, m)
    {
      if c >= j {
        var r := c - j;
        assert ColumnDone(Row(b0, n1, STRIP_LEN, r), Row(b, n1, STRIP_LEN, r), w1, PowI(w, j + r), inverse, m);
      }
    }
  }

  lemma {:induction false} StoredSmall(y: seq<Limb>, y': seq<Limb>, b: seq<Limb>, n1: nat, n2: nat, j: nat, m: Limb)
    requires |y| == |y'| == n1 * n2 && |b| == STRIP_LEN * n1 && j + STRIP_LEN <= n2 && Small(y, m) && Small(b, m)
    requires forall c: nat | c < n2 :: Column(y', n2, n1, c) ==
               if j <= c < j + STRIP_LEN then Row(b, n1, STRIP_LEN, c - j) else Column(y, n2, n1, c)
    ensures Small(y', m)
  {
    hide Row, Column;
    forall p: nat | p < |y'| ensures y'[p] < 2 * m {
      var r, c := InRow(p, n2, n1);
      if j <= c < j + STRIP_LEN {
        RowColumn(b, n1, STRIP_LEN, c - j, r);
        EntryAt(b, n1, STRIP_LEN, c - j, r);
        assert y'[p] == Row(b, n1, STRIP_LEN, c - j)[r];
      } else {
        assert y'[p] == y[p];
      }
    }
  }

  lemma {:induction false} PartlyStart(x: seq<Limb>, n1: nat, n2: nat, w1: int, w: int, inverse: bool, m: Limb)
    requires |x| == n1 * n2 && Small(x, m)
    ensures PartlyDone(x, x, n1, n2, w1, w, inverse, m, 0)
  {
  }

  lemma {:induction false} PartlySize(x: seq<Limb>, y: seq<Limb>, n1: nat, n2: nat, w1: int, w: int, inverse: bool,
                                      m: Limb, j: nat)
    requires PartlyDone(x, y, n1, n2, w1, w, inverse, m, j)
    ensures |y| == n1 * n2 && Small(y, m)
  {
  }

  // a single column: the plain transform
  lemma {:induction false} OneColumn(x: seq<Limb>, y: seq<Limb>, n: nat, w: int, inverse: bool, m: Limb)
    requires |x| == n && IsTransform(x, y, w, m)
    ensures n * 1 == n && PartlyDone(x, y, n, 1, w, w, inverse, m, 1)
  {
    hide Cong, Eval, PowI;
    WholeColumn(x, n);
    WholeColumn(y, n);
    PowNextI(w, 0);
    forall e: nat | e < n
      ensures Cong(y[e], Eval(Twist(x, 1), PowI(w, e)), m) && Cong(y[e], Eval(x, PowI(w, e)) * PowI(1, e), m)
    {
      OnesPower(e);
      TwistOne(x);
    }
  }

  lemma {:induction false} WholeColumn(x: seq<int>, n: nat)
    requires |x| == n
    ensures n * 1 == n && Column(x, 1, n, 0) == x
  {
  }

  lemma {:induction false} TwistOne(x: seq<int>)
    ensures Twist(x, 1) == x
  {
    forall i | 0 <= i < |x| ensures Twist(x, 1)[i] == x[i] {
      OnesPower(i);
    }
  }

  // the assertion of the source: the strips make up the whole
  lemma {:induction false} Strips(k: nat)
    requires k >= 4
    ensures Two(k) == STRIP_LEN * Two(k - 4)
  {
    TwoAdd(4, k - 4);
    assert Two(4) == 16;
  }

  // one strip: copied to the scratch buffer, transformed there, and copied back
  method NextStrip(cache: TrigCache, buf1: array<Limb>, o: nat, buf2: array<Limb>, buf3: array<Limb>, k1: nat, n1: nat,
                   n2: nat, c0: Limb, cMul0: Limb, j: nat, inverse: bool, mInv: Limb, ghost x: seq<Limb>)
    returns (cMul: Limb)
    requires cache.Valid() && 1 <= k1 < |cache.roots| && k1 <= NTT_TRIG_K_MAX && n1 == Two(k1)
    requires buf1 != buf2 && buf1 != buf3 && buf2 != buf3 && buf2.Length == STRIP_LEN * n1 && buf3.Length == n1
    requires o + n1 * n2 <= buf1.Length && j + STRIP_LEN <= n2
    requires MOD_MIN < cache.m < MOD_MAX && c0 < cache.m && cMul0 < cache.m && mInv == InitMulModFast(cache.m)
    requires Cong(cMul0, PowI(c0, j), cache.m)
    requires PartlyDone(x, Part(buf1[..], o, n1 * n2), n1, n2, cache.roots[k1].0, c0, inverse, cache.m, j)
    modifies cache`trig, buf1, buf2, buf3
    ensures cache.Valid() && cMul < cache.m && Cong(cMul, PowI(c0, j + STRIP_LEN), cache.m)
    ensures PartlyDone(x, Part(buf1[..], o, n1 * n2), n1, n2, cache.roots[k1].0, c0, inverse, cache.m, j + STRIP_LEN)
    ensures Outside(buf1[..], old(buf1[..]), o, n1 * n2)
  {
    hide InitMulModFast, IsRoots, Small, Outside, StripDone, PartlyDone, Cong, PowI, Row, Column;
    ghost var y, w1, m := Part(buf1[..], o, n1 * n2), cache.roots[k1].0, cache.m;
    PartlySize(x, y, n1, n2, w1, c0, inverse, m, j);
    LoadStrip(buf1, o, buf2, n1, n2, j);
    ghost var b0 := buf2[..];
    LoadedSmall(y, b0, n1, n2, j, m);
    cMul := TransformStrip(cache, buf2, buf3, k1, c0, cMul0, j, inverse, mInv);
    StoreStrip(buf1, o, buf2, n1, n2, j);
    PartlyNext(x, y, Part(buf1[..], o, n1 * n2), b0, buf2[..], n1, n2, w1, c0, inverse, m, j);
  }

  // ntt_fft_partial, on the n1 * n2 elements of buf1 from o on: transforms of length n1 at distance n2
  method NttFftPartial(cache: TrigCache, buf1: array<Limb>, o: nat, k1: nat, k2: nat, n1: nat, n2: nat, inverse: bool,
                       mInv: Limb)
    requires cache.Valid() && 1 <= k1 <= NTT_TRIG_K_MAX && k1 + k2 < |cache.roots| && (k2 == 0 || k2 >= 4)
    requires n1 == Two(k1) && n2 == Two(k2) && o + n1 * n2 <= buf1.Length && Small(Part(buf1[..], o, n1 * n2), cache.m)
    requires MOD_MIN < cache.m < MOD_MAX && mInv == InitMulModFast(cache.m)
    modifies cache`trig, buf1
    ensures cache.Valid() && Outside(buf1[..], old(buf1[..]), o, n1 * n2)
    ensures PartlyDone(old(Part(buf1[..], o, n1 * n2)), Part(buf1[..], o, n1 * n2), n1, n2, cache.roots[k1].0,
                       cache.roots[k1 + k2].0, inverse, cache.m, n2)
  {
    hide InitMulModFast, IsRoots, Small, Outside, StripDone, PartlyDone, Cong, PowI, Row, Column, IsTransform;
    var m, n := cache.m, n1 * n2;
    ghost var was, w1, w := buf1[..], cache.roots[k1].0, cache.roots[k1 + k2].0;
    ghost var x := Part(was, o, n);
    OutsideSame(was, o, n);
    var buf3 := new Limb[n1];
    if k2 == 0 {
      var ok := NttFft.NttFft(cache, buf1, o, buf1, o, buf3, k1);
      OneColumn(x, Part(buf1[..], o, n1), n1, w1, inverse, m);
    } else {
      var buf2 := new Limb[STRIP_LEN * n1];
      RootAt(cache.roots, m, k1 + k2);
      var c0 := cache.roots[k1 + k2].0;
      var cMul: Limb := 1;
      Strips(k2);
      PowNextI(c0, 0);
      CongSame(1, m);
      PartlyStart(x, n1, n2, w1, w, inverse, m);
      var j := 0;
      ghost var i, count: nat := 0, Two(k2 - 4);
      while j < n2
        invariant j == STRIP_LEN * i && i <= count
        invariant cache.Valid() && cMul < m && Cong(cMul, PowI(c0, j), m)
        invariant PartlyDone(x, Part(buf1[..], o, n), n1, n2, w1, w, inverse, m, j) && Outside(buf1[..], was, o, n)
      {
        ghost var now := buf1[..];
        cMul := NextStrip(cache, buf1, o, buf2, buf3, k1, n1, n2, c0, cMul, j, inverse, mInv, x);
        OutsideTrans(buf1[..], now, was, o, n);
        j, i := j + STRIP_LEN, i + 1;
      }
    }
  }
}
