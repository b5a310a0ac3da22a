/** __bf_round of libbf.c: the significand of a number is rounded in place to a precision,
    the exponent follows a carry out of the top, and over- and underflow are settled. */
module Rounding {
  import opened Limbs
  import opened LimbBits
  import opened RoundingModes

  const BF_RAW_EXP_MIN: int := -0x8000_0000_0000_0000
  const BF_RAW_EXP_MAX: int := 0x7fff_ffff_ffff_ffff
  const BF_EXP_ZERO: int := BF_RAW_EXP_MIN
  const BF_EXP_INF: int := BF_RAW_EXP_MAX - 1
  const BF_PREC_INF: nat := 0x3fff_ffff_ffff_ffff

  // bf_flags_t
  datatype Flags = Flags(mode: Mode, subnormal: bool, radpntPrec: bool, expBits: nat)

  // BF_ST_OVERFLOW, BF_ST_UNDERFLOW, BF_ST_INEXACT
  datatype Status = Status(overflow: bool, underflow: bool, inexact: bool)

  function ExpRange(flags: Flags): nat
    requires flags.expBits >= 1
  {
    Two(flags.expBits - 1)
  }

  function ExpMin(flags: Flags): int
    requires flags.expBits >= 1
  {
    3 - ExpRange(flags)
  }

  // the precision in bits: after the radix point, or less for a possibly subnormal result
  function Precision(expn: int, prec1: nat, flags: Flags): int
    requires flags.expBits >= 1
  {
    if flags.radpntPrec then (if prec1 != BF_PREC_INF then expn + prec1 else prec1)
    else if expn < ExpMin(flags) && flags.subnormal then prec1 - (ExpMin(flags) - expn)
    else prec1
  }

  predicate Dropped(m: nat, n: nat, prec: int)
    requires prec < n
  {
    var h := Two(n - prec - 1);
    (m / h) % 2 == 1 || m % h != 0
  }

  // the status bit of bf_get_rnd_add; faithful rounding does not honour it
  predicate Inexact(mode: Mode, m: nat, n: nat, prec: int) {
    mode == RNDF || (prec < n && Dropped(m, n, prec))
  }

  // A row of limbs in l limbs' room, with its top bit and a lowest limb set, stands for x, or
  // for half of it when the exponent has grown.
  ghost predicate Holds(tab: seq<Limb>, l: nat, grown: bool, x: nat) {
    && 1 <= |tab| <= l && tab[|tab| - 1] >= B / 2 && tab[0] != 0
    && Val(tab) * Pow(l - |tab|) * (if grown then 2 else 1) == x
  }

  // The bit positions used when there are bits to drop.
  lemma {:induction false} DropBits(m: seq<Limb>, prec: int)
    requires prec < 64 * |m|
    ensures var n, pos := 64 * |m|, 64 * |m| - 1 - (if prec + 1 > 0 then prec + 1 else 0);
            && pos < n
            && (pos >= 0 && Val(m) % Two(pos + 1) != 0 <==> Val(m) % Two(n - prec - 1) != 0)
            && (0 <= n - prec && (Val(m) / Two(n - prec)) % 2 == 1 <==> (Val(m) / (2 * Two(n - prec - 1))) % 2 == 1)
  {
    hide Val;
    var n := 64 * |m|;
    assert Two(n - prec) == 2 * Two(n - prec - 1);
    if prec + 1 <= 0 {
      hide Two;
      BitAbove(m, n - prec - 1);
      BitAbove(m, n);
    } else if n - prec - 1 == 0 {
      assert Two(0) == 1;
    }
  }

  // bf_get_rnd_add
  method GetRndAdd(tab: seq<Limb>, sign: bool, l: nat, prec: int, mode: Mode) returns (addOne: bool, inexact: bool)
    requires 1 <= l <= |tab|
    ensures var m, n := Val(tab[..l]), 64 * l;
            && addOne == (prec < n && UpBit(mode, sign, m, Two(n - prec - 1)))
            && inexact == Inexact(mode, m, n, prec)
  {
    hide Val, Two;
    ghost var m := tab[..l];
    if prec < 64 * l {
      DropBits(m, prec);
    }
    var bit0 := true;
    if mode != RNDF {
      bit0 := ScanBitNz(tab, l, 64 * l - 1 - (if prec + 1 > 0 then prec + 1 else 0));
    }
    var bit1 := GetBit(tab, l, 64 * l - 1 - prec);
    inexact := bit1 || bit0;
    addOne := false;
    match mode {
      case RNDZ =>
      case RNDN =>
        if bit1 {
          if bit0 {
            addOne := true;
          } else {
            addOne := GetBit(tab, l, 64 * l - 1 - (prec - 1));
          }
        }
      case RNDD => if sign { addOne := inexact; }
      case RNDU => if !sign { addOne := inexact; }
      case RNDA => addOne := inexact;
      case RNDNA => addOne := bit1;
      case RNDF => addOne := bit1;
    }
  }

  // add one at a bit of limb pos: the carry runs up the limbs
  method AddCarry(tab: seq<Limb>, pos: nat, l: nat, one: Limb) returns (t: seq<Limb>, carry: Limb)
    requires pos < l <= |tab| && 1 <= one
    ensures |t| == |tab| && t[..pos] == tab[..pos] && t[l..] == tab[l..] && carry <= 1
    ensures Val(t[pos..l]) + carry * Pow(l - pos) == Val(tab[pos..l]) + one
    ensures carry == 0 <==> Val(tab[pos..l]) + one < Pow(l - pos)
  {
    hide Val, Pow, AddedUi, Wrap;
    ghost var x := tab[pos..l];
    t, carry := tab, one;
    var i := pos;
    UiStart(x, one);
    assert t[pos..pos] == [];
    while i < l
      invariant pos <= i <= l && |t| == |tab| && t[..pos] == tab[..pos] && t[i..] == tab[i..]
                && (i > pos ==> carry <= 1)
      invariant AddedUi(t[pos..i], x, i - pos, one, carry)
    {
      ghost var done := t[pos..i];
      assert t[i] == t[i..][0] == x[i - pos];
      AddUiStep(done, x, i - pos, one, carry);
      var v := Wrap(t[i] + carry);
      carry := if v < carry then 1 else 0;
      t := t[i := v];
      assert t[pos..i + 1] == done + [v];
      i := i + 1;
      if carry == 0 {
        break;
      }
    }
    AddedTop(t, tab, pos, i, l, x, one, carry);
  }

  // the limbs from i up are shifted, and v is the limb last read
  ghost predicate ShiftedFrom(tab: seq<Limb>, t: seq<Limb>, pos: nat, l: nat, i: nat, v: Limb) {
    && pos <= i <= l <= |tab| == |t| && t[..i] == tab[..i] && t[l..] == tab[l..]
    && Val(tab[i..l]) + 1 * Pow(l - i) == 2 * Val(t[i..l]) + v % 2
  }

  lemma {:induction false} ShiftStart(tab: seq<Limb>, pos: nat, l: nat)
    requires pos <= l <= |tab|
    ensures ShiftedFrom(tab, tab, pos, l, l, 1)
  {
    hide Val;
    ValNone();
    assert tab[l..l] == [] && Pow(l - l) == 1;
  }

  lemma {:induction false} ShiftNext(tab: seq<Limb>, t: seq<Limb>, pos: nat, l: nat, i: nat, v: Limb)
    requires ShiftedFrom(tab, t, pos, l, i, v) && pos < i
    ensures i <= |t| && t[i - 1] == tab[i - 1] && 0 <= t[i - 1] / 2 + (v % 2) * (B / 2) < B
    ensures ShiftedFrom(tab, t[i - 1 := t[i - 1] / 2 + (v % 2) * (B / 2)], pos, l, i - 1, t[i - 1])
  {
    hide Val, Pow;
    var k := i - 1;
    assert t[k] == t[..i][k] == tab[k];
    var a := t[k];
    ShrLimb(a, v, 2, B / 2);
    var w := a / 2 + (v % 2) * (B / 2);
    var next, y := t[k := w], tab[k..l];
    assert next[k..l] == [w] + t[i..l] && y[1..] == tab[i..l] && y[0..] == y;
    assert next[..k] == t[..i][..k] && tab[..k] == tab[..i][..k];
    ShrRow(y, 0, a, v, t[i..l]);
  }

  lemma {:induction false} ShiftEnd(tab: seq<Limb>, t: seq<Limb>, pos: nat, l: nat, v: Limb)
    requires ShiftedFrom(tab, t, pos, l, pos, v)
    ensures |t| == |tab| && t[..pos] == tab[..pos] && t[l..] == tab[l..]
    ensures Val(t[pos..l]) == (Val(tab[pos..l]) + Pow(l - pos)) / 2
  {
    hide Val, Pow;
  }

  // shift the limbs from pos up right by one bit, a one coming in at the top
  method ShiftDown(tab: seq<Limb>, pos: nat, l: nat) returns (t: seq<Limb>)
    requires pos <= l <= |tab|
    ensures |t| == |tab| && t[..pos] == tab[..pos] && t[l..] == tab[l..]
    ensures Val(t[pos..l]) == (Val(tab[pos..l]) + Pow(l - pos)) / 2
  {
    hide Val, Pow, ShiftedFrom;
    t := tab;
    var v: Limb := 1;
    var i := l;
    ShiftStart(tab, pos, l);
    while i > pos
      invariant pos <= i <= l && ShiftedFrom(tab, t, pos, l, i, v)
    {
      ShiftNext(tab, t, pos, l, i, v);
      i := i - 1;
      var a := t[i];
      t := t[i := a / 2 + (v % 2) * (B / 2)];
      v := a;
    }
    ShiftEnd(tab, t, pos, l, v);
  }

  // the limbs from pos up with the bits below j cleared, and nothing below pos
  ghost function Cleared(tab: seq<Limb>, l: nat, e: int): nat
    requires l <= |tab| && e < 64 * l
  {
    if e < 0 then Val(tab[..l])
    else Times(Down(Val(tab[e / 64..l]), Two(e % 64)), Pow(e / 64))
  }

  // the bits below e are cleared in t, whose limbs count from pos on
  ghost predicate Masked(tab: seq<Limb>, t: seq<Limb>, l: nat, e: int, pos: nat)
    requires 1 <= l <= |tab| && e < 64 * l
  {
    && pos < l && |t| == |tab| && t[l - 1] >= B / 2
    && Times(Val(t[pos..l]), Pow(pos)) == Cleared(tab, l, e)
  }

  lemma {:induction false} MaskBelow(tab: seq<Limb>, l: nat, e: int)
    requires 1 <= l <= |tab| && e < 64 * l && tab[l - 1] >= B / 2
    ensures e < 0 ==> Masked(tab, tab, l, e, 0)
    ensures e >= 0 ==>
              var pos, x: int := e / 64, tab[e / 64];
              var v := x - x % Two(e % 64);
              0 <= v < B && Masked(tab, tab[pos := v], l, e, pos) && (e % 64 == 0 ==> v == x)
  {
    hide Val, Two, Times, Down;
    if e < 0 {
      assert tab[0..l] == tab[..l];
      TimesOne(Val(tab[..l]));
    } else {
      var pos := e / 64;
      MaskRow(tab[pos..l], e % 64);
      var v := tab[pos] - tab[pos] % Two(e % 64);
      assert tab[pos := v][pos..l] == [v] + tab[pos + 1..l] && tab[pos..l][1..] == tab[pos + 1..l];
    }
  }

  lemma {:induction false} TimesOne(u: nat)
    ensures Times(u, Pow(0)) == u
  {
  }

  // the row without its zero limbs
  lemma {:induction false} TrimDone(tab: seq<Limb>, t: seq<Limb>, l: nat, e: int, pos: nat, i: nat)
    requires 1 <= l <= |tab| && e < 64 * l && Masked(tab, t, l, e, pos) && pos <= i < l
    requires t[i] != 0 && Val(t[pos..l]) == Pow(i - pos) * Val(t[pos..l][i - pos..])
    ensures Holds(t[i..l], l, false, Cleared(tab, l, e))
  {
    hide Val, Pow, Times, Cleared;
    assert t[pos..l][i - pos..] == t[i..l];
    PowAdd(pos, i - pos);
    TrimNumbers(Val(t[pos..l]), Val(t[i..l]), Pow(pos), Pow(i - pos), Pow(i));
  }

  // keep the bits from e up, and remove trailing zero limbs
  method Trim(tab: seq<Limb>, l: nat, e: int) returns (t: seq<Limb>)
    requires 1 <= l <= |tab| && e < 64 * l && tab[l - 1] >= B / 2
    ensures Holds(t, l, false, Cleared(tab, l, e))
  {
    hide Val, Pow, Two, Times, Down, Masked, Cleared, Holds;
    MaskBelow(tab, l, e);
    t := tab;
    var i := FloorDiv(e);
    if i >= 0 {
      var shift := e % 64;
      if shift != 0 {
        t := t[i := t[i] - t[i] % Two(shift)];
      } else {
        assert t == t[i := t[i]];
      }
    } else {
      i := 0;
    }
    ghost var pos := i;
    MaskedTop(tab, t, l, e, pos);
    i := SkipZeros(t, i, l);
    TrimDone(tab, t, l, e, pos, i);
    t := t[i..l];
  }

  lemma {:induction false} MaskedTop(tab: seq<Limb>, t: seq<Limb>, l: nat, e: int, pos: nat)
    requires 1 <= l <= |tab| && e < 64 * l && Masked(tab, t, l, e, pos)
    ensures pos < l <= |t| && t[l - 1] >= B / 2
  {
  }

  method SkipZeros(t: seq<Limb>, pos: nat, l: nat) returns (i: nat)
    requires pos < l <= |t| && t[l - 1] >= B / 2
    ensures pos <= i < l && t[i] != 0 && Val(t[pos..l]) == Pow(i - pos) * Val(t[pos..l][i - pos..])
  {
    hide Val, Pow;
    ghost var row := t[pos..l];
    i := pos;
    ValNone();
    assert row[..0] == [];
    while t[i] == 0
      invariant pos <= i < l && Val(row[..i - pos]) == 0
      decreases l - i
    {
      assert row[i - pos] == t[i];
      ValNext(row, i - pos);
      i := i + 1;
    }
    ValSplit(row, i - pos);
  }

  lemma {:induction false} TrimNumbers(r: nat, k: nat, p: nat, q: nat, pq: nat)
    requires pq == p * q && r == q * k
    ensures k * pq * 1 == r * p == Times(r, p)
  {
    assert k * (p * q) == (q * k) * p;
  }

  lemma {:induction false} DownIs(u: nat, t: nat, q: nat)
    requires t > 0 && u / t == q
    ensures Down(u, t) == Times(q, t) == q * t
  {
  }

  lemma {:induction false} MaskRow(s: seq<Limb>, j: nat)
    requires s != [] && j < 64
    ensures 0 <= s[0] - s[0] % Two(j) < B && (j == 0 ==> s[0] % Two(j) == 0)
    ensures Val([s[0] - s[0] % Two(j)] + s[1..]) == Down(Val(s), Two(j))
    ensures s[0] >= B / 2 ==> s[0] - s[0] % Two(j) >= B / 2
  {
    assert j == 0 ==> Two(j) == 1;
    hide Val, Pow, Two, Times;
    LowBits(s, 0, j);
    assert s[..0] == [] && s[0..] == s && s == [s[0]] + s[1..];
    ValNone();
    var t: nat, x: nat := Two(j), s[0];
    DivMod(x, t);
    DivMod(Val(s), t);
    ValFirst(s[0], s[1..]);
    ValFirst(x - x % t, s[1..]);
    assert Val(s) % t == x % t by {
      assert 0 * j == 0;
    }
    DownIs(Val(s), t, Val(s) / t);
    assert t * (Val(s) / t) == Val(s) / t * t;
    TwoSplitEven(j);
    MaskTop(x, t, Two(63 - j));
  }

  lemma {:induction false} MaskTop(x: nat, t: nat, w: nat)
    requires t > 0 && t * (2 * w) == B
    ensures x >= B / 2 ==> x - x % t >= B / 2
  {
    DivMod(x, t);
    assert t * (2 * w) == 2 * (w * t);
    if x >= B / 2 {
      MulAdd(x / t, 1, t);
      assert (x / t) * t == t * (x / t);
      Cancel(w, x / t + 1, t);
      MulMono(w, x / t, t);
    }
  }

  // bf_t with a finite, non-zero value, or the zero and infinity made of it
  class BigFloat {
    var sign: bool
    var expn: int
    var tab: seq<Limb>

    // add one at bit e; when that carries out of the top the limbs are halved and the exponent grows
    method AddUlp(l: nat, e: nat)
      requires 1 <= l <= |tab| && e < 64 * l
      modifies this`tab, this`expn
      ensures |tab| == old(|tab|) && tab[..e / 64] == old(tab)[..e / 64]
      ensures var h := Val(old(tab)[e / 64..l]) + Two(e % 64);
              var grown := h >= Pow(l - e / 64);
              expn == old(expn) + (if grown then 1 else 0) && Val(tab[e / 64..l]) == if grown then h / 2 else h
    {
      hide Val, Two, Pow;
      var pos := e / 64;
      LimbBit(e % 64);
      var carry;
      tab, carry := AddCarry(tab, pos, l, Two(e % 64));
      if carry != 0 {
        tab := ShiftDown(tab, pos, l);
        expn := expn + 1;
      }
    }

    // bf_set_zero
    method SetZero()
      modifies this`tab, this`expn
      ensures tab == [] && expn == BF_EXP_ZERO
    {
      tab, expn := [], BF_EXP_ZERO;
    }

    // bf_set_overflow: infinity, or the largest finite number
    method SetOverflow(prec: nat, flags: Flags) returns (ret: Status)
      requires flags.expBits >= 1 && (prec >= 1 || ToInfinity(sign, prec, flags.mode))
      modifies this`tab, this`expn
      ensures Overflowed(sign, prec, flags, expn, tab) && ret == Status(true, false, true)
    {
      hide Val, Pow, Two;
      if ToInfinity(sign, prec, flags.mode) {
        tab, expn := [], BF_EXP_INF;
      } else {
        var l := (prec + 63) / 64;
        var low := (64 - prec % 64) % 64;
        LimbBit(low);
        tab := seq(l, i => if i == 0 then B - Two(low) else B - 1);
        Ones(l, Two(low));
        OnesAbove(l, prec, low);
        expn := ExpRange(flags);
      }
      ret := Status(true, false, true);
    }

    // __bf_round. With no precision and an exponent past the range there would be no limb for the
    // largest finite number.
    method Round(prec1: nat, flags: Flags, l: nat, known: bool) returns (ret: Status)
      requires flags.expBits >= 1 && 1 <= l <= |tab| && tab[l - 1] >= B / 2
      requires !flags.radpntPrec && flags.subnormal && expn < ExpMin(flags) ==> prec1 != BF_PREC_INF
      requires prec1 >= 1 || ToInfinity(sign, prec1, flags.mode) || WithinRange(sign, tab[..l], expn, prec1, flags)
      modifies this`tab, this`expn
      ensures RoundsTo(sign, old(tab)[..l], old(expn), prec1, flags, known, expn, tab, ret)
    {
      hide Val, Pow, Two, Holds, RoundedSig, UpBit, Dropped, Cleared, Overflowed, ToInfinity, Precision, ExpMin,
        ExpRange,
        Inexact;
      ghost var m := tab[..l];
      var prec := Precision(expn, prec1, flags);
      var addOne, inexact := GetRndAdd(tab, sign, l, prec, flags.mode);
      ret := Status(false, false, known || inexact);
      ghost var e0 := expn;
      if prec <= 0 {
        NoBits(m, sign, prec, flags.mode);
        ret := Status(false, true, true);
        if addOne {
          tab, expn := [B / 2], expn + 1 - prec;
        } else {
          SetZero();
        }
        return;
      }
      var e := 64 * l - prec;
      KeptSig(tab, l, sign, prec, flags.mode);
      if addOne {
        ghost var was := tab;
        AddUlp(l, e);
        AddedSig(was, tab, l, sign, prec, flags.mode);
      }
      if expn < ExpMin(flags) {
        if flags.subnormal {
          if ret.inexact {
            ret := ret.(underflow := true);
          }
        } else {
          ret := Status(false, true, true);
          SetZero();
          return;
        }
      }
      if expn > ExpRange(flags) {
        ret := SetOverflow(prec1, flags);
        return;
      }
      ghost var y := Cleared(tab, l, e);
      tab := Trim(tab, l, e);
      HoldsGrown(tab, l, RoundedSig(flags.mode, sign, Val(m), 64 * l, prec), expn - e0 == 1, y);
    }
  }

  predicate ToInfinity(sign: bool, prec: nat, mode: Mode) {
    prec == BF_PREC_INF || mode.RNDN? || mode.RNDNA? || mode.RNDA? || (mode.RNDD? && sign) || (mode.RNDU? && !sign)
  }

  // the exponent after rounding, when a carry leaves the top limb, is not past the range
  ghost predicate WithinRange(sign: bool, m: seq<Limb>, e0: int, prec1: nat, flags: Flags)
    requires flags.expBits >= 1
  {
    var n, prec := 64 * |m|, Precision(e0, prec1, flags);
    prec <= 0 || e0 + (if RoundedSig(flags.mode, sign, Val(m), n, prec) >= Two(n) then 1 else 0) <= ExpRange(flags)
  }

  // infinity, or a significand of prec ones with the largest exponent
  ghost predicate Overflowed(sign: bool, prec: nat, flags: Flags, expn: int, tab: seq<Limb>)
    requires flags.expBits >= 1
  {
    if ToInfinity(sign, prec, flags.mode) then tab == [] && expn == BF_EXP_INF
    else
      expn == ExpRange(flags) && |tab| == (prec + 63) / 64 && Val(tab) == Times(Two(prec) - 1, Two(64 * |tab| - prec))
  }

  // The result of rounding the row m with exponent e0. x is the rounded significand in units of
  // the lowest bit of m, and known tells that m is not exact already.
  ghost predicate RoundsTo(sign: bool, m: seq<Limb>, e0: int, prec1: nat, flags: Flags, known: bool, expn: int,
                           tab: seq<Limb>, ret: Status)
    requires flags.expBits >= 1
  {
    var n, prec := 64 * |m|, Precision(e0, prec1, flags);
    var x := RoundedSig(flags.mode, sign, Val(m), n, prec);
    var inexact := known || Inexact(flags.mode, Val(m), n, prec);
    var grown := x >= Two(n);
    var e1 := e0 + if grown then 1 else 0;
    if prec <= 0 then
      && ret == Status(false, true, true)
      && if x == 0 then tab == [] && expn == BF_EXP_ZERO
         else x == Two(n - prec) && tab == [B / 2] && expn == e0 + 1 - prec
    else if e1 < ExpMin(flags) && !flags.subnormal then
      tab == [] && expn == BF_EXP_ZERO && ret == Status(false, true, true)
    else if e1 > ExpRange(flags) then
      Overflowed(sign, prec1, flags, expn, tab) && ret == Status(true, false, true)
    else
      expn == e1 && Holds(tab, |m|, grown, x) && ret == Status(false, inexact && e1 < ExpMin(flags), inexact)
  }

  lemma {:induction false} LimbBit(j: nat)
    requires j < 64
    ensures 1 <= Two(j) < B
  {
    TwoSplit(0, j);
    TwoSplitEven(j);
    MulMono(1, Two(63 - j), Two(j));
    assert Two(j) * (2 * Two(63 - j)) == 2 * (Two(j) * Two(63 - j)) && Two(63 - j) * Two(j) == Two(j) * Two(63 - j);
  }

  lemma {:induction false} ShrRow(y: seq<Limb>, i: nat, a: Limb, v: Limb, done: seq<Limb>)
    requires i < |y| && |done| == |y| - i - 1 && y[i] == a && 0 <= a / 2 + (v % 2) * (B / 2) < B
    requires Val(y[i + 1..]) + 1 * Pow(|y| - i - 1) == 2 * Val(done) + v % 2
    ensures Val(y[i..]) + 1 * Pow(|y| - i) == 2 * Val([a / 2 + (v % 2) * (B / 2)] + done) + a % 2
  {
    hide Val, Pow;
    assert y[i..] == [a] + y[i + 1..];
    ValFirst(a, y[i + 1..]);
    ValFirst(a / 2 + (v % 2) * (B / 2), done);
    PowNext(|y| - i - 1);
    ShrStep(a, a / 2, a % 2, v % 2, 2, B / 2, Val(y[i + 1..]), Val(done), 1, Pow(|y| - i - 1));
  }

  // where the carry loop stopped, and whether the sum fits
  lemma {:induction false} AddedTop(t: seq<Limb>, was: seq<Limb>, pos: nat, i: nat, l: nat, x: seq<Limb>, b: Limb,
                                    carry: Limb)
    requires pos <= i <= l <= |t| && |t| == |was| && t[i..] == was[i..] && x == was[pos..l] && 1 <= b && pos < l
    requires AddedUi(t[pos..i], x, i - pos, b, carry) && (carry == 0 || i == l) && (i > pos ==> carry <= 1)
    ensures Val(t[pos..l]) + carry * Pow(l - pos) == Val(x) + b && carry <= 1
    ensures carry == 0 <==> Val(x) + b < Pow(l - pos)
  {
    hide Val, Pow;
    var s := t[pos..l];
    assert s[..i - pos] == t[pos..i] && s[i - pos..] == x[i - pos..] by {
      assert s[i - pos..] == t[i..][..l - i] && x[i - pos..] == was[i..][..l - i];
    }
    ValSplit(s, i - pos);
    ValSplit(x, i - pos);
    ValBound(s);
    if carry != 0 {
      assert x[..i - pos] == x;
    }
  }

  lemma {:induction false} Ones(l: nat, low: nat)
    requires 1 <= low < B && l >= 1
    ensures Val(seq(l, i => if i == 0 then B - low else B - 1)) == Pow(l) - low
  {
    var s := seq(l, i => if i == 0 then B - low else B - 1);
    if l == 1 {
      assert s == [B - low];
      ValOne(B - low);
    } else {
      Ones(l - 1, low);
      var t := seq(l - 1, i => if i == 0 then B - low else B - 1);
      assert s == t + [B - 1];
      ValPush(t, B - 1);
    }
  }

  // rounding to no bits at all leaves nothing or one unit
  lemma {:induction false} NoBits(m: seq<Limb>, sign: bool, prec: int, mode: Mode)
    requires prec <= 0 && |m| >= 1
    ensures var n := 64 * |m|;
            RoundedSig(mode, sign, Val(m), n, prec)
            == (if UpBit(mode, sign, Val(m), Two(n - prec - 1)) then Two(n - prec) else 0)
            && Two(n - prec) > 0
  {
    hide Val, UpBit;
    var n := 64 * |m|;
    assert Two(n - prec) == 2 * Two(n - prec - 1);
    BitAbove(m, n - prec);
    assert Times(1, Two(n - prec)) == Two(n - prec) && Times(0, Two(n - prec)) == 0;
  }

  lemma {:induction false} TimesAssoc(q: nat, t: nat, p: nat)
    ensures Times(Times(q, t), p) == Times(q, p * t)
  {
    assert (q * t) * p == q * (p * t);
  }

  // without adding one, clearing the bits below e is the rounding
  lemma {:induction false} KeptSig(tab: seq<Limb>, l: nat, sign: bool, prec: int, mode: Mode)
    requires 1 <= l <= |tab| && prec > 0
    ensures var m, n := Val(tab[..l]), 64 * l;
            !(prec < n && UpBit(mode, sign, m, Two(n - prec - 1))) ==>
              RoundedSig(mode, sign, m, n, prec) == Cleared(tab, l, n - prec) && Cleared(tab, l, n - prec) < Two(n)
  {
    hide Val, UpBit, Times, Two;
    var m, n, e := Val(tab[..l]), 64 * l, 64 * l - prec;
    ValBound(tab[..l]);
    TwoPow(l);
    if e == 0 {
      assert tab[0..l] == tab[..l];
      NoneDropped(m);
    } else if e > 0 {
      SplitAt(tab, l, e);
      TimesBelow(m, Two(e));
      TwoNext(e - 1);
    }
  }

  lemma {:induction false} NoneDropped(m: nat)
    ensures Times(Down(m, Two(0)), Pow(0)) == m
  {
    assert Two(0) == 1;
  }

  lemma {:induction false} TimesBelow(m: nat, t: nat)
    requires t > 0
    ensures Down(m, t) <= m
  {
    DivMod(m, t);
  }

  lemma {:induction false} SplitAt(tab: seq<Limb>, l: nat, e: nat)
    requires l <= |tab| && e < 64 * l
    ensures Val(tab[..l]) / Two(e) == Val(tab[e / 64..l]) / Two(e % 64)
    ensures Cleared(tab, l, e) == Down(Val(tab[..l]), Two(e))
  {
    hide Val, Times, Two, Pow, Down;
    DownIs(Val(tab[..l]), Two(e), Val(tab[..l]) / Two(e));
    DownIs(Val(tab[e / 64..l]), Two(e % 64), Val(tab[e / 64..l]) / Two(e % 64));
    var m, pos, sh := tab[..l], e / 64, e % 64;
    assert m[pos..] == tab[pos..l];
    LowBits(m, pos, sh);
    TwoSplit(pos, sh);
    TimesAssoc(Val(m) / Two(e), Two(sh), Pow(pos));
  }

  lemma {:induction false} OnesAbove(l: nat, prec: nat, low: nat)
    requires prec + low == 64 * l
    ensures Times(Two(prec) - 1, Two(low)) == Pow(l) - Two(low)
  {
    hide Two, Pow;
    TwoPow(l);
    TwoAdd(prec, low);
    MulAdd(Two(prec), -1, Two(low));
  }

  // the quotient after adding one, with the top bit moved back inside when it carried out
  lemma {:induction false} AddedNumbers(q: nat, lo: nat, t: nat, w: nat, h: nat)
    requires lo < t && h == q * t + lo + t && q * t + lo < (2 * w) * t
    ensures h >= (2 * w) * t <==> q + 1 >= 2 * w
    ensures h < (2 * w) * t ==> h / t == q + 1
    ensures h >= (2 * w) * t ==> q + 1 == 2 * w && (h / 2) / t == w
  {
    MulAdd(q, 1, t);
    Cancel(q, 2 * w, t);
    if q + 1 < 2 * w {
      MulMono(q + 2, 2 * w, t);
      MulAdd(q, 2, t);
      QuotientIs(h, t, q + 1, lo);
    } else {
      assert (2 * w) * t == 2 * (w * t);
      QuotientIs(h / 2, t, w, lo / 2);
    }
  }

  lemma {:induction false} AddedSig(was: seq<Limb>, tab: seq<Limb>, l: nat, sign: bool, prec: int, mode: Mode)
    requires 1 <= l <= |was| && |tab| == |was| && 0 < prec < 64 * l && was[l - 1] >= B / 2
    requires UpBit(mode, sign, Val(was[..l]), Two(64 * l - prec - 1))
    requires var e := 64 * l - prec;
             var h := Val(was[e / 64..l]) + Two(e % 64);
             Val(tab[e / 64..l]) == if h >= Pow(l - e / 64) then h / 2 else h
    ensures var e := 64 * l - prec;
            var x, grown := RoundedSig(mode, sign, Val(was[..l]), 64 * l, prec),
              Val(was[e / 64..l]) + Two(e % 64) >= Pow(l - e / 64);
            && grown == (x >= Two(64 * l)) && x == Cleared(tab, l, e) * (if grown then 2 else 1) && tab[l - 1] >= B / 2
  {
    hide Val, UpBit, Times, Two, Pow, Down;
    var m, e := was[..l], 64 * l - prec;
    var pos, sh := e / 64, e % 64;
    var u, t, q := Val(was[pos..l]), Two(sh), Val(m) / Two(e);
    SplitAt(was, l, e);
    DivMod(u, t);
    assert (u / t) * t == t * (u / t);
    ValBound(was[pos..l]);
    TwoPow(l - pos);
    TwoAdd(prec, sh);
    TwoNext(prec - 1);
    AddedNumbers(q, u % t, t, Two(prec - 1), u + t);
    TwoSplit(pos, sh);
    TimesAssoc(q + 1, t, Pow(pos));
    TimesAssoc(Two(prec - 1), t, Pow(pos));
    TwoAdd(prec, e);
    TwoNext(e - 1);
    GrownSig(q + 1, Two(prec - 1), Two(e));
    TopKept(was[pos..l], tab[pos..l], t);
    DownIs(Val(tab[pos..l]), t, if u + t >= Pow(l - pos) then Two(prec - 1) else q + 1);
  }

  lemma {:induction false} GrownSig(q: nat, w: nat, t: nat)
    requires t > 0
    ensures q >= 2 * w <==> Times(q, t) >= (2 * w) * t
    ensures Times(2 * w, t) == 2 * Times(w, t)
  {
    Cancel(2 * w, q, t);
    if q >= 2 * w {
      MulMono(2 * w, q, t);
    }
  }

  lemma {:induction false} TopKept(s: seq<Limb>, r: seq<Limb>, t: nat)
    requires |s| == |r| >= 1 && Normalized(s[|s| - 1])
    requires Val(r) == if Val(s) + t >= Pow(|s|) then (Val(s) + t) / 2 else Val(s) + t
    ensures Normalized(r[|r| - 1])
  {
    hide Val;
    NormalizedVal(s);
    assert Pow(|s|) == B * Pow(|s| - 1) && (B * Pow(|s| - 1)) % 2 == 0 by {
      assert B * Pow(|s| - 1) == 2 * (0x8000_0000_0000_0000 * Pow(|s| - 1));
    }
    hide Pow;
    TopNormalized(r);
  }

  lemma {:induction false} HoldsGrown(tab: seq<Limb>, l: nat, x: nat, grown: bool, y: nat)
    requires Holds(tab, l, false, y) && x == y * (if grown then 2 else 1)
    ensures Holds(tab, l, grown, x)
  {
  }

  // y is the significand m, rounded to the precision, or m itself when there is nothing to drop
  ghost predicate Target(sign: bool, m: seq<Limb>, prec: int, mode: Mode, y: nat) {
    if prec < 64 * |m| then Rounded(mode, sign, Val(m), y, Two(64 * |m| - prec)) else y == Val(m)
  }

  // What rounding delivers in the deterministic modes, wherever it does not overflow. With bits
  // to keep, the number left is the one correctly rounded value y and inexact tells that it is
  // not m, unless it lies below the exponent range; without, y is nothing or one unit.
  lemma {:induction false} RoundsCorrectly(sign: bool, m: seq<Limb>, e0: int, prec1: nat, flags: Flags, expn: int,
                                           tab: seq<Limb>, ret: Status, y: nat)
    requires flags.expBits >= 1 && flags.mode != RNDF && |m| >= 1 && !ret.overflow
    requires Target(sign, m, Precision(e0, prec1, flags), flags.mode, y)
    requires RoundsTo(sign, m, e0, prec1, flags, false, expn, tab, ret)
    ensures var prec := Precision(e0, prec1, flags);
            if prec <= 0 then
              && ret.inexact
              && if tab == [] then y == 0
                 else tab == [B / 2] && expn == e0 + 1 - prec && y == Two(64 * |m| - prec)
            else if tab != [] then
              Holds(tab, |m|, expn > e0, y) && (ret.inexact <==> y != Val(m)) && e0 <= expn <= e0 + 1
            else ret.underflow && e0 < ExpMin(flags) && !flags.subnormal
  {
    hide Val, Two, Pow, Dropped, UpBit, Holds, RoundedSig, Overflowed, Inexact, Precision, ExpMin, ExpRange, Target;
    TargetSig(sign, m, Precision(e0, prec1, flags), flags.mode, y);
    NonEmpty(tab, |m|, y);
  }

  lemma {:induction false} NonEmpty(tab: seq<Limb>, l: nat, x: nat)
    ensures forall grown: bool :: Holds(tab, l, grown, x) ==> tab != []
  {
  }

  lemma {:induction false} TargetSig(sign: bool, m: seq<Limb>, prec: int, mode: Mode, y: nat)
    requires mode != RNDF && Target(sign, m, prec, mode, y)
    ensures var n := 64 * |m|;
            && RoundedSig(mode, sign, Val(m), n, prec) == y
            && (Inexact(mode, Val(m), n, prec) <==> y != Val(m))
            && (prec >= n ==> y < Two(n))
  {
    hide Val, Two, Pow, Rounded, Dropped, UpBit;
    var n := 64 * |m|;
    if prec < n {
      RoundedSigCorrect(mode, sign, Val(m), n, prec);
      RoundedUnique(mode, sign, Val(m), RoundedSig(mode, sign, Val(m), n, prec), y, Two(n - prec));
      InexactChanged(mode, sign, Val(m), n, prec);
    } else {
      ValBound(m);
      TwoPow(|m|);
    }
  }

  lemma {:induction false} InexactChanged(mode: Mode, sign: bool, m: nat, n: nat, prec: int)
    requires prec < n && mode != RNDF
    ensures Inexact(mode, m, n, prec) <==> RoundedSig(mode, sign, m, n, prec) != m
  {
    hide Two;
    RoundedExact(mode, sign, m, n, prec);
  }

  // a rounding that never leaves more than the magnitude it is given
  ghost predicate RoundsDown(mode: Mode, sign: bool) {
    forall m: nat, x: int, ulp: int | ulp > 0 && Rounded(mode, sign, m, x, ulp) :: x <= m
  }

  lemma {:induction false} OverflowDirection(mode: Mode, sign: bool, prec: nat)
    requires mode != RNDF && prec != BF_PREC_INF
    ensures ToInfinity(sign, prec, mode) <==> !RoundsDown(mode, sign)
  {
    if ToInfinity(sign, prec, mode) {
      assert 4 % 4 == 0 && Rounded(mode, sign, 3, 4, 4);
    }
  }

  // a significand of prec ones is the largest of t limbs that keeps to the precision
  lemma {:induction false} LargestFinite(t: nat, prec: nat, y: nat)
    requires prec <= 64 * t && y < Pow(t) && y % Two(64 * t - prec) == 0
    ensures y <= Times(Two(prec) - 1, Two(64 * t - prec))
  {
    hide Two, Pow;
    var u := Two(64 * t - prec);
    TwoPow(t);
    TwoAdd(prec, 64 * t - prec);
    DivMod(y, u);
    assert u * (y / u) == (y / u) * u;
    Cancel(y / u, Two(prec), u);
    MulMono(y / u, Two(prec) - 1, u);
  }

  // What overflow delivers in the deterministic modes (section 7.4 of IEEE 754-2008): infinity
  // when the mode may round magnitudes up or the precision is unbounded, else the largest finite
  // number of the precision.
  lemma {:induction false} OverflowsCorrectly(sign: bool, m: seq<Limb>, e0: int, prec1: nat, flags: Flags, expn: int,
                                              tab: seq<Limb>, ret: Status, y: nat)
    requires flags.expBits >= 1 && flags.mode != RNDF && |m| >= 1 && ret.overflow
    requires RoundsTo(sign, m, e0, prec1, flags, false, expn, tab, ret)
    ensures ret.inexact && !WithinRange(sign, m, e0, prec1, flags)
    ensures if prec1 == BF_PREC_INF || !RoundsDown(flags.mode, sign) then tab == [] && expn == BF_EXP_INF
            else
              && expn == ExpRange(flags) && |tab| == (prec1 + 63) / 64 && Val(tab) % Two(64 * |tab| - prec1) == 0
              && (y < Pow(|tab|) && y % Two(64 * |tab| - prec1) == 0 ==> y <= Val(tab))
  {
    hide Val, Two, Pow, RoundedSig, RoundsDown, Precision, ExpMin, ExpRange, Inexact, Holds;
    if prec1 != BF_PREC_INF {
      OverflowDirection(flags.mode, sign, prec1);
      if !ToInfinity(sign, prec1, flags.mode) {
        var u := Two(64 * |tab| - prec1);
        assert Val(tab) == (Two(prec1) - 1) * u + 0;
        QuotientIs(Val(tab), u, Two(prec1) - 1, 0);
        if y < Pow(|tab|) && y % u == 0 {
          LargestFinite(|tab|, prec1, y);
        }
      }
    }
  }
}
