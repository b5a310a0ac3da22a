/** Code point sets of libunicode.c: a set is a sorted list of points at which
    membership flips, held in a CharRange that the set operations rewrite. */
module CodePointSet {

  const UINT32_MAX: nat := 0xffff_ffff

  // number of points not above c
  function Rank(points: seq<nat>, c: nat): (r: nat)
    ensures r <= |points|
  {
    if points == [] then 0
    else Rank(points[..|points| - 1], c) + (if points[|points| - 1] <= c then 1 else 0)
  }

  // c belongs to the set when an odd number of points is not above it
  predicate InSet(points: seq<nat>, c: nat) { Rank(points, c) % 2 == 1 }

  predicate Sorted(points: seq<nat>) {
    forall i, j | 0 <= i < j < |points| :: points[i] <= points[j]
  }

  // what the set operations take: complete intervals of 32-bit points, in order
  predicate IsRange(points: seq<nat>) {
    |points| % 2 == 0 && Sorted(points) && forall i | 0 <= i < |points| :: points[i] <= UINT32_MAX
  }

  // what they give back: no empty and no adjacent intervals
  predicate Canonical(points: seq<nat>) {
    IsRange(points) && forall i, j | 0 <= i < j < |points| :: points[i] < points[j]
  }

  lemma {:induction false} RankSplit(s: seq<nat>, t: seq<nat>, c: nat)
    ensures Rank(s + t, c) == Rank(s, c) + Rank(t, c)
  {
    if t == [] {
      assert s + t == s;
    } else {
      assert (s + t)[..|s + t| - 1] == s + t[..|t| - 1];
      RankSplit(s, t[..|t| - 1], c);
    }
  }

  lemma {:induction false} RankAll(s: seq<nat>, c: nat)
    requires forall i | 0 <= i < |s| :: s[i] <= c
    ensures Rank(s, c) == |s|
  {
    if s != [] {
      RankAll(s[..|s| - 1], c);
    }
  }

  lemma {:induction false} RankNone(s: seq<nat>, c: nat)
    requires forall i | 0 <= i < |s| :: c < s[i]
    ensures Rank(s, c) == 0
  {
    if s != [] {
      RankNone(s[..|s| - 1], c);
    }
  }

  // In a sorted list the rank is the position where c falls.
  lemma {:induction false} RankAt(s: seq<nat>, c: nat, k: nat)
    requires Sorted(s) && k <= |s|
    requires k > 0 ==> s[k - 1] <= c
    requires k < |s| ==> c < s[k]
    ensures Rank(s, c) == k
  {
    if k == |s| {
      RankAll(s, c);
    } else {
      RankAt(s[..|s| - 1], c, k);
    }
  }

  lemma {:induction false} RankPosition(s: seq<nat>, c: nat) returns (k: nat)
    requires Sorted(s)
    ensures k <= |s| && k == Rank(s, c)
    ensures k > 0 ==> s[k - 1] <= c
    ensures k < |s| ==> c < s[k]
  {
    k := 0;
    while k < |s| && s[k] <= c
      invariant k <= |s|
      invariant k > 0 ==> s[k - 1] <= c
    {
      k := k + 1;
    }
    RankAt(s, c, k);
  }

  predicate InInterval(points: seq<nat>, c: nat, k: nat) {
    2 * k + 1 < |points| && points[2 * k] <= c < points[2 * k + 1]
  }

  // The flip-counting reading of a list is the interval reading of its comment.
  lemma {:induction false} InSetIntervals(points: seq<nat>, c: nat)
    requires IsRange(points)
    ensures InSet(points, c) <==> exists k: nat :: InInterval(points, c, k)
  {
    var r := RankPosition(points, c);
    if r % 2 == 1 {
      assert InInterval(points, c, r / 2);
    }
    if k: nat :| InInterval(points, c, k) {
      RankAt(points, c, 2 * k + 1);
    }
  }

  // Canonical lists are determined by the set they denote.
  lemma {:induction false} CanonicalUnique(s: seq<nat>, t: seq<nat>)
    requires Canonical(s) && Canonical(t)
    requires forall c: nat :: InSet(s, c) <==> InSet(t, c)
    ensures s == t
  {
    if s != t {
      var k := FirstDifference(s, t);
      if k < |s| && (k < |t| ==> s[k] < t[k]) {
        DifferenceShows(s, t, k);
      } else {
        DifferenceShows(t, s, k);
      }
    }
  }

  lemma {:induction false} FirstDifference(s: seq<nat>, t: seq<nat>) returns (k: nat)
    requires s != t
    ensures k <= |s| && k <= |t| && s[..k] == t[..k]
    ensures k < |s| || k < |t|
    ensures k < |s| && k < |t| ==> s[k] != t[k]
  {
    k := 0;
    while k < |s| && k < |t| && s[k] == t[k]
      invariant k <= |s| && k <= |t| && s[..k] == t[..k]
    {
      k := k + 1;
    }
    assert s[..|s|] == s && t[..|t|] == t;
  }

  lemma {:induction false} DifferenceShows(s: seq<nat>, t: seq<nat>, k: nat)
    requires Canonical(s) && Canonical(t) && k < |s| && k <= |t| && s[..k] == t[..k]
    requires k < |t| ==> s[k] < t[k]
    ensures InSet(s, s[k]) != InSet(t, s[k])
  {
    RankAt(s, s[k], k + 1);
    if k > 0 {
      assert t[k - 1] == t[..k][k - 1] == s[..k][k - 1] == s[k - 1];
    }
    RankAt(t, s[k], k);
  }

  datatype SetOp = Union | Inter | Xor

  predicate Combine(op: SetOp, a: bool, b: bool) {
    match op
    case Union => a || b
    case Inter => a && b
    case Xor => a != b
  }

  // Appending copies of v above a list changes nothing below v and everything from v on.
  lemma {:induction false} AppendPoint(s: seq<nat>, t: seq<nat>, v: nat, c: nat)
    requires Within(s, v) && forall i | 0 <= i < |t| :: t[i] == v
    ensures InSet(s + t, c) == if c < v then InSet(s, c) else |s + t| % 2 == 1
  {
    RankSplit(s, t, c);
    if c < v {
      RankNone(t, c);
    } else {
      RankAll(s, c);
      RankAll(t, c);
    }
  }

  // every point of s is at most every point of t from n on
  predicate Before(s: seq<nat>, t: seq<nat>, n: nat) {
    forall x, y | 0 <= x < |s| && n <= y < |t| :: s[x] <= t[y]
  }

  // The sweep has consumed a[..i] and b[..j]; out is the part of the result they decide.
  ghost predicate Sweeping(out: seq<nat>, a: seq<nat>, b: seq<nat>, op: SetOp, i: nat, j: nat)
    requires i <= |a| && j <= |b|
  {
    && SweepOrdered(out, a, b, i, j)
    && (|out| % 2 == 1) == Combine(op, i % 2 == 1, j % 2 == 1)
    && forall c: nat :: InSet(out, c) == Combine(op, InSet(a[..i], c), InSet(b[..j], c))
  }

  ghost predicate SweepOrdered(out: seq<nat>, a: seq<nat>, b: seq<nat>, i: nat, j: nat)
    requires i <= |a| && j <= |b|
  {
    && Sorted(out) && Within(out, UINT32_MAX)
    && Before(out, a, i) && Before(out, b, j)
    && Before(a[..i], b, j) && Before(b[..j], a, i)
  }

  predicate Within(points: seq<nat>, max: nat) {
    forall i | 0 <= i < |points| :: points[i] <= max
  }

  predicate Consumes(s: seq<nat>, i: nat, i': nat, v: nat) {
    i <= i' <= i + 1 && i' <= |s| && (i < i' ==> v == s[i]) && (i == i' < |s| ==> v < s[i])
  }

  // What is consumed is then at most v, and v at most what is left.
  lemma {:induction false} ConsumedBelow(s: seq<nat>, t: seq<nat>, i: nat, i': nat, j: nat, j': nat, v: nat)
    requires Sorted(s) && Sorted(t) && Consumes(s, i, i', v) && Consumes(t, j, j', v) && i + j < i' + j'
    requires Before(s[..i], t, j) && Before(t[..j], s, i)
    ensures Within(s[..i'], v) && Before([v], s, i') && Before(s[..i'], t, j')
  {
    forall x | 0 <= x < i' ensures s[..i'][x] <= v {
      if x < i {
        assert s[..i][x] == s[x];
      }
    }
  }

  lemma {:induction false} SweepOrder(out: seq<nat>, a: seq<nat>, b: seq<nat>, i: nat, j: nat, i': nat, j': nat, v: nat)
    requires IsRange(a) && IsRange(b) && Consumes(a, i, i', v) && Consumes(b, j, j', v) && i + j < i' + j'
    requires SweepOrdered(out, a, b, i, j)
    ensures SweepOrdered(out, a, b, i', j') && SweepOrdered(out + [v], a, b, i', j')
    ensures Within(out, v) && Within(a[..i'], v) && Within(b[..j'], v)
  {
    ConsumedBelow(a, b, i, i', j, j', v);
    ConsumedBelow(b, a, j, j', i, i', v);
  }

  // Consuming a point v from either list or both keeps the sweep invariant.
  lemma {:induction false} SweepStep(out: seq<nat>, a: seq<nat>, b: seq<nat>, op: SetOp, i: nat, j: nat, i': nat,
                                     j': nat, v: nat)
    requires IsRange(a) && IsRange(b) && Consumes(a, i, i', v) && Consumes(b, j, j', v) && i + j < i' + j'
    requires Sweeping(out, a, b, op, i, j)
    ensures var isIn := Combine(op, i' % 2 == 1, j' % 2 == 1);
            Sweeping(if isIn != (|out| % 2 == 1) then out + [v] else out, a, b, op, i', j')
  {
    SweepOrder(out, a, b, i, j, i', j', v);
    forall c: nat {
      SweepPoint(out, a, b, op, i, j, i', j', v, c);
    }
  }

  lemma {:induction false} SweepPoint(out: seq<nat>, a: seq<nat>, b: seq<nat>, op: SetOp, i: nat, j: nat, i': nat,
                                      j': nat, v: nat, c: nat)
    requires Consumes(a, i, i', v) && Consumes(b, j, j', v)
    requires Within(out, v) && Within(a[..i'], v) && Within(b[..j'], v)
    requires InSet(out, c) == Combine(op, InSet(a[..i], c), InSet(b[..j], c))
    ensures var isIn := Combine(op, i' % 2 == 1, j' % 2 == 1);
            InSet(if isIn != (|out| % 2 == 1) then out + [v] else out, c)
              == Combine(op, InSet(a[..i'], c), InSet(b[..j'], c))
  {
    ConsumePoint(a, i, i', v, c);
    ConsumePoint(b, j, j', v, c);
    AppendPoint(out, [v], v, c);
    AppendPoint(out, [], v, c);
    assert out + [] == out;
  }

  lemma {:induction false} ConsumePoint(s: seq<nat>, i: nat, i': nat, v: nat, c: nat)
    requires Consumes(s, i, i', v) && Within(s[..i'], v)
    ensures InSet(s[..i'], c) == if c < v then InSet(s[..i], c) else i' % 2 == 1
  {
    assert s[..i'] == s[..i] + s[i..i'];
    forall x | 0 <= x < i ensures s[..i][x] <= v {
      assert s[..i][x] == s[..i'][x];
    }
    AppendPoint(s[..i], s[i..i'], v, c);
  }

  // The last 32-bit number is in no set: an interval that ends with it has no list.
  lemma {:induction false} TopOutside(points: seq<nat>)
    requires IsRange(points)
    ensures !InSet(points, 0xffff_ffff)
  {
    RankAll(points, UINT32_MAX);
  }

  // cr_compress has copied what remains of was[..i] into the first k points.
  ghost predicate Compressing(points: seq<nat>, was: seq<nat>, i: nat, k: nat) {
    && k <= i <= |points| == |was| && k % 2 == 0 && i % 2 == 0
    && points[i..] == was[i..]
    && Canonical(points[..k])
    && (0 < k && i < |was| ==> points[k - 1] < was[i])
    && SameParity(points[..k], was[..i])
  }

  ghost predicate SameParity(s: seq<nat>, t: seq<nat>) {
    forall c: nat :: InSet(s, c) == InSet(t, c)
  }

  lemma {:induction false} SameParityPair(s: seq<nat>, t: seq<nat>, x: nat, y: nat)
    requires SameParity(s, t)
    ensures SameParity(s + [x, y], t + [x, y])
  {
    forall c: nat ensures InSet(s + [x, y], c) == InSet(t + [x, y], c) {
      assert InSet(s, c) == InSet(t, c);
      RankSplit(s, [x, y], c);
      RankSplit(t, [x, y], c);
    }
  }

  // Two equal points cancel, at the end or just before the last one.
  lemma {:induction false} EqualPointsCancel(s: seq<nat>, x: nat, t: seq<nat>)
    ensures SameParity(s + [x, x] + t, s + t)
  {
    forall c: nat ensures InSet(s + [x, x] + t, c) == InSet(s + t, c) {
      RankSplit(s + [x, x], t, c);
      RankSplit(s, [x, x], c);
      RankSplit(s, t, c);
      assert [x, x][..1] == [x];
      assert Rank([x, x], c) == 2 * Rank([x], c);
    }
  }

  lemma {:induction false} SkipEmpty(points: seq<nat>, was: seq<nat>, i: nat, k: nat)
    requires IsRange(was) && Compressing(points, was, i, k) && i + 1 < |was| && points[i] == points[i + 1]
    ensures Compressing(points, was, i + 2, k)
  {
    assert points[i] == points[i..][0] == was[i] && points[i + 1] == points[i..][1] == was[i + 1];
    EqualPointsCancel(was[..i], was[i], []);
    assert was[..i + 2] == was[..i] + [was[i], was[i]] + [];
    assert was[..i] + [] == was[..i];
    assert points[i + 2..] == points[i..][2..] == was[i..][2..] == was[i + 2..];
  }

  lemma {:induction false} ExtendMerge(points: seq<nat>, was: seq<nat>, i: nat, j: nat)
    requires i <= j && j + 3 < |was| == |points| && points[i..] == was[i..] && points[j + 1] == points[j + 2]
    requires SameParity(was[..i] + [was[i], was[j + 1]], was[..j + 2])
    ensures SameParity(was[..i] + [was[i], was[j + 3]], was[..j + 4])
  {
    assert points[j + 1] == points[i..][j + 1 - i] && points[j + 2] == points[i..][j + 2 - i];
    var x, y := was[j + 1], was[j + 3];
    SameParityPair(was[..i] + [was[i], x], was[..j + 2], x, y);
    assert was[..j + 4] == was[..j + 2] + [x, y];
    EqualPointsCancel(was[..i] + [was[i]], x, [y]);
    assert was[..i] + [was[i]] + [x, x] + [y] == was[..i] + [was[i], x] + [x, y];
    assert was[..i] + [was[i]] + [y] == was[..i] + [was[i], y];
  }

  lemma {:induction false} CopyInterval(points: seq<nat>, was: seq<nat>, i: nat, j: nat, k: nat)
    requires IsRange(was) && Compressing(points, was, i, k)
    requires i <= j && j % 2 == 0 && j + 1 < |was| && points[i] != points[i + 1]
    requires j + 3 < |was| ==> points[j + 1] != points[j + 2]
    requires SameParity(was[..i] + [was[i], was[j + 1]], was[..j + 2])
    ensures Compressing(points[k := points[i]][k + 1 := points[j + 1]], was, j + 2, k + 2)
  {
    hide SameParity, Canonical, IsRange;
    CopiedParts(points, was, i, j, k);
    var next, last := points[k := points[i]][k + 1 := points[j + 1]], [was[i], was[j + 1]];
    SameParityPair(points[..k], was[..i], was[i], was[j + 1]);
    SameParityTrans(points[..k] + last, was[..i] + last, was[..j + 2]);
  }

  lemma {:induction false} CopiedParts(points: seq<nat>, was: seq<nat>, i: nat, j: nat, k: nat)
    requires IsRange(was) && Compressing(points, was, i, k)
    requires i <= j && j % 2 == 0 && j + 1 < |was| && points[i] != points[i + 1]
    requires j + 3 < |was| ==> points[j + 1] != points[j + 2]
    ensures points[i] == was[i] && points[j + 1] == was[j + 1]
    ensures var next := points[k := points[i]][k + 1 := points[j + 1]];
            && next[..k + 2] == points[..k] + [was[i], was[j + 1]] && Canonical(next[..k + 2])
            && next[j + 2..] == was[j + 2..] && (j + 2 < |was| ==> was[j + 1] < was[j + 2])
  {
    hide SameParity;
    assert points[i] == points[i..][0] == was[i] && points[j + 1] == points[i..][j + 1 - i] == was[j + 1];
    assert points[i + 1] == points[i..][1] == was[i + 1];
    if j + 2 < |was| {
      assert points[j + 2] == points[i..][j + 2 - i] == was[j + 2];
    }
    var next := points[k := points[i]][k + 1 := points[j + 1]];
    assert next[..k + 2] == points[..k] + [was[i], was[j + 1]];
    assert next[j + 2..] == points[i..][j + 2 - i..];
    CanonicalPush(points[..k], was[i], was[j + 1]);
  }

  lemma {:induction false} CanonicalPush(s: seq<nat>, x: nat, y: nat)
    requires Canonical(s) && (s != [] ==> s[|s| - 1] < x) && x < y <= UINT32_MAX
    ensures Canonical(s + [x, y])
  {
  }

  lemma {:induction false} SameParityTrans(s: seq<nat>, t: seq<nat>, u: seq<nat>)
    requires SameParity(s, t) && SameParity(t, u)
    ensures SameParity(s, u)
  {
    hide InSet;
  }

  // What cr_invert promises about the list it leaves
  ghost predicate Complements(points: seq<nat>, of: seq<nat>) {
    Canonical(points) && forall c: nat :: InSet(points, c) <==> c < 0xffff_ffff && !InSet(of, c)
  }

  class CharRange {
    var points: seq<nat>

    constructor ()
      ensures points == []
    {
      points := [];
    }

    // cr_add_point
    method AddPoint(v: nat)
      modifies this
      ensures points == old(points) + [v]
    {
      points := points + [v];
    }

    // cr_add_interval
    method AddInterval(c1: nat, c2: nat)
      modifies this
      ensures points == old(points) + [c1, c2]
    {
      points := points + [c1];
      points := points + [c2];
    }

    // cr_compress: merge consecutive intervals and drop empty ones, in place
    method Compress()
      requires IsRange(points)
      modifies this
      ensures Canonical(points)
      ensures forall c: nat :: InSet(points, c) <==> InSet(old(points), c)
    {
      hide InSet, Rank;
      ghost var was := points;
      var pt := points;
      var len := |pt|;
      var i, j, k := 0, 0, 0;
      assert pt[..k] == was[..i];
      while i + 1 < len
        invariant |pt| == len == |was| && i <= len
        invariant Compressing(pt, was, i, k)
      {
        if pt[i] == pt[i + 1] {
          SkipEmpty(pt, was, i, k);
          i := i + 2;
        } else {
          j := i;
          assert was[..i + 2] == was[..i] + [was[i], was[i + 1]];
          while j + 3 < len && pt[j + 1] == pt[j + 2]
            invariant i <= j && j % 2 == 0 && j + 1 < len
            invariant SameParity(was[..i] + [was[i], was[j + 1]], was[..j + 2])
          {
            ExtendMerge(pt, was, i, j);
            j := j + 2;
          }
          CopyInterval(pt, was, i, j, k);
          pt := pt[k := pt[i]];
          pt := pt[k + 1 := pt[j + 1]];
          k := k + 2;
          i := j + 2;
        }
      }
      assert was[..i] == was;
      points := pt[..k];
    }

    // cr_op: sweep over both lists, adding a point whenever the status changes
    method Op(a: seq<nat>, b: seq<nat>, op: SetOp)
      requires IsRange(a) && IsRange(b) && points == []
      modifies this
      ensures Canonical(points)
      ensures op == Union ==> forall c: nat :: InSet(points, c) <==> InSet(a, c) || InSet(b, c)
      ensures op == Inter ==> forall c: nat :: InSet(points, c) <==> InSet(a, c) && InSet(b, c)
      ensures op == Xor ==> forall c: nat :: InSet(points, c) <==> InSet(a, c) != InSet(b, c)
    {
      var aIdx, bIdx := 0, 0;
      while aIdx < |a| || bIdx < |b|
        invariant 0 <= aIdx <= |a| && 0 <= bIdx <= |b|
        invariant Sweeping(points, a, b, op, aIdx, bIdx)
        decreases |a| - aIdx + |b| - bIdx
      {
        ghost var a0, b0 := aIdx, bIdx;
        var v;
        if aIdx < |a| && bIdx < |b| && a[aIdx] == b[bIdx] {
          v := a[aIdx];
          aIdx := aIdx + 1;
          bIdx := bIdx + 1;
        } else if aIdx < |a| && (bIdx >= |b| || a[aIdx] < b[bIdx]) {
          v := a[aIdx];
          aIdx := aIdx + 1;
        } else {
          v := b[bIdx];
          bIdx := bIdx + 1;
        }
        SweepStep(points, a, b, op, a0, b0, aIdx, bIdx, v);
        var isIn := Combine(op, aIdx % 2 == 1, bIdx % 2 == 1);
        if isIn != (|points| % 2 == 1) {
          AddPoint(v);
        }
      }
      assert a[..aIdx] == a && b[..bIdx] == b;
      Compress();
      assert forall c: nat :: InSet(points, c) <==> Combine(op, InSet(a, c), InSet(b, c));
    }

    // cr_union1
    method Union1(b: seq<nat>)
      requires IsRange(points) && IsRange(b)
      modifies this
      ensures Canonical(points)
      ensures forall c: nat :: InSet(points, c) <==> InSet(old(points), c) || InSet(b, c)
    {
      var a := points;
      points := [];
      Op(a, b, Union);
    }

    // cr_union_interval; the caller's c2 + 1 is computed on 32 bits
    method UnionInterval(c1: nat, c2: nat)
      requires IsRange(points) && c1 <= c2 < 0xffff_ffff
      modifies this
      ensures Canonical(points)
      ensures forall c: nat :: InSet(points, c) <==> InSet(old(points), c) || c1 <= c <= c2
    {
      var bPt := [c1, (c2 + 1) % 0x1_0000_0000];
      forall c: nat ensures InSet(bPt, c) <==> c1 <= c <= c2 {
        RankAt(bPt, c, if c < c1 then 0 else if c <= c2 then 1 else 2);
      }
      Union1(bPt);
    }

    // cr_invert: complement within [0, UINT32_MAX)
    method Invert()
      requires IsRange(points)
      modifies this
      ensures Complements(points, old(points))
    {
      ghost var was := points;
      points := [0] + points + [UINT32_MAX];
      forall c: nat ensures InSet(points, c) <==> c < UINT32_MAX && !InSet(was, c) {
        RankSplit([0] + was, [UINT32_MAX], c);
        RankSplit([0], was, c);
        RankAt([0], c, 1);
        RankAt([UINT32_MAX], c, if c < UINT32_MAX then 0 else 1);
        if c >= UINT32_MAX {
          RankAll(was, c);
        }
      }
      Compress();
    }
  }

  // Inverting a canonical list twice gives it back, point for point.
  lemma {:induction false} InvertTwice(s: seq<nat>, once: seq<nat>, twice: seq<nat>)
    requires Canonical(s) && Complements(once, s) && Complements(twice, once)
    ensures twice == s
  {
    forall c: nat ensures InSet(twice, c) <==> InSet(s, c) {
      if c >= UINT32_MAX {
        RankAll(s, c);
      }
    }
    CanonicalUnique(twice, s);
  }
}
