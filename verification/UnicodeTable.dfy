/** Run-length property tables of libunicode.c: what a table stands for, the decoder that turns it
    into a set of code points, and the lookup that enters it through an index. */
module UnicodeTable {
  import opened Bytes
  import opened CodePointSet

  const UNICODE_INDEX_BLOCK_LEN: nat := 32
  const CODE_LIMIT: nat := 0x20_0000 // 1 << 21

  // how many bytes the code that starts with b takes
  function Width(b: Byte): (w: nat)
    ensures 1 <= w <= 3
  {
    if b < 64 || b >= 0x80 then 1 else if b < 0x60 then 2 else 3
  }

  // the lengths of the one or two runs of a code
  function FirstRuns(t: seq<Byte>): (r: seq<nat>)
    requires t != [] && Width(t[0]) <= |t|
    ensures 1 <= |r| <= 2 && forall i | 0 <= i < |r| :: r[i] > 0
  {
    var b: int := t[0];
    if b < 64 then [b / 8 + 1, b % 8 + 1]
    else if b >= 0x80 then [b - 0x80 + 1]
    else if b < 0x60 then [(b - 0x40) * 0x100 + t[1] + 1]
    else [(b - 0x60) * 0x1_0000 + (t[1] as int) * 0x100 + t[2] + 1]
  }

  // no code runs past the end
  predicate WellFormed(t: seq<Byte>) {
    t == [] || (Width(t[0]) <= |t| && WellFormed(t[Width(t[0])..]))
  }

  function Runs(t: seq<Byte>): (r: seq<nat>)
    requires WellFormed(t)
    ensures forall i | 0 <= i < |r| :: r[i] > 0
  {
    if t == [] then [] else FirstRuns(t) + Runs(t[Width(t[0])..])
  }

  function Total(runs: seq<nat>): nat {
    if runs == [] then 0 else runs[0] + Total(runs[1..])
  }

  // membership flips at the end of every run; past the last one there is nothing
  predicate Inside(runs: seq<nat>, code: nat, bit: bool, c: nat) {
    runs != [] && (if c < code + runs[0] then bit else Inside(runs[1..], code + runs[0], !bit, c))
  }

  predicate InTable(t: seq<Byte>, c: nat)
    requires WellFormed(t)
  {
    Inside(Runs(t), 0, false, c)
  }

  lemma {:induction false} RunsAppend(s: seq<Byte>, t: seq<Byte>)
    requires WellFormed(s) && WellFormed(t)
    ensures WellFormed(s + t) && Runs(s + t) == Runs(s) + Runs(t)
  {
    hide Width, FirstRuns, WellFormed, Runs;
    if s == [] {
      assert s + t == t;
      assert Runs([]) == [] by { NoRuns(); }
    } else {
      var w := Width(s[0]);
      RunsUnfold(s);
      RunsAppend(s[w..], t);
      FirstRunsPrefix(s, t);
      assert (s + t)[w..] == s[w..] + t;
      RunsUnfold(s + t);
      assert (FirstRuns(s) + Runs(s[w..])) + Runs(t) == FirstRuns(s) + (Runs(s[w..]) + Runs(t));
    }
  }

  lemma {:induction false} NoRuns()
    ensures WellFormed([]) && Runs([]) == []
  {
  }

  lemma {:induction false} RunsUnfold(t: seq<Byte>)
    requires t != []
    ensures WellFormed(t) <==> Width(t[0]) <= |t| && WellFormed(t[Width(t[0])..])
    ensures WellFormed(t) ==> Runs(t) == FirstRuns(t) + Runs(t[Width(t[0])..])
  {
    hide Width, FirstRuns;
  }

  lemma {:induction false} FirstRunsPrefix(s: seq<Byte>, t: seq<Byte>)
    requires s != [] && Width(s[0]) <= |s|
    ensures (s + t)[0] == s[0] && FirstRuns(s + t) == FirstRuns(s)
  {
  }

  lemma {:induction false} TotalAppend(r: seq<nat>, s: seq<nat>)
    ensures Total(r + s) == Total(r) + Total(s)
  {
    if r == [] {
      assert r + s == s;
    } else {
      assert (r + s)[1..] == r[1..] + s;
      TotalAppend(r[1..], s);
    }
  }

  // the runs that end at or below c only matter by their length and their number
  lemma {:induction false} InsideSkip(r: seq<nat>, s: seq<nat>, code: nat, bit: bool, c: nat)
    requires code + Total(r) <= c
    ensures Inside(r + s, code, bit, c) == Inside(s, code + Total(r), bit != (|r| % 2 == 1), c)
  {
    if r == [] {
      assert r + s == s;
    } else {
      assert (r + s)[1..] == r[1..] + s;
      InsideSkip(r[1..], s, code + r[0], !bit, c);
    }
  }

  lemma {:induction false} InsideKeep(r: seq<nat>, s: seq<nat>, code: nat, bit: bool, c: nat)
    requires code <= c < code + Total(r)
    ensures Inside(r + s, code, bit, c) == Inside(r, code, bit, c)
  {
    if r != [] && c >= code + r[0] {
      assert (r + s)[1..] == r[1..] + s;
      InsideKeep(r[1..], s, code + r[0], !bit, c);
    }
  }

  lemma {:induction false} InsideBeyond(r: seq<nat>, code: nat, bit: bool, c: nat)
    requires code + Total(r) <= c
    ensures !Inside(r, code, bit, c)
  {
    InsideSkip(r, [], code, bit, c);
    assert r + [] == r;
  }

  // the points unicode_prop1 adds
  function Intervals(runs: seq<nat>, code: nat, bit: bool): seq<nat> {
    if runs == [] then []
    else (if bit then [code, code + runs[0]] else []) + Intervals(runs[1..], code + runs[0], !bit)
  }

  lemma {:induction false} IntervalsNext(r: seq<nat>, n: nat, code: nat, bit: bool)
    ensures var c := code + Total(r);
            Intervals(r + [n], code, bit)
            == Intervals(r, code, bit) + (if bit != (|r| % 2 == 1) then [c, c + n] else [])
  {
    if r == [] {
      assert r + [n] == [n] && [n][1..] == [];
    } else {
      assert (r + [n])[1..] == r[1..] + [n];
      IntervalsNext(r[1..], n, code + r[0], !bit);
    }
  }

  // the points increase from code on
  lemma {:induction false} IntervalsOrder(runs: seq<nat>, code: nat, bit: bool)
    requires forall i | 0 <= i < |runs| :: runs[i] > 0
    ensures var pts := Intervals(runs, code, bit);
            && |pts| % 2 == 0
            && (forall i | 0 <= i < |pts| :: (if bit then code else code + 1) <= pts[i] <= code + Total(runs))
            && (forall i, j | 0 <= i < j < |pts| :: pts[i] < pts[j])
  {
    if runs != [] {
      var n, rest := runs[0], runs[1..];
      IntervalsOrder(rest, code + n, !bit);
      var tail := Intervals(rest, code + n, !bit);
      if bit {
        TwoFirst(code, code + n, tail);
      }
    }
  }

  lemma {:induction false} TwoFirst(a: nat, b: nat, tail: seq<nat>)
    requires a < b && (forall i | 0 <= i < |tail| :: b < tail[i])
             && (forall i, j | 0 <= i < j < |tail| :: tail[i] < tail[j])
    ensures var pts := [a, b] + tail;
            (forall i | 0 <= i < |pts| :: a <= pts[i]) && (forall i, j | 0 <= i < j < |pts| :: pts[i] < pts[j])
  {
  }

  // and denote the members
  lemma {:induction false} IntervalsRight(runs: seq<nat>, code: nat, bit: bool, c: nat)
    requires forall i | 0 <= i < |runs| :: runs[i] > 0
    ensures InSet(Intervals(runs, code, bit), c) <==> code <= c && Inside(runs, code, bit, c)
  {
    hide InSet;
    if runs == [] {
      NoPoints(c);
    } else {
      var n, rest := runs[0], runs[1..];
      IntervalsRight(rest, code + n, !bit, c);
      IntervalsOrder(rest, code + n, !bit);
      var tail := Intervals(rest, code + n, !bit);
      assert [] + tail == tail;
      if bit {
        TwoPoints(code, code + n, tail, c);
      } else if c < code + n {
        BelowPoints(tail, c);
      }
    }
  }

  lemma {:induction false} NoPoints(c: nat)
    ensures !InSet([], c)
  {
  }

  lemma {:induction false} BelowPoints(pts: seq<nat>, c: nat)
    requires forall i | 0 <= i < |pts| :: c < pts[i]
    ensures !InSet(pts, c)
  {
    RankNone(pts, c);
  }

  lemma {:induction false} TwoPoints(a: nat, b: nat, pts: seq<nat>, c: nat)
    requires a < b && forall i | 0 <= i < |pts| :: b < pts[i]
    ensures InSet([a, b] + pts, c) <==> (a <= c < b || (b <= c && InSet(pts, c)))
  {
    RankSplit([a, b], pts, c);
    if c < b {
      RankNone(pts, c);
    }
    assert [a, b][..1] == [a] && [a][..0] == [];
    assert Rank([a, b], c) == (if a <= c then 1 else 0) + (if b <= c then 1 else 0) by {
      assert Rank([a], c) == Rank([], c) + (if a <= c then 1 else 0);
    }
  }

  // where a decoder stands: what is left of the table, and how far it has come
  ghost predicate Standing(t: seq<Byte>, p: nat, code: nat, bit: bool) {
    && WellFormed(t) && p <= |t| && WellFormed(t[..p]) && WellFormed(t[p..])
    && code == Total(Runs(t[..p])) && bit == (|Runs(t[..p])| % 2 == 1)
  }

  lemma {:induction false} StandingStart(t: seq<Byte>)
    requires WellFormed(t)
    ensures Standing(t, 0, 0, false)
  {
    assert t[..0] == [] && t[0..] == t;
  }

  // one code on
  lemma {:induction false} StandingNext(t: seq<Byte>, p: nat, code: nat, bit: bool)
    requires Standing(t, p, code, bit) && p < |t|
    ensures p + Width(t[p]) <= |t|
    ensures var r := FirstRuns(t[p..]);
            Standing(t, p + Width(t[p]), code + Total(r), bit != (|r| % 2 == 1))
  {
    hide Width, FirstRuns;
    var w, u := Width(t[p]), t[p..];
    assert u[0] == t[p] && u[w..] == t[p + w..] && u[..w] == t[p..p + w];
    OneCode(u, w);
    RunsAppend(t[..p], t[p..p + w]);
    assert t[..p + w] == t[..p] + t[p..p + w];
    TotalAppend(Runs(t[..p]), FirstRuns(u));
  }

  lemma {:induction false} OneCode(u: seq<Byte>, w: nat)
    requires u != [] && w == Width(u[0]) <= |u|
    ensures WellFormed(u[..w]) && Runs(u[..w]) == FirstRuns(u)
  {
    assert u[..w][w..] == [] && u[..w] + u[w..] == u;
    FirstRunsPrefix(u[..w], u[w..]);
    assert Runs(u[..w]) == FirstRuns(u[..w]) + [];
  }

  lemma {:induction false} StandingRuns(t: seq<Byte>, p: nat, code: nat, bit: bool)
    requires Standing(t, p, code, bit)
    ensures Runs(t) == Runs(t[..p]) + Runs(t[p..]) && Total(Runs(t)) == code + Total(Runs(t[p..]))
  {
    RunsAppend(t[..p], t[p..]);
    assert t == t[..p] + t[p..];
    TotalAppend(Runs(t[..p]), Runs(t[p..]));
  }

  lemma {:induction false} StandingInside(t: seq<Byte>, p: nat, code: nat, bit: bool, c: nat)
    requires Standing(t, p, code, bit) && code <= c
    ensures InTable(t, c) == Inside(Runs(t[p..]), code, bit, c)
  {
    StandingRuns(t, p, code, bit);
    InsideSkip(Runs(t[..p]), Runs(t[p..]), 0, false, c);
  }

  // what the code at p says of c
  lemma {:induction false} StandingAt(t: seq<Byte>, p: nat, code: nat, bit: bool, c: nat)
    requires Standing(t, p, code, bit) && p < |t| && code <= c
    ensures Width(t[p]) <= |t[p..]|
    ensures var r := FirstRuns(t[p..]);
            && (c < code + r[0] ==> InTable(t, c) == bit)
            && (|r| == 2 && code + r[0] <= c < code + r[0] + r[1] ==> InTable(t, c) == !bit)
  {
    hide Width, FirstRuns;
    StandingInside(t, p, code, bit, c);
    var u := t[p..];
    var r, rest := FirstRuns(u), Runs(u[Width(u[0])..]);
    assert Runs(u) == r + rest && (r + rest)[0] == r[0] && (r + rest)[1..] == r[1..] + rest;
    if |r| == 2 {
      assert (r[1..] + rest)[0] == r[1];
    }
  }

  // unicode_prop1: the intervals of a table, appended to a set
  method UnicodeProp1(cr: CharRange, t: seq<Byte>)
    requires WellFormed(t) && Total(Runs(t)) <= UINT32_MAX
    modifies cr
    ensures cr.points == old(cr.points) + Intervals(Runs(t), 0, false)
  {
    hide Runs, WellFormed, Intervals, Total, Standing, FirstRuns, PropPoints;
    ghost var was := cr.points;
    var p: nat, c: nat, bit := 0, 0, false;
    StandingStart(t);
    PropStart(t);
    while p < |t|
      invariant p <= |t| && Standing(t, p, c, bit)
      invariant PropPoints(t, p, was, cr.points)
    {
      StandingNext(t, p, c, bit);
      PropNext(t, p, c, bit, was, cr.points);
      TwoRuns(t[p..]);
      assert t[p..][0] == t[p];
      var c0 := c;
      var b: int := t[p];
      p := p + 1;
      if b < 64 {
        c := c + b / 8 + 1;
        if bit {
          cr.AddInterval(c0, c);
        }
        bit := !bit;
        c0 := c;
        c := c + b % 8 + 1;
      } else if b >= 0x80 {
        c := c + b - 0x80 + 1;
      } else if b < 0x60 {
        c := c + (b - 0x40) * 0x100 + t[p] + 1;
        p := p + 1;
      } else {
        c := c + (b - 0x60) * 0x1_0000 + (t[p] as int) * 0x100 + t[p + 1] + 1;
        p := p + 2;
      }
      if bit {
        cr.AddInterval(c0, c);
      }
      bit := !bit;
    }
    PropEnd(t, was, cr.points);
  }

  ghost predicate PropPoints(t: seq<Byte>, p: nat, was: seq<nat>, now: seq<nat>) {
    p <= |t| && WellFormed(t[..p]) && now == was + Intervals(Runs(t[..p]), 0, false)
  }

  lemma {:induction false} PropStart(t: seq<Byte>)
    ensures forall was: seq<nat> :: PropPoints(t, 0, was, was)
  {
    assert t[..0] == [];
  }

  lemma {:induction false} PropEnd(t: seq<Byte>, was: seq<nat>, now: seq<nat>)
    requires PropPoints(t, |t|, was, now)
    ensures WellFormed(t) && now == was + Intervals(Runs(t), 0, false)
  {
    assert t[..|t|] == t;
  }

  function Added(now: seq<nat>, bit: bool, a: nat, b: nat): seq<nat> {
    if bit then now + [a, b] else now
  }

  // the points one code adds
  lemma {:induction false} PropNext(t: seq<Byte>, p: nat, c: nat, bit: bool, was: seq<nat>, now: seq<nat>)
    requires p < |t| && Standing(t, p, c, bit) && PropPoints(t, p, was, now) && p + Width(t[p]) <= |t|
    ensures var r, q := FirstRuns(t[p..]), p + Width(t[p]);
            var next := Added(now, bit, c, c + r[0]);
            && (|r| == 1 ==> PropPoints(t, q, was, next))
            && (|r| == 2 ==> PropPoints(t, q, was, Added(next, !bit, c + r[0], c + r[0] + r[1])))
  {
    hide Width, FirstRuns, Intervals;
    var w, u, s := Width(t[p]), t[p..], Runs(t[..p]);
    assert u[0] == t[p] && u[..w] == t[p..p + w];
    OneCode(u, w);
    RunsAppend(t[..p], t[p..p + w]);
    assert t[..p + w] == t[..p] + t[p..p + w];
    var r := FirstRuns(u);
    IntervalsNext(s, r[0], 0, false);
    if |r| == 1 {
      assert r == [r[0]];
    } else {
      assert s + r == (s + [r[0]]) + [r[1]];
      TotalAppend(s, [r[0]]);
      assert Total([r[0]]) == r[0] + Total([]);
      IntervalsNext(s + [r[0]], r[1], 0, false);
    }
  }

  // what unicode_prop1 builds from the empty set is a canonical list of the members of the table
  lemma {:induction false} PropRight(t: seq<Byte>)
    requires WellFormed(t) && Total(Runs(t)) <= UINT32_MAX
    ensures Canonical(Intervals(Runs(t), 0, false))
    ensures forall c: nat :: InSet(Intervals(Runs(t), 0, false), c) <==> InTable(t, c)
  {
    IntervalsOrder(Runs(t), 0, false);
    forall c: nat ensures InSet(Intervals(Runs(t), 0, false), c) <==> InTable(t, c) {
      IntervalsRight(Runs(t), 0, false, c);
    }
  }

  function GetLe24(s: seq<Byte>, i: nat): (v: nat)
    requires 3 * i + 3 <= |s|
    ensures v < 0x100_0000
  {
    (s[3 * i] as int) + (s[3 * i + 1] as int) * 0x100 + (s[3 * i + 2] as int) * 0x1_0000
  }

  // an entry of the index: a code point, and how far the code for it is past the start of its block
  function EntryCode(s: seq<Byte>, i: nat): (v: nat)
    requires 3 * i + 3 <= |s|
    ensures v < CODE_LIMIT
  {
    GetLe24(s, i) % CODE_LIMIT
  }

  function EntryPos(s: seq<Byte>, i: nat): nat
    requires 3 * i + 3 <= |s|
  {
    (i + 1) * UNICODE_INDEX_BLOCK_LEN + GetLe24(s, i) / CODE_LIMIT
  }

  // every entry but the last is a place the decoder passes outside a run; the last is the end
  ghost predicate Consistent(t: seq<Byte>, index: seq<Byte>) {
    && WellFormed(t) && |index| % 3 == 0 && |index| > 0
    && (forall i | 0 <= i < |index| / 3 - 1 :: EntryRight(t, index, i))
    && GetLe24(index, |index| / 3 - 1) == Total(Runs(t)) < CODE_LIMIT
  }

  // The layout of an entry: 21 bits of the code point, and 5 of the distance from its block.
  lemma {:induction false} EntryLayout(s: seq<Byte>, i: nat)
    requires 3 * i + 3 <= |s|
    ensures EntryCode(s, i) == s[3 * i] as int + 0x100 * s[3 * i + 1] as int + 0x1_0000 * (s[3 * i + 2] as int % 32)
    ensures EntryPos(s, i) == 32 * (i + 1) + s[3 * i + 2] as int / 32
  {
    var a: int, b: int, c: int := s[3 * i], s[3 * i + 1], s[3 * i + 2];
    var rest := a + 0x100 * b + 0x1_0000 * (c % 32);
    assert GetLe24(s, i) == (c / 32) * CODE_LIMIT + rest && 0 <= rest < CODE_LIMIT;
    assert GetLe24(s, i) / CODE_LIMIT == c / 32 && GetLe24(s, i) % CODE_LIMIT == rest;
  }

  ghost predicate EntryRight(t: seq<Byte>, index: seq<Byte>, i: nat)
    requires 3 * i + 3 <= |index|
  {
    Standing(t, EntryPos(index, i), EntryCode(index, i), false)
  }

  // pos and code are what the three bytes of entry i say
  predicate FromEntry(index: seq<Byte>, i: nat, pos: nat, code: nat) {
    && 3 * i + 3 <= |index|
    && pos == 32 * (i + 1) + index[3 * i + 2] as int / 32
    && code == index[3 * i] as int + 0x100 * index[3 * i + 1] as int + 0x1_0000 * (index[3 * i + 2] as int % 32)
  }

  // get_index_pos: None is -1
  datatype Position = Outside | At(pos: nat, code: nat)

  method GetIndexPos(c: nat, index: seq<Byte>, ghost t: seq<Byte>) returns (r: Position)
    requires Consistent(t, index)
    ensures r.Outside? ==> c >= Total(Runs(t))
    ensures r.At? ==> r.code <= c < Total(Runs(t)) && Standing(t, r.pos, r.code, false)
    ensures r.At? ==> r == At(0, 0) || exists i: nat :: FromEntry(index, i, r.pos, r.code)
  {
    hide GetLe24, EntryPos, Standing, Runs, Total, WellFormed;
    var len := |index| / 3;
    LastEntry(index, len - 1);
    var idxMin := 0;
    if c < EntryCode(index, 0) {
      StandingStart(t);
      FirstBelow(t, index);
      return At(0, 0);
    }
    var idxMax := len - 1;
    if c >= GetLe24(index, idxMax) {
      return Outside;
    }
    while idxMax - idxMin > 1
      invariant 0 <= idxMin <= idxMax < len && (idxMin == idxMax ==> len == 1)
      invariant EntryCode(index, idxMin) <= c < EntryCode(index, idxMax)
      decreases idxMax - idxMin
    {
      var idx := (idxMax + idxMin) / 2;
      if c < EntryCode(index, idx) {
        idxMax := idx;
      } else {
        idxMin := idx;
      }
    }
    assert EntryRight(t, index, idxMin);
    EntryLayout(index, idxMin);
    assert FromEntry(index, idxMin, EntryPos(index, idxMin), EntryCode(index, idxMin));
    r := At(EntryPos(index, idxMin), EntryCode(index, idxMin));
  }

  lemma {:induction false} LastEntry(index: seq<Byte>, i: nat)
    requires 3 * i + 3 <= |index| && GetLe24(index, i) < CODE_LIMIT
    ensures EntryCode(index, i) == GetLe24(index, i)
  {
    hide GetLe24;
  }

  // the first entry is not past the end
  lemma {:induction false} FirstBelow(t: seq<Byte>, index: seq<Byte>)
    requires Consistent(t, index)
    ensures EntryCode(index, 0) <= Total(Runs(t))
  {
    hide GetLe24, Runs, WellFormed;
    if |index| == 3 {
      LastEntry(index, 0);
    } else {
      assert EntryRight(t, index, 0);
      StandingRuns(t, EntryPos(index, 0), EntryCode(index, 0), false);
    }
  }

  // lre_is_in_table answers what the set unicode_prop1 decodes answers.
  method LreIsInTable(c: nat, t: seq<Byte>, index: seq<Byte>) returns (r: bool)
    requires Consistent(t, index)
    ensures r == InTable(t, c)
  {
    hide Runs, WellFormed, Total, Standing, FirstRuns, InTable, Consistent;
    ConsistentTable(t, index);
    var at := GetIndexPos(c, index, t);
    if at.Outside? {
      OutsideTable(t, c);
      return false;
    }
    var p: nat, code: nat, bit := at.pos, at.code, false;
    while true
      invariant Standing(t, p, code, bit) && code <= c < Total(Runs(t))
      decreases |t| - p
    {
      StandingInRange(t, p, code, bit, c);
      StandingNext(t, p, code, bit);
      StandingAt(t, p, code, bit, c);
      TwoRuns(t[p..]);
      assert t[p..][0] == t[p];
      var b: int := t[p];
      p := p + 1;
      if b < 64 {
        code := code + b / 8 + 1;
        if c < code {
          return bit;
        }
        bit := !bit;
        code := code + b % 8 + 1;
      } else if b >= 0x80 {
        code := code + b - 0x80 + 1;
      } else if b < 0x60 {
        code := code + (b - 0x40) * 0x100 + t[p] + 1;
        p := p + 1;
      } else {
        code := code + (b - 0x60) * 0x1_0000 + (t[p] as int) * 0x100 + t[p + 1] + 1;
        p := p + 2;
      }
      if c < code {
        return bit;
      }
      bit := !bit;
    }
  }

  lemma {:induction false} ConsistentTable(t: seq<Byte>, index: seq<Byte>)
    requires Consistent(t, index)
    ensures WellFormed(t)
  {
  }

  lemma {:induction false} OutsideTable(t: seq<Byte>, c: nat)
    requires WellFormed(t) && c >= Total(Runs(t))
    ensures !InTable(t, c)
  {
    InsideBeyond(Runs(t), 0, false, c);
  }

  lemma {:induction false} StandingInRange(t: seq<Byte>, p: nat, code: nat, bit: bool, c: nat)
    requires Standing(t, p, code, bit) && c < Total(Runs(t)) && code <= c
    ensures p < |t|
  {
    StandingRuns(t, p, code, bit);
    NothingLeft(t);
  }

  lemma {:induction false} NothingLeft(t: seq<Byte>)
    ensures WellFormed(t[|t|..]) && Total(Runs(t[|t|..])) == 0
  {
    assert t[|t|..] == [];
  }

  // the runs of a code, spelled out
  lemma {:induction false} TwoRuns(t: seq<Byte>)
    requires t != [] && Width(t[0]) <= |t|
    ensures var b: int, r := t[0], FirstRuns(t);
            && (b < 64 ==> r == [b / 8 + 1, b % 8 + 1] && Total(r) == b / 8 + 1 + (b % 8 + 1))
            && (b >= 64 ==> |r| == 1 && Total(r) == r[0])
            && (b >= 0x80 ==> r[0] == b - 0x80 + 1)
            && (0x40 <= b < 0x60 ==> r[0] == (b - 0x40) * 0x100 + t[1] + 1)
            && (0x60 <= b < 0x80 ==> r[0] == (b - 0x60) * 0x1_0000 + (t[1] as int) * 0x100 + t[2] + 1)
  {
    var r := FirstRuns(t);
    if |r| == 1 {
      assert r[1..] == [];
    } else {
      assert r[1..][1..] == [] && Total(r[1..]) == r[1];
    }
  }
}
