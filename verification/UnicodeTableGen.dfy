/** build_prop_table of unicode_gen.c: the tables and the indexes the lookups are given. */
module UnicodeTableGen {
  import opened Bytes
  import opened UnicodeTable

  const PROP_BLOCK_LEN: nat := 32

  // maximal runs of the first i values, and the value that follows them
  ghost predicate RunsSoFar(prop: seq<bool>, i: nat, runs: seq<nat>) {
    && i <= |prop| && Total(runs) == i && (forall k | 0 <= k < |runs| :: runs[k] > 0)
    && (forall c: nat | c < i :: Inside(runs, 0, false, c) == prop[c])
    && (i < |prop| ==> prop[i] == (|runs| % 2 == 1))
  }

  lemma {:induction false} RunsStart(prop: seq<bool>)
    requires |prop| > 0 && !prop[0]
    ensures RunsSoFar(prop, 0, [])
  {
  }

  lemma {:induction false} RunsGrow(prop: seq<bool>, i: nat, runs: seq<nat>, j: nat)
    requires RunsSoFar(prop, i, runs) && i < j <= |prop| && forall k | i <= k < j :: prop[k] == prop[i]
    requires j < |prop| ==> prop[j] != prop[i]
    ensures RunsSoFar(prop, j, runs + [j - i])
  {
    hide Inside, Total;
    OneRun(j - i);
    TotalAppend(runs, [j - i]);
    forall c: nat | c < j ensures Inside(runs + [j - i], 0, false, c) == prop[c] {
      if c < i {
        InsideKeep(runs, [j - i], 0, false, c);
      } else {
        InsideSkip(runs, [j - i], 0, false, c);
        LastRun(j - i, i, |runs| % 2 == 1, c);
      }
    }
  }

  lemma {:induction false} OneRun(n: nat)
    ensures Total([n]) == n
  {
    assert [n][1..] == [];
  }

  lemma {:induction false} LastRun(n: nat, code: nat, bit: bool, c: nat)
    requires code <= c < code + n
    ensures Inside([n], code, bit, c) == bit
  {
  }

  // what the runs say of every code point
  ghost predicate RunsOf(prop: seq<bool>, runs: seq<nat>) {
    && (forall k | 0 <= k < |runs| :: runs[k] > 0) && Total(runs) <= |prop|
    && forall c: nat :: Inside(runs, 0, false, c) == (c < |prop| && prop[c])
  }

  lemma {:induction false} RunsDone(prop: seq<bool>, i: nat, runs: seq<nat>)
    requires RunsSoFar(prop, i, runs) && forall k | i <= k < |prop| :: !prop[k]
    ensures RunsOf(prop, runs)
  {
    hide Inside, Total;
    forall c: nat ensures Inside(runs, 0, false, c) == (c < |prop| && prop[c]) {
      if c >= i {
        InsideBeyond(runs, 0, false, c);
      }
    }
  }

  // the buffer holds one less than each length
  function Lengths(buf: seq<nat>, i: nat): (r: seq<nat>)
    requires i <= |buf|
    ensures |r| == i
  {
    seq(i, k requires 0 <= k < i => buf[k] + 1)
  }

  // the first loop: the run lengths, without a last run of zeros
  method CollectRuns(prop: seq<bool>) returns (buf: seq<nat>)
    requires |prop| > 0 && !prop[0]
    ensures RunsOf(prop, Lengths(buf, |buf|)) && |buf| % 2 == 0
  {
    hide Inside, Total, RunsOf;
    buf := [];
    var i := 0;
    ghost var runs: seq<nat> := [];
    RunsStart(prop);
    while i < |prop|
      invariant 0 <= i <= |prop| && RunsSoFar(prop, i, runs)
      invariant |runs| == |buf| && (forall k | 0 <= k < |buf| :: runs[k] == buf[k] + 1)
      invariant i == |prop| ==> |runs| % 2 == 0
    {
      var v := prop[i];
      var j := i + 1;
      while j < |prop| && prop[j] == v
        invariant i < j <= |prop| && forall k | i <= k < j :: prop[k] == v
      {
        j := j + 1;
      }
      var n := j - i;
      if j == |prop| && !v {
        break;
      }
      buf := buf + [n - 1];
      RunsGrow(prop, i, runs, j);
      runs := runs + [n];
      i := i + n;
    }
    RunsDone(prop, i, runs);
    assert runs == Lengths(buf, |buf|);
  }

  // the bytes of one code, for one or two runs
  function PairCode(a: nat, b: nat): seq<Byte>
    requires a < 8 && b < 8
  {
    [a * 8 + b]
  }

  function RunCode(v: nat): seq<Byte>
    requires v < CODE_LIMIT
  {
    if v < 128 then [0x80 + v]
    else if v < 0x2000 then [0x40 + v / 0x100, v % 0x100]
    else [0x60 + v / 0x1_0000, v / 0x100 % 0x100, v % 0x100]
  }

  lemma {:induction false} PairCodeRuns(a: nat, b: nat)
    requires a < 8 && b < 8
    ensures WellFormed(PairCode(a, b)) && Runs(PairCode(a, b)) == [a + 1, b + 1]
  {
    var t := PairCode(a, b);
    assert t[1..] == [] && [a + 1, b + 1] + [] == [a + 1, b + 1];
  }

  lemma {:induction false} RunCodeRuns(v: nat)
    requires v < CODE_LIMIT
    ensures WellFormed(RunCode(v)) && Runs(RunCode(v)) == [v + 1]
  {
    var t := RunCode(v);
    assert t[Width(t[0])..] == [] && [v + 1] + [] == [v + 1];
  }

  // what the second loop keeps: bytes for i runs, and index entries for places it has been
  ghost predicate Encoded(buf: seq<nat>, i: nat, t: seq<Byte>, code: nat, bit: bool) {
    && i <= |buf| && WellFormed(t) && Runs(t) == Lengths(buf, i)
    && code == Total(Runs(t)) && bit == (i % 2 == 1)
  }

  lemma {:induction false} EncodedStart(buf: seq<nat>)
    ensures Encoded(buf, 0, [], 0, false)
  {
  }

  lemma {:induction false} EncodedNext(buf: seq<nat>, i: nat, t: seq<Byte>, code: nat, bit: bool, j: nat, u: seq<Byte>)
    requires Encoded(buf, i, t, code, bit) && i <= j <= |buf|
    requires WellFormed(u) && Runs(u) == Lengths(buf, j)[i..]
    ensures Encoded(buf, j, t + u, code + Total(Runs(u)), bit != ((j - i) % 2 == 1))
  {
    hide Runs, WellFormed, Total;
    RunsAppend(t, u);
    assert Lengths(buf, j) == Lengths(buf, i) + Lengths(buf, j)[i..];
    TotalAppend(Runs(t), Runs(u));
  }

  lemma {:induction false} PairNext(buf: seq<nat>, i: nat, t: seq<Byte>, code: nat, bit: bool)
    requires Encoded(buf, i, t, code, bit) && i + 2 <= |buf| && buf[i] < 8 && buf[i + 1] < 8
    ensures Encoded(buf, i + 2, t + PairCode(buf[i], buf[i + 1]), code + (buf[i] + 1) + (buf[i + 1] + 1), bit)
  {
    hide Runs, WellFormed, PairCode;
    var u := PairCode(buf[i], buf[i + 1]);
    PairCodeRuns(buf[i], buf[i + 1]);
    assert Lengths(buf, i + 2)[i..] == [buf[i] + 1] + [buf[i + 1] + 1];
    TotalAppend([buf[i] + 1], [buf[i + 1] + 1]);
    OneRun(buf[i] + 1);
    OneRun(buf[i + 1] + 1);
    EncodedNext(buf, i, t, code, bit, i + 2, u);
  }

  lemma {:induction false} RunNext(buf: seq<nat>, i: nat, t: seq<Byte>, code: nat, bit: bool)
    requires Encoded(buf, i, t, code, bit) && i < |buf| && buf[i] < CODE_LIMIT
    ensures Encoded(buf, i + 1, t + RunCode(buf[i]), code + (buf[i] + 1), !bit)
  {
    hide Runs, WellFormed, RunCode;
    RunCodeRuns(buf[i]);
    assert Lengths(buf, i + 1)[i..] == [buf[i] + 1];
    OneRun(buf[i] + 1);
    EncodedNext(buf, i, t, code, bit, i + 1, RunCode(buf[i]));
  }

  // three bytes, the lowest first
  function Le24(v: nat): seq<Byte>
    requires v < 0x100_0000
  {
    [v % 0x100, v / 0x100 % 0x100, v / 0x1_0000]
  }

  ghost predicate IndexSoFar(t: seq<Byte>, index: seq<Byte>) {
    |index| % 3 == 0 && forall e | 0 <= e < |index| / 3 :: EntryRight(t, index, e)
  }

  lemma {:induction false} Le24Read(index: seq<Byte>, v: nat)
    requires |index| % 3 == 0 && v < 0x100_0000
    ensures GetLe24(index + Le24(v), |index| / 3) == v
    ensures forall e | 0 <= e < |index| / 3 :: GetLe24(index + Le24(v), e) == GetLe24(index, e)
  {
  }

  // entries stay right while the table grows
  lemma {:induction false} IndexKept(t: seq<Byte>, u: seq<Byte>, index: seq<Byte>)
    requires WellFormed(t) && WellFormed(u) && IndexSoFar(t, index)
    ensures WellFormed(t + u) && IndexSoFar(t + u, index)
  {
    hide Standing, WellFormed, GetLe24;
    RunsAppend(t, u);
    forall e: nat | 0 <= e < |index| / 3 ensures EntryRight(t + u, index, e) {
      assert EntryRight(t, index, e);
      StandingKept(t, u, EntryPos(index, e), EntryCode(index, e));
    }
  }

  lemma {:induction false} StandingKept(t: seq<Byte>, u: seq<Byte>, p: nat, code: nat)
    requires Standing(t, p, code, false) && WellFormed(u)
    ensures Standing(t + u, p, code, false)
  {
    hide Runs, WellFormed, Total;
    RunsAppend(t, u);
    RunsAppend(t[p..], u);
    assert (t + u)[..p] == t[..p] && (t + u)[p..] == t[p..] + u;
  }

  lemma {:induction false} StandingEnd(buf: seq<nat>, i: nat, t: seq<Byte>, code: nat)
    requires Encoded(buf, i, t, code, false)
    ensures Standing(t, |t|, code, false)
  {
    assert t[..|t|] == t && t[|t|..] == [];
  }

  // a new entry for the end of the table so far
  lemma {:induction false} IndexNext(t: seq<Byte>, index: seq<Byte>, code: nat, offset: nat)
    requires IndexSoFar(t, index) && Standing(t, |t|, code, false) && code < CODE_LIMIT && offset <= 7
    requires |t| == (|index| / 3 + 1) * PROP_BLOCK_LEN + offset
    ensures code + offset * CODE_LIMIT < 0x100_0000 && IndexSoFar(t, index + Le24(code + offset * CODE_LIMIT))
  {
    hide Standing, GetLe24, Le24;
    var v := code + offset * CODE_LIMIT;
    var now, n := index + Le24(v), |index| / 3;
    Le24Read(index, v);
    LeLength(v);
    forall e: nat | 0 <= e < n + 1 ensures EntryRight(t, now, e) {
      if e < n {
        assert EntryRight(t, index, e);
      } else {
        assert v % CODE_LIMIT == code && v / CODE_LIMIT == offset;
      }
    }
  }

  lemma {:induction false} LeLength(v: nat)
    requires v < 0x100_0000
    ensures |Le24(v)| == 3
  {
  }

  // the closing entry
  lemma {:induction false} IndexEnd(buf: seq<nat>, t: seq<Byte>, index: seq<Byte>, code: nat, bit: bool)
    requires Encoded(buf, |buf|, t, code, bit) && IndexSoFar(t, index) && code < CODE_LIMIT
    ensures Consistent(t, index + Le24(code))
  {
    hide Standing, GetLe24, Le24, WellFormed, Runs, Total;
    var now, n := index + Le24(code), |index| / 3;
    Le24Read(index, code);
    LeLength(code);
    forall e: nat | 0 <= e < n ensures EntryRight(t, now, e) {
      assert EntryRight(t, index, e);
    }
  }

  lemma {:induction false} RunFits(runs: seq<nat>, k: nat)
    requires k < |runs|
    ensures runs[k] <= Total(runs)
  {
    if k > 0 {
      RunFits(runs[1..], k - 1);
    }
  }

  lemma {:induction false} TableRight(prop: seq<bool>, buf: seq<nat>, t: seq<Byte>, code: nat, bit: bool)
    requires RunsOf(prop, Lengths(buf, |buf|)) && Encoded(buf, |buf|, t, code, bit)
    ensures WellFormed(t) && code <= |prop|
    ensures forall c: nat :: InTable(t, c) == (c < |prop| && prop[c])
  {
    hide Runs, WellFormed, Total, Inside;
  }

  lemma {:induction false} RunsFit(prop: seq<bool>, buf: seq<nat>)
    requires RunsOf(prop, Lengths(buf, |buf|))
    ensures forall k | 0 <= k < |buf| :: buf[k] < |prop|
  {
    hide Total, Inside;
    forall k: nat | 0 <= k < |buf| ensures buf[k] < |prop| {
      RunFits(Lengths(buf, |buf|), k);
    }
  }

  // the runs encoded so far are no longer than all of them
  lemma {:induction false} CodeBelow(prop: seq<bool>, buf: seq<nat>, i: nat, t: seq<Byte>, code: nat, bit: bool)
    requires RunsOf(prop, Lengths(buf, |buf|)) && Encoded(buf, i, t, code, bit)
    ensures code <= |prop|
  {
    hide Runs, WellFormed, Total, Inside;
    var all := Lengths(buf, |buf|);
    assert all == Lengths(buf, i) + all[i..];
    TotalAppend(Lengths(buf, i), all[i..]);
  }

  // how many runs the next code takes, and how many bytes
  function CodeRuns(buf: seq<nat>, i: nat): (n: nat)
    requires i < |buf|
    ensures 1 <= n && i + n <= |buf|
  {
    if buf[i] < 8 && i + 1 < |buf| && buf[i + 1] < 8 then 2 else 1
  }

  function CodeBytes(buf: seq<nat>, i: nat): nat
    requires i < |buf|
  {
    if CodeRuns(buf, i) == 2 || buf[i] < 128 then 1 else if buf[i] < 0x2000 then 2 else 3
  }

  // From run i and a table of `size` bytes on, a code for a run outside the property starts at p.
  ghost predicate PlaceFrom(buf: seq<nat>, i: nat, size: nat, p: nat)
    decreases |buf| - i
  {
    i < |buf| && ((i % 2 == 0 && p == size) || PlaceFrom(buf, i + CodeRuns(buf, i), size + CodeBytes(buf, i), p))
  }

  ghost predicate Place(buf: seq<nat>, p: nat) { PlaceFrom(buf, 0, 0, p) }

  // such a code starts in the first 8 bytes of every block, up to the last block that one lies behind
  ghost predicate Indexable(buf: seq<nat>) {
    forall k: nat, p: nat | k > 0 && Place(buf, p) && p > k * PROP_BLOCK_LEN + 7 :: HasPlace(buf, k)
  }

  ghost predicate HasPlace(buf: seq<nat>, k: nat) {
    exists q: nat :: Place(buf, q) && k * PROP_BLOCK_LEN <= q <= k * PROP_BLOCK_LEN + 7
  }

  // the places passed, when the next entry is for block k
  ghost predicate Passed(buf: seq<nat>, i: nat, size: nat, k: nat, seen: set<nat>) {
    && k > 0 && (forall p | p in seen :: p < k * PROP_BLOCK_LEN)
    && (forall p: nat :: Place(buf, p) <==> p in seen || PlaceFrom(buf, i, size, p))
    && (forall b: nat | 0 < b < k :: HasPlace(buf, b))
  }

  lemma {:induction false} PassedStart(buf: seq<nat>)
    ensures Passed(buf, 0, 0, 1, {})
  {
  }

  lemma {:induction false} PlaceBehind(buf: seq<nat>, i: nat, size: nat, p: nat)
    requires PlaceFrom(buf, i, size, p)
    ensures p >= size
    decreases |buf| - i
  {
    if !(i % 2 == 0 && p == size) {
      PlaceBehind(buf, i + CodeRuns(buf, i), size + CodeBytes(buf, i), p);
    }
  }

  // an entry is made for the block, in its first bytes
  lemma {:induction false} PassedEntry(buf: seq<nat>, i: nat, size: nat, k: nat, seen: set<nat>)
    requires Passed(buf, i, size, k, seen) && i < |buf| && i % 2 == 0
    requires k * PROP_BLOCK_LEN <= size <= k * PROP_BLOCK_LEN + 7
    ensures Passed(buf, i, size, k + 1, seen)
  {
    hide Place;
    assert PlaceFrom(buf, i, size, size);
    hide PlaceFrom;
    assert Place(buf, size);
    assert HasPlace(buf, k);
  }

  lemma {:induction false} PassedNext(buf: seq<nat>, i: nat, size: nat, k: nat, seen: set<nat>)
    requires Passed(buf, i, size, k, seen) && i < |buf| && (i % 2 == 0 ==> size < k * PROP_BLOCK_LEN)
    ensures Passed(buf, i + CodeRuns(buf, i), size + CodeBytes(buf, i), k, seen + if i % 2 == 0 then {size} else {})
  {
    hide Place, HasPlace, CodeRuns, CodeBytes;
    var now := seen + if i % 2 == 0 then {size} else {};
    forall p: nat
      ensures Place(buf, p) <==> p in now || PlaceFrom(buf, i + CodeRuns(buf, i), size + CodeBytes(buf, i), p)
    {
    }
  }

  // giving up: behind the window of the block, and none in it
  lemma {:induction false} NotIndexable(buf: seq<nat>, i: nat, size: nat, k: nat, seen: set<nat>)
    requires Passed(buf, i, size, k, seen) && i < |buf| && i % 2 == 0 && size > k * PROP_BLOCK_LEN + 7
    ensures !Indexable(buf)
  {
    hide Place;
    assert PlaceFrom(buf, i, size, size);
    forall q: nat | Place(buf, q) ensures !(k * PROP_BLOCK_LEN <= q <= k * PROP_BLOCK_LEN + 7) {
      if PlaceFrom(buf, i, size, q) {
        PlaceBehind(buf, i, size, q);
      }
    }
    assert Place(buf, size) && !HasPlace(buf, k);
  }

  lemma {:induction false} AllIndexed(buf: seq<nat>, size: nat, k: nat, seen: set<nat>)
    requires Passed(buf, |buf|, size, k, seen)
    ensures Indexable(buf)
  {
    hide Place, HasPlace;
    forall b: nat, p: nat | b > 0 && Place(buf, p) && p > b * PROP_BLOCK_LEN + 7 ensures HasPlace(buf, b) {
      assert !PlaceFrom(buf, |buf|, size, p);
      assert p < k * PROP_BLOCK_LEN;
    }
  }

  // build_prop_table: the table and its index answer for every code point what the property says.
  // It gives up exactly when no place for an entry lies within 7 bytes of the start of a block.
  method BuildPropTable(prop: seq<bool>)
    returns (ok: bool, t: seq<Byte>, index: seq<Byte>, ghost runs: seq<nat>)
    requires 0 < |prop| <= 0x11_0000 && !prop[0]
    ensures RunsOf(prop, Lengths(runs, |runs|)) && |runs| % 2 == 0 && (ok <==> Indexable(runs))
    ensures ok ==> Consistent(t, index) && forall c: nat :: InTable(t, c) == (c < |prop| && prop[c])
  {
    hide RunsOf, Encoded, IndexSoFar, Standing, WellFormed, Runs, InTable, Consistent, PairCode, RunCode, Le24;
    hide Passed, Indexable;
    var buf := CollectRuns(prop);
    runs := buf;
    RunsFit(prop, buf);
    t, index := [], [];
    var blockEndPos, i, code: nat, bit := PROP_BLOCK_LEN, 0, 0, false;
    ghost var seen: set<nat> := {};
    EncodedStart(buf);
    NoEntries();
    PassedStart(buf);
    while i < |buf|
      invariant 0 <= i <= |buf| && Encoded(buf, i, t, code, bit) && IndexSoFar(t, index)
      invariant |index| % 3 == 0 && blockEndPos == (|index| / 3 + 1) * PROP_BLOCK_LEN
      invariant Passed(buf, i, |t|, |index| / 3 + 1, seen)
    {
      EncodedTable(buf, i, t, code, bit);
      if |t| >= blockEndPos && !bit {
        var offset := |t| - blockEndPos;
        if offset > 7 {
          NotIndexable(buf, i, |t|, |index| / 3 + 1, seen);
          return false, t, index, runs;
        }
        CodeBelow(prop, buf, i, t, code, bit);
        StandingEnd(buf, i, t, code);
        IndexNext(t, index, code, offset);
        LeLength(code + offset * CODE_LIMIT);
        PassedEntry(buf, i, |t|, |index| / 3 + 1, seen);
        index := index + Le24(code + offset * CODE_LIMIT);
        blockEndPos := blockEndPos + PROP_BLOCK_LEN;
      }
      PassedNext(buf, i, |t|, |index| / 3 + 1, seen);
      seen := seen + if i % 2 == 0 then {|t|} else {};
      var v := buf[i];
      code := code + v + 1;
      bit := !bit;
      if v < 8 && i + 1 < |buf| && buf[i + 1] < 8 {
        PairNext(buf, i, t, code - (v + 1), !bit);
        PairCodeRuns(v, buf[i + 1]);
        IndexKept(t, PairCode(v, buf[i + 1]), index);
        PairLength(v, buf[i + 1]);
        code := code + buf[i + 1] + 1;
        bit := !bit;
        t := t + PairCode(v, buf[i + 1]);
        i := i + 2;
      } else {
        RunNext(buf, i, t, code - (v + 1), !bit);
        RunCodeRuns(v);
        IndexKept(t, RunCode(v), index);
        RunLength(v);
        t := t + RunCode(v);
        i := i + 1;
      }
    }
    AllIndexed(buf, |t|, |index| / 3 + 1, seen);
    TableRight(prop, buf, t, code, bit);
    IndexEnd(buf, t, index, code, bit);
    index := index + Le24(code);
    ok := true;
  }

  lemma {:induction false} PairLength(a: nat, b: nat)
    requires a < 8 && b < 8
    ensures |PairCode(a, b)| == 1
  {
  }

  lemma {:induction false} RunLength(v: nat)
    requires v < CODE_LIMIT
    ensures |RunCode(v)| == if v < 128 then 1 else if v < 0x2000 then 2 else 3
  {
  }

  lemma {:induction false} NoEntries()
    ensures IndexSoFar([], [])
  {
  }

  lemma {:induction false} EncodedTable(buf: seq<nat>, i: nat, t: seq<Byte>, code: nat, bit: bool)
    requires Encoded(buf, i, t, code, bit)
    ensures WellFormed(t) && bit == (i % 2 == 1)
  {
  }
}
