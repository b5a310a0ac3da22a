/** Compiled character classes: the table re_emit_range writes and the binary search the
    engine runs on it together decide membership in the class. */
module RegexClass {
  import opened CodePointSet
  import opened RegexCode
  import opened RegexCompiler
  import opened RegexVM

  predicate Ordered(pairs: seq<(nat, nat)>) {
    (forall i | 0 <= i < |pairs| :: pairs[i].0 <= pairs[i].1) &&
    (forall i, j | 0 <= i < j < |pairs| :: pairs[i].1 < pairs[j].0)
  }

  predicate InPair(pairs: seq<(nat, nat)>, c: nat, k: int)
    requires 0 <= k < |pairs|
  {
    pairs[k].0 <= c <= pairs[k].1
  }

  // Binary search over ordered pairs finds a pair that holds c exactly when there is one.
  lemma {:induction false} SearchFinds(pairs: seq<(nat, nat)>, c: nat, lo: int, hi: int)
    requires Ordered(pairs) && 0 <= lo && hi < |pairs|
    ensures Search(pairs, c, lo, hi) <==> exists k :: lo <= k <= hi && InPair(pairs, c, k)
    decreases hi - lo + 1
  {
    if lo <= hi {
      var idx := (lo + hi) / 2;
      if c < pairs[idx].0 {
        SearchFinds(pairs, c, lo, idx - 1);
      } else if c > pairs[idx].1 {
        SearchFinds(pairs, c, idx + 1, hi);
      } else {
        assert InPair(pairs, c, idx);
      }
    }
  }

  lemma {:induction false} Pairs32Ordered(points: seq<nat>)
    requires Canonical(points)
    ensures Ordered(Pairs32(points))
  {
  }

  lemma {:induction false} Pairs16Ordered(points: seq<nat>)
    requires Canonical(points) && points != [] && HighPoint(points) <= 0xffff
    ensures Ordered(Pairs16(points))
    ensures forall k: nat, c: nat | 2 * k + 1 < |points| && c < 0xffff ::
              InPair(Pairs16(points), c, k) <==> InInterval(points, c, k)
  {
    var last := |points| / 2 - 1;
    forall i | 0 <= i <= last
      ensures points[2 * i] <= 0xffff && (i < last ==> points[2 * i + 1] < 0xffff)
      ensures points[2 * i + 1] <= 0xffff || (i == last && points[2 * i + 1] == UINT32_MAX)
    {
      if i < last {
        assert points[2 * i + 1] < points[|points| - 2] && points[2 * i] < points[2 * i + 1];
        assert points[|points| - 2] < points[|points| - 1];
      }
    }
  }

  // The compiled test of a class accepts exactly the code points of the class.
  lemma {:induction false} ClassTestCorrect(points: seq<nat>, c: nat)
    requires Canonical(points) && c < UINT32_MAX
    ensures IsCharTest(RangeInstr(points))
    ensures CharPasses(RangeInstr(points), c) <==> InSet(points, c)
  {
    if points == [] {
    } else if HighPoint(points) <= 0xffff {
      Range16Correct(points, c);
    } else {
      Range32Correct(points, c);
    }
  }

  lemma {:induction false} InSomePair(pairs: seq<(nat, nat)>, c: nat)
    requires Ordered(pairs) && pairs != []
    ensures InPairs32(pairs, c) <==> exists k: nat :: k < |pairs| && InPair(pairs, c, k)
  {
    SearchFinds(pairs, c, 0, |pairs| - 1);
    if k: nat :| k < |pairs| && InPair(pairs, c, k) {
      assert pairs[0].0 <= pairs[k].0 && pairs[k].1 <= pairs[|pairs| - 1].1;
    }
  }

  lemma {:induction false} Range32Correct(points: seq<nat>, c: nat)
    requires Canonical(points) && points != []
    ensures InPairs32(Pairs32(points), c) <==> InSet(points, c)
  {
    var pairs := Pairs32(points);
    InSetIntervals(points, c);
    Pairs32Ordered(points);
    InSomePair(pairs, c);
    forall k: nat | k < |pairs| ensures InPair(pairs, c, k) <==> InInterval(points, c, k) {
    }
    if k: nat :| InInterval(points, c, k) {
      assert InPair(pairs, c, k);
    }
  }

  lemma {:induction false} Range16Correct(points: seq<nat>, c: nat)
    requires Canonical(points) && points != [] && HighPoint(points) <= 0xffff && c < UINT32_MAX
    ensures InPairs16(Pairs16(points), c) <==> InSet(points, c)
  {
    Pairs16Ordered(points);
    if c < 0xffff {
      Range16Below(points, c);
    } else {
      Range16Above(points, c);
    }
  }

  // from 0xffff on, 0xffff as the end of the last pair stands for infinity
  lemma {:induction false} Range16Above(points: seq<nat>, c: nat)
    requires Canonical(points) && points != [] && HighPoint(points) <= 0xffff <= c < UINT32_MAX
    requires Ordered(Pairs16(points))
    ensures InPairs16(Pairs16(points), c) <==> InSet(points, c)
  {
    var pairs := Pairs16(points);
    var last := |pairs| - 1;
    if points[|points| - 1] == UINT32_MAX {
      RankAt(points, c, |points| - 1);
      assert pairs[0].0 <= pairs[last].0;
    } else {
      RankAt(points, c, |points|);
      assert pairs[last].1 < 0xffff;
    }
  }

  lemma {:induction false} Range16Below(points: seq<nat>, c: nat)
    requires Canonical(points) && points != [] && HighPoint(points) <= 0xffff && c < 0xffff
    requires Ordered(Pairs16(points))
    requires forall k: nat | 2 * k + 1 < |points| :: InPair(Pairs16(points), c, k) <==> InInterval(points, c, k)
    ensures InPairs16(Pairs16(points), c) <==> InSet(points, c)
  {
    InSetIntervals(points, c);
    InSomePair(Pairs16(points), c);
    if k: nat :| InInterval(points, c, k) {
      assert InPair(Pairs16(points), c, k);
    }
  }

  // REOP_range: on the table of a class, whether c is in the class. The indices are unsigned,
  // and idx - 1 is only taken for a non-zero idx.
  method TestRange16(pairs: seq<(nat, nat)>, c: nat) returns (hit: bool)
    requires pairs != []
    ensures hit == InPairs16(pairs, c)
    ensures forall points | Canonical(points) && RangeInstr(points) == Range(pairs) && c < UINT32_MAX ::
              hit <==> InSet(points, c)
  {
    forall points | Canonical(points) && RangeInstr(points) == Range(pairs) && c < UINT32_MAX
      ensures InPairs16(pairs, c) <==> InSet(points, c)
    {
      ClassTestCorrect(points, c);
    }
    var low, high := pairs[0].0, pairs[|pairs| - 1].1;
    if c < low {
      return false;
    }
    if c >= 0xffff && high == 0xffff {
      return true;
    }
    if c > high {
      return false;
    }
    hit := BinarySearch(pairs, c);
  }

  // REOP_range32, likewise
  method TestRange32(pairs: seq<(nat, nat)>, c: nat) returns (hit: bool)
    requires pairs != []
    ensures hit == InPairs32(pairs, c)
    ensures forall points | Canonical(points) && RangeInstr(points) == Range32(pairs) && c < UINT32_MAX ::
              hit <==> InSet(points, c)
  {
    forall points | Canonical(points) && RangeInstr(points) == Range32(pairs) && c < UINT32_MAX
      ensures InPairs32(pairs, c) <==> InSet(points, c)
    {
      ClassTestCorrect(points, c);
    }
    if c < pairs[0].0 || c > pairs[|pairs| - 1].1 {
      return false;
    }
    hit := BinarySearch(pairs, c);
  }

  method BinarySearch(pairs: seq<(nat, nat)>, c: nat) returns (hit: bool)
    requires pairs != [] && pairs[0].0 <= c
    ensures hit == Search(pairs, c, 0, |pairs| - 1)
  {
    var idxMin: nat, idxMax: nat := 0, |pairs| - 1;
    while idxMin <= idxMax
      invariant idxMax < |pairs|
      invariant Search(pairs, c, 0, |pairs| - 1) == Search(pairs, c, idxMin, idxMax)
      decreases idxMax + 1 - idxMin
    {
      var idx := (idxMin + idxMax) / 2;
      if c < pairs[idx].0 {
        assert idx != 0;
        idxMax := idx - 1;
      } else if c > pairs[idx].1 {
        idxMin := idx + 1;
      } else {
        return true;
      }
    }
    return false;
  }
}
