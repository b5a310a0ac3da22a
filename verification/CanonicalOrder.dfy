/** sort_cc of libunicode.c and the canonical ordering of section 3.11 of the Unicode Standard:
    exchange reorderable pairs until there are none. */
module CanonicalOrder {

  type Classes = int -> nat

  // two neighbours that are not starters, the second with the smaller class
  predicate Reorderable(cc: Classes, s: seq<int>, i: int) {
    0 <= i < |s| - 1 && cc(s[i]) > cc(s[i + 1]) > 0
  }

  function Exchange(s: seq<int>, i: int): (t: seq<int>)
    requires 0 <= i < |s| - 1
    ensures |t| == |s|
  {
    s[i := s[i + 1]][i + 1 := s[i]]
  }

  // t comes out of s by n exchanges of reorderable pairs
  ghost predicate Reaches(cc: Classes, s: seq<int>, t: seq<int>, n: nat)
    decreases n
  {
    if n == 0 then s == t
    else exists u: seq<int>, i: int :: Reaches(cc, s, u, n - 1) && Reorderable(cc, u, i) && t == Exchange(u, i)
  }

  ghost predicate Reordered(cc: Classes, s: seq<int>, t: seq<int>) {
    exists n: nat :: Reaches(cc, s, t, n)
  }

  ghost predicate Ordered(cc: Classes, s: seq<int>) {
    forall i | 0 <= i < |s| - 1 :: !Reorderable(cc, s, i)
  }

  // the starters and the characters of class k, in order
  function Marks(cc: Classes, s: seq<int>, k: nat): seq<int> {
    if s == [] then []
    else (if cc(s[0]) == 0 || cc(s[0]) == k then [s[0]] else []) + Marks(cc, s[1..], k)
  }

  lemma {:induction false} MarksAppend(cc: Classes, s: seq<int>, t: seq<int>, k: nat)
    ensures Marks(cc, s + t, k) == Marks(cc, s, k) + Marks(cc, t, k)
  {
    if s == [] {
      assert s + t == t;
    } else {
      assert (s + t)[1..] == s[1..] + t && (s + t)[0] == s[0];
      MarksAppend(cc, s[1..], t, k);
      var first := if cc(s[0]) == 0 || cc(s[0]) == k then [s[0]] else [];
      assert Marks(cc, s + t, k) == first + (Marks(cc, s[1..], k) + Marks(cc, t, k));
    }
  }

  lemma {:induction false} ExchangeMarks(cc: Classes, s: seq<int>, i: int, k: nat)
    requires Reorderable(cc, s, i)
    ensures Marks(cc, Exchange(s, i), k) == Marks(cc, s, k)
  {
    var a, x, y, b := s[..i], s[i], s[i + 1], s[i + 2..];
    assert s == a + ([x, y] + b) && Exchange(s, i) == a + ([y, x] + b);
    MarksAppend(cc, a, [x, y] + b, k);
    MarksAppend(cc, a, [y, x] + b, k);
    MarksAppend(cc, [x, y], b, k);
    MarksAppend(cc, [y, x], b, k);
    PairMarks(cc, x, y, k);
  }

  lemma {:induction false} PairMarks(cc: Classes, x: int, y: int, k: nat)
    requires cc(x) > cc(y) > 0
    ensures Marks(cc, [x, y], k) == Marks(cc, [y, x], k)
  {
    assert [x, y][1..] == [y] && [y, x][1..] == [x] && [x][1..] == [] && [y][1..] == [];
  }

  // what an exchange leaves alone: the starters, the marks and the number of each character
  ghost predicate SameText(cc: Classes, s: seq<int>, t: seq<int>) {
    && |t| == |s| && multiset(t) == multiset(s)
    && (forall i | 0 <= i < |s| :: (cc(s[i]) == 0 || cc(t[i]) == 0) ==> t[i] == s[i])
    && forall k: nat :: Marks(cc, t, k) == Marks(cc, s, k)
  }

  lemma {:induction false} ExchangeKeeps(cc: Classes, s: seq<int>, i: int)
    requires Reorderable(cc, s, i)
    ensures SameText(cc, s, Exchange(s, i))
  {
    hide Marks;
    forall k: nat ensures Marks(cc, Exchange(s, i), k) == Marks(cc, s, k) {
      ExchangeMarks(cc, s, i, k);
    }
  }

  lemma {:induction false} SameTextTrans(cc: Classes, s: seq<int>, t: seq<int>, u: seq<int>)
    requires SameText(cc, s, t) && SameText(cc, t, u)
    ensures SameText(cc, s, u)
  {
    hide Marks;
  }

  // Exchanging is stable, permutes, and leaves the starters where they are.
  lemma {:induction false} ReachesKeeps(cc: Classes, s: seq<int>, t: seq<int>, n: nat)
    requires Reaches(cc, s, t, n)
    ensures SameText(cc, s, t)
    decreases n
  {
    if n > 0 {
      var u: seq<int>, i: int :| Reaches(cc, s, u, n - 1) && Reorderable(cc, u, i) && t == Exchange(u, i);
      hide Marks, SameText, Reorderable, Exchange;
      ReachesKeeps(cc, s, u, n - 1);
      ExchangeKeeps(cc, u, i);
      SameTextTrans(cc, s, u, t);
    }
  }

  lemma {:induction false} ReorderedKeeps(cc: Classes, s: seq<int>, t: seq<int>)
    requires Reordered(cc, s, t)
    ensures SameText(cc, s, t)
  {
    hide Reaches, SameText;
    var n: nat :| Reaches(cc, s, t, n);
    ReachesKeeps(cc, s, t, n);
  }

  lemma {:induction false} ReorderedStart(cc: Classes, s: seq<int>)
    ensures Reordered(cc, s, s)
  {
    assert Reaches(cc, s, s, 0);
  }

  lemma {:induction false} ReorderedNext(cc: Classes, s: seq<int>, t: seq<int>, i: int)
    requires Reordered(cc, s, t) && Reorderable(cc, t, i)
    ensures Reordered(cc, s, Exchange(t, i))
  {
    var n: nat :| Reaches(cc, s, t, n);
    assert Reaches(cc, s, Exchange(t, i), n + 1);
  }

  // up to the first starter, an ordered sequence has no class below that of its head
  lemma {:induction false} HeadSmallest(cc: Classes, s: seq<int>, k: nat)
    requires s != [] && Ordered(cc, s) && 0 < k < cc(s[0])
    ensures Marks(cc, s, k) == [] || cc(Marks(cc, s, k)[0]) == 0
  {
    if |s| > 1 && cc(s[1]) > 0 {
      assert !Reorderable(cc, s, 0);
      OrderedTail(cc, s);
      HeadSmallest(cc, s[1..], k);
    } else if |s| > 1 {
      assert Marks(cc, s, k) == Marks(cc, s[1..], k) == [s[1]] + Marks(cc, s[1..][1..], k);
    } else {
      assert s[1..] == [];
    }
  }

  lemma {:induction false} OrderedTail(cc: Classes, s: seq<int>)
    requires s != [] && Ordered(cc, s)
    ensures Ordered(cc, s[1..])
  {
    forall i | 0 <= i < |s[1..]| - 1 ensures !Reorderable(cc, s[1..], i) {
      assert !Reorderable(cc, s, i + 1);
    }
  }

  lemma {:induction false} SameHead(cc: Classes, s: seq<int>, t: seq<int>)
    requires s != [] && Ordered(cc, s) && Ordered(cc, t) && forall k: nat :: Marks(cc, s, k) == Marks(cc, t, k)
    ensures t != [] && s[0] == t[0]
  {
    var x := s[0];
    assert Marks(cc, s, cc(x))[0] == x;
    assert Marks(cc, t, cc(x))[0] == x;
    var y := t[0];
    assert Marks(cc, t, cc(y))[0] == y == Marks(cc, s, cc(y))[0];
    if 0 < cc(x) < cc(y) {
      HeadSmallest(cc, t, cc(x));
    } else if 0 < cc(y) < cc(x) {
      HeadSmallest(cc, s, cc(y));
    }
  }

  // There is only one ordered sequence with given marks: however the pairs are picked, the result is the same.
  lemma {:induction false} OrderUnique(cc: Classes, s: seq<int>, t: seq<int>)
    requires Ordered(cc, s) && Ordered(cc, t) && forall k: nat :: Marks(cc, s, k) == Marks(cc, t, k)
    ensures s == t
  {
    if s == [] {
      if t != [] {
        SameHead(cc, t, s);
      }
    } else {
      SameHead(cc, s, t);
      OrderedTail(cc, s);
      OrderedTail(cc, t);
      forall k: nat ensures Marks(cc, s[1..], k) == Marks(cc, t[1..], k) {
        TailMarks(cc, s, t, k);
      }
      OrderUnique(cc, s[1..], t[1..]);
      assert s == [s[0]] + s[1..] && t == [t[0]] + t[1..];
    }
  }

  lemma {:induction false} TailMarks(cc: Classes, s: seq<int>, t: seq<int>, k: nat)
    requires s != [] && t != [] && s[0] == t[0] && Marks(cc, s, k) == Marks(cc, t, k)
    ensures Marks(cc, s[1..], k) == Marks(cc, t[1..], k)
  {
    var p := if cc(s[0]) in {0, k} then [s[0]] else [];
    assert (p + Marks(cc, s[1..], k))[|p|..] == Marks(cc, s[1..], k);
    assert (p + Marks(cc, t[1..], k))[|p|..] == Marks(cc, t[1..], k);
  }

  lemma {:induction false} ReorderedOnce(cc: Classes, s: seq<int>, t: seq<int>, u: seq<int>)
    requires Reordered(cc, s, t) && Reordered(cc, s, u) && Ordered(cc, t) && Ordered(cc, u)
    ensures t == u
  {
    hide Reordered, Ordered, Marks;
    ReorderedKeeps(cc, s, t);
    ReorderedKeeps(cc, s, u);
    OrderUnique(cc, t, u);
  }

  // the classes from a to b do not fall, and there is no starter
  ghost predicate Rising(cc: Classes, s: seq<int>, a: int, b: int) {
    0 <= a <= b <= |s| && (forall p | a <= p < b :: cc(s[p]) > 0)
    && forall p, q | a <= p < q < b :: cc(s[p]) <= cc(s[q])
  }

  // the character at k + 1 is on its way down
  ghost predicate Inserting(cc: Classes, s: seq<int>, start: int, k: int, j: int) {
    && 0 <= start <= k + 1 <= j < |s| && Rising(cc, s, start, k + 1) && Rising(cc, s, k + 1, j + 1)
    && (forall p, q | start <= p <= k && k + 2 <= q <= j :: cc(s[p]) <= cc(s[q]))
  }

  lemma {:induction false} InsertNext(cc: Classes, s: seq<int>, start: int, k: int, j: int)
    requires Inserting(cc, s, start, k, j) && k >= start && cc(s[k]) > cc(s[k + 1])
    ensures Reorderable(cc, s, k) && Inserting(cc, Exchange(s, k), start, k - 1, j)
  {
  }

  lemma {:induction false} InsertEnd(cc: Classes, s: seq<int>, start: int, k: int, j: int)
    requires Inserting(cc, s, start, k, j) && (k >= start ==> cc(s[k]) <= cc(s[k + 1]))
    ensures Rising(cc, s, start, j + 1)
  {
  }

  // nothing to exchange before i, and no pair across it
  ghost predicate DoneTo(cc: Classes, s: seq<int>, i: int) {
    0 <= i <= |s| && (i > 0 ==> i == |s| || cc(s[i - 1]) == 0) && forall p | 0 <= p < i - 1 :: !Reorderable(cc, s, p)
  }

  lemma {:induction false} RunDone(cc: Classes, s: seq<int>, start: int, j: int)
    requires DoneTo(cc, s, start) && Rising(cc, s, start, j) && start < j && (j < |s| ==> cc(s[j]) == 0)
    ensures DoneTo(cc, s, if j < |s| then j + 1 else j)
  {
    forall p | 0 <= p < j ensures !Reorderable(cc, s, p) {
    }
  }

  // only places from start on have changed
  lemma {:induction false} DoneKept(cc: Classes, s: seq<int>, t: seq<int>, start: int)
    requires DoneTo(cc, s, start) && |t| == |s| && t[..start] == s[..start]
    ensures DoneTo(cc, t, start)
  {
    forall p | 0 <= p < start - 1 ensures !Reorderable(cc, t, p) {
      assert !Reorderable(cc, s, p);
      assert t[..start][p] == s[..start][p] && t[..start][p + 1] == s[..start][p + 1];
    }
    if 0 < start {
      assert t[..start][start - 1] == s[..start][start - 1];
    }
  }

  // the inner loop of sort_cc: character j of a run goes down to its place
  method Insert(buf: array<int>, start: nat, j: nat, cc: Classes)
    requires start < j < buf.Length && Rising(cc, buf[..], start, j) && cc(buf[j]) > 0
    modifies buf
    ensures Rising(cc, buf[..], start, j + 1) && buf[..start] == old(buf[..start]) && buf[j + 1..] == old(buf[j + 1..])
    ensures forall s | Reordered(cc, s, old(buf[..])) :: Reordered(cc, s, buf[..])
  {
    hide Reordered, Reorderable;
    ghost var was := buf[..];
    var ch1 := buf[j];
    var cc1 := cc(ch1);
    var k := j as int - 1;
    ghost var t := buf[..];
    while k >= start
      invariant start - 1 <= k < j && t == buf[..][k + 1 := ch1] && Inserting(cc, t, start, k, j)
      invariant t[..start] == was[..start] && t[j + 1..] == was[j + 1..]
      invariant forall s | Reordered(cc, s, was) :: Reordered(cc, s, t)
    {
      if cc(buf[k]) <= cc1 {
        break;
      }
      InsertNext(cc, t, start, k, j);
      forall s | Reordered(cc, s, was) ensures Reordered(cc, s, Exchange(t, k)) {
        ReorderedNext(cc, s, t, k);
      }
      buf[k + 1] := buf[k];
      t := Exchange(t, k);
      k := k - 1;
    }
    InsertEnd(cc, t, start, k, j);
    buf[k + 1] := ch1;
    assert buf[..] == t;
  }

  // no class but 0 follows a greater one
  lemma {:induction false} InOrder(cc: Classes, s: seq<int>)
    requires Ordered(cc, s)
    ensures forall i | 0 <= i < |s| - 1 :: cc(s[i]) <= cc(s[i + 1]) || cc(s[i + 1]) == 0
  {
    forall i | 0 <= i < |s| - 1 ensures cc(s[i]) <= cc(s[i + 1]) || cc(s[i + 1]) == 0 {
      assert !Reorderable(cc, s, i);
    }
  }

  // sort_cc: the result is the canonical order
  method SortCc(buf: array<int>, cc: Classes)
    modifies buf
    ensures Reordered(cc, old(buf[..]), buf[..]) && Ordered(cc, buf[..])
    ensures forall i | 0 <= i < buf.Length - 1 :: cc(buf[i]) <= cc(buf[i + 1]) || cc(buf[i + 1]) == 0
  {
    hide Reordered, Ordered, Rising, DoneTo, Reorderable;
    ghost var s := buf[..];
    ReorderedStart(cc, s);
    NothingDone(cc, s);
    var i := 0;
    while i < buf.Length
      invariant 0 <= i && Reordered(cc, s, buf[..])
      invariant DoneTo(cc, buf[..], if i < buf.Length then i else buf.Length)
    {
      if cc(buf[i]) != 0 {
        var start, j := i, i + 1;
        RunStart(cc, buf[..], start);
        while j < buf.Length
          invariant start < j <= buf.Length && Reordered(cc, s, buf[..])
          invariant DoneTo(cc, buf[..], start) && Rising(cc, buf[..], start, j)
        {
          if cc(buf[j]) == 0 {
            break;
          }
          ghost var was := buf[..];
          Insert(buf, start, j, cc);
          assert was[..start] == buf[..start] == buf[..][..start];
          DoneKept(cc, was, buf[..], start);
          j := j + 1;
        }
        RunDone(cc, buf[..], start, j);
        i := j;
      } else {
        StarterDone(cc, buf[..], i);
      }
      i := i + 1;
    }
    AllDone(cc, buf[..]);
    InOrder(cc, buf[..]);
  }

  lemma {:induction false} NothingDone(cc: Classes, s: seq<int>)
    ensures DoneTo(cc, s, 0)
  {
  }

  lemma {:induction false} RunStart(cc: Classes, s: seq<int>, i: nat)
    requires i < |s| && cc(s[i]) > 0
    ensures Rising(cc, s, i, i + 1)
  {
  }

  lemma {:induction false} StarterDone(cc: Classes, s: seq<int>, i: nat)
    requires i < |s| && DoneTo(cc, s, i) && cc(s[i]) == 0
    ensures DoneTo(cc, s, i + 1)
  {
    forall p | 0 <= p < i ensures !Reorderable(cc, s, p) {
    }
  }

  lemma {:induction false} AllDone(cc: Classes, s: seq<int>)
    requires DoneTo(cc, s, |s|)
    ensures Ordered(cc, s)
  {
  }

  // A second pass changes nothing: an ordered sequence is its own canonical order.
  lemma {:induction false} SecondPass(cc: Classes, s: seq<int>, t: seq<int>)
    requires Ordered(cc, s) && Reordered(cc, s, t) && Ordered(cc, t)
    ensures t == s
  {
    ReorderedStart(cc, s);
    ReorderedOnce(cc, s, s, t);
  }
}
