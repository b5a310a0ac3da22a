/** rqsort of cutils.c: quicksort with a four-part partition on an explicit stack of fifty
    slots, falling back to heapsort, and finishing with insertion sort. */
module QuickSort {

  type Elem(==, !new)

  // cmp_f
  type Cmp = (Elem, Elem) -> int

  ghost predicate Preorder(cmp: Cmp) {
    && (forall a, b :: (cmp(a, b) < 0 <==> cmp(b, a) > 0))
    && (forall a, b, c :: cmp(a, b) <= 0 && cmp(b, c) <= 0 ==> cmp(a, c) <= 0)
  }

  ghost predicate Le(cmp: Cmp, a: Elem, b: Elem) { cmp(a, b) <= 0 }

  ghost predicate Lt(cmp: Cmp, a: Elem, b: Elem) { cmp(a, b) < 0 }

  ghost predicate Same(cmp: Cmp, a: Elem, b: Elem) { cmp(a, b) == 0 }

  ghost predicate Sorted(cmp: Cmp, s: seq<Elem>, lo: int, hi: int)
    requires 0 <= lo && hi <= |s|
  {
    forall i, j | lo <= i < j < hi :: Le(cmp, s[i], s[j])
  }

  // t is s with the elements from lo up to hi rearranged
  ghost predicate Rearranged(s: seq<Elem>, t: seq<Elem>, lo: int, hi: int) {
    && 0 <= lo <= hi <= |s| == |t|
    && (forall k | 0 <= k < |s| && !(lo <= k < hi) :: t[k] == s[k])
    && multiset(t[lo..hi]) == multiset(s[lo..hi])
  }

  lemma {:induction false} RearrangedSelf(s: seq<Elem>, lo: int, hi: int)
    requires 0 <= lo <= hi <= |s|
    ensures Rearranged(s, s, lo, hi)
  {
  }

  lemma {:induction false} RearrangedTrans(s: seq<Elem>, t: seq<Elem>, u: seq<Elem>, lo: int, hi: int)
    requires Rearranged(s, t, lo, hi) && Rearranged(t, u, lo, hi)
    ensures Rearranged(s, u, lo, hi)
  {
  }

  // a rearrangement of a part is one of the whole
  lemma {:induction false} RearrangedWider(s: seq<Elem>, t: seq<Elem>, lo: int, hi: int, lo': int, hi': int)
    requires Rearranged(s, t, lo, hi) && 0 <= lo' <= lo && hi <= hi' <= |s|
    ensures Rearranged(s, t, lo', hi')
  {
    assert s[lo'..hi'] == s[lo'..lo] + s[lo..hi] + s[hi..hi'];
    assert t[lo'..hi'] == t[lo'..lo] + t[lo..hi] + t[hi..hi'];
    assert s[lo'..lo] == t[lo'..lo] && s[hi..hi'] == t[hi..hi'];
  }

  function Swapped(s: seq<Elem>, i: nat, j: nat): seq<Elem>
    requires i < |s| && j < |s|
  {
    s[i := s[j]][j := s[i]]
  }

  lemma {:induction false} SwappedRearranges(s: seq<Elem>, i: nat, j: nat, lo: int, hi: int)
    requires 0 <= lo <= i < hi <= |s| && lo <= j < hi
    ensures Rearranged(s, Swapped(s, i, j), lo, hi)
  {
    var u := s[lo..hi];
    assert Swapped(s, i, j)[lo..hi] == u[i - lo := u[j - lo]][j - lo := u[i - lo]];
  }

  // every element after a rearrangement was there before
  lemma {:induction false} ComesFrom(s: seq<Elem>, t: seq<Elem>, lo: int, hi: int, k: int) returns (j: int)
    requires Rearranged(s, t, lo, hi) && lo <= k < hi
    ensures lo <= j < hi && s[j] == t[k]
  {
    assert t[k] == t[lo..hi][k - lo];
    assert t[k] in multiset(t[lo..hi]);
    assert t[k] in multiset(s[lo..hi]);
    var i :| 0 <= i < hi - lo && s[lo..hi][i] == t[k];
    j := lo + i;
  }

  method Swap(a: array<Elem>, i: nat, j: nat)
    requires i < a.Length && j < a.Length
    modifies a
    ensures a[..] == Swapped(old(a[..]), i, j)
  {
    var x := a[i];
    a[i] := a[j];
    a[j] := x;
  }

  function SwappedBlock(s: seq<Elem>, i: nat, j: nat, len: nat): (t: seq<Elem>)
    requires i + len <= j && j + len <= |s|
    ensures |t| == |s|
  {
    s[..i] + s[j..j + len] + s[i + len..j] + s[i..i + len] + s[j + len..]
  }

  lemma {:induction false} SwappedBlockAt(s: seq<Elem>, i: nat, j: nat, len: nat, k: nat)
    requires i + len <= j && j + len <= |s| && k < |s|
    ensures SwappedBlock(s, i, j, len)[k] ==
            if i <= k < i + len then s[j + (k - i)] else if j <= k < j + len then s[i + (k - j)] else s[k]
  {
  }

  lemma {:induction false} SwappedBlockStep(s: seq<Elem>, i: nat, j: nat, len: nat)
    requires i + len + 1 <= j && j + len + 1 <= |s|
    ensures Swapped(SwappedBlock(s, i, j, len), i + len, j + len) == SwappedBlock(s, i, j, len + 1)
  {
    hide SwappedBlock;
    var t, u := SwappedBlock(s, i, j, len), SwappedBlock(s, i, j, len + 1);
    SwappedBlockAt(s, i, j, len, i + len);
    SwappedBlockAt(s, i, j, len, j + len);
    forall k | 0 <= k < |s| ensures Swapped(t, i + len, j + len)[k] == u[k] {
      SwappedBlockAt(s, i, j, len, k);
      SwappedBlockAt(s, i, j, len + 1, k);
    }
  }

  // k of len elements have changed places
  ghost predicate BlockSwapping(s: seq<Elem>, t: seq<Elem>, i: nat, j: nat, k: nat, len: nat)
    requires k <= len && i + len <= j && j + len <= |s|
  {
    Rearranged(s, t, i, j + len) && t == SwappedBlock(s, i, j, k)
  }

  lemma {:induction false} BlockSwapStep(s: seq<Elem>, t: seq<Elem>, i: nat, j: nat, k: nat, len: nat)
    requires k < len && i + len <= j && j + len <= |s| && BlockSwapping(s, t, i, j, k, len)
    ensures |t| == |s| && BlockSwapping(s, Swapped(t, i + k, j + k), i, j, k + 1, len)
  {
    hide SwappedBlock, Swapped, Rearranged;
    SwappedRearranges(t, i + k, j + k, i, j + len);
    SwappedBlockStep(s, i, j, k);
    RearrangedTrans(s, t, Swapped(t, i + k, j + k), i, j + len);
  }

  // swap_block: len elements from i on with len elements from j on
  method SwapBlock(a: array<Elem>, i: nat, j: nat, len: nat)
    requires i + len <= j && j + len <= a.Length
    modifies a
    ensures a[..] == SwappedBlock(old(a[..]), i, j, len)
    ensures Rearranged(old(a[..]), a[..], i, j + len)
  {
    hide *;
    ghost var s := a[..];
    BlockSwapEnds(s, s, i, j, len);
    var k := 0;
    while k < len
      invariant k <= len && BlockSwapping(s, a[..], i, j, k, len)
    {
      BlockSwapStep(s, a[..], i, j, k, len);
      Swap(a, i + k, j + k);
      k := k + 1;
    }
    BlockSwapEnds(s, a[..], i, j, len);
  }

  lemma {:induction false} BlockSwapEnds(s: seq<Elem>, t: seq<Elem>, i: nat, j: nat, len: nat)
    requires i + len <= j && j + len <= |s|
    ensures BlockSwapping(s, s, i, j, 0, len)
    ensures BlockSwapping(s, t, i, j, len, len) ==> t == SwappedBlock(s, i, j, len) && Rearranged(s, t, i, j + len)
  {
    RearrangedSelf(s, i, j + len);
    SwappedBlockNone(s, i, j);
  }

  lemma {:induction false} SwappedBlockNone(s: seq<Elem>, i: nat, j: nat)
    requires i <= j <= |s|
    ensures SwappedBlock(s, i, j, 0) == s
  {
  }

  // Insertion sort for small fragments.

  lemma {:induction false} LeTrans(cmp: Cmp, a: Elem, b: Elem, c: Elem)
    requires Preorder(cmp) && Le(cmp, a, b) && Le(cmp, b, c)
    ensures Le(cmp, a, c)
  {
  }

  lemma {:induction false} LeTotal(cmp: Cmp, a: Elem, b: Elem)
    requires Preorder(cmp) && !Le(cmp, a, b)
    ensures Le(cmp, b, a)
  {
  }

  // the fragment up to i is in order but for the element at j, which still has to go down
  ghost predicate Inserting(cmp: Cmp, s: seq<Elem>, lo: int, j: int, i: int) {
    && 0 <= lo <= j <= i < |s|
    && (forall x, y | lo <= x < y <= i && x != j && y != j :: Le(cmp, s[x], s[y]))
    && (forall y | j < y <= i :: Le(cmp, s[j], s[y]))
  }

  lemma {:induction false} InsertDown(cmp: Cmp, s: seq<Elem>, lo: int, j: int, i: int)
    requires Preorder(cmp) && Inserting(cmp, s, lo, j, i) && lo < j && cmp(s[j - 1], s[j]) > 0
    ensures Inserting(cmp, Swapped(s, j, j - 1), lo, j - 1, i)
  {
    hide Preorder;
    LeTotal(cmp, s[j - 1], s[j]);
  }

  lemma {:induction false} InsertDone(cmp: Cmp, s: seq<Elem>, lo: int, j: int, i: int)
    requires Preorder(cmp) && Inserting(cmp, s, lo, j, i) && (j == lo || Le(cmp, s[j - 1], s[j]))
    ensures Sorted(cmp, s, lo, i + 1)
  {
    hide Preorder;
    forall x, y | lo <= x < y < i + 1 ensures Le(cmp, s[x], s[y]) {
      if y == j && x < j - 1 {
        LeTrans(cmp, s[x], s[j - 1], s[j]);
      }
    }
  }

  method InsertionSort(a: array<Elem>, lo: nat, n: nat, cmp: Cmp)
    requires lo + n <= a.Length && Preorder(cmp)
    modifies a
    ensures Rearranged(old(a[..]), a[..], lo, lo + n) && Sorted(cmp, a[..], lo, lo + n)
  {
    hide Rearranged, Inserting, Preorder, Swapped;
    ghost var s := a[..];
    RearrangedSelf(s, lo, lo + n);
    var i := lo + 1;
    while i < lo + n
      invariant lo < i && (i <= lo + n || i == lo + 1)
      invariant Rearranged(s, a[..], lo, lo + n) && (i <= lo + n ==> Sorted(cmp, a[..], lo, i))
    {
      var j := i;
      InsertStart(cmp, a[..], lo, i);
      while j > lo && cmp(a[j - 1], a[j]) > 0
        invariant lo <= j <= i && Rearranged(s, a[..], lo, lo + n) && Inserting(cmp, a[..], lo, j, i)
      {
        ghost var t := a[..];
        InsertDown(cmp, t, lo, j, i);
        SwappedRearranges(t, j, j - 1, lo, lo + n);
        Swap(a, j, j - 1);
        RearrangedTrans(s, t, a[..], lo, lo + n);
        j := j - 1;
      }
      InsertDone(cmp, a[..], lo, j, i);
      i := i + 1;
    }
  }

  lemma {:induction false} InsertStart(cmp: Cmp, s: seq<Elem>, lo: int, i: int)
    requires 0 <= lo <= i < |s| && Sorted(cmp, s, lo, i)
    ensures Inserting(cmp, s, lo, i, i)
  {
  }

  // The four-part partition.

  // equal, smaller, not yet looked at, greater, equal; s[p] is the pivot
  ghost predicate Parts(cmp: Cmp, s: seq<Elem>, p: int, lt: int, i: int, j: int, gt: int, top: int) {
    && 0 <= p < lt <= i <= j <= gt <= top <= |s|
    && (forall k | p <= k < lt :: Same(cmp, s[p], s[k]))
    && (forall k | lt <= k < i :: Lt(cmp, s[k], s[p]))
    && (forall k | j <= k < gt :: Lt(cmp, s[p], s[k]))
    && (forall k | gt <= k < top :: Same(cmp, s[p], s[k]))
  }

  lemma {:induction false} PartsEqualLow(cmp: Cmp, s: seq<Elem>, p: int, lt: int, i: int, j: int, gt: int, top: int)
    requires Parts(cmp, s, p, lt, i, j, gt, top) && i < j && cmp(s[p], s[i]) == 0
    ensures Parts(cmp, Swapped(s, lt, i), p, lt + 1, i + 1, j, gt, top)
  {
  }

  lemma {:induction false} PartsSmaller(cmp: Cmp, s: seq<Elem>, p: int, lt: int, i: int, j: int, gt: int, top: int)
    requires Preorder(cmp) && Parts(cmp, s, p, lt, i, j, gt, top) && i < j && cmp(s[p], s[i]) > 0
    ensures Parts(cmp, s, p, lt, i + 1, j, gt, top)
  {
  }

  lemma {:induction false} PartsEqualHigh(cmp: Cmp, s: seq<Elem>, p: int, lt: int, i: int, j: int, gt: int, top: int)
    requires Parts(cmp, s, p, lt, i, j, gt, top) && i < j && cmp(s[p], s[j - 1]) == 0
    ensures Parts(cmp, Swapped(s, gt - 1, j - 1), p, lt, i, j - 1, gt - 1, top)
    ensures i < j - 1 ==> Swapped(s, gt - 1, j - 1)[i] == s[i] && Swapped(s, gt - 1, j - 1)[p] == s[p]
  {
  }

  lemma {:induction false} PartsGreater(cmp: Cmp, s: seq<Elem>, p: int, lt: int, i: int, j: int, gt: int, top: int)
    requires Parts(cmp, s, p, lt, i, j, gt, top) && i < j && cmp(s[p], s[j - 1]) < 0
    ensures Parts(cmp, s, p, lt, i, j - 1, gt, top)
  {
  }

  lemma {:induction false} PartsExchange(cmp: Cmp, s: seq<Elem>, p: int, lt: int, i: int, j: int, gt: int, top: int)
    requires Preorder(cmp) && Parts(cmp, s, p, lt, i, j, gt, top) && i < j - 1 && cmp(s[p], s[i]) < 0
             && cmp(s[p], s[j - 1]) > 0
    ensures Parts(cmp, Swapped(s, i, j - 1), p, lt, i + 1, j - 1, gt, top)
  {
  }

  // smaller than, the same as, and greater than the element at lt
  ghost predicate Partitioned(cmp: Cmp, s: seq<Elem>, p: int, lt: int, gt: int, top: int) {
    && 0 <= p <= lt < gt <= top <= |s|
    && (forall k | p <= k < lt :: Lt(cmp, s[k], s[lt]))
    && (forall k | lt <= k < gt :: Same(cmp, s[lt], s[k]))
    && (forall k | gt <= k < top :: Lt(cmp, s[lt], s[k]))
  }

  // scan from both ends until the two cursors meet
  method Scan(a: array<Elem>, p: nat, n: nat, cmp: Cmp) returns (lt: nat, i: nat, gt: nat)
    requires 1 <= n && p + n <= a.Length && Preorder(cmp)
    modifies a
    ensures Rearranged(old(a[..]), a[..], p, p + n) && Parts(cmp, a[..], p, lt, i, i, gt, p + n)
  {
    hide Rearranged, Preorder, Swapped, Parts;
    ghost var s := a[..];
    var top := p + n;
    RearrangedSelf(s, p, top);
    i, lt, gt := p + 1, p + 1, top;
    var j := top;
    PartsStart(cmp, s, p, top);
    while true
      invariant Parts(cmp, a[..], p, lt, i, j, gt, top) && Rearranged(s, a[..], p, top)
      invariant p < lt <= i <= j <= gt <= top
      decreases j - i
    {
      lt, i := ScanLow(a, p, lt, i, j, gt, top, cmp, s);
      j, gt := ScanHigh(a, p, lt, i, j, gt, top, cmp, s);
      if i >= j {
        break;
      }
      ghost var t := a[..];
      PartsExchange(cmp, t, p, lt, i, j + 1, gt, top);
      SwappedRearranges(t, i, j, p, top);
      Swap(a, i, j);
      RearrangedTrans(s, t, a[..], p, top);
      i := i + 1;
    }
  }

  lemma {:induction false} PartsStart(cmp: Cmp, s: seq<Elem>, p: int, top: int)
    requires Preorder(cmp) && 0 <= p < top <= |s|
    ensures Parts(cmp, s, p, p + 1, p + 1, top, top, top)
  {
  }

  lemma {:induction false} PartsSizes(cmp: Cmp, s: seq<Elem>, p: int, lt: int, i: int, j: int, gt: int, top: int)
    requires Parts(cmp, s, p, lt, i, j, gt, top)
    ensures 0 <= p < lt <= i <= j <= gt <= top <= |s|
  {
  }

  // the first inner loop: up to an element greater than the pivot
  method ScanLow(a: array<Elem>, p: nat, lt0: nat, i0: nat, j: nat, gt: nat, top: nat, cmp: Cmp, ghost s: seq<Elem>)
      returns (lt: nat, i: nat)
    requires Preorder(cmp) && top <= a.Length && Parts(cmp, a[..], p, lt0, i0, j, gt, top)
             && Rearranged(s, a[..], p, top)
    modifies a
    ensures Parts(cmp, a[..], p, lt, i, j, gt, top) && Rearranged(s, a[..], p, top) && i0 <= i
    ensures p < lt <= i <= j <= gt <= top && (i < j ==> cmp(a[p], a[i]) < 0)
  {
    hide Rearranged, Preorder, Swapped, Parts;
    lt, i := lt0, i0;
    PartsSizes(cmp, a[..], p, lt, i, j, gt, top);
    while i < j && cmp(a[p], a[i]) >= 0
      invariant Parts(cmp, a[..], p, lt, i, j, gt, top) && Rearranged(s, a[..], p, top)
      invariant p < lt <= i <= j <= gt <= top && i0 <= i
    {
      if cmp(a[p], a[i]) == 0 {
        ghost var t := a[..];
        PartsEqualLow(cmp, t, p, lt, i, j, gt, top);
        SwappedRearranges(t, lt, i, p, top);
        Swap(a, lt, i);
        RearrangedTrans(s, t, a[..], p, top);
        lt := lt + 1;
      } else {
        PartsSmaller(cmp, a[..], p, lt, i, j, gt, top);
      }
      i := i + 1;
    }
  }

  // the second inner loop: down to an element smaller than the pivot, or until the cursors meet
  method ScanHigh(a: array<Elem>, p: nat, lt: nat, i: nat, j0: nat, gt0: nat, top: nat, cmp: Cmp, ghost s: seq<Elem>)
      returns (j: nat, gt: nat)
    requires Preorder(cmp) && top <= a.Length && Parts(cmp, a[..], p, lt, i, j0, gt0, top)
             && Rearranged(s, a[..], p, top)
    requires i < j0 ==> cmp(a[p], a[i]) < 0
    modifies a
    ensures Rearranged(s, a[..], p, top) && p < lt <= i && gt <= top && j < j0
    ensures if i < j then Parts(cmp, a[..], p, lt, i, j + 1, gt, top) && cmp(a[p], a[j]) > 0 && cmp(a[p], a[i]) < 0
            && j + 1 <= gt
            else Parts(cmp, a[..], p, lt, i, i, gt, top)
  {
    hide Rearranged, Preorder, Swapped, Parts;
    j, gt := j0, gt0;
    PartsSizes(cmp, a[..], p, lt, i, j, gt, top);
    while true
      invariant Parts(cmp, a[..], p, lt, i, j, gt, top) && Rearranged(s, a[..], p, top)
      invariant p < lt <= i <= j <= gt <= top && (i < j0 ==> i < j && cmp(a[p], a[i]) < 0) && j <= j0
      decreases j
    {
      j := j - 1;
      if i >= j {
        if i < j0 {
          PartsGreater(cmp, a[..], p, lt, i, j + 1, gt, top);
        }
        break;
      }
      var c := cmp(a[p], a[j]);
      if c > 0 {
        break;
      }
      if c == 0 {
        ghost var t := a[..];
        PartsEqualHigh(cmp, t, p, lt, i, j + 1, gt, top);
        gt := gt - 1;
        SwappedRearranges(t, gt, j, p, top);
        Swap(a, gt, j);
        RearrangedTrans(s, t, a[..], p, top);
      } else {
        PartsGreater(cmp, a[..], p, lt, i, j + 1, gt, top);
      }
    }
  }

  // the equal elements move from both ends to the middle
  lemma {:induction false} PartsToMiddle(cmp: Cmp, s: seq<Elem>, p: nat, lt: nat, i: nat, gt: nat, top: nat,
                                         t: seq<Elem>, u: seq<Elem>)
    requires Preorder(cmp) && Parts(cmp, s, p, lt, i, i, gt, top)
    requires var span := Min(lt - p, i - lt); t == SwappedBlock(s, p, i - span, span)
    requires var span := Min(top - gt, gt - i); u == SwappedBlock(t, i, top - span, span)
    ensures Partitioned(cmp, u, p, p + (i - lt), top - (gt - i), top)
  {
    hide SwappedBlock, Preorder;
    var span1, span2, x := Min(lt - p, i - lt), Min(top - gt, gt - i), s[p];
    var lo, hi := p + (i - lt), top - (gt - i);
    forall k | p <= k < top
      ensures k < lo ==> Lt(cmp, u[k], x)
      ensures lo <= k < hi ==> Same(cmp, x, u[k])
      ensures hi <= k ==> Lt(cmp, x, u[k])
    {
      SwappedBlockAt(t, i, top - span2, span2, k);
      if k < i {
        SwappedBlockAt(s, p, i - span1, span1, k);
      } else if k < i + span2 {
        SwappedBlockAt(s, p, i - span1, span1, top - span2 + (k - i));
      } else if top - span2 <= k {
        SwappedBlockAt(s, p, i - span1, span1, i + (k - (top - span2)));
      } else {
        SwappedBlockAt(s, p, i - span1, span1, k);
      }
    }
    SamePivot(cmp, u, p, lo, hi, top, x);
  }

  function Min(a: nat, b: nat): nat { if a > b then b else a }

  lemma {:induction false} SamePivot(cmp: Cmp, u: seq<Elem>, p: int, lo: int, hi: int, top: int, x: Elem)
    requires Preorder(cmp) && 0 <= p <= lo < hi <= top <= |u|
    requires forall k | p <= k < lo :: Lt(cmp, u[k], x)
    requires forall k | lo <= k < hi :: Same(cmp, x, u[k])
    requires forall k | hi <= k < top :: Lt(cmp, x, u[k])
    ensures Partitioned(cmp, u, p, lo, hi, top)
  {
    assert Same(cmp, x, u[lo]);
    forall k | p <= k < top
      ensures k < lo ==> Lt(cmp, u[k], u[lo])
      ensures lo <= k < hi ==> Same(cmp, u[lo], u[k])
      ensures hi <= k ==> Lt(cmp, u[lo], u[k])
    {
      SameStep(cmp, u[k], x, u[lo]);
    }
  }

  // an element the same as another compares the same way with a third
  lemma {:induction false} SameStep(cmp: Cmp, a: Elem, x: Elem, y: Elem)
    requires Preorder(cmp) && Same(cmp, x, y)
    ensures Lt(cmp, a, x) ==> Lt(cmp, a, y)
    ensures Lt(cmp, x, a) ==> Lt(cmp, y, a)
    ensures Same(cmp, x, a) ==> Same(cmp, y, a)
  {
    assert cmp(y, x) <= 0 && cmp(x, y) <= 0;
    assert cmp(x, y) <= 0 && cmp(y, a) <= 0 ==> cmp(x, a) <= 0;
    assert cmp(a, y) <= 0 && cmp(y, x) <= 0 ==> cmp(a, x) <= 0;
    assert cmp(y, x) <= 0 && cmp(x, a) <= 0 ==> cmp(y, a) <= 0;
    assert cmp(a, x) <= 0 && cmp(x, y) <= 0 ==> cmp(a, y) <= 0;
  }

  // med3: the index of the median of three
  method Med3(a: array<Elem>, x: nat, y: nat, z: nat, cmp: Cmp) returns (m: nat)
    requires x < a.Length && y < a.Length && z < a.Length && Preorder(cmp)
    ensures m == x || m == y || m == z
    ensures Between(cmp, a[x], a[m], a[y]) || Between(cmp, a[y], a[m], a[z]) || Between(cmp, a[x], a[m], a[z])
    ensures m == x ==> Between(cmp, a[y], a[m], a[z])
    ensures m == y ==> Between(cmp, a[x], a[m], a[z])
    ensures m == z ==> Between(cmp, a[x], a[m], a[y])
  {
    m := if cmp(a[x], a[y]) < 0 then
           (if cmp(a[y], a[z]) < 0 then y else if cmp(a[x], a[z]) < 0 then z else x)
         else if cmp(a[y], a[z]) > 0 then y else if cmp(a[x], a[z]) < 0 then x else z;
  }

  ghost predicate Between(cmp: Cmp, a: Elem, m: Elem, b: Elem) {
    (Le(cmp, a, m) && Le(cmp, m, b)) || (Le(cmp, b, m) && Le(cmp, m, a))
  }

  // one round of the partition loop, with the pivot chosen and moved to the front
  method Partition(a: array<Elem>, p: nat, n: nat, cmp: Cmp) returns (lt: nat, gt: nat)
    requires 6 < n && p + n <= a.Length && Preorder(cmp)
    modifies a
    ensures Rearranged(old(a[..]), a[..], p, p + n) && lt < gt <= n
    ensures Partitioned(cmp, a[..], p, p + lt, p + gt, p + n)
  {
    hide Rearranged, Preorder, Swapped, Parts, SwappedBlock, Partitioned, Between;
    ghost var s := a[..];
    var m4 := n / 4;
    var m := Med3(a, p + m4, p + 2 * m4, p + 3 * m4, cmp);
    SwappedRearranges(s, p, m, p, p + n);
    Swap(a, p, m);
    ghost var r := a[..];
    var i;
    lt, i, gt := Scan(a, p, n, cmp);
    RearrangedTrans(s, r, a[..], p, p + n);
    r := a[..];
    PartsSizes(cmp, r, p, lt, i, i, gt, p + n);
    MoveEqual(a, p, lt, i, gt, p + n, cmp);
    RearrangedTrans(s, r, a[..], p, p + n);
    lt, gt := i - lt, n - (gt - i);
  }

  // two block swaps bring the equal elements together
  method MoveEqual(a: array<Elem>, p: nat, lt: nat, i: nat, gt: nat, top: nat, cmp: Cmp)
    requires p < lt <= i <= gt <= top <= a.Length && Preorder(cmp) && Parts(cmp, a[..], p, lt, i, i, gt, top)
    modifies a
    ensures Rearranged(old(a[..]), a[..], p, top) && Partitioned(cmp, a[..], p, p + (i - lt), top - (gt - i), top)
  {
    hide Rearranged, Preorder, Parts, SwappedBlock, Partitioned;
    ghost var r := a[..];
    var span := Min(lt - p, i - lt);
    SwapBlock(a, p, i - span, span);
    ghost var t := a[..];
    RearrangedWider(r, t, p, i, p, top);
    var span2 := Min(top - gt, gt - i);
    SwapBlock(a, i, top - span2, span2);
    RearrangedWider(t, a[..], i, top, p, top);
    RearrangedTrans(r, t, a[..], p, top);
    PartsToMiddle(cmp, r, p, lt, i, gt, top, t, a[..]);
  }

  // Heapsort.

  function Elt(s: seq<Elem>, p: nat, k: nat): Elem
    requires p + k < |s|
  {
    s[p + k]
  }

  function Parent(c: nat): nat
    requires c >= 1
  {
    (c - 1) / 2
  }

  // no child is greater than its parent, for parents from i on, leaving out r
  ghost predicate Heap(cmp: Cmp, s: seq<Elem>, p: nat, n: nat, i: nat, r: int)
    requires p + n <= |s|
  {
    forall c: nat | 1 <= c < n && Parent(c) >= i && Parent(c) != r :: Le(cmp, Elt(s, p, c), Elt(s, p, Parent(c)))
  }

  // the element at r goes down: its children are not greater than its parent
  ghost predicate Sifting(cmp: Cmp, s: seq<Elem>, p: nat, n: nat, i: nat, r: nat)
    requires p + n <= |s|
  {
    && Heap(cmp, s, p, n, i, r) && i <= r
    && (r > i && r >= 1 && Parent(r) >= i ==>
          forall c: nat | 1 <= c < n && Parent(c) == r :: Le(cmp, Elt(s, p, c), Elt(s, p, Parent(r))))
  }

  lemma {:induction false} SiftDown(cmp: Cmp, s: seq<Elem>, p: nat, n: nat, i: nat, r: nat, c: nat)
    requires Preorder(cmp) && p + n <= |s| && Sifting(cmp, s, p, n, i, r) && r < n && c < n && c >= 1 && Parent(c) == r
    requires forall d: nat | 1 <= d < n && Parent(d) == r :: Le(cmp, Elt(s, p, d), Elt(s, p, c))
    requires Le(cmp, Elt(s, p, r), Elt(s, p, c))
    ensures Sifting(cmp, Swapped(s, p + r, p + c), p, n, i, c)
  {
    hide Preorder;
    var t := Swapped(s, p + r, p + c);
    forall d: nat | 1 <= d < n && Parent(d) >= i && Parent(d) != c ensures Le(cmp, Elt(t, p, d), Elt(t, p, Parent(d))) {
      assert d == r ==> Parent(d) != r && Parent(d) != c;
    }
    forall d: nat | 1 <= d < n && Parent(d) == c ensures Le(cmp, Elt(t, p, d), Elt(t, p, r)) {
      assert Le(cmp, Elt(s, p, d), Elt(s, p, c));
    }
  }

  lemma {:induction false} SiftDone(cmp: Cmp, s: seq<Elem>, p: nat, n: nat, i: nat, r: nat)
    requires p + n <= |s| && Sifting(cmp, s, p, n, i, r)
    requires forall d: nat | 1 <= d < n && Parent(d) == r :: Le(cmp, Elt(s, p, d), Elt(s, p, r))
    ensures Heap(cmp, s, p, n, i, -1)
  {
  }

  // the larger child, and why it is
  lemma {:induction false} LargerChild(cmp: Cmp, s: seq<Elem>, p: nat, n: nat, r: nat, c: nat)
    requires Preorder(cmp) && p + n <= |s| && 2 * r + 1 < n
    requires c == if 2 * r + 2 < n && cmp(Elt(s, p, 2 * r + 1), Elt(s, p, 2 * r + 2)) <= 0 then 2 * r + 2 else 2 * r + 1
    ensures c < n && c >= 1 && Parent(c) == r
    ensures forall d: nat | 1 <= d < n && Parent(d) == r :: Le(cmp, Elt(s, p, d), Elt(s, p, c))
  {
    forall d: nat | 1 <= d < n && Parent(d) == r ensures Le(cmp, Elt(s, p, d), Elt(s, p, c)) {
      assert d == 2 * r + 1 || d == 2 * r + 2;
    }
  }

  lemma {:induction false} ChildrenBelow(cmp: Cmp, s: seq<Elem>, p: nat, n: nat, r: nat, c: nat)
    requires Preorder(cmp) && p + n <= |s| && r < n && c < n && cmp(Elt(s, p, r), Elt(s, p, c)) > 0
    requires forall d: nat | 1 <= d < n && Parent(d) == r :: Le(cmp, Elt(s, p, d), Elt(s, p, c))
    ensures forall d: nat | 1 <= d < n && Parent(d) == r :: Le(cmp, Elt(s, p, d), Elt(s, p, r))
  {
    hide Preorder;
    assert Le(cmp, Elt(s, p, c), Elt(s, p, r)) by { LeTotal(cmp, Elt(s, p, r), Elt(s, p, c)); }
    forall d: nat | 1 <= d < n && Parent(d) == r ensures Le(cmp, Elt(s, p, d), Elt(s, p, r)) {
      LeTrans(cmp, Elt(s, p, d), Elt(s, p, c), Elt(s, p, r));
    }
  }

  // the element at r is on its way down
  ghost predicate SiftingFrom(cmp: Cmp, s: seq<Elem>, t: seq<Elem>, p: nat, n: nat, i: nat, r: nat)
    requires p + n <= |t|
  {
    Rearranged(s, t, p, p + n) && Sifting(cmp, t, p, n, i, r)
  }

  lemma {:induction false} SiftStep(cmp: Cmp, s: seq<Elem>, t: seq<Elem>, p: nat, n: nat, i: nat, r: nat, c: nat)
    requires Preorder(cmp) && p + n <= |t| && SiftingFrom(cmp, s, t, p, n, i, r) && 2 * r + 1 < n
    requires c == if 2 * r + 2 < n && cmp(Elt(t, p, 2 * r + 1), Elt(t, p, 2 * r + 2)) <= 0 then 2 * r + 2 else 2 * r + 1
    ensures r < c < n
    ensures if cmp(Elt(t, p, r), Elt(t, p, c)) > 0 then Heap(cmp, t, p, n, i, -1)
            else |Swapped(t, p + r, p + c)| == |t| && SiftingFrom(cmp, s, Swapped(t, p + r, p + c), p, n, i, c)
  {
    hide Rearranged, Preorder, Swapped, Sifting, Heap;
    LargerChild(cmp, t, p, n, r, c);
    if cmp(Elt(t, p, r), Elt(t, p, c)) > 0 {
      ChildrenBelow(cmp, t, p, n, r, c);
      SiftDone(cmp, t, p, n, i, r);
    } else {
      SwappedRearranges(t, p + r, p + c, p, p + n);
      RearrangedSize(t, Swapped(t, p + r, p + c), p, p + n);
      SiftDown(cmp, t, p, n, i, r, c);
      RearrangedTrans(s, t, Swapped(t, p + r, p + c), p, p + n);
    }
  }

  // the inner loops of heapsortx: the element at i goes down the heap of n elements
  method Sift(a: array<Elem>, p: nat, n: nat, i: nat, cmp: Cmp, size: nat)
    requires Preorder(cmp) && n <= size && p + size <= a.Length && i < n && Sifting(cmp, a[..], p, n, i, i)
    modifies a
    ensures Rearranged(old(a[..]), a[..], p, p + n) && Heap(cmp, a[..], p, n, i, -1)
  {
    hide Rearranged, Preorder, Swapped, Sifting, Heap, SiftingFrom, Parent;
    ghost var s := a[..];
    SiftEnds(cmp, s, s, p, n, i, i);
    var r := i;
    while 2 * r + 1 < n
      invariant r < n && SiftingFrom(cmp, s, a[..], p, n, i, r)
      decreases n - r
    {
      var c := 2 * r + 1;
      if c < n - 1 && cmp(a[p + c], a[p + c + 1]) <= 0 {
        c := c + 1;
      }
      SiftStep(cmp, s, a[..], p, n, i, r, c);
      if cmp(a[p + r], a[p + c]) > 0 {
        break;
      }
      Swap(a, p + r, p + c);
      r := c;
    }
    SiftEnds(cmp, s, a[..], p, n, i, r);
  }

  lemma {:induction false} SiftEnds(cmp: Cmp, s: seq<Elem>, t: seq<Elem>, p: nat, n: nat, i: nat, r: nat)
    requires p + n <= |s| && p + n <= |t|
    ensures Sifting(cmp, s, p, n, i, i) ==> SiftingFrom(cmp, s, s, p, n, i, i)
    ensures SiftingFrom(cmp, s, t, p, n, i, r) ==>
              Rearranged(s, t, p, p + n) && (2 * r + 1 >= n ==> Heap(cmp, t, p, n, i, -1))
  {
    hide Rearranged, Heap, Sifting;
    RearrangedSelf(s, p, p + n);
    if SiftingFrom(cmp, s, t, p, n, i, r) && 2 * r + 1 >= n {
      NoChildren(n, r);
      SiftDone(cmp, t, p, n, i, r);
    }
  }

  lemma {:induction false} NoChildren(n: nat, r: nat)
    ensures 2 * r + 1 >= n ==> forall d: nat | 1 <= d < n :: Parent(d) != r
  {
  }

  lemma {:induction false} SiftStart(cmp: Cmp, s: seq<Elem>, p: nat, n: nat, i: nat)
    requires p + n <= |s| && Heap(cmp, s, p, n, i + 1, -1)
    ensures Sifting(cmp, s, p, n, i, i)
  {
  }

  lemma {:induction false} HeapNone(cmp: Cmp, s: seq<Elem>, p: nat, n: nat)
    requires p + n <= |s|
    ensures Heap(cmp, s, p, n, n / 2, -1)
  {
  }

  lemma {:induction false} RootLargest(cmp: Cmp, s: seq<Elem>, p: nat, n: nat, k: nat)
    requires Preorder(cmp) && p + n <= |s| && Heap(cmp, s, p, n, 0, -1) && k < n
    ensures Le(cmp, Elt(s, p, k), Elt(s, p, 0))
  {
    if k > 0 {
      RootLargest(cmp, s, p, n, Parent(k));
      LeTrans(cmp, Elt(s, p, k), Elt(s, p, Parent(k)), Elt(s, p, 0));
    } else {
      assert cmp(Elt(s, p, 0), Elt(s, p, 0)) <= 0;
    }
  }

  // the elements from i on are in place
  ghost predicate HeapSorted(cmp: Cmp, s: seq<Elem>, p: nat, i: nat, n: nat)
    requires p + n <= |s|
  {
    forall x: nat, y: nat | x < y < n && i <= y :: Le(cmp, Elt(s, p, x), Elt(s, p, y))
  }

  // taking the root out of the heap
  lemma {:induction false} TakeRoot(cmp: Cmp, s: seq<Elem>, p: nat, i: nat, n: nat)
    requires Preorder(cmp) && p + n <= |s| && 0 < i < n && Heap(cmp, s, p, i + 1, 0, -1)
             && HeapSorted(cmp, s, p, i + 1, n)
    ensures var t := Swapped(s, p, p + i); Sifting(cmp, t, p, i, 0, 0) && HeapSorted(cmp, t, p, i, n)
  {
    hide Preorder;
    var t := Swapped(s, p, p + i);
    forall x: nat, y: nat | x < y < n && i <= y ensures Le(cmp, Elt(t, p, x), Elt(t, p, y)) {
      if y == i {
        RootLargest(cmp, s, p, i + 1, if x == 0 then i else x);
      } else {
        assert Le(cmp, Elt(s, p, if x == 0 then i else if x == i then 0 else x), Elt(s, p, y));
      }
    }
    forall c: nat | 1 <= c < i && Parent(c) >= 0 && Parent(c) != 0 ensures Le(cmp, Elt(t, p, c), Elt(t, p, Parent(c))) {
      assert Le(cmp, Elt(s, p, c), Elt(s, p, Parent(c)));
    }
  }

  lemma {:induction false} HeapSortedKept(cmp: Cmp, s: seq<Elem>, t: seq<Elem>, p: nat, i: nat, n: nat)
    requires p + n <= |s| && i <= n && HeapSorted(cmp, s, p, i, n) && Rearranged(s, t, p, p + i)
    ensures HeapSorted(cmp, t, p, i, n)
  {
    hide Rearranged;
    RearrangedSize(s, t, p, p + i);
    forall x: nat, y: nat | x < y < n && i <= y ensures Le(cmp, Elt(t, p, x), Elt(t, p, y)) {
      RearrangedAt(s, t, p, p + i, p + y);
      if x < i {
        var j := ComesFrom(s, t, p, p + i, p + x);
        assert Le(cmp, Elt(s, p, j - p), Elt(s, p, y));
      } else {
        RearrangedAt(s, t, p, p + i, p + x);
        assert Le(cmp, Elt(s, p, x), Elt(s, p, y));
      }
    }
  }

  lemma {:induction false} RearrangedSize(s: seq<Elem>, t: seq<Elem>, lo: int, hi: int)
    requires Rearranged(s, t, lo, hi)
    ensures |t| == |s| && 0 <= lo <= hi <= |s|
  {
  }

  lemma {:induction false} RearrangedAt(s: seq<Elem>, t: seq<Elem>, lo: int, hi: int, k: int)
    requires Rearranged(s, t, lo, hi) && 0 <= k < |s| && !(lo <= k < hi)
    ensures k < |t| && t[k] == s[k]
  {
  }

  lemma {:induction false} AllSorted(cmp: Cmp, s: seq<Elem>, p: nat, n: nat)
    requires p + n <= |s| && (n <= 1 || HeapSorted(cmp, s, p, 1, n))
    ensures Sorted(cmp, s, p, p + n)
  {
    forall i, j | p <= i < j < p + n ensures Le(cmp, s[i], s[j]) {
      assert Le(cmp, Elt(s, p, i - p), Elt(s, p, j - p));
    }
  }

  // heapsortx
  method HeapSort(a: array<Elem>, p: nat, n: nat, cmp: Cmp)
    requires p + n <= a.Length && Preorder(cmp)
    modifies a
    ensures Rearranged(old(a[..]), a[..], p, p + n) && Sorted(cmp, a[..], p, p + n)
  {
    hide Rearranged, Preorder, Swapped, Sifting, Heap, HeapSorted, Sorted;
    ghost var s := a[..];
    RearrangedSelf(s, p, p + n);
    if n > 1 {
      BuildHeap(a, p, n, cmp);
      ghost var t := a[..];
      DrainHeap(a, p, n, cmp);
      RearrangedTrans(s, t, a[..], p, p + n);
    }
    AllSorted(cmp, a[..], p, n);
  }

  // the first loop: every element goes down, from the last parent to the root
  method BuildHeap(a: array<Elem>, p: nat, n: nat, cmp: Cmp)
    requires p + n <= a.Length && Preorder(cmp)
    modifies a
    ensures Rearranged(old(a[..]), a[..], p, p + n) && Heap(cmp, a[..], p, n, 0, -1)
  {
    hide Rearranged, Preorder, Sifting, Heap;
    ghost var s := a[..];
    RearrangedSelf(s, p, p + n);
    var i: nat := n / 2;
    HeapNone(cmp, s, p, n);
    while i > 0
      invariant i <= n / 2 && Rearranged(s, a[..], p, p + n) && Heap(cmp, a[..], p, n, i, -1)
    {
      i := i - 1;
      ghost var t := a[..];
      SiftStart(cmp, t, p, n, i);
      Sift(a, p, n, i, cmp, n);
      RearrangedTrans(s, t, a[..], p, p + n);
    }
  }

  // what the second loop keeps: a heap below i, and the elements from i on in place
  ghost predicate Draining(cmp: Cmp, s: seq<Elem>, t: seq<Elem>, p: nat, i: nat, n: nat)
    requires p + n <= |t| && i <= n
  {
    Rearranged(s, t, p, p + n) && Heap(cmp, t, p, i, 0, -1) && HeapSorted(cmp, t, p, i, n)
  }

  // the root has gone to the end, and the element from there has been sifted down
  lemma {:induction false} DrainStep(cmp: Cmp, s: seq<Elem>, t: seq<Elem>, u: seq<Elem>, p: nat, i: nat, n: nat)
    requires Preorder(cmp) && p + n <= |t| && p + n <= |u| && 0 < i < n && Draining(cmp, s, t, p, i + 1, n)
    requires Rearranged(Swapped(t, p, p + i), u, p, p + i) && Heap(cmp, u, p, i, 0, -1)
    ensures Draining(cmp, s, u, p, i, n)
  {
    hide Rearranged, Preorder, Swapped, Heap, HeapSorted, Sifting;
    var v := Swapped(t, p, p + i);
    SwappedRearranges(t, p, p + i, p, p + n);
    RearrangedSize(t, v, p, p + n);
    TakeRoot(cmp, t, p, i, n);
    HeapSortedKept(cmp, v, u, p, i, n);
    RearrangedWider(v, u, p, p + i, p, p + n);
    RearrangedTrans(s, t, v, p, p + n);
    RearrangedTrans(s, v, u, p, p + n);
  }

  lemma {:induction false} DrainTake(cmp: Cmp, s: seq<Elem>, t: seq<Elem>, p: nat, i: nat, n: nat)
    requires Preorder(cmp) && p + n <= |t| && 0 < i < n && Draining(cmp, s, t, p, i + 1, n)
    ensures |Swapped(t, p, p + i)| == |t| && Sifting(cmp, Swapped(t, p, p + i), p, i, 0, 0)
  {
    TakeRoot(cmp, t, p, i, n);
  }

  // the second loop: the root goes to the end of the shrinking heap
  method DrainHeap(a: array<Elem>, p: nat, n: nat, cmp: Cmp)
    requires 1 < n && p + n <= a.Length && Preorder(cmp) && Heap(cmp, a[..], p, n, 0, -1)
    modifies a
    ensures Rearranged(old(a[..]), a[..], p, p + n) && HeapSorted(cmp, a[..], p, 1, n)
  {
    ghost var s := a[..];
    RearrangedSelf(s, p, p + n);
    NothingSorted(cmp, s, p, n);
    hide Rearranged, Preorder, Swapped, Sifting, Heap, HeapSorted;
    var i: nat := n - 1;
    while i > 0
      invariant i < n && Draining(cmp, s, a[..], p, i + 1, n)
    {
      hide Draining;
      ghost var t := a[..];
      DrainTake(cmp, s, t, p, i, n);
      Swap(a, p, p + i);
      Sift(a, p, i, 0, cmp, n);
      DrainStep(cmp, s, t, a[..], p, i, n);
      i := i - 1;
    }
  }

  lemma {:induction false} NothingSorted(cmp: Cmp, s: seq<Elem>, p: nat, n: nat)
    requires p + n <= |s|
    ensures HeapSorted(cmp, s, p, n, n)
  {
  }

  // The explicit stack.

  datatype Frame = Frame(base: nat, count: nat, depth: nat)

  const STACK_SLOTS: nat := 50

  predicate Within(f: Frame, k: int) { f.base <= k < f.base + f.count }

  // the pending segments lie inside the array and apart from each other
  ghost predicate Apart(fs: seq<Frame>, size: nat) {
    && (forall i | 0 <= i < |fs| :: fs[i].base + fs[i].count <= size)
    && (forall i, j, k | 0 <= i < j < |fs| && Within(fs[i], k) :: !Within(fs[j], k))
  }

  ghost predicate Together(fs: seq<Frame>, x: int, y: int) {
    exists i :: 0 <= i < |fs| && Within(fs[i], x) && Within(fs[i], y)
  }

  // elements are in order unless they belong to the same pending segment
  ghost predicate Pending(cmp: Cmp, s: seq<Elem>, fs: seq<Frame>) {
    forall x, y | 0 <= x < y < |s| :: Together(fs, x, y) || Le(cmp, s[x], s[y])
  }

  // slot k holds a depth above k, but for the first frame; so fifty slots are enough
  predicate DepthsFit(fs: seq<Frame>) {
    |fs| <= STACK_SLOTS && forall k | 0 <= k < |fs| :: k <= fs[k].depth <= STACK_SLOTS && (k > 0 ==> k < fs[k].depth)
  }

  function Total(fs: seq<Frame>): nat {
    if fs == [] then 0 else Total(fs[..|fs| - 1]) + fs[|fs| - 1].count
  }

  // rearranging one pending segment keeps the others as they are
  lemma {:induction false} PendingRearranged(cmp: Cmp, s: seq<Elem>, t: seq<Elem>, fs: seq<Frame>, f: Frame)
    requires Apart(fs + [f], |s|) && Pending(cmp, s, fs + [f]) && Rearranged(s, t, f.base, f.base + f.count)
    ensures Pending(cmp, t, fs + [f])
  {
    hide Rearranged;
    var lo, hi := f.base, f.base + f.count;
    RearrangedSize(s, t, lo, hi);
    forall x, y | 0 <= x < y < |t| ensures Together(fs + [f], x, y) || Le(cmp, t[x], t[y]) {
      if Within(f, x) && Within(f, y) {
        assert (fs + [f])[|fs|] == f;
      } else if Within(f, x) {
        var j := ComesFrom(s, t, lo, hi, x);
        RearrangedAt(s, t, lo, hi, y);
        NotTogether(fs, f, |s|, j, y);
      } else if Within(f, y) {
        var j := ComesFrom(s, t, lo, hi, y);
        RearrangedAt(s, t, lo, hi, x);
        NotTogether(fs, f, |s|, j, x);
      } else {
        RearrangedAt(s, t, lo, hi, x);
        RearrangedAt(s, t, lo, hi, y);
      }
    }
  }

  lemma {:induction false} NotTogether(fs: seq<Frame>, f: Frame, size: nat, x: int, y: int)
    requires Apart(fs + [f], size) && Within(f, x) && !Within(f, y)
    ensures !Together(fs + [f], x, y) && !Together(fs + [f], y, x)
  {
    var gs := fs + [f];
    assert gs[|fs|] == f;
    forall i | 0 <= i < |gs| && Within(gs[i], x) ensures i == |fs| {
    }
  }

  // a sorted segment is no longer pending
  lemma {:induction false} PendingSorted(cmp: Cmp, s: seq<Elem>, fs: seq<Frame>, f: Frame)
    requires f.base + f.count <= |s| && Apart(fs + [f], |s|) && Pending(cmp, s, fs + [f])
             && Sorted(cmp, s, f.base, f.base + f.count)
    ensures Pending(cmp, s, fs) && Apart(fs, |s|)
  {
    var gs := fs + [f];
    assert forall i | 0 <= i < |fs| :: gs[i] == fs[i];
    forall x, y | 0 <= x < y < |s| ensures Together(fs, x, y) || Le(cmp, s[x], s[y]) {
      if Together(gs, x, y) {
        var i :| 0 <= i < |gs| && Within(gs[i], x) && Within(gs[i], y);
        assert i < |fs| ==> gs[i] == fs[i];
      }
    }
  }

  // a partitioned segment is replaced by its two outer parts
  lemma {:induction false} PendingParts(cmp: Cmp, s: seq<Elem>, fs: seq<Frame>, f: Frame, g: Frame, h: Frame)
    requires Preorder(cmp) && Apart(fs + [f], |s|) && Pending(cmp, s, fs + [f])
    requires Partitioned(cmp, s, f.base, g.base + g.count, h.base, f.base + f.count)
    requires g.base == f.base && h.base + h.count == f.base + f.count
    ensures Pending(cmp, s, fs + [g, h]) && Apart(fs + [g, h], |s|)
    ensures Pending(cmp, s, fs + [h, g]) && Apart(fs + [h, g], |s|)
  {
    hide Preorder;
    PartsApart(fs, f, g, h, |s|);
    forall x, y | 0 <= x < y < |s| && !Le(cmp, s[x], s[y])
      ensures Together(fs, x, y) || (Within(g, x) && Within(g, y)) || (Within(h, x) && Within(h, y))
    {
      var gs := fs + [f];
      var i :| 0 <= i < |gs| && Within(gs[i], x) && Within(gs[i], y);
      if i < |fs| {
        assert gs[i] == fs[i];
      } else {
        AcrossParts(cmp, s, f.base, g.base + g.count, h.base, f.base + f.count, x, y);
      }
    }
    PendingTwo(cmp, s, fs, g, h);
    PendingTwo(cmp, s, fs, h, g);
  }

  lemma {:induction false} PendingTwo(cmp: Cmp, s: seq<Elem>, fs: seq<Frame>, g: Frame, h: Frame)
    requires forall x, y | 0 <= x < y < |s| && !Le(cmp, s[x], s[y]) ::
               Together(fs, x, y) || (Within(g, x) && Within(g, y)) || (Within(h, x) && Within(h, y))
    ensures Pending(cmp, s, fs + [g, h])
  {
    var gs := fs + [g, h];
    assert gs[|fs|] == g && gs[|fs| + 1] == h;
    forall x, y | 0 <= x < y < |s| && !Le(cmp, s[x], s[y]) ensures Together(gs, x, y) {
      if Together(fs, x, y) {
        var i :| 0 <= i < |fs| && Within(fs[i], x) && Within(fs[i], y);
        assert gs[i] == fs[i];
      }
    }
  }

  lemma {:induction false} PartsApart(fs: seq<Frame>, f: Frame, g: Frame, h: Frame, size: nat)
    requires Apart(fs + [f], size) && g.base == f.base && g.base + g.count <= h.base
             && h.base + h.count == f.base + f.count
    ensures Apart(fs + [g, h], size) && Apart(fs + [h, g], size)
  {
    var gs := fs + [f];
    assert gs[|fs|] == f && forall i | 0 <= i < |fs| :: gs[i] == fs[i];
    PartsApartOne(fs, f, g, h, size);
    PartsApartOne(fs, f, h, g, size);
  }

  lemma {:induction false} PartsApartOne(fs: seq<Frame>, f: Frame, g: Frame, h: Frame, size: nat)
    requires forall i | 0 <= i < |fs| :: fs[i].base + fs[i].count <= size
    requires forall i, j, k | 0 <= i < j < |fs| && Within(fs[i], k) :: !Within(fs[j], k)
    requires forall i, k | 0 <= i < |fs| && Within(fs[i], k) :: !Within(f, k)
    requires forall k | Within(g, k) || Within(h, k) :: Within(f, k)
    requires forall k | Within(g, k) :: !Within(h, k)
    requires g.base + g.count <= size && h.base + h.count <= size
    ensures Apart(fs + [g, h], size)
  {
    var us := fs + [g, h];
    assert us[|fs|] == g && us[|fs| + 1] == h && forall i | 0 <= i < |fs| :: us[i] == fs[i];
    forall i, j, k | 0 <= i < j < |us| && Within(us[i], k) ensures !Within(us[j], k) {
      if i < |fs| && j >= |fs| {
        assert Within(fs[i], k);
      }
    }
  }

  lemma {:induction false} AcrossParts(cmp: Cmp, s: seq<Elem>, p: int, lt: int, gt: int, top: int, x: int, y: int)
    requires Preorder(cmp) && Partitioned(cmp, s, p, lt, gt, top) && p <= x < y < top
    ensures x < gt && lt <= y ==> Le(cmp, s[x], s[y])
  {
    if x < gt && lt <= y {
      assert Le(cmp, s[x], s[lt]) && Le(cmp, s[lt], s[y]);
      LeTrans(cmp, s[x], s[lt], s[y]);
    }
  }

  lemma {:induction false} NonePending(cmp: Cmp, s: seq<Elem>)
    requires Pending(cmp, s, [])
    ensures Sorted(cmp, s, 0, |s|)
  {
  }

  lemma {:induction false} TotalPush(fs: seq<Frame>, f: Frame)
    ensures Total(fs + [f]) == Total(fs) + f.count
  {
    assert (fs + [f])[..|fs|] == fs;
  }

  lemma {:induction false} PendingEmpty(cmp: Cmp, s: seq<Elem>, fs: seq<Frame>, f: Frame)
    requires Pending(cmp, s, fs) && Apart(fs, |s|) && f.count == 0 && f.base <= |s|
    ensures Pending(cmp, s, fs + [f]) && Apart(fs + [f], |s|)
  {
    var gs := fs + [f];
    assert gs[|fs|] == f && forall i | 0 <= i < |fs| :: gs[i] == fs[i];
    forall x, y | 0 <= x < y < |s| ensures Together(gs, x, y) || Le(cmp, s[x], s[y]) {
      if Together(fs, x, y) {
        var i :| 0 <= i < |fs| && Within(fs[i], x) && Within(fs[i], y);
        assert gs[i] == fs[i];
      }
    }
  }

  lemma {:induction false} ApartTop(fs: seq<Frame>, f: Frame, size: nat)
    requires Apart(fs + [f], size)
    ensures f.base + f.count <= size
  {
    assert (fs + [f])[|fs|] == f;
  }

  // the state of the sort while the segment f is being worked on, above the stacked frames fs
  ghost predicate Working(cmp: Cmp, s: seq<Elem>, a: seq<Elem>, fs: seq<Frame>, f: Frame) {
    && Rearranged(s, a, 0, |s|) && Apart(fs + [f], |a|) && Pending(cmp, a, fs + [f])
    && DepthsFit(fs) && |fs| <= f.depth <= STACK_SLOTS
  }

  lemma {:induction false} WorkingSizes(cmp: Cmp, s: seq<Elem>, a: seq<Elem>, fs: seq<Frame>, f: Frame)
    requires Working(cmp, s, a, fs, f)
    ensures f.base + f.count <= |a| == |s| && |fs| <= f.depth <= STACK_SLOTS
  {
    ApartTop(fs, f, |a|);
  }

  // heapsort or insertion sort finishes the segment
  lemma {:induction false} WorkingSorted(cmp: Cmp, s: seq<Elem>, a: seq<Elem>, b: seq<Elem>, fs: seq<Frame>, f: Frame)
    requires Working(cmp, s, a, fs, f) && f.base + f.count <= |b| && Rearranged(a, b, f.base, f.base + f.count)
    requires Sorted(cmp, b, f.base, f.base + f.count)
    ensures Rearranged(s, b, 0, |s|) && Apart(fs, |b|) && Pending(cmp, b, fs) && DepthsFit(fs)
    ensures Working(cmp, s, b, fs, f.(count := 0))
  {
    hide Rearranged, Apart, Pending, Sorted, DepthsFit;
    WorkingSizes(cmp, s, a, fs, f);
    PendingRearranged(cmp, a, b, fs, f);
    RearrangedSize(a, b, f.base, f.base + f.count);
    PendingSorted(cmp, b, fs, f);
    PendingEmpty(cmp, b, fs, f.(count := 0));
    RearrangedWider(a, b, f.base, f.base + f.count, 0, |s|);
    RearrangedTrans(s, a, b, 0, |s|);
  }

  // a partition: one part goes on the stack, the other is worked on
  lemma {:induction false} WorkingParted(cmp: Cmp, s: seq<Elem>, a: seq<Elem>, b: seq<Elem>, fs: seq<Frame>, f: Frame,
                                         lt: nat, gt: nat, push: Frame, next: Frame)
    requires Preorder(cmp) && Working(cmp, s, a, fs, f) && f.depth < STACK_SLOTS && lt < gt <= f.count
    requires Rearranged(a, b, f.base, f.base + f.count)
    requires Partitioned(cmp, b, f.base, f.base + lt, f.base + gt, f.base + f.count)
    requires var g, h := Frame(f.base, lt, f.depth + 1), Frame(f.base + gt, f.count - gt, f.depth + 1);
             (push == g && next == h) || (push == h && next == g)
    ensures Working(cmp, s, b, fs + [push], next) && |fs| < STACK_SLOTS
  {
    hide Rearranged, Apart, Pending, Partitioned, Preorder;
    WorkingSizes(cmp, s, a, fs, f);
    PendingRearranged(cmp, a, b, fs, f);
    RearrangedSize(a, b, f.base, f.base + f.count);
    var g, h := Frame(f.base, lt, f.depth + 1), Frame(f.base + gt, f.count - gt, f.depth + 1);
    PendingParts(cmp, b, fs, f, g, h);
    assert fs + [push] + [next] == fs + [push, next];
    RearrangedWider(a, b, f.base, f.base + f.count, 0, |s|);
    RearrangedTrans(s, a, b, 0, |s|);
    var gs := fs + [push];
    assert gs[|fs|] == push && forall i | 0 <= i < |fs| :: gs[i] == fs[i];
  }

  lemma {:induction false} WorkingPop(cmp: Cmp, s: seq<Elem>, a: seq<Elem>, fs: seq<Frame>)
    requires Rearranged(s, a, 0, |s|) && Apart(fs, |a|) && Pending(cmp, a, fs) && DepthsFit(fs) && fs != []
    ensures Working(cmp, s, a, fs[..|fs| - 1], fs[|fs| - 1])
  {
    hide Rearranged, Apart, Pending;
    assert fs[..|fs| - 1] + [fs[|fs| - 1]] == fs;
  }

  // the state between segments: all that is unsorted is on the stack
  ghost predicate Stacked(cmp: Cmp, s: seq<Elem>, a: seq<Elem>, fs: seq<Frame>) {
    Rearranged(s, a, 0, |s|) && Apart(fs, |a|) && Pending(cmp, a, fs) && DepthsFit(fs)
  }

  lemma {:induction false} StackedPop(cmp: Cmp, s: seq<Elem>, a: seq<Elem>, fs: seq<Frame>)
    requires Stacked(cmp, s, a, fs) && fs != []
    ensures Working(cmp, s, a, fs[..|fs| - 1], fs[|fs| - 1])
    ensures Total(fs) == Total(fs[..|fs| - 1]) + fs[|fs| - 1].count
  {
    hide Rearranged, Apart, Pending;
    WorkingPop(cmp, s, a, fs);
    TotalPush(fs[..|fs| - 1], fs[|fs| - 1]);
    assert fs[..|fs| - 1] + [fs[|fs| - 1]] == fs;
  }

  lemma {:induction false} StackedPush(fs: seq<Frame>, gs: seq<Frame>, f: Frame)
    requires |gs| == |fs| + 1 && gs[..|fs|] == fs && gs[|fs|] == f
    ensures gs == fs + [f] && Total(gs) == Total(fs) + f.count
  {
    TotalPush(fs, f);
    assert gs == fs + [f];
  }

  // one round of the inner loop: partition the segment, stack the larger part, go on with the other
  method PartitionRound(base: array<Elem>, stack: array<Frame>, sp: nat, f: Frame, cmp: Cmp, ghost s: seq<Elem>)
      returns (next: Frame)
    requires (base as object) != stack && stack.Length == STACK_SLOTS && sp < STACK_SLOTS && Preorder(cmp)
             && 6 < f.count && f.depth < STACK_SLOTS
    requires Working(cmp, s, base[..], stack[..sp], f)
    modifies base, stack
    ensures Working(cmp, s, base[..], stack[..sp + 1], next) && next.count < f.count && next.depth == f.depth + 1
    ensures next.count <= stack[sp].count
    ensures Total(stack[..sp + 1]) + next.count < Total(old(stack[..sp])) + f.count
  {
    hide Rearranged, Preorder, Working, Total, Partitioned;
    ghost var a, fs := base[..], stack[..sp];
    WorkingSizes(cmp, s, a, fs, f);
    var lt, gt := Partition(base, f.base, f.count, cmp);
    var low, high := Frame(f.base, lt, f.depth + 1), Frame(f.base + gt, f.count - gt, f.depth + 1);
    var push := if lt > f.count - gt then low else high;
    next := if lt > f.count - gt then high else low;
    WorkingParted(cmp, s, a, base[..], fs, f, lt, gt, push, next);
    stack[sp] := push;
    assert stack[..sp + 1][..sp] == fs;
    StackedPush(fs, stack[..sp + 1], push);
  }

  // what is left of a segment is put in order
  method FinishSegment(base: array<Elem>, f: Frame, cmp: Cmp, ghost s: seq<Elem>, ghost fs: seq<Frame>)
    requires Preorder(cmp) && Working(cmp, s, base[..], fs, f)
    modifies base
    ensures Stacked(cmp, s, base[..], fs)
  {
    hide Rearranged, Preorder, Working, Sorted, Apart, Pending, DepthsFit;
    ghost var a := base[..];
    WorkingSizes(cmp, s, a, fs, f);
    InsertionSort(base, f.base, f.count, cmp);
    WorkingSorted(cmp, s, a, base[..], fs, f);
  }

  // the fallback when partitioning goes too deep: nothing is left of the segment
  method DeepSegment(base: array<Elem>, f: Frame, cmp: Cmp, ghost s: seq<Elem>, ghost fs: seq<Frame>)
    returns (next: Frame)
    requires Preorder(cmp) && Working(cmp, s, base[..], fs, f)
    modifies base
    ensures next == f.(count := 0) && Working(cmp, s, base[..], fs, next)
  {
    hide Rearranged, Preorder, Working, Sorted, Apart, Pending, DepthsFit;
    ghost var a := base[..];
    WorkingSizes(cmp, s, a, fs, f);
    HeapSort(base, f.base, f.count, cmp);
    WorkingSorted(cmp, s, a, base[..], fs, f);
    next := f.(count := 0);
  }

  // a popped segment: partition rounds, then insertion sort
  method SortSegment(base: array<Elem>, stack: array<Frame>, sp0: nat, cmp: Cmp, ghost s: seq<Elem>) returns (sp: nat)
    requires (base as object) != stack && stack.Length == 50 && 0 < sp0 <= 50 && Preorder(cmp)
    requires Stacked(cmp, s, base[..], stack[..sp0])
    modifies base, stack
    ensures sp <= STACK_SLOTS && Stacked(cmp, s, base[..], stack[..sp])
    ensures Total(stack[..sp]) < Total(old(stack[..sp0]))
            || (Total(stack[..sp]) == Total(old(stack[..sp0])) && sp < sp0)
  {
    hide Rearranged, Preorder, Working, Stacked, Total;
    ghost var fs := stack[..sp0];
    StackedPop(cmp, s, base[..], fs);
    sp := sp0 - 1;
    assert stack[..sp] == fs[..sp];
    var f := stack[sp];
    while f.count > 6
      invariant sp <= STACK_SLOTS && Working(cmp, s, base[..], stack[..sp], f)
      invariant Total(stack[..sp]) + f.count <= Total(fs) && (sp < sp0 || Total(stack[..sp]) + f.count < Total(fs))
      decreases f.count
    {
      WorkingSizes(cmp, s, base[..], stack[..sp], f);
      if f.depth + 1 > STACK_SLOTS {
        f := DeepSegment(base, f, cmp, s, stack[..sp]);
        break;
      }
      f := PartitionRound(base, stack, sp, f, cmp, s);
      sp := sp + 1;
    }
    FinishSegment(base, f, cmp, s, stack[..sp]);
  }

  // rqsort
  method RqSort(base: array<Elem>, cmp: Cmp)
    requires Preorder(cmp)
    modifies base
    ensures multiset(base[..]) == multiset(old(base[..]))
    ensures forall i, j | 0 <= i < j < base.Length :: cmp(base[i], base[j]) <= 0
  {
    hide Rearranged, Preorder, Stacked, Total;
    ghost var s := base[..];
    if base.Length < 2 {
      ShortSorted(cmp, s);
      return;
    }
    var stack := new Frame[STACK_SLOTS](_ => Frame(0, 0, 0));
    stack[0] := Frame(0, base.Length, 0);
    var sp: nat := 1;
    WorkingStart(cmp, s, stack[..1]);
    while sp > 0
      invariant sp <= STACK_SLOTS && Stacked(cmp, s, base[..], stack[..sp])
      decreases Total(stack[..sp]), sp
    {
      sp := SortSegment(base, stack, sp, cmp, s);
    }
    Finished(cmp, s, base[..], stack[..sp]);
  }

  lemma {:induction false} ShortSorted(cmp: Cmp, s: seq<Elem>)
    requires |s| < 2
    ensures Sorted(cmp, s, 0, |s|)
  {
  }

  lemma {:induction false} WorkingStart(cmp: Cmp, s: seq<Elem>, fs: seq<Frame>)
    requires fs == [Frame(0, |s|, 0)]
    ensures Stacked(cmp, s, s, fs)
  {
    assert fs[0] == Frame(0, |s|, 0);
  }

  lemma {:induction false} Finished(cmp: Cmp, s: seq<Elem>, a: seq<Elem>, fs: seq<Frame>)
    requires fs == [] && Stacked(cmp, s, a, fs)
    ensures Sorted(cmp, a, 0, |a|) && multiset(a) == multiset(s)
  {
    NonePending(cmp, a);
    assert s[0..|s|] == s && a[0..|s|] == a;
  }
}
