/** What an answer of the engine means: where the match lies, that there is none before it, what
    every capture group holds, and which of several matches is taken. */
module RegexCaptures {
  import opened RegexInput
  import opened RegexSyntax
  import opened RegexMatcher
  import opened RegexMeaning

  // the body of group k of n, whose first group is number cap
  function GroupBody(n: Node, cap: nat, k: nat): Node
    requires cap <= k < cap + Groups(n)
  {
    match n
    case Cat(l, r) => if k < cap + Groups(l) then GroupBody(l, cap, k) else GroupBody(r, cap + Groups(l), k)
    case Alt(l, r) => if k < cap + Groups(l) then GroupBody(l, cap, k) else GroupBody(r, cap + Groups(l), k)
    case Group(b) => if k == cap then b else GroupBody(b, cap + 1, k)
    case Look(_, b) => GroupBody(b, cap, k)
    case Quant(b, _, _, _) => GroupBody(b, cap, k)
  }

  // the registers of group k: not set, or a stretch its body matches
  ghost predicate Captured(body: Node, inp: Input, caps: seq<int>, k: nat)
    requires 2 * k + 1 < |caps|
  {
    || (caps[2 * k] == -1 && caps[2 * k + 1] == -1)
    || (0 <= caps[2 * k] <= caps[2 * k + 1] <= |inp.units| && Span(body, inp, caps[2 * k], caps[2 * k + 1]))
  }

  ghost predicate GroupRight(n: Node, cap: nat, inp: Input, caps: seq<int>, k: nat)
    requires cap <= k < cap + Groups(n) && 2 * k + 1 < |caps|
  {
    Captured(GroupBody(n, cap, k), inp, caps, k)
  }

  ghost predicate AllCaptured(n: Node, cap: nat, inp: Input, caps: seq<int>)
    requires 2 * (cap + Groups(n)) <= |caps|
  {
    forall k: nat | cap <= k < cap + Groups(n) :: GroupRight(n, cap, inp, caps, k)
  }

  // only the registers from `from` up to `to` may differ
  predicate SameBut(caps: seq<int>, was: seq<int>, from: nat, to: nat) {
    |caps| == |was| && forall i | 0 <= i < |was| && !(from <= i < to) :: caps[i] == was[i]
  }

  // the registers of the groups of n are right, and no others have changed
  ghost predicate Sound(n: Node, cap: nat, inp: Input, was: seq<int>, rs: seq<St>)
    requires 2 * (cap + Groups(n)) <= |was|
  {
    forall i | 0 <= i < |rs| ::
      SameBut(rs[i].caps, was, 2 * cap, 2 * (cap + Groups(n))) && AllCaptured(n, cap, inp, rs[i].caps)
  }

  lemma {:induction false} SoundAppend(n: Node, cap: nat, inp: Input, was: seq<int>, rs: seq<St>, qs: seq<St>)
    requires 2 * (cap + Groups(n)) <= |was| && Sound(n, cap, inp, was, rs) && Sound(n, cap, inp, was, qs)
    ensures Sound(n, cap, inp, was, rs + qs)
  {
    hide AllCaptured, SameBut;
  }

  lemma {:induction false} SoundParts(n: Node, cap: nat, inp: Input, was: seq<int>, rs: seq<St>)
    requires 2 * (cap + Groups(n)) <= |was| && Sound(n, cap, inp, was, rs)
    ensures Sound(n, cap, inp, was, [])
    ensures rs != [] ==>
              && Sound(n, cap, inp, was, [rs[0]]) && Sound(n, cap, inp, was, rs[1..])
              && SameBut(rs[0].caps, was, 2 * cap, 2 * (cap + Groups(n))) && |rs[0].caps| == |was|
              && AllCaptured(n, cap, inp, rs[0].caps)
  {
    hide AllCaptured;
  }

  // registers kept, captures kept
  lemma {:induction false} CapturedKept(n: Node, cap: nat, inp: Input, caps: seq<int>, was: seq<int>)
    requires |caps| == |was| && 2 * (cap + Groups(n)) <= |was| && AllCaptured(n, cap, inp, was)
    requires forall i | 2 * cap <= i < 2 * (cap + Groups(n)) :: caps[i] == was[i]
    ensures AllCaptured(n, cap, inp, caps)
  {
    hide Span;
    forall k: nat | cap <= k < cap + Groups(n) ensures GroupRight(n, cap, inp, caps, k) {
      assert GroupRight(n, cap, inp, was, k);
    }
  }

  // the groups of two parts side by side are those of the left, then those of the right
  lemma {:induction false} BothCaptured(n: Node, l: Node, r: Node, cap: nat, inp: Input, caps: seq<int>)
    requires (n == Cat(l, r) || n == Alt(l, r)) && 2 * (cap + Groups(n)) <= |caps|
    ensures Groups(n) == Groups(l) + Groups(r)
    ensures AllCaptured(n, cap, inp, caps) <==>
            AllCaptured(l, cap, inp, caps) && AllCaptured(r, cap + Groups(l), inp, caps)
  {
    hide Captured;
    forall k: nat | cap <= k < cap + Groups(l)
      ensures GroupRight(n, cap, inp, caps, k) == GroupRight(l, cap, inp, caps, k)
    {
    }
    var c := cap + Groups(l);
    forall k: nat | c <= k < cap + Groups(n)
      ensures GroupRight(n, cap, inp, caps, k) == GroupRight(r, c, inp, caps, k)
    {
    }
    hide GroupRight;
  }

  lemma {:induction false} BodyCaptured(n: Node, b: Node, cap: nat, inp: Input, caps: seq<int>)
    requires (n.Look? || n.Quant?) && n.body == b && 2 * (cap + Groups(n)) <= |caps|
    ensures Groups(n) == Groups(b) && (AllCaptured(n, cap, inp, caps) <==> AllCaptured(b, cap, inp, caps))
  {
    hide Captured;
    forall k: nat | cap <= k < cap + Groups(b)
      ensures GroupRight(n, cap, inp, caps, k) == GroupRight(b, cap, inp, caps, k)
    {
    }
    hide GroupRight;
  }

  lemma {:induction false} GroupCaptured(b: Node, cap: nat, inp: Input, caps: seq<int>)
    requires 2 * (cap + Groups(Group(b))) <= |caps|
    ensures Groups(Group(b)) == 1 + Groups(b)
    ensures AllCaptured(Group(b), cap, inp, caps) <==>
            Captured(b, inp, caps, cap) && AllCaptured(b, cap + 1, inp, caps)
  {
    hide Captured;
    assert GroupRight(Group(b), cap, inp, caps, cap) == Captured(b, inp, caps, cap);
    var c := cap + 1;
    forall k: nat | c <= k < c + Groups(b)
      ensures GroupRight(Group(b), cap, inp, caps, k) == GroupRight(b, c, inp, caps, k)
    {
    }
    hide GroupRight;
  }

  // what the captures of n are before it is matched
  ghost predicate Before(n: Node, cap: nat, inp: Input, s: St) {
    WellFormed(n) && Valid(inp) && Ready(n, cap, inp, s) && AllCaptured(n, cap, inp, s.caps)
  }

  // Every match leaves the registers of the pattern's groups right, and all others alone.
  lemma {:induction false} CapturesSound(n: Node, cap: nat, inp: Input, s: St)
    requires Before(n, cap, inp, s)
    ensures Sound(n, cap, inp, s.caps, Matches(n, cap, inp, s))
    decreases n, 1
  {
    hide AllCaptured, SameBut, MatchAll, Repeat, RepeatAll, Closed, Looked, Later, Boundary, Holds, Passes, GetChar;
    match n
    case Empty => LeafSound(n, cap, inp, s);
    case One(_) => LeafSound(n, cap, inp, s);
    case Check(_) => LeafSound(n, cap, inp, s);
    case Cat(l, r) => CatSound(l, r, cap, inp, s);
    case Alt(l, r) => AltSound(l, r, cap, inp, s);
    case Group(b) => GroupSound(b, cap, inp, s);
    case Look(negative, b) => LookSound(negative, b, cap, inp, s);
    case Quant(b, min, max, greedy) => QuantSound(b, min, max, greedy, cap, inp, s);
  }

  lemma {:induction false} LeafSound(n: Node, cap: nat, inp: Input, s: St)
    requires Before(n, cap, inp, s) && (n.Empty? || n.One? || n.Check?)
    ensures Sound(n, cap, inp, s.caps, Matches(n, cap, inp, s))
  {
    hide Holds, Passes, GetChar, AllCaptured;
  }

  lemma {:induction false} CatSound(l: Node, r: Node, cap: nat, inp: Input, s: St)
    requires Before(Cat(l, r), cap, inp, s)
    ensures Sound(Cat(l, r), cap, inp, s.caps, Matches(Cat(l, r), cap, inp, s))
    decreases Cat(l, r), 0
  {
    hide AllCaptured, MatchAll, Matches, Boundary;
    BothCaptured(Cat(l, r), l, r, cap, inp, s.caps);
    CatUnfold(l, r, cap, inp, s);
    CapturesSound(l, cap, inp, s);
    var rs := Matches(l, cap, inp, s);
    CatAllSound(l, r, cap, inp, s.caps, s.pos, rs);
  }

  lemma {:induction false} CatAllSound(l: Node, r: Node, cap: nat, inp: Input, was: seq<int>, from: nat, rs: seq<St>)
    requires WellFormed(Cat(l, r)) && Valid(inp) && 2 * (cap + Groups(Cat(l, r))) <= |was|
    requires Groups(Cat(l, r)) == Groups(l) + Groups(r) && AllCaptured(r, cap + Groups(l), inp, was)
    requires Later(rs, inp, from, |was|) && Sound(l, cap, inp, was, rs)
    ensures Sound(Cat(l, r), cap, inp, was, MatchAll(r, cap + Groups(l), inp, from, |was|, rs))
    decreases r, 2, |rs|
  {
    hide AllCaptured, Matches, Boundary, SameBut, Groups;
    if rs != [] {
      KeptRight(l, r, cap, inp, was, rs[0].caps);
      var c, q := cap + Groups(l), rs[0];
      CapturesSound(r, c, inp, q);
      var qs := Matches(r, c, inp, q);
      RightSound(l, r, cap, inp, was, q.caps, qs);
      CatAllSound(l, r, cap, inp, was, from, rs[1..]);
      SoundAppend(Cat(l, r), cap, inp, was, qs, MatchAll(r, c, inp, from, |was|, rs[1..]));
    }
  }

  lemma {:induction false} KeptRight(l: Node, r: Node, cap: nat, inp: Input, was: seq<int>, mid: seq<int>)
    requires 2 * (cap + Groups(l) + Groups(r)) <= |was| && AllCaptured(r, cap + Groups(l), inp, was)
    requires SameBut(mid, was, 2 * cap, 2 * (cap + Groups(l)))
    ensures |mid| == |was| && AllCaptured(r, cap + Groups(l), inp, mid)
  {
    hide AllCaptured, Groups;
    CapturedKept(r, cap + Groups(l), inp, mid, was);
  }

  lemma {:induction false} RightSound(l: Node, r: Node, cap: nat, inp: Input, was: seq<int>, mid: seq<int>, qs: seq<St>)
    requires 2 * (cap + Groups(Cat(l, r))) <= |was| && Groups(Cat(l, r)) == Groups(l) + Groups(r)
    requires SameBut(mid, was, 2 * cap, 2 * (cap + Groups(l))) && AllCaptured(l, cap, inp, mid)
    requires Sound(r, cap + Groups(l), inp, mid, qs)
    ensures Sound(Cat(l, r), cap, inp, was, qs)
  {
    hide AllCaptured, Groups;
    var n, c := Cat(l, r), cap + Groups(l);
    forall i | 0 <= i < |qs|
      ensures SameBut(qs[i].caps, was, 2 * cap, 2 * (cap + Groups(n))) && AllCaptured(n, cap, inp, qs[i].caps)
    {
      assert SameBut(qs[i].caps, mid, 2 * c, 2 * (c + Groups(r))) && AllCaptured(r, c, inp, qs[i].caps);
      CapturedKept(l, cap, inp, qs[i].caps, mid);
      BothCaptured(n, l, r, cap, inp, qs[i].caps);
    }
  }

  lemma {:induction false} AltSound(l: Node, r: Node, cap: nat, inp: Input, s: St)
    requires Before(Alt(l, r), cap, inp, s)
    ensures Sound(Alt(l, r), cap, inp, s.caps, Matches(Alt(l, r), cap, inp, s))
    decreases Alt(l, r), 0
  {
    hide AllCaptured, Matches, Boundary, Captured;
    var n, c := Alt(l, r), cap + Groups(l);
    BothCaptured(n, l, r, cap, inp, s.caps);
    AltUnfold(l, r, cap, inp, s);
    CapturesSound(l, cap, inp, s);
    CapturesSound(r, c, inp, s);
    var ls, rs := Matches(l, cap, inp, s), Matches(r, c, inp, s);
    forall i | 0 <= i < |ls|
      ensures SameBut(ls[i].caps, s.caps, 2 * cap, 2 * (cap + Groups(n))) && AllCaptured(n, cap, inp, ls[i].caps)
    {
      CapturedKept(r, c, inp, ls[i].caps, s.caps);
      BothCaptured(n, l, r, cap, inp, ls[i].caps);
    }
    forall i | 0 <= i < |rs|
      ensures SameBut(rs[i].caps, s.caps, 2 * cap, 2 * (cap + Groups(n))) && AllCaptured(n, cap, inp, rs[i].caps)
    {
      CapturedKept(l, cap, inp, rs[i].caps, s.caps);
      BothCaptured(n, l, r, cap, inp, rs[i].caps);
    }
    SoundAppend(n, cap, inp, s.caps, ls, rs);
  }

  lemma {:induction false} GroupSound(b: Node, cap: nat, inp: Input, s: St)
    requires Before(Group(b), cap, inp, s)
    ensures Sound(Group(b), cap, inp, s.caps, Matches(Group(b), cap, inp, s))
    decreases Group(b), 0
  {
    hide AllCaptured, Boundary, Captured, Span, Matches, Closed;
    GroupCaptured(b, cap, inp, s.caps);
    var o := Opened(s, cap);
    CapturedKept(b, cap + 1, inp, o.caps, s.caps);
    CapturesSound(b, cap + 1, inp, o);
    SpanExact(b, cap + 1, inp, o);
    var rs := Matches(b, cap + 1, inp, o);
    SpansOf(rs, b, inp, s.pos);
    ClosedSound(b, cap, inp, s, rs);
    GroupMatches(b, cap, inp, s);
  }

  lemma {:induction false} GroupMatches(b: Node, cap: nat, inp: Input, s: St)
    requires Ready(Group(b), cap, inp, s)
    ensures Ready(b, cap + 1, inp, Opened(s, cap))
    ensures Matches(Group(b), cap, inp, s) ==
            Closed(Matches(b, cap + 1, inp, Opened(s, cap)), cap, inp, s.pos, |s.caps|)
  {
    hide Closed;
  }

  lemma {:induction false} SpansOf(rs: seq<St>, n: Node, inp: Input, p: nat)
    requires Exact(rs, n, inp, p)
    ensures forall i | 0 <= i < |rs| :: Span(n, inp, p, rs[i].pos)
  {
    hide Span;
    forall i | 0 <= i < |rs| ensures Span(n, inp, p, rs[i].pos) {
      assert EndsAt(rs, rs[i].pos);
    }
  }

  lemma {:induction false} ClosedSound(b: Node, cap: nat, inp: Input, s: St, rs: seq<St>)
    requires Ready(Group(b), cap, inp, s) && Later(rs, inp, s.pos, |s.caps|)
    requires Sound(b, cap + 1, inp, Opened(s, cap).caps, rs)
    requires forall i | 0 <= i < |rs| :: Span(b, inp, s.pos, rs[i].pos)
    ensures Sound(Group(b), cap, inp, s.caps, Closed(rs, cap, inp, s.pos, |s.caps|))
    decreases |rs|
  {
    hide AllCaptured, Boundary, Span;
    if rs != [] {
      var r := rs[0];
      var q := ClosedOne(r, cap);
      assert SameBut(r.caps, Opened(s, cap).caps, 2 * cap + 2, 2 * (cap + 1 + Groups(b)));
      assert Captured(b, inp, q.caps, cap);
      CapturedKept(b, cap + 1, inp, q.caps, r.caps);
      GroupCaptured(b, cap, inp, q.caps);
      ClosedSound(b, cap, inp, s, rs[1..]);
      SoundAppend(Group(b), cap, inp, s.caps, [q], Closed(rs[1..], cap, inp, s.pos, |s.caps|));
    }
  }

  lemma {:induction false} LookSound(negative: bool, b: Node, cap: nat, inp: Input, s: St)
    requires Before(Look(negative, b), cap, inp, s)
    ensures Sound(Look(negative, b), cap, inp, s.caps, Matches(Look(negative, b), cap, inp, s))
    decreases Look(negative, b), 0
  {
    hide AllCaptured, Boundary, Captured;
    var n := Look(negative, b);
    BodyCaptured(n, b, cap, inp, s.caps);
    CapturesSound(b, cap, inp, s);
    var inner := Matches(b, cap, inp, s);
    if inner != [] {
      BodyCaptured(n, b, cap, inp, inner[0].caps);
    }
  }

  lemma {:induction false} QuantSound(b: Node, min: nat, max: nat, greedy: bool, cap: nat, inp: Input, s: St)
    requires Before(Quant(b, min, max, greedy), cap, inp, s)
    ensures Sound(Quant(b, min, max, greedy), cap, inp, s.caps, Matches(Quant(b, min, max, greedy), cap, inp, s))
    decreases Quant(b, min, max, greedy), 0
  {
    hide AllCaptured, Boundary, Captured, Repeat, RepeatAll, Reset;
    var n := Quant(b, min, max, greedy);
    BodyCaptured(n, b, cap, inp, s.caps);
    var s0 := if min == 0 then s.(caps := Reset(s.caps, cap, Groups(b))) else s;
    ResetSound(b, cap, inp, s.caps);
    RepeatSound(b, cap, inp, s.caps, Times(min), greedy, s0);
    var first := Repeat(b, cap, inp, Times(min), greedy, s0);
    RepeatAllSound(b, cap, inp, s.caps, Rest(min, max), greedy, None, s.pos, first);
    var rs := RepeatAll(b, cap, inp, Rest(min, max), greedy, None, s.pos, |s.caps|, first);
    assert Matches(n, cap, inp, s) == rs;
    forall i | 0 <= i < |rs|
      ensures SameBut(rs[i].caps, s.caps, 2 * cap, 2 * (cap + Groups(n))) && AllCaptured(n, cap, inp, rs[i].caps)
    {
      BodyCaptured(n, b, cap, inp, rs[i].caps);
    }
  }

  lemma {:induction false} ResetSound(b: Node, cap: nat, inp: Input, caps: seq<int>)
    requires 2 * (cap + Groups(b)) <= |caps|
    ensures var r := Reset(caps, cap, Groups(b));
            SameBut(r, caps, 2 * cap, 2 * (cap + Groups(b))) && AllCaptured(b, cap, inp, r)
            && forall i | 2 * cap <= i < 2 * (cap + Groups(b)) :: r[i] == -1
  {
    hide Span;
  }

  lemma {:induction false} RepeatSound(b: Node, cap: nat, inp: Input, was: seq<int>, rep: Rep, greedy: bool, s: St)
    requires Before(b, cap, inp, s) && SameBut(s.caps, was, 2 * cap, 2 * (cap + Groups(b)))
    ensures Sound(b, cap, inp, was, Repeat(b, cap, inp, rep, greedy, s))
    decreases b, 3, Rank(rep), |inp.units| - s.pos, 1, 0
  {
    hide AllCaptured, Boundary, Captured, Matches, RepeatAll;
    assert Sound(b, cap, inp, was, [s]);
    if !Done(rep) {
      var from := if rep.Star? then Some(s.pos) else None;
      var rs := Matches(b, cap, inp, s);
      CapturesSound(b, cap, inp, s);
      SameButSound(b, cap, inp, was, s.caps, rs);
      RepeatAllSound(b, cap, inp, was, Next(rep), greedy, from, s.pos, rs);
      var more := RepeatAll(b, cap, inp, Next(rep), greedy, from, s.pos, |was|, rs);
      SoundAppend(b, cap, inp, was, more, [s]);
      SoundAppend(b, cap, inp, was, [s], more);
    }
  }

  lemma {:induction false} SameButSound(b: Node, cap: nat, inp: Input, was: seq<int>, caps: seq<int>, rs: seq<St>)
    requires 2 * (cap + Groups(b)) <= |caps| && SameBut(caps, was, 2 * cap, 2 * (cap + Groups(b)))
    requires Sound(b, cap, inp, caps, rs)
    ensures Sound(b, cap, inp, was, rs)
  {
    hide AllCaptured;
  }

  lemma {:induction false} RepeatAllSound(b: Node, cap: nat, inp: Input, was: seq<int>, rep: Rep, greedy: bool,
                                          from: Option<nat>, low: nat, rs: seq<St>)
    requires WellFormed(b) && Valid(inp) && Later(rs, inp, low, |was|) && 2 * (cap + Groups(b)) <= |was|
    requires low <= |inp.units| && (from.Some? ==> from.value == low) && Sound(b, cap, inp, was, rs)
    ensures Sound(b, cap, inp, was, RepeatAll(b, cap, inp, rep, greedy, from, low, |was|, rs))
    decreases b, 3, EachRank(rep), if from.Some? then |inp.units| - low else |inp.units| + 1, 0, |rs|
  {
    hide AllCaptured, Boundary, Captured, SameBut, Repeat, Sound;
    SoundParts(b, cap, inp, was, rs);
    if rs != [] {
      var r := rs[0];
      var stop := Stalled(rep, from, r);
      if !stop {
        RepeatSound(b, cap, inp, was, rep, greedy, r);
      }
      RepeatAllSound(b, cap, inp, was, rep, greedy, from, low, rs[1..]);
      SoundAppend(b, cap, inp, was, if stop then [r] else Repeat(b, cap, inp, rep, greedy, r),
                  RepeatAll(b, cap, inp, rep, greedy, from, low, |was|, rs[1..]));
    }
  }

  // group 0 holds where the match starts and ends
  predicate Framed(rs: seq<St>, from: nat) {
    forall i | 0 <= i < |rs| :: |rs[i].caps| > 1 && rs[i].caps[0] == from && rs[i].caps[1] == rs[i].pos
  }

  lemma {:induction false} OuterGroup(n: Node, inp: Input, s: St)
    requires Before(Group(n), 0, inp, s)
    ensures Framed(Matches(Group(n), 0, inp, s), s.pos)
  {
    hide AllCaptured, Boundary, Matches, Closed;
    var o := Opened(s, 0);
    GroupCaptured(n, 0, inp, s.caps);
    CapturedKept(n, 1, inp, o.caps, s.caps);
    CapturesSound(n, 1, inp, o);
    GroupMatches(n, 0, inp, s);
    var rs := Matches(n, 1, inp, o);
    forall i | 0 <= i < |rs| ensures rs[i].caps[0] == s.pos {
      assert SameBut(rs[i].caps, o.caps, 2, 2 * (1 + Groups(n)));
    }
    ClosedFramed(rs, inp, s.pos, |s.caps|);
  }

  lemma {:induction false} ClosedFramed(rs: seq<St>, inp: Input, from: nat, ncaps: nat)
    requires 1 < ncaps && Later(rs, inp, from, ncaps) && forall i | 0 <= i < |rs| :: rs[i].caps[0] == from
    ensures Framed(Closed(rs, 0, inp, from, ncaps), from)
  {
    hide Boundary;
    if rs != [] {
      ClosedFramed(rs[1..], inp, from, ncaps);
      assert Framed([ClosedOne(rs[0], 0)], from);
    }
  }

  // a position the search tries: where it starts, and every later one not inside a pair
  predicate Candidate(inp: Input, sticky: bool, p: nat, q: nat) {
    || q == p
    || (!sticky && p < q <= |inp.units|
        && !(inp.utf16 && Unit(inp, q - 1, 0xd800, 0xdbff) && Unit(inp, q, 0xdc00, 0xdfff)))
  }

  // What an answer says. None: the pattern spans nothing from any candidate. Captures: it spans
  // nothing from an earlier one, the first two hold a stretch it spans, and every group holds
  // nothing or a stretch that its body spans.
  ghost predicate Answers(n: Node, inp: Input, sticky: bool, p: nat, r: Option<seq<int>>) {
    match r
    case None => forall q: nat, e: nat | Candidate(inp, sticky, p, q) :: !Span(n, inp, q, e)
    case Some(caps) =>
      && |caps| == 2 * (1 + Groups(n)) && 0 <= caps[0] <= caps[1] <= |inp.units|
      && Candidate(inp, sticky, p, caps[0]) && Span(n, inp, caps[0], caps[1])
      && (forall q: nat, e: nat | Candidate(inp, sticky, p, q) && q < caps[0] :: !Span(n, inp, q, e))
      && AllCaptured(n, 1, inp, caps)
  }

  // the first result from one position
  lemma {:induction false} ResultsAt(n: Node, inp: Input, p: nat)
    requires WellFormed(n) && Valid(inp) && p <= |inp.units|
    ensures var rs := MatchesAt(n, inp, p);
            && (rs == [] <==> forall e: nat :: !Span(n, inp, p, e))
            && (rs != [] ==>
                  var caps := rs[0].caps;
                  && |caps| == 2 * (1 + Groups(n)) && p == caps[0] <= caps[1] == rs[0].pos <= |inp.units|
                  && Span(n, inp, p, caps[1]) && AllCaptured(n, 1, inp, caps))
  {
    var s := St(p, NoCaptures(n));
    NoneCaptured(n, inp);
    hide AllCaptured, Boundary, Matches, Closed;
    CapturesSound(Group(n), 0, inp, s);
    OuterGroup(n, inp, s);
    SpanExact(Group(n), 0, inp, s);
    var rs := Matches(Group(n), 0, inp, s);
    SpansOf(rs, Group(n), inp, p);
    forall e: nat ensures Span(Group(n), inp, p, e) <==> Span(n, inp, p, e) {
    }
    hide Span;
    forall e: nat ensures rs == [] ==> !Span(n, inp, p, e) {
      assert EndsAt(rs, e) <==> Span(Group(n), inp, p, e);
    }
    if rs != [] {
      GroupCaptured(n, 0, inp, rs[0].caps);
      assert Span(n, inp, p, rs[0].pos);
    }
  }

  lemma {:induction false} NoneCaptured(n: Node, inp: Input)
    ensures AllCaptured(Group(n), 0, inp, NoCaptures(n))
  {
    hide Span;
  }

  // The first match of the ordered matcher is the leftmost there is, with right captures; and it
  // finds none only where there is none.
  lemma {:induction false} FirstMatchAnswers(n: Node, inp: Input, sticky: bool, p: nat)
    requires WellFormed(n) && Valid(inp) && p <= |inp.units|
    ensures Answers(n, inp, sticky, p, FirstMatch(n, inp, sticky, p))
    decreases |inp.units| - p
  {
    hide AllCaptured, Boundary, MatchesAt, GetChar, Span, Candidate;
    ResultsAt(n, inp, p);
    forall q: nat
      ensures Candidate(inp, true, p, q) <==> q == p
      ensures Candidate(inp, sticky, p, q) ==> p <= q <= |inp.units|
      ensures q == p ==> Candidate(inp, sticky, p, q)
      ensures p < |inp.units| ==>
                (Candidate(inp, false, p, q) <==> q == p || Candidate(inp, false, GetChar(inp, p).1, q))
    {
      Candidates(inp, sticky, p, q);
    }
    var rs := MatchesAt(n, inp, p);
    if rs != [] {
      assert FirstMatch(n, inp, sticky, p) == Some(rs[0].caps);
      assert Answers(n, inp, sticky, p, Some(rs[0].caps));
    } else if sticky || p == |inp.units| {
      assert FirstMatch(n, inp, sticky, p) == None;
      forall q: nat, e: nat | Candidate(inp, sticky, p, q) ensures !Span(n, inp, q, e) {
        assert q == p;
      }
    } else {
      var next := GetChar(inp, p).1;
      FirstMatchAnswers(n, inp, false, next);
      AnswersEarlier(n, inp, p, next, FirstMatch(n, inp, false, next));
    }
  }

  lemma {:induction false} AnswersEarlier(n: Node, inp: Input, p: nat, next: nat, r: Option<seq<int>>)
    requires Answers(n, inp, false, next, r) && forall e: nat :: !Span(n, inp, p, e)
    requires forall q: nat :: Candidate(inp, false, p, q) <==> q == p || Candidate(inp, false, next, q)
    ensures Answers(n, inp, false, p, r)
  {
    hide Span, Candidate, AllCaptured;
  }

  lemma {:induction false} Candidates(inp: Input, sticky: bool, p: nat, q: nat)
    requires p <= |inp.units|
    ensures Candidate(inp, true, p, q) <==> q == p
    ensures Candidate(inp, sticky, p, q) ==> p <= q <= |inp.units|
    ensures q == p ==> Candidate(inp, sticky, p, q)
    ensures p < |inp.units| ==>
              (Candidate(inp, false, p, q) <==> q == p || Candidate(inp, false, GetChar(inp, p).1, q))
  {
  }

  // A literal matches exactly its own encoding.
  lemma {:induction false} LiteralMatch(c: nat, inp: Input, p: nat, q: nat)
    requires c < 0x110000 && Valid(inp) && p <= |inp.units|
    ensures FirstMatch(One(Lit(c)), inp, true, p) == Some([p, q]) <==> Stands(c, inp, p, q)
    ensures FirstMatch(One(Lit(c)), inp, true, p) == None <==> forall e: nat :: !Stands(c, inp, p, e)
  {
    hide AllCaptured, MatchesAt;
    var n := One(Lit(c));
    ResultsAt(n, inp, p);
    forall e: nat ensures Span(n, inp, p, e) <==> Stands(c, inp, p, e) {
      LiteralSpan(c, inp, p, e);
    }
    hide Span, Stands;
    var rs := MatchesAt(n, inp, p);
    if rs == [] {
      assert FirstMatch(n, inp, true, p) == None;
      forall e: nat ensures !Stands(c, inp, p, e) {
        LiteralSpan(c, inp, p, e);
      }
    } else {
      var e := rs[0].pos;
      assert rs[0].caps == [p, e];
      assert FirstMatch(n, inp, true, p) == Some([p, e]);
      assert Stands(c, inp, p, e);
      if Stands(c, inp, p, q) {
        StandsOnce(c, inp, p, q, e);
      }
    }
  }

  lemma {:induction false} LiteralSpan(c: nat, inp: Input, p: nat, e: nat)
    ensures Span(One(Lit(c)), inp, p, e) <==> Stands(c, inp, p, e)
  {
    hide Stands;
    assert Stands(c, inp, p, e) ==> Admits(Lit(c), c);
  }

  lemma {:induction false} StandsOnce(c: nat, inp: Input, p: nat, q: nat, e: nat)
    requires Stands(c, inp, p, q) && Stands(c, inp, p, e)
    ensures q == e
  {
  }
}
