/** What a pattern matches, said without the matcher: the stretches of the input a pattern spans,
    as a relation on positions. The characters are those of UTF-16 (section 3.9 of the Unicode
    Standard), and every test is written out on the units of the buffer. */
module RegexMeaning {
  import opened RegexInput
  import opened RegexSyntax
  import opened RegexMatcher
  import CodePointSet

  // the units a code point is written with
  function Utf16(c: nat): (u: seq<nat>)
    requires c < 0x110000
    ensures 1 <= |u| <= 2
  {
    if c < 0x10000 then [c] else [0xd800 + (c - 0x10000) / 0x400, 0xdc00 + (c - 0x10000) % 0x400]
  }

  predicate Unit(inp: Input, p: int, low: nat, high: nat) {
    0 <= p < |inp.units| && low <= inp.units[p] <= high
  }

  // The character c stands from p to q. A unit is a character of its own unless it starts a pair.
  predicate Stands(c: nat, inp: Input, p: nat, q: nat) {
    && p < q <= |inp.units|
    && if inp.utf16 then
         && c < 0x110000 && inp.units[p..q] == Utf16(c)
         && (q == p + 1 ==> !(Unit(inp, p, 0xd800, 0xdbff) && Unit(inp, p + 1, 0xdc00, 0xdfff)))
       else q == p + 1 && inp.units[p] == c
  }

  // GET_CHAR reads the character that stands at p.
  lemma {:induction false} CharStands(c: nat, inp: Input, p: nat, q: nat)
    requires Valid(inp) && p < |inp.units|
    ensures Stands(c, inp, p, q) <==> GetChar(inp, p) == (c, q)
  {
    if p < q <= |inp.units| {
      assert q == p + 1 ==> inp.units[p..q] == [inp.units[p]];
      assert q == p + 2 ==> inp.units[p..q] == [inp.units[p], inp.units[p + 1]];
      if inp.utf16 && q == p + 2 && c < 0x110000 {
        PairUnits(c, inp.units[p], inp.units[p + 1]);
      }
    }
  }

  lemma {:induction false} PairUnits(c: nat, hi: nat, lo: nat)
    requires c < 0x110000 && hi < 0x10000 && lo < 0x10000
    ensures Utf16(c) == [hi, lo] <==> IsHigh(hi) && IsLow(lo) && c == Combine(hi, lo)
  {
  }

  // A surrogate pair is read, from either side, as the code point it encodes.
  lemma {:induction false} PairDecodes(c: nat, inp: Input, p: nat)
    requires 0x10000 <= c < 0x110000 && inp.utf16 && p + 1 < |inp.units|
    requires inp.units[p] == 0xd800 + (c - 0x10000) / 0x400 && inp.units[p + 1] == 0xdc00 + (c - 0x10000) % 0x400
    ensures GetChar(inp, p) == (c, p + 2) && PeekPrev(inp, p + 2) == c && PrevChar(inp, p + 2) == p
  {
  }

  // a digit, a letter or an underscore
  predicate WordUnit(inp: Input, p: int) {
    || Unit(inp, p, '0' as int, '9' as int) || Unit(inp, p, 'A' as int, 'Z' as int)
    || Unit(inp, p, 'a' as int, 'z' as int) || Unit(inp, p, '_' as int, '_' as int)
  }

  // line feed, carriage return, line separator or paragraph separator
  predicate LineUnit(inp: Input, p: int) {
    || Unit(inp, p, '\n' as int, '\n' as int) || Unit(inp, p, '\r' as int, '\r' as int) || Unit(inp, p, 0x2028, 0x2029)
  }

  // ^, $, \b and \B
  predicate Asserts(a: Anchor, inp: Input, p: nat) {
    match a
    case LineStart => p == 0 || (inp.multiLine && LineUnit(inp, p - 1))
    case LineEnd => p == |inp.units| || (inp.multiLine && LineUnit(inp, p))
    case WordBoundary => (WordUnit(inp, p - 1) && !WordUnit(inp, p)) || (!WordUnit(inp, p - 1) && WordUnit(inp, p))
    case NotWordBoundary => (WordUnit(inp, p - 1) && WordUnit(inp, p)) || !(WordUnit(inp, p - 1) || WordUnit(inp, p))
  }

  lemma {:induction false} HoldsAsserts(a: Anchor, inp: Input, p: nat)
    requires p <= |inp.units|
    ensures Holds(a, inp, p) <==> Asserts(a, inp, p)
  {
  }

  // the characters a test lets through
  ghost predicate Admits(t: CharTest, c: nat) {
    match t
    case Lit(x) => c == x
    case Dot => c != 0x0a && c != 0x0d && c != 0x2028 && c != 0x2029
    case AnyChar => true
    case Class(points) => exists k: nat :: CodePointSet.InInterval(points, c, k)
  }

  lemma {:induction false} PassesAdmits(t: CharTest, c: nat)
    requires WellFormed(One(t))
    ensures Passes(t, c) <==> Admits(t, c)
  {
    hide CodePointSet.InSet;
    if t.Class? {
      CodePointSet.InSetIntervals(t.points, c);
    }
  }

  // n matches exactly the input from p to q, for some choice at every branch
  ghost predicate Span(n: Node, inp: Input, p: nat, q: nat)
    decreases n, 0
  {
    match n
    case Empty => p == q
    case One(t) => exists c: nat :: Stands(c, inp, p, q) && Admits(t, c)
    case Check(a) => p == q && Asserts(a, inp, p)
    case Cat(l, r) => exists m: nat :: Span(l, inp, p, m) && Span(r, inp, m, q)
    case Alt(l, r) => Span(l, inp, p, q) || Span(r, inp, p, q)
    case Group(b) => Span(b, inp, p, q)
    case Look(negative, b) => p == q && (negative <==> forall m: nat :: !Span(b, inp, p, m))
    case Quant(b, min, max, _) =>
      exists k: nat :: min <= k && (k <= max || max == 0x7fff_ffff) && Spans(b, inp, k, p, q)
  }

  // k times in a row
  ghost predicate Spans(b: Node, inp: Input, k: nat, p: nat, q: nat)
    decreases b, k + 1
  {
    if k == 0 then p == q else exists m: nat :: Span(b, inp, p, m) && Spans(b, inp, k - 1, m, q)
  }

  ghost predicate EndsAt(rs: seq<St>, q: nat) {
    exists i :: 0 <= i < |rs| && rs[i].pos == q
  }

  lemma {:induction false} EndsAtAppend(rs: seq<St>, qs: seq<St>, q: nat)
    ensures EndsAt(rs + qs, q) <==> EndsAt(rs, q) || EndsAt(qs, q)
  {
    if EndsAt(rs, q) {
      var i :| 0 <= i < |rs| && rs[i].pos == q;
      assert (rs + qs)[i].pos == q;
    }
    if EndsAt(qs, q) {
      var i :| 0 <= i < |qs| && qs[i].pos == q;
      assert (rs + qs)[|rs| + i].pos == q;
    }
  }

  lemma {:induction false} EndsAtFirst(rs: seq<St>, q: nat)
    ensures rs == [] ==> !EndsAt(rs, q)
    ensures rs != [] ==> (EndsAt(rs, q) <==> rs[0].pos == q || EndsAt(rs[1..], q))
  {
    if rs != [] {
      EndsAtAppend([rs[0]], rs[1..], q);
      assert rs == [rs[0]] + rs[1..];
      assert [rs[0]][0] == rs[0];
    }
  }

  // the ends of rs are those of the spans from p
  ghost predicate Exact(rs: seq<St>, n: Node, inp: Input, p: nat) {
    forall q: nat :: EndsAt(rs, q) <==> Span(n, inp, p, q)
  }

  lemma {:induction false} ExactLeaf(n: Node, cap: nat, inp: Input, s: St)
    requires WellFormed(n) && Valid(inp) && Ready(n, cap, inp, s) && (n.Empty? || n.One? || n.Check?)
    ensures Exact(Matches(n, cap, inp, s), n, inp, s.pos)
  {
    hide Holds, Asserts, Passes, Admits, GetChar, Stands;
    var rs := Matches(n, cap, inp, s);
    forall q: nat ensures EndsAt(rs, q) <==> Span(n, inp, s.pos, q) {
      EndsAtFirst(rs, q);
      if |rs| == 1 {
        assert rs[1..] == [];
        EndsAtFirst(rs[1..], q);
      }
      match n
      case Empty =>
      case Check(a) => HoldsAsserts(a, inp, s.pos);
      case One(t) => OneSpan(t, inp, s.pos, q);
    }
  }

  lemma {:induction false} OneSpan(t: CharTest, inp: Input, p: nat, q: nat)
    requires WellFormed(One(t)) && Valid(inp)
    ensures Span(One(t), inp, p, q) <==>
            p < |inp.units| && Passes(t, GetChar(inp, p).0) && GetChar(inp, p).1 == q
  {
    hide Passes, Admits, GetChar;
    forall c: nat ensures Stands(c, inp, p, q) <==> p < |inp.units| && GetChar(inp, p) == (c, q) {
      if p < |inp.units| {
        CharStands(c, inp, p, q);
      }
    }
    hide Stands;
    if p < |inp.units| {
      PassesAdmits(t, GetChar(inp, p).0);
    }
  }

  // what is left to match of a repetition
  ghost predicate RepSpan(b: Node, inp: Input, rep: Rep, p: nat, q: nat) {
    match rep
    case Times(k) => Spans(b, inp, k, p, q)
    case UpTo(k) => exists j: nat :: j <= k && Spans(b, inp, j, p, q)
    case Star => exists j: nat :: Spans(b, inp, j, p, q)
  }

  // The matcher ends exactly where the pattern spans.
  lemma {:induction false} SpanExact(n: Node, cap: nat, inp: Input, s: St)
    requires WellFormed(n) && Valid(inp) && Ready(n, cap, inp, s)
    ensures Exact(Matches(n, cap, inp, s), n, inp, s.pos)
    decreases n, 1
  {
    hide EndsAt, MatchAll, Repeat, RepeatAll, Boundary, Closed, Looked, Matches, Later;
    match n
    case Empty => ExactLeaf(n, cap, inp, s);
    case One(_) => ExactLeaf(n, cap, inp, s);
    case Check(_) => ExactLeaf(n, cap, inp, s);
    case Cat(l, r) => CatSpan(l, r, cap, inp, s);
    case Alt(l, r) => AltSpan(l, r, cap, inp, s);
    case Group(b) => GroupSpan(b, cap, inp, s);
    case Look(negative, b) => LookSpan(negative, b, cap, inp, s);
    case Quant(b, min, max, greedy) => QuantSpan(b, min, max, greedy, cap, inp, s);
  }

  lemma {:induction false} CatSpan(l: Node, r: Node, cap: nat, inp: Input, s: St)
    requires WellFormed(Cat(l, r)) && Valid(inp) && Ready(Cat(l, r), cap, inp, s)
    ensures Exact(Matches(Cat(l, r), cap, inp, s), Cat(l, r), inp, s.pos)
    decreases Cat(l, r), 0
  {
    hide EndsAt, MatchAll, Boundary, Matches;
    CatUnfold(l, r, cap, inp, s);
    SpanExact(l, cap, inp, s);
    forall q: nat
      ensures EndsAt(Matches(Cat(l, r), cap, inp, s), q) <==> Span(Cat(l, r), inp, s.pos, q)
    {
      MatchAllSpan(r, cap + Groups(l), inp, s.pos, |s.caps|, Matches(l, cap, inp, s), q);
    }
  }

  lemma {:induction false} MatchAllSpan(n: Node, cap: nat, inp: Input, from: nat, ncaps: nat, rs: seq<St>, q: nat)
    requires WellFormed(n) && Valid(inp) && Later(rs, inp, from, ncaps) && 2 * (cap + Groups(n)) <= ncaps
    ensures EndsAt(MatchAll(n, cap, inp, from, ncaps, rs), q) <==>
            exists m: nat :: EndsAt(rs, m) && Span(n, inp, m, q)
    decreases n, 2, |rs|
  {
    hide EndsAt, Boundary, Matches, Span;
    forall m: nat ensures rs == [] ==> !EndsAt(rs, m)
                  ensures rs != [] ==> (EndsAt(rs, m) <==> rs[0].pos == m || EndsAt(rs[1..], m)) {
      EndsAtFirst(rs, m);
    }
    if rs == [] {
      EndsAtFirst([], q);
    } else {
      SpanExact(n, cap, inp, rs[0]);
      MatchAllSpan(n, cap, inp, from, ncaps, rs[1..], q);
      EndsAtAppend(Matches(n, cap, inp, rs[0]), MatchAll(n, cap, inp, from, ncaps, rs[1..]), q);
      assert EndsAt(rs, rs[0].pos);
      if m: nat :| EndsAt(rs[1..], m) && Span(n, inp, m, q) {
        assert EndsAt(rs, m);
      }
    }
  }

  lemma {:induction false} AltSpan(l: Node, r: Node, cap: nat, inp: Input, s: St)
    requires WellFormed(Alt(l, r)) && Valid(inp) && Ready(Alt(l, r), cap, inp, s)
    ensures Exact(Matches(Alt(l, r), cap, inp, s), Alt(l, r), inp, s.pos)
    decreases Alt(l, r), 0
  {
    hide EndsAt, Boundary, Matches, Exact, Span;
    AltUnfold(l, r, cap, inp, s);
    SpanExact(l, cap, inp, s);
    SpanExact(r, cap + Groups(l), inp, s);
    EitherExact(l, r, inp, s.pos, Matches(l, cap, inp, s), Matches(r, cap + Groups(l), inp, s));
  }

  lemma {:induction false} EitherExact(l: Node, r: Node, inp: Input, p: nat, ls: seq<St>, rs: seq<St>)
    requires Exact(ls, l, inp, p) && Exact(rs, r, inp, p)
    ensures Exact(ls + rs, Alt(l, r), inp, p)
  {
    hide EndsAt;
    forall q: nat ensures EndsAt(ls + rs, q) <==> Span(Alt(l, r), inp, p, q) {
      EndsAtAppend(ls, rs, q);
    }
  }

  lemma {:induction false} GroupSpan(b: Node, cap: nat, inp: Input, s: St)
    requires WellFormed(Group(b)) && Valid(inp) && Ready(Group(b), cap, inp, s)
    ensures Exact(Matches(Group(b), cap, inp, s), Group(b), inp, s.pos)
    decreases Group(b), 0
  {
    hide EndsAt, Boundary, Closed;
    SpanExact(b, cap + 1, inp, Opened(s, cap));
    var rs := Matches(b, cap + 1, inp, Opened(s, cap));
    forall q: nat ensures EndsAt(Matches(Group(b), cap, inp, s), q) <==> Span(Group(b), inp, s.pos, q) {
      ClosedEnds(rs, cap, inp, s.pos, |s.caps|, q);
    }
  }

  lemma {:induction false} ClosedEnds(rs: seq<St>, group: nat, inp: Input, from: nat, ncaps: nat, q: nat)
    requires 2 * group + 1 < ncaps && Later(rs, inp, from, ncaps)
    ensures EndsAt(Closed(rs, group, inp, from, ncaps), q) <==> EndsAt(rs, q)
  {
    hide EndsAt, Boundary;
    EndsAtFirst(rs, q);
    EndsAtFirst(Closed(rs, group, inp, from, ncaps), q);
    if rs != [] {
      ClosedEnds(rs[1..], group, inp, from, ncaps, q);
      assert Closed(rs, group, inp, from, ncaps)[1..] == Closed(rs[1..], group, inp, from, ncaps);
    }
  }

  lemma {:induction false} LookSpan(negative: bool, b: Node, cap: nat, inp: Input, s: St)
    requires WellFormed(Look(negative, b)) && Valid(inp) && Ready(b, cap, inp, s)
    ensures Exact(Matches(Look(negative, b), cap, inp, s), Look(negative, b), inp, s.pos)
    decreases Look(negative, b), 0
  {
    hide Boundary;
    SpanExact(b, cap, inp, s);
    var inner := Matches(b, cap, inp, s);
    assert inner != [] ==> EndsAt(inner, inner[0].pos);
    forall m: nat ensures inner == [] ==> !Span(b, inp, s.pos, m) {
      assert EndsAt(inner, m) <==> Span(b, inp, s.pos, m);
    }
    assert inner != [] ==> Span(b, inp, s.pos, inner[0].pos);
    forall q: nat
      ensures EndsAt(Matches(Look(negative, b), cap, inp, s), q) <==> Span(Look(negative, b), inp, s.pos, q)
    {
      var rs := Looked(negative, s, inner, inp);
      assert |rs| <= 1 && (rs != [] ==> rs[0].pos == s.pos);
    }
  }

  lemma {:induction false} QuantSpan(b: Node, min: nat, max: nat, greedy: bool, cap: nat, inp: Input, s: St)
    requires WellFormed(Quant(b, min, max, greedy)) && Valid(inp) && Ready(b, cap, inp, s)
    ensures Exact(Matches(Quant(b, min, max, greedy), cap, inp, s), Quant(b, min, max, greedy), inp, s.pos)
    decreases Quant(b, min, max, greedy), 0
  {
    hide EndsAt, Boundary, Repeat, RepeatAll, Rest, Reset, Spans;
    var n, rep := Quant(b, min, max, greedy), Rest(min, max);
    var s0 := if min == 0 then s.(caps := Reset(s.caps, cap, Groups(b))) else s;
    var first := Repeat(b, cap, inp, Times(min), greedy, s0);
    assert Matches(n, cap, inp, s) == RepeatAll(b, cap, inp, rep, greedy, None, s.pos, |s.caps|, first);
    forall q: nat ensures EndsAt(Matches(n, cap, inp, s), q) <==> Span(n, inp, s.pos, q) {
      RepeatAllSpan(b, cap, inp, rep, greedy, None, s.pos, |s.caps|, first, q);
      forall m: nat ensures EndsAt(first, m) <==> Spans(b, inp, min, s.pos, m) {
        RepeatSpan(b, cap, inp, Times(min), greedy, s0, m);
      }
      QuantSplit(b, min, max, inp, s.pos, q);
      assert EndsAt(Matches(n, cap, inp, s), q) <==> exists m: nat :: EndsAt(first, m) && Goes(b, inp, rep, None, m, q);
      EndsSpans(first, b, inp, min, rep, s.pos, q);
      assert (exists m: nat :: Spans(b, inp, min, s.pos, m) && RepSpan(b, inp, rep, m, q)) <==>
            exists k: nat :: min <= k && (k <= max || max == 0x7fff_ffff) && Spans(b, inp, k, s.pos, q);
      assert Span(n, inp, s.pos, q) <==>
            exists k: nat :: min <= k && (k <= max || max == 0x7fff_ffff) && Spans(b, inp, k, s.pos, q);
    }
  }

  lemma {:induction false} EndsSpans(first: seq<St>, b: Node, inp: Input, min: nat, rep: Rep, p: nat, q: nat)
    requires forall m: nat :: EndsAt(first, m) <==> Spans(b, inp, min, p, m)
    ensures (exists m: nat :: EndsAt(first, m) && Goes(b, inp, rep, None, m, q)) <==>
            exists m: nat :: Spans(b, inp, min, p, m) && RepSpan(b, inp, rep, m, q)
  {
    hide EndsAt, Spans, RepSpan;
  }

  // a minimum and what may follow it
  lemma {:induction false} QuantSplit(b: Node, min: nat, max: nat, inp: Input, p: nat, q: nat)
    requires min <= max <= INT32_MAX
    ensures (exists m: nat :: Spans(b, inp, min, p, m) && RepSpan(b, inp, Rest(min, max), m, q)) <==>
            exists k: nat :: min <= k && (k <= max || max == 0x7fff_ffff) && Spans(b, inp, k, p, q)
  {
    hide Spans;
    if m: nat :| Spans(b, inp, min, p, m) && RepSpan(b, inp, Rest(min, max), m, q) {
      var j: nat :| Spans(b, inp, j, m, q) && (Rest(min, max).UpTo? ==> j <= Rest(min, max).k);
      SpansJoin(b, inp, min, j, p, m, q);
    }
    if k: nat :| min <= k && (k <= max || max == 0x7fff_ffff) && Spans(b, inp, k, p, q) {
      var m := SpansCut(b, inp, min, k - min, p, q);
    }
  }

  lemma {:induction false} SpansJoin(b: Node, inp: Input, i: nat, j: nat, p: nat, m: nat, q: nat)
    requires Spans(b, inp, i, p, m) && Spans(b, inp, j, m, q)
    ensures Spans(b, inp, i + j, p, q)
    decreases i
  {
    hide Span;
    if i > 0 {
      var h: nat :| Span(b, inp, p, h) && Spans(b, inp, i - 1, h, m);
      SpansJoin(b, inp, i - 1, j, h, m, q);
    }
  }

  lemma {:induction false} SpansCut(b: Node, inp: Input, i: nat, j: nat, p: nat, q: nat) returns (m: nat)
    requires Spans(b, inp, i + j, p, q)
    ensures Spans(b, inp, i, p, m) && Spans(b, inp, j, m, q)
    decreases i
  {
    hide Span;
    if i == 0 {
      m := p;
    } else {
      var h: nat :| Span(b, inp, p, h) && Spans(b, inp, i + j - 1, h, q);
      m := SpansCut(b, inp, i - 1, j, h, q);
    }
  }

  // going on from m; a star stops where its last iteration consumed nothing
  ghost predicate Goes(b: Node, inp: Input, rep: Rep, from: Option<nat>, m: nat, q: nat) {
    if rep.Star? && from.Some? && m <= from.value then m == q else RepSpan(b, inp, rep, m, q)
  }

  // one iteration, then the rest
  ghost predicate StepSpan(b: Node, inp: Input, rep: Rep, p: nat, q: nat)
    requires !Done(rep)
  {
    exists m: nat :: Span(b, inp, p, m) && Goes(b, inp, Next(rep), if rep.Star? then Some(p) else None, m, q)
  }

  lemma {:induction false} RepeatSpan(b: Node, cap: nat, inp: Input, rep: Rep, greedy: bool, s: St, q: nat)
    requires WellFormed(b) && Valid(inp) && Ready(b, cap, inp, s)
    ensures EndsAt(Repeat(b, cap, inp, rep, greedy, s), q) <==> RepSpan(b, inp, rep, s.pos, q)
    decreases b, 3, Rank(rep), |inp.units| - s.pos, 1, 0
  {
    hide EndsAt, Boundary, Matches, RepeatAll, RepSpan, Span;
    OneEnd(s, q);
    if Done(rep) {
      DoneSpan(b, inp, rep, s.pos, q);
    } else {
      var from := if rep.Star? then Some(s.pos) else None;
      var rs := Matches(b, cap, inp, s);
      SpanExact(b, cap, inp, s);
      RepeatAllSpan(b, cap, inp, Next(rep), greedy, from, s.pos, |s.caps|, rs, q);
      var more := RepeatAll(b, cap, inp, Next(rep), greedy, from, s.pos, |s.caps|, rs);
      EndsAtAppend(more, [s], q);
      EndsAtAppend([s], more, q);
      assert EndsAt(more, q) <==> StepSpan(b, inp, rep, s.pos, q);
      assert forall m: nat | Span(b, inp, s.pos, m) :: s.pos <= m by {
        forall m: nat | Span(b, inp, s.pos, m) ensures s.pos <= m {
          assert EndsAt(rs, m);
          EndLater(rs, inp, s.pos, |s.caps|, m);
        }
      }
      RepStep(b, inp, rep, s.pos, q);
    }
  }

  lemma {:induction false} EndLater(rs: seq<St>, inp: Input, from: nat, ncaps: nat, q: nat)
    requires Later(rs, inp, from, ncaps) && EndsAt(rs, q)
    ensures from <= q
  {
  }

  lemma {:induction false} OneEnd(s: St, q: nat)
    ensures EndsAt([s], q) <==> s.pos == q
  {
    assert [s][0] == s;
  }

  lemma {:induction false} DoneSpan(b: Node, inp: Input, rep: Rep, p: nat, q: nat)
    requires Done(rep)
    ensures RepSpan(b, inp, rep, p, q) <==> p == q
  {
    assert Spans(b, inp, 0, p, q) <==> p == q;
  }

  // a repetition is over, or makes one step
  lemma {:induction false} RepStep(b: Node, inp: Input, rep: Rep, p: nat, q: nat)
    requires !Done(rep) && forall m: nat | Span(b, inp, p, m) :: p <= m
    ensures RepSpan(b, inp, rep, p, q) <==> (!rep.Times? && p == q) || StepSpan(b, inp, rep, p, q)
  {
    hide Spans;
    NoSpans(b, inp, p, q);
    if !rep.Times? && p == q {
      assert RepSpan(b, inp, rep, p, q);
    }
    if StepSpan(b, inp, rep, p, q) {
      var m: nat :| Span(b, inp, p, m) && Goes(b, inp, Next(rep), if rep.Star? then Some(p) else None, m, q);
      StepSpans(b, inp, rep, p, m, q);
    }
    if RepSpan(b, inp, rep, p, q) && (rep.Times? || p != q) {
      var j: nat :| Spans(b, inp, j, p, q) && (rep.Times? ==> j == rep.k) && (rep.UpTo? ==> j <= rep.k);
      if rep.Star? {
        StarStep(b, inp, j, p, q);
      } else {
        var m := SpansFirst(b, inp, j, p, q);
        assert RepSpan(b, inp, Next(rep), m, q);
        assert Goes(b, inp, Next(rep), None, m, q);
      }
    }
  }

  lemma {:induction false} NoSpans(b: Node, inp: Input, p: nat, q: nat)
    ensures Spans(b, inp, 0, p, q) <==> p == q
  {
  }

  lemma {:induction false} SpansFirst(b: Node, inp: Input, j: nat, p: nat, q: nat) returns (m: nat)
    requires j > 0 && Spans(b, inp, j, p, q)
    ensures Span(b, inp, p, m) && Spans(b, inp, j - 1, m, q)
  {
    hide Span;
    m :| Span(b, inp, p, m) && Spans(b, inp, j - 1, m, q);
  }

  lemma {:induction false} SpansNext(b: Node, inp: Input, j: nat, p: nat, m: nat, q: nat)
    requires Span(b, inp, p, m) && Spans(b, inp, j, m, q)
    ensures Spans(b, inp, j + 1, p, q)
  {
    hide Span;
  }

  lemma {:induction false} StepSpans(b: Node, inp: Input, rep: Rep, p: nat, m: nat, q: nat)
    requires !Done(rep) && Span(b, inp, p, m) && p <= m
    requires Goes(b, inp, Next(rep), if rep.Star? then Some(p) else None, m, q)
    ensures RepSpan(b, inp, rep, p, q)
  {
    hide Spans, Span;
    NoSpans(b, inp, p, q);
    if !(rep.Star? && m <= p) {
      var j: nat :| Spans(b, inp, j, m, q) && (rep.Times? ==> j == rep.k - 1) && (rep.UpTo? ==> j <= rep.k - 1);
      SpansNext(b, inp, j, p, m, q);
    }
  }

  // iterations that consume nothing can be left out
  lemma {:induction false} StarStep(b: Node, inp: Input, j: nat, p: nat, q: nat)
    requires Spans(b, inp, j, p, q) && forall m: nat | Span(b, inp, p, m) :: p <= m
    ensures p == q || StepSpan(b, inp, Star, p, q)
    decreases j
  {
    hide Spans, Span;
    NoSpans(b, inp, p, q);
    if j > 0 {
      var m := SpansFirst(b, inp, j, p, q);
      if m == p {
        StarStep(b, inp, j - 1, p, q);
      } else {
        assert RepSpan(b, inp, Star, m, q);
        assert Goes(b, inp, Star, Some(p), m, q);
      }
    }
  }

  lemma {:induction false} RepeatAllSpan(b: Node, cap: nat, inp: Input, rep: Rep, greedy: bool, from: Option<nat>,
                                         low: nat, ncaps: nat, rs: seq<St>, q: nat)
    requires WellFormed(b) && Valid(inp)
    requires Later(rs, inp, low, ncaps) && 2 * (cap + Groups(b)) <= ncaps && low <= |inp.units|
    requires from.Some? ==> from.value == low
    ensures EndsAt(RepeatAll(b, cap, inp, rep, greedy, from, low, ncaps, rs), q) <==>
            exists m: nat :: EndsAt(rs, m) && Goes(b, inp, rep, from, m, q)
    decreases b, 3, EachRank(rep), if from.Some? then |inp.units| - low else |inp.units| + 1, 0, |rs|
  {
    hide EndsAt, Boundary, Repeat, RepSpan;
    forall m: nat ensures rs == [] ==> !EndsAt(rs, m)
                  ensures rs != [] ==> (EndsAt(rs, m) <==> rs[0].pos == m || EndsAt(rs[1..], m)) {
      EndsAtFirst(rs, m);
    }
    if rs == [] {
      EndsAtFirst([], q);
    } else {
      var r := rs[0];
      var stop := Stalled(rep, from, r);
      OneEnd(r, q);
      if !stop {
        RepeatSpan(b, cap, inp, rep, greedy, r, q);
      }
      RepeatAllSpan(b, cap, inp, rep, greedy, from, low, ncaps, rs[1..], q);
      EndsAtAppend(if stop then [r] else Repeat(b, cap, inp, rep, greedy, r),
                   RepeatAll(b, cap, inp, rep, greedy, from, low, ncaps, rs[1..]), q);
      assert EndsAt(rs, r.pos);
      if m: nat :| EndsAt(rs[1..], m) && Goes(b, inp, rep, from, m, q) {
        assert EndsAt(rs, m);
      }
      assert Goes(b, inp, rep, from, r.pos, q) <==> if stop then q == r.pos else RepSpan(b, inp, rep, r.pos, q);
    }
  }
}
