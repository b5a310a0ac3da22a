/** Which match comes first: alternatives from left to right, and quantifiers by unrolling them
    into alternatives, the body first when greedy and last when lazy. */
module RegexOrder {
  import opened RegexInput
  import opened RegexSyntax
  import opened RegexMatcher
  import opened RegexMeaning
  import opened RegexCaptures
  import opened RegexAdvance

  // another iteration or none, in the order of preference
  function MoreOrNot(more: Node, greedy: bool): Node {
    if greedy then Alt(more, Empty) else Alt(Empty, more)
  }

  // the code of Quant in the matcher, with the captures of another state
  lemma {:induction false} QuantEnds(b: Node, min: nat, max: nat, greedy: bool, cap: nat, cap': nat, inp: Input, s: St,
                                     s': St)
    requires Ready(b, cap, inp, s) && Ready(b, cap', inp, s') && s.pos == s'.pos
    ensures SameEnds(RepeatAll(b, cap, inp, Rest(min, max), greedy, None, s.pos, |s.caps|,
                               Repeat(b, cap, inp, Times(min), greedy, s)),
                     Matches(Quant(b, min, max, greedy), cap', inp, s'))
  {
    hide SameEnds, Repeat, RepeatAll, Boundary, Reset;
    var s0' := if min == 0 then s'.(caps := Reset(s'.caps, cap', Groups(b))) else s';
    RepeatEnd(b, cap, cap', inp, Times(min), greedy, s, s0');
    RepeatAllEnd(b, cap, cap', inp, Rest(min, max), greedy, None, s.pos, |s.caps|, |s'.caps|,
                 Repeat(b, cap, inp, Times(min), greedy, s), Repeat(b, cap', inp, Times(min), greedy, s0'));
  }

  // a repetition of minimum 0, from a single state
  lemma {:induction false} FromZero(b: Node, cap: nat, inp: Input, rep: Rep, greedy: bool, s: St)
    requires Ready(b, cap, inp, s)
    ensures Repeat(b, cap, inp, Times(0), greedy, s) == [s]
    ensures RepeatAll(b, cap, inp, rep, greedy, None, s.pos, |s.caps|, [s]) == Repeat(b, cap, inp, rep, greedy, s)
  {
    hide Boundary, Matches;
    assert [s][1..] == [];
    assert RepeatAll(b, cap, inp, rep, greedy, None, s.pos, |s.caps|, []) == [];
  }

  // the loop of a repetition, from every result of its first iteration
  lemma {:induction false} EachUnrolls(b: Node, max: nat, greedy: bool, cap: nat, cap': nat, inp: Input,
                                       from: Option<nat>, low: nat, ncaps: nat, ncaps': nat, rs: seq<St>, rs': seq<St>)
    requires Later(rs, inp, low, ncaps) && 2 * (cap + Groups(b)) <= ncaps && low <= |inp.units|
    requires Later(rs', inp, low, ncaps') && 2 * (cap' + Groups(b)) <= ncaps' && SameEnds(rs, rs')
    requires from.Some? ==> from.value == low && After(rs, low)
    ensures SameEnds(RepeatAll(b, cap, inp, Rest(0, max), greedy, from, low, ncaps, rs),
                     MatchAll(Quant(b, 0, max, greedy), cap', inp, low, ncaps', rs'))
    decreases |rs|
  {
    hide Repeat, Boundary, Matches, Rest;
    if rs != [] {
      var r := rs[0];
      FromZero(b, cap, inp, Rest(0, max), greedy, r);
      QuantEnds(b, 0, max, greedy, cap, cap', inp, r, rs'[0]);
      EachUnrolls(b, max, greedy, cap, cap', inp, from, low, ncaps, ncaps', rs[1..], rs'[1..]);
      assert !Stalled(Rest(0, max), from, r);
      SameEndsAppend(Repeat(b, cap, inp, Rest(0, max), greedy, r), Matches(Quant(b, 0, max, greedy), cap', inp, rs'[0]),
                     RepeatAll(b, cap, inp, Rest(0, max), greedy, from, low, ncaps, rs[1..]),
                     MatchAll(Quant(b, 0, max, greedy), cap', inp, low, ncaps', rs'[1..]));
    }
  }

  // A quantifier that may be left is another iteration, with one less after it, or none. So is a
  // star, from wherever its body consumes.
  lemma {:induction false} Unrolls(b: Node, max: nat, next: nat, greedy: bool, cap: nat, cap': nat, inp: Input, s: St,
                                   s': St)
    requires 0 < max <= INT32_MAX && next == (if max == INT32_MAX then max else max - 1)
    requires Ready(b, cap, inp, s) && s.pos == s'.pos
    requires Ready(MoreOrNot(Cat(b, Quant(b, 0, next, greedy)), greedy), cap', inp, s')
    requires max == INT32_MAX ==> After(Matches(b, cap, inp, s), s.pos)
    ensures SameEnds(Matches(Quant(b, 0, max, greedy), cap, inp, s),
                     Matches(MoreOrNot(Cat(b, Quant(b, 0, next, greedy)), greedy), cap', inp, s'))
  {
    hide Boundary, Repeat, RepeatAll, MatchAll, Matches, SameEnds, After;
    var rep := Rest(0, max);
    FromZero(b, cap, inp, rep, greedy, s);
    QuantEnds(b, 0, max, greedy, cap, cap, inp, s, s);
    var c := cap' + Groups(b);
    OrNot(b, Quant(b, 0, next, greedy), greedy, cap', inp, s');
    MatchesEnd(b, cap, cap', inp, s, s');
    var from := if rep.Star? then Some(s.pos) else None;
    var rs, rs' := Matches(b, cap, inp, s), Matches(b, cap', inp, s');
    EachUnrolls(b, next, greedy, cap, c, inp, from, s.pos, |s.caps|, |s'.caps|, rs, rs');
    var more := RepeatAll(b, cap, inp, Rest(0, next), greedy, from, s.pos, |s.caps|, rs);
    var more' := MatchAll(Quant(b, 0, next, greedy), c, inp, s.pos, |s'.caps|, rs');
    assert Next(rep) == Rest(0, next);
    OneRound(b, cap, inp, rep, greedy, s);
    var none := [s'];
    OneSame(s, s');
    SameEndsAppend(more, more', [s], none);
    SameEndsAppend([s], none, more, more');
    EndsSymm(Repeat(b, cap, inp, rep, greedy, s), Matches(Quant(b, 0, max, greedy), cap, inp, s));
    EndsTrans(Matches(Quant(b, 0, max, greedy), cap, inp, s), Repeat(b, cap, inp, rep, greedy, s),
              if greedy then more' + none else none + more');
  }

  lemma {:induction false} OneRound(b: Node, cap: nat, inp: Input, rep: Rep, greedy: bool, s: St)
    requires Ready(b, cap, inp, s) && !Done(rep) && !rep.Times?
    ensures var from := if rep.Star? then Some(s.pos) else None;
            var more := RepeatAll(b, cap, inp, Next(rep), greedy, from, s.pos, |s.caps|, Matches(b, cap, inp, s));
            Repeat(b, cap, inp, rep, greedy, s) == if greedy then more + [s] else [s] + more
  {
    hide Boundary, Matches, RepeatAll;
  }

  lemma {:induction false} OrNot(b: Node, n: Node, greedy: bool, cap: nat, inp: Input, s: St)
    requires Ready(MoreOrNot(Cat(b, n), greedy), cap, inp, s)
    ensures Ready(Cat(b, n), cap, inp, s) && 2 * (cap + Groups(b) + Groups(n)) <= |s.caps|
    ensures var more := MatchAll(n, cap + Groups(b), inp, s.pos, |s.caps|, Matches(b, cap, inp, s));
            Matches(MoreOrNot(Cat(b, n), greedy), cap, inp, s) == if greedy then more + [s] else [s] + more
  {
    hide Boundary, Matches, MatchAll;
    CatUnfold(b, n, cap, inp, s);
    if greedy {
      AltUnfold(Cat(b, n), Empty, cap, inp, s);
    } else {
      AltUnfold(Empty, Cat(b, n), cap, inp, s);
    }
    EmptyHere(cap, inp, s);
    EmptyHere(cap + Groups(Cat(b, n)), inp, s);
  }

  lemma {:induction false} EmptyHere(cap: nat, inp: Input, s: St)
    requires Ready(Empty, cap, inp, s)
    ensures Matches(Empty, cap, inp, s) == [s]
  {
  }

  lemma {:induction false} OneSame(s: St, s': St)
    requires s.pos == s'.pos
    ensures SameEnds([s], [s'])
  {
  }

  lemma {:induction false} EndsSymm(rs: seq<St>, qs: seq<St>)
    requires SameEnds(rs, qs)
    ensures SameEnds(qs, rs)
  {
  }

  lemma {:induction false} EndsTrans(rs: seq<St>, qs: seq<St>, ps: seq<St>)
    requires SameEnds(rs, qs) && SameEnds(qs, ps)
    ensures SameEnds(rs, ps)
  {
  }

  // A quantifier that has to run its body is the body, and then the quantifier with one less.
  lemma {:induction false} UnrollsMinimum(b: Node, min: nat, max: nat, greedy: bool, cap: nat, cap': nat, inp: Input,
                                          s: St, s': St)
    requires 0 < min <= max <= INT32_MAX
    requires Ready(b, cap, inp, s) && s.pos == s'.pos
    requires var next := if max == INT32_MAX then max else max - 1;
             Ready(Cat(b, Quant(b, min - 1, next, greedy)), cap', inp, s')
    ensures var next := if max == INT32_MAX then max else max - 1;
            SameEnds(Matches(Quant(b, min, max, greedy), cap, inp, s),
                     Matches(Cat(b, Quant(b, min - 1, next, greedy)), cap', inp, s'))
  {
    hide Boundary, Repeat, RepeatAll, MatchAll, Matches, SameEnds;
    var next := if max == INT32_MAX then max else max - 1;
    var c := cap' + Groups(b);
    CatRoom(b, Quant(b, min - 1, next, greedy), cap', inp, s');
    MatchesEnd(b, cap, cap', inp, s, s');
    CatUnfold(b, Quant(b, min - 1, next, greedy), cap', inp, s');
    QuantEnds(b, min, max, greedy, cap, cap, inp, s, s);
    assert Rest(min, max) == Rest(min - 1, next);
    TimesRound(b, cap, inp, min, greedy, s);
    var rs, rs' := Matches(b, cap, inp, s), Matches(b, cap', inp, s');
    EachMinimum(b, min - 1, next, greedy, cap, c, inp, s.pos, |s.caps|, |s'.caps|, rs, rs');
    var first := Repeat(b, cap, inp, Times(min), greedy, s);
    var all := RepeatAll(b, cap, inp, Rest(min, max), greedy, None, s.pos, |s.caps|, first);
    EndsSymm(all, Matches(Quant(b, min, max, greedy), cap, inp, s));
    EndsTrans(Matches(Quant(b, min, max, greedy), cap, inp, s), all,
              MatchAll(Quant(b, min - 1, next, greedy), c, inp, s.pos, |s'.caps|, rs'));
  }

  // Without an iteration the groups of the body are unset: the last choice of a greedy
  // quantifier, and the first of a lazy one.
  lemma {:induction false} SkippedUnset(b: Node, max: nat, greedy: bool, cap: nat, inp: Input, s: St)
    requires Ready(b, cap, inp, s)
    ensures var rs := Matches(Quant(b, 0, max, greedy), cap, inp, s);
            && rs != []
            && var r := if greedy then rs[|rs| - 1] else rs[0];
               && r.pos == s.pos && SameBut(r.caps, s.caps, 2 * cap, 2 * (cap + Groups(b)))
               && forall i | 2 * cap <= i < 2 * (cap + Groups(b)) :: r.caps[i] == -1
  {
    hide Boundary, Repeat, RepeatAll, Rest, SameBut, Reset, AllCaptured;
    var s0, rep := s.(caps := Reset(s.caps, cap, Groups(b))), Rest(0, max);
    ResetSound(b, cap, inp, s.caps);
    FromZero(b, cap, inp, rep, greedy, s0);
    assert Matches(Quant(b, 0, max, greedy), cap, inp, s) == Repeat(b, cap, inp, rep, greedy, s0);
    RestNotTimes(max);
    if Done(rep) {
      NoRound(b, cap, inp, rep, greedy, s0);
    } else {
      OneRound(b, cap, inp, rep, greedy, s0);
    }
  }

  lemma {:induction false} RestNotTimes(max: nat)
    ensures !Rest(0, max).Times?
  {
  }

  lemma {:induction false} NoRound(b: Node, cap: nat, inp: Input, rep: Rep, greedy: bool, s: St)
    requires Ready(b, cap, inp, s) && Done(rep)
    ensures Repeat(b, cap, inp, rep, greedy, s) == [s]
  {
  }

  lemma {:induction false} CatRoom(b: Node, n: Node, cap: nat, inp: Input, s: St)
    requires Ready(Cat(b, n), cap, inp, s)
    ensures Ready(b, cap, inp, s) && 2 * (cap + Groups(b) + Groups(n)) <= |s.caps|
  {
  }

  lemma {:induction false} TimesRound(b: Node, cap: nat, inp: Input, k: nat, greedy: bool, s: St)
    requires Ready(b, cap, inp, s) && k > 0
    ensures Repeat(b, cap, inp, Times(k), greedy, s) ==
            RepeatAll(b, cap, inp, Times(k - 1), greedy, None, s.pos, |s.caps|, Matches(b, cap, inp, s))
  {
    hide Boundary, Matches, RepeatAll;
  }

  lemma {:induction false} EachMinimum(b: Node, min: nat, max: nat, greedy: bool, cap: nat, cap': nat, inp: Input,
                                       low: nat, ncaps: nat, ncaps': nat, rs: seq<St>, rs': seq<St>)
    requires Later(rs, inp, low, ncaps) && 2 * (cap + Groups(b)) <= ncaps && low <= |inp.units|
    requires Later(rs', inp, low, ncaps') && 2 * (cap' + Groups(b)) <= ncaps' && SameEnds(rs, rs')
    ensures var first := RepeatAll(b, cap, inp, Times(min), greedy, None, low, ncaps, rs);
            SameEnds(RepeatAll(b, cap, inp, Rest(min, max), greedy, None, low, ncaps, first),
                     MatchAll(Quant(b, min, max, greedy), cap', inp, low, ncaps', rs'))
    decreases |rs|
  {
    hide Repeat, Boundary, Matches, Rest;
    if rs != [] {
      var r := rs[0];
      var one := Repeat(b, cap, inp, Times(min), greedy, r);
      var others := RepeatAll(b, cap, inp, Times(min), greedy, None, low, ncaps, rs[1..]);
      QuantEnds(b, min, max, greedy, cap, cap', inp, r, rs'[0]);
      EachMinimum(b, min, max, greedy, cap, cap', inp, low, ncaps, ncaps', rs[1..], rs'[1..]);
      LowerBound(b, cap, inp, Rest(min, max), greedy, r.pos, low, ncaps, one);
      RepeatAllAppend(b, cap, inp, Rest(min, max), greedy, low, ncaps, one, others);
      SameEndsAppend(RepeatAll(b, cap, inp, Rest(min, max), greedy, None, low, ncaps, one),
                     Matches(Quant(b, min, max, greedy), cap', inp, rs'[0]),
                     RepeatAll(b, cap, inp, Rest(min, max), greedy, None, low, ncaps, others),
                     MatchAll(Quant(b, min, max, greedy), cap', inp, low, ncaps', rs'[1..]));
    }
  }

  // the bound the results are known to be at does not matter
  lemma {:induction false} LowerBound(b: Node, cap: nat, inp: Input, rep: Rep, greedy: bool, from: nat, low: nat,
                                      ncaps: nat, rs: seq<St>)
    requires Later(rs, inp, from, ncaps) && Later(rs, inp, low, ncaps) && 2 * (cap + Groups(b)) <= ncaps
    requires from <= |inp.units| && low <= |inp.units|
    ensures RepeatAll(b, cap, inp, rep, greedy, None, from, ncaps, rs) ==
            RepeatAll(b, cap, inp, rep, greedy, None, low, ncaps, rs)
    decreases |rs|
  {
    hide Repeat, Boundary;
    if rs != [] {
      LowerBound(b, cap, inp, rep, greedy, from, low, ncaps, rs[1..]);
    }
  }

  lemma {:induction false} RepeatAllAppend(b: Node, cap: nat, inp: Input, rep: Rep, greedy: bool, low: nat, ncaps: nat,
                                           rs: seq<St>, qs: seq<St>)
    requires Later(rs, inp, low, ncaps) && Later(qs, inp, low, ncaps) && 2 * (cap + Groups(b)) <= ncaps
    requires low <= |inp.units|
    ensures RepeatAll(b, cap, inp, rep, greedy, None, low, ncaps, rs + qs) ==
            RepeatAll(b, cap, inp, rep, greedy, None, low, ncaps, rs)
            + RepeatAll(b, cap, inp, rep, greedy, None, low, ncaps, qs)
    decreases |rs|
  {
    hide Repeat, Boundary;
    if rs == [] {
      assert rs + qs == qs;
    } else {
      assert (rs + qs)[1..] == rs[1..] + qs;
      RepeatAllAppend(b, cap, inp, rep, greedy, low, ncaps, rs[1..], qs);
    }
  }

  // where the first match from p ends
  function FirstEnd(n: Node, inp: Input, p: nat): Option<int>
    requires p <= |inp.units|
  {
    var r := FirstMatch(n, inp, true, p);
    if r.None? then None else Some(r.value[1])
  }

  lemma {:induction false} FirstEndIs(n: Node, inp: Input, cap: nat, s: St)
    requires WellFormed(n) && Valid(inp) && Ready(n, cap, inp, s)
    ensures var rs := Matches(n, cap, inp, s);
            FirstEnd(n, inp, s.pos) == if rs == [] then None else Some(rs[0].pos)
  {
    hide AllCaptured, Boundary, Matches, Span, Closed;
    ResultsAt(n, inp, s.pos);
    var o := St(s.pos, NoCaptures(n));
    GroupMatches(n, 0, inp, o);
    MatchesEnd(n, cap, 1, inp, s, Opened(o, 0));
    ClosedFirst(Matches(n, 1, inp, Opened(o, 0)), inp, s.pos, |o.caps|);
  }

  lemma {:induction false} ClosedFirst(rs: seq<St>, inp: Input, from: nat, ncaps: nat)
    requires 1 < ncaps && Later(rs, inp, from, ncaps)
    ensures var qs := Closed(rs, 0, inp, from, ncaps); (qs == [] <==> rs == []) && (rs != [] ==> qs[0].pos == rs[0].pos)
  {
    hide Boundary;
  }

  // The first alternative that matches at all is taken.
  lemma {:induction false} FirstAlternative(l: Node, r: Node, inp: Input, p: nat)
    requires WellFormed(Alt(l, r)) && Valid(inp) && p <= |inp.units|
    ensures FirstEnd(Alt(l, r), inp, p) ==
            if exists q: nat :: Span(l, inp, p, q) then FirstEnd(l, inp, p) else FirstEnd(r, inp, p)
  {
    hide AllCaptured, Boundary, Matches, Span, FirstEnd, MatchesAt;
    var s := St(p, NoCaptures(Alt(l, r)));
    AltUnfold(l, r, 1, inp, s);
    FirstEndIs(Alt(l, r), inp, 1, s);
    FirstEndIs(l, inp, 1, s);
    FirstEndIs(r, inp, 1 + Groups(l), s);
    SpanExact(l, 1, inp, s);
    var ls := Matches(l, 1, inp, s);
    if ls != [] {
      assert EndsAt(ls, ls[0].pos);
      assert Span(l, inp, p, ls[0].pos);
    } else {
      assert ls + Matches(r, 1 + Groups(l), inp, s) == Matches(r, 1 + Groups(l), inp, s);
    }
    forall q: nat ensures ls == [] ==> !Span(l, inp, p, q) {
      assert EndsAt(ls, q) <==> Span(l, inp, p, q);
    }
  }

  // the first result ends last when greedy, and first when lazy
  predicate Led(rs: seq<St>, greedy: bool) {
    forall i | 0 <= i < |rs| :: if greedy then rs[i].pos <= rs[0].pos else rs[0].pos <= rs[i].pos
  }

  lemma {:induction false} CharsLed(t: CharTest, cap: nat, inp: Input, rep: Rep, greedy: bool, s: St)
    requires Ready(One(t), cap, inp, s)
    ensures Led(Repeat(One(t), cap, inp, rep, greedy, s), greedy)
    ensures rep.Times? ==> |Repeat(One(t), cap, inp, rep, greedy, s)| <= 1
    decreases Rank(rep), |inp.units| - s.pos
  {
    hide Boundary, GetChar, Passes;
    var rs := Matches(One(t), cap, inp, s);
    if !Done(rep) {
      var from := if rep.Star? then Some(s.pos) else None;
      var more := RepeatAll(One(t), cap, inp, Next(rep), greedy, from, s.pos, |s.caps|, rs);
      if rs != [] {
        assert rs[1..] == [];
        assert RepeatAll(One(t), cap, inp, Next(rep), greedy, from, s.pos, |s.caps|, rs[1..]) == [];
        CharsLed(t, cap, inp, Next(rep), greedy, rs[0]);
        assert more == Repeat(One(t), cap, inp, Next(rep), greedy, rs[0]);
      }
    }
  }

  // A greedy quantifier over characters takes the longest match there is, a lazy one the shortest.
  lemma {:induction false} LongestOrShortest(t: CharTest, min: nat, max: nat, greedy: bool, inp: Input, p: nat, q: nat)
    requires WellFormed(Quant(One(t), min, max, greedy)) && Valid(inp) && p <= |inp.units|
    requires Span(Quant(One(t), min, max, greedy), inp, p, q)
    ensures var e := FirstEnd(Quant(One(t), min, max, greedy), inp, p);
            e.Some? && if greedy then q <= e.value else e.value <= q
  {
    hide AllCaptured, Boundary, Matches, Span, FirstEnd, MatchesAt, Repeat;
    var n := Quant(One(t), min, max, greedy);
    var s := St(p, NoCaptures(n));
    FirstEndIs(n, inp, 1, s);
    SpanExact(n, 1, inp, s);
    var rs := Matches(n, 1, inp, s);
    assert EndsAt(rs, q);
    CharsQuant(t, min, max, greedy, 1, inp, s);
  }

  lemma {:induction false} CharsQuant(t: CharTest, min: nat, max: nat, greedy: bool, cap: nat, inp: Input, s: St)
    requires Ready(One(t), cap, inp, s)
    ensures Led(Matches(Quant(One(t), min, max, greedy), cap, inp, s), greedy)
  {
    hide Boundary, Repeat, RepeatAll, Rest, Led;
    QuantEnds(One(t), min, max, greedy, cap, cap, inp, s, s);
    CharsLed(t, cap, inp, Times(min), greedy, s);
    var first := Repeat(One(t), cap, inp, Times(min), greedy, s);
    var rs := RepeatAll(One(t), cap, inp, Rest(min, max), greedy, None, s.pos, |s.caps|, first);
    if first != [] {
      CharsLed(t, cap, inp, Rest(min, max), greedy, first[0]);
    }
    AtMostOne(One(t), cap, inp, Rest(min, max), greedy, s.pos, |s.caps|, first);
    LedSame(rs, Matches(Quant(One(t), min, max, greedy), cap, inp, s), greedy);
  }

  lemma {:induction false} AtMostOne(b: Node, cap: nat, inp: Input, rep: Rep, greedy: bool, low: nat, ncaps: nat,
                                     rs: seq<St>)
    requires Later(rs, inp, low, ncaps) && 2 * (cap + Groups(b)) <= ncaps && low <= |inp.units| && |rs| <= 1
    ensures var qs := RepeatAll(b, cap, inp, rep, greedy, None, low, ncaps, rs);
            qs == (if rs == [] then [] else Repeat(b, cap, inp, rep, greedy, rs[0])) && (rs == [] ==> Led(qs, greedy))
  {
    hide Repeat, Boundary;
    if rs != [] {
      assert RepeatAll(b, cap, inp, rep, greedy, None, low, ncaps, rs[1..]) == [];
    }
  }

  lemma {:induction false} LedSame(rs: seq<St>, qs: seq<St>, greedy: bool)
    requires SameEnds(rs, qs) && Led(rs, greedy)
    ensures Led(qs, greedy)
  {
  }
}
