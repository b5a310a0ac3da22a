/** The greedy fast path: counting iterations of a simple body forward and taking them back
    one by one offers the same matches, longest first, as the general greedy loop. */
module RegexGreedy {
  import opened RegexInput
  import opened RegexSyntax
  import opened RegexCode
  import opened RegexMatcher
  import opened RegexCompiler
  import opened RegexVM
  import opened RegexSimulation
  import opened RegexLoops
  import opened RegexSimple

  // a simple body at pc, followed by the match that ends its run
  predicate BodyHere(b: Node, cap: nat, code: Code, inp: Input, pc: nat, ncaps: nat) {
    WellFormed(b) && Valid(inp) && 2 * (cap + Groups(b)) <= ncaps && At(code, pc, Compile(b, cap))
    && SimpleCount(Compile(b, cap)) > 0 && HasInstr(code, pc + |Compile(b, cap)|, Match)
  }

  // One iteration: the run without backtracking hits exactly when the body has its one match.
  lemma {:induction false} BodyStep(b: Node, cap: nat, code: Code, inp: Input, pc: nat, s: St)
    requires BodyHere(b, cap, code, inp, pc, |s.caps|) && Boundary(inp, s.pos)
    ensures var rs := Matches(b, cap, inp, s);
            if rs == [] then SimpleRun(code, inp, pc, s.pos) == Miss
            else
              && |rs| == 1 && rs[0].caps == s.caps && SimpleRun(code, inp, pc, s.pos) == Hit(rs[0].pos)
              && s.pos < rs[0].pos <= |inp.units| && Boundary(inp, rs[0].pos)
              && StepBack(inp, rs[0].pos, SimpleCount(Compile(b, cap))) == Some(s.pos)
  {
    hide Matches, Compile, SimpleCount, Boundary, StepBack, Forward;
    ReadyBody(b, cap, code, inp, pc, s);
    SimpleSound(b, cap, code, inp, pc, s);
    var rs := Matches(b, cap, inp, s);
    if rs != [] {
      ForwardBounds(inp, s.pos, SimpleCount(Compile(b, cap)));
      BackUndoesForward(inp, s.pos, SimpleCount(Compile(b, cap)));
    }
  }

  // positions reached by iterating the body, at most `limit` times when there is a limit
  function Chain(code: Code, inp: Input, pc: nat, pos: nat, limit: Option<nat>): (ps: seq<nat>)
    requires pos <= |inp.units|
    ensures ps != [] && ps[0] == pos
    ensures forall i | 0 <= i < |ps| :: ps[i] <= |inp.units|
    decreases |inp.units| - pos
  {
    var r := SimpleRun(code, inp, pc, pos);
    if limit == Some(0) || !r.Hit? || !(pos < r.pos <= |inp.units|) then [pos]
    else [pos] + Chain(code, inp, pc, r.pos, Less(limit, 1))
  }

  function Less(limit: Option<nat>, m: nat): Option<nat> {
    if limit.None? || limit.value < m then None else Some(limit.value - m)
  }

  predicate Covers(limit: Option<nat>, m: nat) { limit.None? || m <= limit.value }

  function Limit(max: nat): Option<nat> { if max == INT32_MAX then None else Some(max) }

  lemma {:induction false} ChainSuffix(code: Code, inp: Input, pc: nat, pos: nat, limit: Option<nat>, m: nat)
    requires pos <= |inp.units| && Covers(limit, m) && m < |Chain(code, inp, pc, pos, limit)|
    ensures var ps := Chain(code, inp, pc, pos, limit); Chain(code, inp, pc, ps[m], Less(limit, m)) == ps[m..]
    decreases m
  {
    if m > 0 {
      var next := SimpleRun(code, inp, pc, pos).pos;
      ChainSuffix(code, inp, pc, next, Less(limit, 1), m - 1);
    }
  }

  // results for the positions, last one first
  function Descend(ps: seq<nat>, caps: seq<int>): seq<St> {
    if ps == [] then [] else Descend(ps[1..], caps) + [St(ps[0], caps)]
  }

  lemma {:induction false} DescendLast(ps: seq<nat>, x: nat, caps: seq<int>)
    ensures Descend(ps + [x], caps) == [St(x, caps)] + Descend(ps, caps)
  {
    if ps == [] {
      assert (ps + [x])[1..] == [];
    } else {
      assert (ps + [x])[1..] == ps[1..] + [x];
      DescendLast(ps[1..], x, caps);
    }
  }

  function RepLimit(rep: Rep): Option<nat> {
    match rep case Star => None case Times(k) => Some(k) case UpTo(k) => Some(k)
  }

  // going on from at most one result that is not stalled
  lemma {:induction false} RepeatSingle(b: Node, cap: nat, inp: Input, rep: Rep, from: Option<nat>, low: nat,
                                        ncaps: nat, rs: seq<St>)
    requires Later(rs, inp, low, ncaps) && 2 * (cap + Groups(b)) <= ncaps && low <= |inp.units|
    requires from.Some? ==> from.value == low
    requires |rs| <= 1 && (rs != [] ==> low < rs[0].pos || from.None?)
    ensures RepeatAll(b, cap, inp, rep, true, from, low, ncaps, rs)
         == if rs == [] then [] else Repeat(b, cap, inp, rep, true, rs[0])
  {
    if rs != [] {
      assert RepeatAll(b, cap, inp, rep, true, from, low, ncaps, rs[1..]) == [];
    }
  }

  lemma {:induction false} RepeatUnfold(b: Node, cap: nat, inp: Input, rep: Rep, s: St)
    requires Ready(b, cap, inp, s) && !Done(rep)
    ensures Repeat(b, cap, inp, rep, true, s) ==
            var from := if rep.Star? then Some(s.pos) else None;
            var more := RepeatAll(b, cap, inp, Next(rep), true, from, s.pos, |s.caps|, Matches(b, cap, inp, s));
            if rep.Times? then more else more + [s]
  {
    hide Matches, RepeatAll;
  }

  // Repeating a simple body offers the positions of the chain, longest first.
  lemma {:induction false} RepeatChain(b: Node, cap: nat, code: Code, inp: Input, pc: nat, rep: Rep, s: St)
    requires BodyHere(b, cap, code, inp, pc, |s.caps|) && Boundary(inp, s.pos) && !rep.Times?
    ensures Repeat(b, cap, inp, rep, true, s) == Descend(Chain(code, inp, pc, s.pos, RepLimit(rep)), s.caps)
    decreases |inp.units| - s.pos
  {
    hide Repeat, RepeatAll, Matches, Boundary, BodyHere, SimpleRun, StepBack;
    ReadyBody(b, cap, code, inp, pc, s);
    var ps := Chain(code, inp, pc, s.pos, RepLimit(rep));
    assert s == St(s.pos, s.caps) && Descend([s.pos], s.caps) == [s] by {
      assert Descend([s.pos][1..], s.caps) == [];
    }
    if Done(rep) {
      RepeatDone(b, cap, inp, rep, s);
    } else {
      BodyStep(b, cap, code, inp, pc, s);
      RepeatUnfold(b, cap, inp, rep, s);
      var rs := Matches(b, cap, inp, s);
      RepeatSingle(b, cap, inp, Next(rep), if rep.Star? then Some(s.pos) else None, s.pos, |s.caps|, rs);
      if rs != [] {
        RepeatChain(b, cap, code, inp, pc, Next(rep), rs[0]);
        assert ps[1..] == Chain(code, inp, pc, rs[0].pos, RepLimit(Next(rep)));
      }
    }
  }

  lemma {:induction false} ReadyBody(b: Node, cap: nat, code: Code, inp: Input, pc: nat, s: St)
    requires BodyHere(b, cap, code, inp, pc, |s.caps|) && Boundary(inp, s.pos)
    ensures WellFormed(b) && Ready(b, cap, inp, s)
    ensures SimpleCount(Compile(b, cap)) > 0
  {
    hide Compile, SimpleCount;
  }

  lemma {:induction false} RepeatDone(b: Node, cap: nat, inp: Input, rep: Rep, s: St)
    requires Ready(b, cap, inp, s) && Done(rep)
    ensures Repeat(b, cap, inp, rep, true, s) == [s]
  {
  }

  // Exactly m iterations exist when the chain is that long.
  lemma {:induction false} TimesChain(b: Node, cap: nat, code: Code, inp: Input, pc: nat, m: nat, s: St,
                                      limit: Option<nat>)
    requires Ready(b, cap, inp, s)
    requires BodyHere(b, cap, code, inp, pc, |s.caps|) && Boundary(inp, s.pos) && Covers(limit, m)
    ensures var ps := Chain(code, inp, pc, s.pos, limit);
            Repeat(b, cap, inp, Times(m), true, s) == if m < |ps| then [St(ps[m], s.caps)] else []
    ensures var ps := Chain(code, inp, pc, s.pos, limit); m < |ps| ==> Boundary(inp, ps[m])
    decreases m
  {
    hide Repeat, RepeatAll, Matches, Boundary, BodyHere, SimpleRun, StepBack, Groups, WellFormed, Compile, SimpleCount;
    ReadyBody(b, cap, code, inp, pc, s);
    var ps := Chain(code, inp, pc, s.pos, limit);
    if m == 0 {
      RepeatDone(b, cap, inp, Times(0), s);
      assert s == St(s.pos, s.caps);
    } else {
      BodyStep(b, cap, code, inp, pc, s);
      RepeatUnfold(b, cap, inp, Times(m), s);
      var rs := Matches(b, cap, inp, s);
      RepeatSingle(b, cap, inp, Times(m - 1), None, s.pos, |s.caps|, rs);
      if rs != [] {
        TimesChain(b, cap, code, inp, pc, m - 1, rs[0], Less(limit, 1));
        assert ps[1..] == Chain(code, inp, pc, rs[0].pos, Less(limit, 1));
        if m < |ps| {
          assert ps[m] == ps[1..][m - 1];
        }
      }
    }
  }

  // Stepping back the counted characters undoes one iteration.
  lemma {:induction false} ChainBack(b: Node, cap: nat, code: Code, inp: Input, pc: nat, s: St, limit: Option<nat>,
                                     j: nat)
    requires BodyHere(b, cap, code, inp, pc, |s.caps|) && Boundary(inp, s.pos)
    requires 0 < j < |Chain(code, inp, pc, s.pos, limit)|
    ensures var ps := Chain(code, inp, pc, s.pos, limit);
            StepBack(inp, ps[j], SimpleCount(Compile(b, cap))) == Some(ps[j - 1])
    decreases j
  {
    hide Matches, Boundary, BodyHere, SimpleRun, StepBack, Compile, SimpleCount;
    ReadyBody(b, cap, code, inp, pc, s);
    BodyStep(b, cap, code, inp, pc, s);
    var ps := Chain(code, inp, pc, s.pos, limit);
    var rs := Matches(b, cap, inp, s);
    assert ps[1..] == Chain(code, inp, pc, rs[0].pos, Less(limit, 1));
    if j > 1 {
      ChainBack(b, cap, code, inp, pc, rs[0], Less(limit, 1), j - 1);
      assert ps[j] == ps[1..][j - 1] && ps[j - 1] == ps[1..][j - 2];
    } else {
      assert ps[1] == ps[1..][0];
    }
  }

  // The counting loop ends at the end of the chain.
  lemma {:induction false} CountChain(b: Node, cap: nat, code: Code, inp: Input, pc: nat, s: St, max: nat, q: nat)
    requires BodyHere(b, cap, code, inp, pc, |s.caps|) && Boundary(inp, s.pos)
    requires max == INT32_MAX || q < max
    ensures var ps := Chain(code, inp, pc, s.pos, Less(Limit(max), q));
            CountGreedy(code, inp, pc, s.pos, max, q) == Some((q + |ps| - 1, ps[|ps| - 1]))
    decreases |inp.units| - s.pos
  {
    hide Matches, Boundary, BodyHere, SimpleRun, StepBack, Compile, SimpleCount;
    ReadyBody(b, cap, code, inp, pc, s);
    BodyStep(b, cap, code, inp, pc, s);
    var ps := Chain(code, inp, pc, s.pos, Less(Limit(max), q));
    var rs := Matches(b, cap, inp, s);
    if rs != [] {
      var next := Chain(code, inp, pc, rs[0].pos, Less(Limit(max), q + 1));
      assert ps == [s.pos] + next;
      if max == INT32_MAX || q + 1 < max {
        CountChain(b, cap, code, inp, pc, rs[0], max, q + 1);
      }
    }
  }

  predicate Groupless(n: Node, cap: nat)
    requires WellFormed(n)
  {
    SimpleCount(Compile(n, cap)) != -1 ==> Groups(n) == 0
  }

  lemma {:induction false} GrouplessCat(l: Node, r: Node, cap: nat)
    requires WellFormed(Cat(l, r)) && Groupless(l, cap) && Groupless(r, cap + Groups(l))
    ensures Groupless(Cat(l, r), cap)
  {
    hide SimpleCount, Compile;
    CompileCat(l, r, cap);
    SimpleCountBounds(Compile(l, cap));
    SimpleCountBounds(Compile(r, cap + Groups(l)));
    SimpleCountAppend(Compile(l, cap), Compile(r, cap + Groups(l)));
  }

  lemma {:induction false} GrouplessQuant(b: Node, cap: nat, min: nat, max: nat, greedy: bool)
    requires WellFormed(Quant(b, min, max, greedy)) && Groupless(b, cap)
    ensures Groupless(Quant(b, min, max, greedy), cap)
  {
    hide SimpleCount, QuantCode;
    var c := Compile(b, cap);
    if SimpleCount(QuantCode(c, cap, Groups(b), min, max, greedy)) != -1 {
      SimpleQuant(c, cap, Groups(b), min, max, greedy);
    }
  }

  // A simple body has no groups to reset.
  lemma {:induction false} SimpleNoGroups(n: Node, cap: nat)
    requires WellFormed(n)
    ensures SimpleCount(Compile(n, cap)) != -1 ==> Groups(n) == 0
  {
    hide SimpleCount, AltCode, GroupCode, LookCode, QuantCode;
    assert Groupless(n, cap) by {
      match n
      case Empty =>
      case One(_) =>
      case Check(_) =>
      case Cat(l, r) =>
        SimpleNoGroups(l, cap);
        SimpleNoGroups(r, cap + Groups(l));
        GrouplessCat(l, r, cap);
      case Alt(l, r) => NotSimpleAlt(Compile(l, cap), Compile(r, cap + Groups(l)));
      case Group(b) => NotSimpleGroup(Compile(b, cap + 1), cap);
      case Look(negative, b) => NotSimpleLook(Compile(b, cap), negative);
      case Quant(b, min, max, greedy) =>
        SimpleNoGroups(b, cap);
        GrouplessQuant(b, cap, min, max, greedy);
    }
  }

  lemma {:induction false} GreedyUnfold(b: Node, cap: nat, inp: Input, min: nat, max: nat, s: St)
    requires Ready(b, cap, inp, s) && Groups(b) == 0
    ensures Matches(Quant(b, min, max, true), cap, inp, s)
         == RepeatAll(b, cap, inp, Rest(min, max), true, None, s.pos, |s.caps|,
                      Repeat(b, cap, inp, Times(min), true, s))
  {
    hide Repeat, RepeatAll;
    assert Reset(s.caps, cap, 0) == s.caps;
  }

  // All matches of a greedy quantifier over a simple body: the chain down to the minimum.
  lemma {:induction false} QuantChain(b: Node, cap: nat, code: Code, inp: Input, pc: nat, min: nat, max: nat, s: St)
    requires BodyHere(b, cap, code, inp, pc, |s.caps|) && Boundary(inp, s.pos) && min <= max <= INT32_MAX
    ensures Ready(b, cap, inp, s)
    ensures var ps := Chain(code, inp, pc, s.pos, Limit(max));
            Matches(Quant(b, min, max, true), cap, inp, s) == if min < |ps| then Descend(ps[min..], s.caps) else []
  {
    hide Repeat, RepeatAll, Matches, Boundary, SimpleRun, StepBack, Compile, SimpleCount, BodyHere, Chain, Descend,
      Groups;
    ReadyBody(b, cap, code, inp, pc, s);
    var ps := Chain(code, inp, pc, s.pos, Limit(max));
    TimesChain(b, cap, code, inp, pc, min, s, Limit(max));
    SimpleNoGroups(b, cap);
    GreedyUnfold(b, cap, inp, min, max, s);
    var first := Repeat(b, cap, inp, Times(min), true, s);
    RepeatSingle(b, cap, inp, Rest(min, max), None, s.pos, |s.caps|, first);
    if min < |ps| {
      ChainSuffix(code, inp, pc, s.pos, Limit(max), min);
      RepeatChain(b, cap, code, inp, pc, Rest(min, max), first[0]);
    }
  }

  // the greedy entry for position ps[j], with j - lo shorter matches to come
  function Shorter(pc: nat, pos: nat, count: nat, caps: seq<int>, stack: seq<nat>): seq<Entry> {
    [Greedy(Thread(pc + 1, pos, caps, stack), count)]
  }

  lemma {:induction false} StepShorter(code: Code, inp: Input, pc: nat, len: int, min: nat, max: nat, k: nat, pos: nat,
                                       to: nat, count: nat, caps: seq<int>, stack: seq<nat>)
    requires HasInstr(code, pc, SimpleGreedyQuant(len, min, max, k)) && pc + 17 + len >= 0
    requires pos <= |inp.units| && StepBack(inp, pos, k) == Some(to) && count > 0
    ensures var out := Here(pc + 17 + len, St(to, caps), stack);
            Refines(code, inp, if count > 1 then Shorter(pc, to, count - 1, caps, stack) + out else out,
                    Shorter(pc, pos, count, caps, stack))
  {
    var out := Here(pc + 17 + len, St(to, caps), stack);
    RefinesStep(code, inp, if count > 1 then Shorter(pc, to, count - 1, caps, stack) + out else out,
                Shorter(pc, pos, count, caps, stack));
  }

  // Taking back iterations offers the shorter matches in order.
  lemma {:induction false} GreedyDown(b: Node, cap: nat, code: Code, inp: Input, pc: nat, min: nat, max: nat, s: St,
                                      stack: seq<nat>, ps: seq<nat>, j: nat)
    requires BodyHere(b, cap, code, inp, pc + 17, |s.caps|) && Boundary(inp, s.pos)
    requires ps == Chain(code, inp, pc + 17, s.pos, Limit(max)) && min < j < |ps|
    requires var c := Compile(b, cap); HasInstr(code, pc, SimpleGreedyQuant(|c| + 1, min, max, SimpleCount(c)))
    ensures Refines(code, inp, Ends(pc + 18 + |Compile(b, cap)|, Descend(ps[min..j], s.caps), stack),
                    Shorter(pc, ps[j], j - min, s.caps, stack))
    decreases j
  {
    hide Refines, BodyHere, Boundary, Compile, SimpleCount, StepBack, Chain, Descend;
    ReadyBody(b, cap, code, inp, pc + 17, s);
    var c := Compile(b, cap);
    var out := pc + 18 + |c|;
    ChainBack(b, cap, code, inp, pc + 17, s, Limit(max), j);
    StepShorter(code, inp, pc, |c| + 1, min, max, SimpleCount(c), ps[j], ps[j - 1], j - min, s.caps, stack);
    var r := St(ps[j - 1], s.caps);
    assert ps[min..j] == ps[min..j - 1] + [ps[j - 1]];
    DescendLast(ps[min..j - 1], ps[j - 1], s.caps);
    EndsOne(out, r, stack);
    if j - min > 1 {
      GreedyDown(b, cap, code, inp, pc, min, max, s, stack, ps, j - 1);
      var fewer := Descend(ps[min..j - 1], s.caps);
      EndsAppend(out, [r], fewer, stack);
      RefinesOver(code, inp, Ends(out, fewer, stack), Shorter(pc, ps[j - 1], j - 1 - min, s.caps, stack),
                  Here(out, r, stack));
      RefinesTrans(code, inp, Ends(out, [r] + fewer, stack),
                   Shorter(pc, ps[j - 1], j - 1 - min, s.caps, stack) + Here(out, r, stack),
                   Shorter(pc, ps[j], j - min, s.caps, stack));
    } else {
      DescendNone(s.caps);
      assert ps[min..j - 1] == [] && [r] + [] == [r];
    }
  }

  lemma {:induction false} DescendNone(caps: seq<int>)
    ensures Descend([], caps) == []
  {
  }

  lemma {:induction false} StepGreedy(code: Code, inp: Input, pc: nat, len: int, min: nat, max: nat, k: nat, s: St,
                                      stack: seq<nat>, q: nat, pos: nat)
    requires HasInstr(code, pc, SimpleGreedyQuant(len, min, max, k)) && pc + 17 + len >= 0 && s.pos <= |inp.units|
    requires CountGreedy(code, inp, pc + 17, s.pos, max, 0) == Some((q, pos))
    ensures var out := Here(pc + 17 + len, s.(pos := pos), stack);
            Refines(code, inp,
                    if q < min then [] else if q > min then Shorter(pc, pos, q - min, s.caps, stack) + out else out,
                    Here(pc, s, stack))
  {
    var out := Here(pc + 17 + len, s.(pos := pos), stack);
    RefinesExec(code, inp, pc, s, stack,
                if q < min then [] else if q > min then Shorter(pc, pos, q - min, s.caps, stack) + out else out);
  }

  predicate BehindQuant(b: Node, cap: nat, code: Code, pc: nat, min: nat, max: nat)
    requires WellFormed(b)
  {
    var c := Compile(b, cap);
    SimpleCount(c) >= 0 && HasInstr(code, pc, SimpleGreedyQuant(|c| + 1, min, max, SimpleCount(c)))
  }

  // the results of the quantifier behind the threads for them
  ghost predicate GreedyDone(b: Node, cap: nat, code: Code, inp: Input, pc: nat, min: nat, ps: seq<nat>, s: St,
                             stack: seq<nat>)
    requires WellFormed(b)
  {
    Refines(code, inp, Ends(pc + 18 + |Compile(b, cap)|, if min < |ps| then Descend(ps[min..], s.caps) else [], stack),
            Here(pc, s, stack))
  }

  // The fast path refines the general meaning of the quantifier.
  lemma {:induction false} SimGreedy(b: Node, cap: nat, code: Code, inp: Input, pc: nat, min: nat, max: nat, s: St,
                                     stack: seq<nat>)
    requires WellFormed(b) && Ready(Quant(b, min, max, true), cap, inp, s)
    requires BodyHere(b, cap, code, inp, pc + 17, |s.caps|) && Boundary(inp, s.pos) && min <= max <= INT32_MAX
             && max > 0
    requires BehindQuant(b, cap, code, pc, min, max)
    ensures Refines(code, inp, Ends(pc + 18 + |Compile(b, cap)|, Matches(Quant(b, min, max, true), cap, inp, s), stack),
                    Here(pc, s, stack))
  {
    hide Refines, BodyHere, Compile, SimpleCount, StepBack, Chain, Descend, Matches, CountGreedy, Boundary, WellFormed;
    hide Groups, Ends, BehindQuant;
    ReadyBody(b, cap, code, inp, pc + 17, s);
    var ps := Chain(code, inp, pc + 17, s.pos, Limit(max));
    QuantChain(b, cap, code, inp, pc + 17, min, max, s);
    GreedyResults(b, cap, code, inp, pc, min, max, s, stack, ps);
  }

  lemma {:induction false} GreedyResults(b: Node, cap: nat, code: Code, inp: Input, pc: nat, min: nat, max: nat, s: St,
                                         stack: seq<nat>, ps: seq<nat>)
    requires WellFormed(b) && Ready(b, cap, inp, s) && s.pos <= |inp.units|
    requires BodyHere(b, cap, code, inp, pc + 17, |s.caps|) && Boundary(inp, s.pos) && min <= max <= INT32_MAX
             && max > 0
    requires BehindQuant(b, cap, code, pc, min, max) && ps == Chain(code, inp, pc + 17, s.pos, Limit(max))
    ensures GreedyDone(b, cap, code, inp, pc, min, ps, s, stack)
  {
    hide Refines, BodyHere, Compile, SimpleCount, StepBack, Chain, Descend, Matches, CountGreedy, Boundary, WellFormed,
      Groups;
    ReadyBody(b, cap, code, inp, pc + 17, s);
    var c := Compile(b, cap);
    var q, out := |ps| - 1, pc + 18 + |c|;
    CountChain(b, cap, code, inp, pc + 17, s, max, 0);
    assert Less(Limit(max), 0) == Limit(max);
    StepGreedy(code, inp, pc, |c| + 1, min, max, SimpleCount(c), s, stack, q, ps[q]);
    if min <= q {
      var r := St(ps[q], s.caps);
      EndsOne(out, r, stack);
      assert ps[min..] == ps[min..q] + [ps[q]];
      DescendLast(ps[min..q], ps[q], s.caps);
      if min < q {
        var fewer := Descend(ps[min..q], s.caps);
        GreedyDown(b, cap, code, inp, pc, min, max, s, stack, ps, q);
        EndsAppend(out, [r], fewer, stack);
        RefinesOver(code, inp, Ends(out, fewer, stack), Shorter(pc, ps[q], q - min, s.caps, stack),
                    Here(out, r, stack));
        RefinesTrans(code, inp, Ends(out, [r] + fewer, stack),
                     Shorter(pc, ps[q], q - min, s.caps, stack) + Here(out, r, stack), Here(pc, s, stack));
      } else {
        DescendNone(s.caps);
        assert ps[min..q] == [] && [r] + [] == [r];
      }
    }
  }
}
