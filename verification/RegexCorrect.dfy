/** The compiler is correct: from any state the machine works through the matches of the
    pattern in order, so it answers with the captures of the first one, or with no match. */
module RegexCorrect {
  import opened RegexInput
  import opened RegexSyntax
  import opened RegexCode
  import opened RegexMatcher
  import opened RegexCompiler
  import opened RegexVM
  import opened RegexSimulation
  import opened RegexAdvance
  import opened RegexSimple
  import opened RegexLoops
  import opened RegexGreedy

  // the code of n sits at pc, and what the compiler leaves unguarded consumes
  ghost predicate Compiled(n: Node, cap: nat, code: Code, inp: Input, pc: nat) {
    WellFormed(n) && Productive(n, inp) && Valid(inp) && At(code, pc, Compile(n, cap))
  }

  ghost predicate From(n: Node, cap: nat, inp: Input, s: St)
    requires WellFormed(n)
  {
    Ready(n, cap, inp, s) && Steady(n, inp, s.pos)
  }

  lemma {:induction false} SimOne(t: CharTest, cap: nat, code: Code, inp: Input, pc: nat, s: St, stack: seq<nat>)
    requires Compiled(One(t), cap, code, inp, pc) && From(One(t), cap, inp, s)
    ensures SimAt(One(t), cap, code, inp, pc, s, stack)
  {
    hide Refines, Passes, TestInstr, Encode, CharPasses;
    var i, end := TestInstr(t), pc + |Compile(One(t), cap)|;
    AtInstr(code, pc, i);
    TestCorrect(t, 0);
    EncodeSize(i);
    var rs := Read(t, inp, s);
    if s.pos < |inp.units| {
      GetCharRange(inp, s.pos);
      TestCorrect(t, GetChar(inp, s.pos).0);
    }
    if rs != [] {
      EndsOne(end, rs[0], stack);
    }
    ExecTest(code, inp, pc, s, stack, i);
    RefinesExec(code, inp, pc, s, stack, Ends(end, rs, stack));
  }

  lemma {:induction false} ExecTest(code: Code, inp: Input, pc: nat, s: St, stack: seq<nat>, i: Instr)
    requires HasInstr(code, pc, i) && IsCharTest(i) && s.pos <= |inp.units|
    ensures Exec(code, inp, Thread(pc, s.pos, s.caps, stack)) ==
            Push(if s.pos < |inp.units| && CharPasses(i, GetChar(inp, s.pos).0)
                 then Here(pc + Size(i), s.(pos := GetChar(inp, s.pos).1), stack) else [])
  {
    hide CharPasses, GetChar;
  }

  lemma {:induction false} SimCheck(a: Anchor, cap: nat, code: Code, inp: Input, pc: nat, s: St, stack: seq<nat>)
    requires Compiled(Check(a), cap, code, inp, pc) && From(Check(a), cap, inp, s)
    ensures SimAt(Check(a), cap, code, inp, pc, s, stack)
  {
    hide Refines, Holds, Steady;
    var i, end := AnchorInstr(a), pc + |Compile(Check(a), cap)|;
    AtInstr(code, pc, i);
    EndsOne(end, s, stack);
    RefinesExec(code, inp, pc, s, stack, if Holds(a, inp, s.pos) then Here(end, s, stack) else []);
  }

  lemma {:induction false} MatchAllSim(n: Node, cap: nat, code: Code, inp: Input, pc: nat, stack: seq<nat>, from: nat,
                                       ncaps: nat, rs: seq<St>)
    requires WellFormed(n) && Simulates(n, cap, code, inp, pc) && Steady(n, inp, from)
    requires Later(rs, inp, from, ncaps) && 2 * (cap + Groups(n)) <= ncaps
    ensures Refines(code, inp, Ends(pc + |Compile(n, cap)|, MatchAll(n, cap, inp, from, ncaps, rs), stack),
                    Ends(pc, rs, stack))
  {
    hide Refines, Matches, Compile, Boundary, Slow, Simulates;
    if rs == [] {
      RefinesSame(code, inp, []);
    } else {
      MatchAllSim(n, cap, code, inp, pc, stack, from, ncaps, rs[1..]);
      SimulatesAt(n, cap, code, inp, pc, rs[0], stack);
      RefinesCons(code, inp, pc + |Compile(n, cap)|, stack, Matches(n, cap, inp, rs[0]),
                  MatchAll(n, cap, inp, from, ncaps, rs[1..]), pc, stack, rs);
    }
  }

  lemma {:induction false} SimCat(l: Node, r: Node, cap: nat, code: Code, inp: Input, pc: nat, s: St, stack: seq<nat>)
    requires WellFormed(Cat(l, r)) && From(Cat(l, r), cap, inp, s)
    requires Simulates(l, cap, code, inp, pc) && Simulates(r, cap + Groups(l), code, inp, pc + |Compile(l, cap)|)
    ensures SimAt(Cat(l, r), cap, code, inp, pc, s, stack)
  {
    hide Refines, Matches, MatchAll, Compile, Boundary, Slow;
    CompileCat(l, r, cap);
    CatUnfold(l, r, cap, inp, s);
    SteadyParts(Cat(l, r), inp, s.pos);
    var rs, mid := Matches(l, cap, inp, s), pc + |Compile(l, cap)|;
    assert SimAt(l, cap, code, inp, pc, s, stack);
    MatchAllSim(r, cap + Groups(l), code, inp, mid, stack, s.pos, |s.caps|, rs);
    RefinesTrans(code, inp, Ends(pc + |Compile(Cat(l, r), cap)|, Matches(Cat(l, r), cap, inp, s), stack),
                 Ends(mid, rs, stack), Here(pc, s, stack));
  }

  // threads that go on to another place, changing only their state
  lemma {:induction false} GotoAll(code: Code, inp: Input, mid: nat, end: nat, stack: seq<nat>, rs: seq<St>)
    requires HasInstr(code, mid, Goto(end - (mid + 5))) && forall i | 0 <= i < |rs| :: rs[i].pos <= |inp.units|
    ensures Refines(code, inp, Ends(end, rs, stack), Ends(mid, rs, stack))
  {
    hide Refines;
    if rs == [] {
      RefinesSame(code, inp, []);
    } else {
      GotoAll(code, inp, mid, end, stack, rs[1..]);
      StepGoto(code, inp, mid, rs[0], stack, end);
      EndsOne(end, rs[0], stack);
      assert [rs[0]] + rs[1..] == rs;
      RefinesCons(code, inp, end, stack, [rs[0]], rs[1..], mid, stack, rs);
    }
  }

  lemma {:induction false} AltAt(code: Code, pc: nat, cl: Code, cr: Code)
    requires At(code, pc, AltCode(cl, cr))
    ensures HasInstr(code, pc, SplitNextFirst(|cl| + 5)) && At(code, pc + 5, cl)
    ensures HasInstr(code, pc + 5 + |cl|, Goto(|cr|)) && At(code, pc + 10 + |cl|, cr)
    ensures |AltCode(cl, cr)| == 10 + |cl| + |cr|
  {
    var i, j := SplitNextFirst(|cl| + 5), Goto(|cr|);
    AtSplit(code, pc, Encode(i) + cl + Encode(j), cr);
    AtSplit(code, pc, Encode(i) + cl, Encode(j));
    AtSplit(code, pc, Encode(i), cl);
    AtInstr(code, pc, i);
    AtInstr(code, pc + 5 + |cl|, j);
  }

  lemma {:induction false} SimAlt(l: Node, r: Node, cap: nat, code: Code, inp: Input, pc: nat, s: St, stack: seq<nat>)
    requires Compiled(Alt(l, r), cap, code, inp, pc) && From(Alt(l, r), cap, inp, s)
    requires Simulates(l, cap, code, inp, pc + 5)
    requires Simulates(r, cap + Groups(l), code, inp, pc + 10 + |Compile(l, cap)|)
    ensures SimAt(Alt(l, r), cap, code, inp, pc, s, stack)
  {
    hide Refines, Matches, Compile, AltCode, Boundary, Slow, Productive, Simulates, Ends, Here, At, Groups;
    AltUnfold(l, r, cap, inp, s);
    CompileAlt(l, r, cap);
    var cl, cr := Compile(l, cap), Compile(r, cap + Groups(l));
    AltAt(code, pc, cl, cr);
    BranchesReady(l, r, cap, inp, s);
    SteadyParts(Alt(l, r), inp, s.pos);
    SimulatesAt(l, cap, code, inp, pc + 5, s, stack);
    SimulatesAt(r, cap + Groups(l), code, inp, pc + 10 + |cl|, s, stack);
    AltThreads(code, inp, pc, |cl|, |cr|, s, stack, Matches(l, cap, inp, s), Matches(r, cap + Groups(l), inp, s));
  }

  lemma {:induction false} BranchesReady(l: Node, r: Node, cap: nat, inp: Input, s: St)
    requires Ready(Alt(l, r), cap, inp, s)
    ensures Ready(l, cap, inp, s) && Ready(r, cap + Groups(l), inp, s) && s.pos <= |inp.units|
  {
  }

  // the threads of both branches, the first on top
  lemma {:induction false} AltThreads(code: Code, inp: Input, pc: nat, left: nat, right: nat, s: St, stack: seq<nat>,
                                      ls: seq<St>, rs: seq<St>)
    requires HasInstr(code, pc, SplitNextFirst(left + 5)) && HasInstr(code, pc + 5 + left, Goto(right))
             && s.pos <= |inp.units|
    requires forall i | 0 <= i < |ls| :: ls[i].pos <= |inp.units|
    requires Refines(code, inp, Ends(pc + 5 + left, ls, stack), Here(pc + 5, s, stack))
    requires Refines(code, inp, Ends(pc + 10 + left + right, rs, stack), Here(pc + 10 + left, s, stack))
    ensures Refines(code, inp, Ends(pc + 10 + left + right, ls + rs, stack), Here(pc, s, stack))
  {
    hide Refines, Ends, Here;
    var mid, other, end := pc + 5 + left, pc + 10 + left, pc + 10 + left + right;
    var first, second := Ends(end, ls, stack), Ends(end, rs, stack);
    GotoAll(code, inp, mid, end, stack, ls);
    RefinesTrans(code, inp, first, Ends(mid, ls, stack), Here(pc + 5, s, stack));
    EndsAppend(end, ls, rs, stack);
    HereUnmarked(other, s, stack);
    RefinesOver(code, inp, second, Here(other, s, stack), first);
    RefinesUnder(code, inp, Here(other, s, stack), first, Here(pc + 5, s, stack));
    RefinesTrans(code, inp, second + first, Here(other, s, stack) + first, Ways(other, pc + 5, true, s, stack));
    StepSplitOver(code, inp, pc, s, stack, true, other);
    RefinesTrans(code, inp, second + first, Ways(other, pc + 5, true, s, stack), Here(pc, s, stack));
  }

  lemma {:induction false} HereUnmarked(pc: nat, s: St, stack: seq<nat>)
    ensures Unmarked(Here(pc, s, stack))
  {
  }

  lemma {:induction false} BracketAt(code: Code, pc: nat, i: Instr, c: Code, j: Instr)
    requires At(code, pc, Encode(i) + c + Encode(j))
    ensures HasInstr(code, pc, i) && At(code, pc + Size(i), c) && HasInstr(code, pc + Size(i) + |c|, j)
  {
    AtSplit(code, pc, Encode(i) + c, Encode(j));
    AtSplit(code, pc, Encode(i), c);
    AtInstr(code, pc, i);
    AtInstr(code, pc + Size(i) + |c|, j);
  }

  lemma {:induction false} CloseAll(code: Code, inp: Input, mid: nat, cap: nat, stack: seq<nat>, from: nat, ncaps: nat,
                                    rs: seq<St>)
    requires HasInstr(code, mid, SaveEnd(cap)) && Later(rs, inp, from, ncaps) && 2 * cap + 1 < ncaps
    ensures Refines(code, inp, Ends(mid + 2, Closed(rs, cap, inp, from, ncaps), stack), Ends(mid, rs, stack))
  {
    hide Refines;
    if rs == [] {
      RefinesSame(code, inp, []);
    } else {
      CloseAll(code, inp, mid, cap, stack, from, ncaps, rs[1..]);
      var r := ClosedOne(rs[0], cap);
      EndsOne(mid + 2, r, stack);
      RefinesExec(code, inp, mid, rs[0], stack, Here(mid + 2, r, stack));
      RefinesCons(code, inp, mid + 2, stack, [r], Closed(rs[1..], cap, inp, from, ncaps), mid, stack, rs);
    }
  }

  lemma {:induction false} GroupUnfold(b: Node, cap: nat, inp: Input, s: St)
    requires WellFormed(b) && Ready(Group(b), cap, inp, s)
    ensures Ready(b, cap + 1, inp, Opened(s, cap))
    ensures Matches(Group(b), cap, inp, s)
         == Closed(Matches(b, cap + 1, inp, Opened(s, cap)), cap, inp, s.pos, |s.caps|)
    ensures Compile(Group(b), cap) == GroupCode(Compile(b, cap + 1), cap)
  {
    hide GroupCode, Closed;
  }

  lemma {:induction false} SimGroup(b: Node, cap: nat, code: Code, inp: Input, pc: nat, s: St, stack: seq<nat>)
    requires Compiled(Group(b), cap, code, inp, pc) && From(Group(b), cap, inp, s)
    requires Simulates(b, cap + 1, code, inp, pc + 2)
    ensures SimAt(Group(b), cap, code, inp, pc, s, stack)
  {
    hide Refines, Matches, Compile, Closed, Boundary, Slow, Productive, Ends, Here, At, Simulates;
    GroupUnfold(b, cap, inp, s);
    SteadyParts(Group(b), inp, s.pos);
    var c := Compile(b, cap + 1);
    BracketAt(code, pc, SaveStart(cap), c, SaveEnd(cap));
    SimulatesAt(b, cap + 1, code, inp, pc + 2, Opened(s, cap), stack);
    GroupThreads(code, inp, pc, |c|, cap, s, stack, Matches(b, cap + 1, inp, Opened(s, cap)));
  }

  lemma {:induction false} GroupThreads(code: Code, inp: Input, pc: nat, len: nat, cap: nat, s: St, stack: seq<nat>,
                                        rs: seq<St>)
    requires HasInstr(code, pc, SaveStart(cap)) && HasInstr(code, pc + 2 + len, SaveEnd(cap)) && s.pos <= |inp.units|
    requires 2 * cap + 1 < |s.caps| && Later(rs, inp, s.pos, |s.caps|)
    requires Refines(code, inp, Ends(pc + 2 + len, rs, stack), Here(pc + 2, Opened(s, cap), stack))
    ensures Refines(code, inp, Ends(pc + 4 + len, Closed(rs, cap, inp, s.pos, |s.caps|), stack), Here(pc, s, stack))
  {
    hide Refines, Ends, Closed;
    var s0, mid := Opened(s, cap), pc + 2 + len;
    var end := Ends(mid + 2, Closed(rs, cap, inp, s.pos, |s.caps|), stack);
    CloseAll(code, inp, mid, cap, stack, s.pos, |s.caps|, rs);
    RefinesTrans(code, inp, end, Ends(mid, rs, stack), Here(pc + 2, s0, stack));
    RefinesExec(code, inp, pc, s, stack, Here(pc + 2, s0, stack));
    RefinesTrans(code, inp, end, Here(pc + 2, s0, stack), Here(pc, s, stack));
  }

  lemma {:induction false} LookUnfold(negative: bool, b: Node, cap: nat, inp: Input, s: St)
    requires WellFormed(b) && Ready(b, cap, inp, s)
    ensures Matches(Look(negative, b), cap, inp, s) == Looked(negative, s, Matches(b, cap, inp, s), inp)
    ensures Compile(Look(negative, b), cap) == LookCode(Compile(b, cap), negative)
  {
    hide LookCode, Looked;
  }

  // The lookahead mark with the results of the body above it: the first result matches and
  // falls back to the mark, and a failure comes down to the mark.
  lemma {:induction false} MarkReached(code: Code, inp: Input, mid: nat, end: nat, negative: bool, s: St,
                                       stack: seq<nat>, rs: seq<St>)
    requires HasInstr(code, mid, Match) && s.pos <= |inp.units| && Later(rs, inp, s.pos, |s.caps|)
    ensures Refines(code, inp, Ends(end, Looked(negative, s, rs, inp), stack),
                    [Ahead(Thread(end, s.pos, s.caps, stack), negative)] + Ends(mid, rs, stack))
  {
    hide Refines, Step;
    var mark := [Ahead(Thread(end, s.pos, s.caps, stack), negative)];
    var out := Ends(end, Looked(negative, s, rs, inp), stack);
    EndsOne(end, s, stack);
    if rs == [] {
      assert mark + Ends(mid, rs, stack) == mark;
      RefinesStep(code, inp, out, mark);
    } else {
      EndsOne(end, s.(caps := rs[0].caps), stack);
      forall ws: seq<Entry> ensures Step(code, inp, ws + (mark + Ends(mid, rs, stack))) == Active(ws + out) {
        MarkTaken(code, inp, mid, end, negative, s, stack, rs, ws);
      }
      RefinesStepAll(code, inp, out, mark + Ends(mid, rs, stack));
    }
  }

  lemma {:induction false} MarkTaken(code: Code, inp: Input, mid: nat, end: nat, negative: bool, s: St, stack: seq<nat>,
                                     rs: seq<St>, ws: seq<Entry>)
    requires HasInstr(code, mid, Match) && s.pos <= |inp.units| && Later(rs, inp, s.pos, |s.caps|) && rs != []
    ensures Step(code, inp, ws + ([Ahead(Thread(end, s.pos, s.caps, stack), negative)] + Ends(mid, rs, stack))) ==
            Active(ws + Ends(end, Looked(negative, s, rs, inp), stack))
  {
    var mark := Ahead(Thread(end, s.pos, s.caps, stack), negative);
    var rest := Ends(mid, rs[1..], stack);
    var ss := ws + ([mark] + Ends(mid, rs, stack));
    EndsOne(end, s.(caps := rs[0].caps), stack);
    assert ss[..|ss| - 1] == (ws + [mark]) + rest;
    UnwindUnmarked(ws + [mark], rest, rs[0].caps);
    assert (ws + [mark])[..|ws|] == ws;
    assert ws + [] == ws;
  }

  lemma {:induction false} SimLook(negative: bool, b: Node, cap: nat, code: Code, inp: Input, pc: nat, s: St,
                                   stack: seq<nat>)
    requires Compiled(Look(negative, b), cap, code, inp, pc) && From(b, cap, inp, s)
    requires Simulates(b, cap, code, inp, pc + 5)
    ensures SimAt(Look(negative, b), cap, code, inp, pc, s, stack)
  {
    hide Refines, Matches, Compile, Looked, Boundary, Slow, Productive, Ends, Holds, GetChar, CharPasses, CountGreedy,
      Encode;
    LookUnfold(negative, b, cap, inp, s);
    var c := Compile(b, cap);
    BracketAt(code, pc, LookInstr(negative, |c| + 1), c, Match);
    EncodeSize(Match);
    var mid, end := pc + 5 + |c|, pc + 6 + |c|;
    var rs := Matches(b, cap, inp, s);
    var mark := [Ahead(Thread(end, s.pos, s.caps, stack), negative)];
    var out := Ends(end, Looked(negative, s, rs, inp), stack);
    MarkReached(code, inp, mid, end, negative, s, stack, rs);
    assert SimAt(b, cap, code, inp, pc + 5, s, stack);
    RefinesUnder(code, inp, mark, Ends(mid, rs, stack), Here(pc + 5, s, stack));
    RefinesTrans(code, inp, out, mark + Ends(mid, rs, stack), mark + Here(pc + 5, s, stack));
    RefinesExec(code, inp, pc, s, stack, mark + Here(pc + 5, s, stack));
    RefinesTrans(code, inp, out, mark + Here(pc + 5, s, stack), Here(pc, s, stack));
  }

  // wherever the body's code is found, it does what the body says
  ghost predicate Anywhere(b: Node, cap: nat, code: Code, inp: Input)
    requires WellFormed(b)
  {
    forall pc: nat | At(code, pc, Compile(b, cap)) :: Simulates(b, cap, code, inp, pc)
  }

  lemma {:induction false} FoundAt(b: Node, cap: nat, code: Code, inp: Input, pc: nat)
    requires WellFormed(b) && Anywhere(b, cap, code, inp) && At(code, pc, Compile(b, cap))
    ensures Simulates(b, cap, code, inp, pc)
  {
    hide Simulates, At, Compile;
  }

  lemma {:induction false} RepeatAllDone(b: Node, cap: nat, inp: Input, rep: Rep, greedy: bool, low: nat, ncaps: nat,
                                         rs: seq<St>)
    requires Later(rs, inp, low, ncaps) && 2 * (cap + Groups(b)) <= ncaps && low <= |inp.units| && Done(rep)
    ensures RepeatAll(b, cap, inp, rep, greedy, None, low, ncaps, rs) == rs
  {
    if rs != [] {
      RepeatAllDone(b, cap, inp, rep, greedy, low, ncaps, rs[1..]);
    }
  }

  // the minimum number of iterations
  function FirstCode(c: Code, min: nat): Code { if min == 1 then c else TimesCode(c, min) }

  lemma {:induction false} TimesAt(code: Code, pc: nat, c: Code, k: nat)
    requires At(code, pc, TimesCode(c, k))
    ensures HasInstr(code, pc, PushI32(k)) && At(code, pc + 5, c) && TimesShape(code, pc + 5, |c|)
    ensures |TimesCode(c, k)| == |c| + 11
  {
    var i, j := PushI32(k), Loop(-(|c| + 5));
    AtSplit(code, pc, Encode(i) + c + Encode(j), Encode(Drop));
    AtInstr(code, pc + 10 + |c|, Drop);
    BracketAt(code, pc, i, c, j);
  }

  lemma {:induction false} SimFirst(b: Node, cap: nat, code: Code, inp: Input, pc: nat, greedy: bool, min: nat, s: St,
                                    stack: seq<nat>)
    requires WellFormed(b) && From(b, cap, inp, s) && Anywhere(b, cap, code, inp) && min > 0
    requires At(code, pc, FirstCode(Compile(b, cap), min))
    ensures Refines(code, inp, Ends(pc + |FirstCode(Compile(b, cap), min)|, Repeat(b, cap, inp, Times(min), greedy, s),
                                    stack),
                    Here(pc, s, stack))
  {
    hide Refines, Matches, Compile, RepeatAll, TimesCode, Boundary, Slow, At, TimesShape, Ends, Here, Groups;
    var c := Compile(b, cap);
    if min == 1 {
      RepeatAllDone(b, cap, inp, Times(0), greedy, s.pos, |s.caps|, Matches(b, cap, inp, s));
      assert SimAt(b, cap, code, inp, pc, s, stack);
    } else {
      TimesAt(code, pc, c, min);
      SimTimes(b, cap, code, inp, pc + 5, greedy, min, s, stack);
      StepPush(code, inp, pc, s, stack, min);
      RefinesTrans(code, inp, Ends(pc + |c| + 11, Repeat(b, cap, inp, Times(min), greedy, s), stack),
                   Here(pc + 5, s, stack + [min]), Here(pc, s, stack));
    }
  }

  // what may follow the minimum
  function RestCode(c: Code, rep: Rep, greedy: bool, check: bool): Code {
    match rep
    case Star => StarCode(c, greedy, check)
    case UpTo(k) => if k == 0 then [] else UpToCode(c, k, greedy)
    case Times(_) => []
  }

  lemma {:induction false} StarAt(code: Code, pc: nat, c: Code, greedy: bool, check: bool)
    requires At(code, pc, StarCode(c, greedy, check))
    ensures var body := if check then pc + 6 else pc + 5;
            At(code, body, c) && StarShape(code, pc, body, |c|, pc + |StarCode(c, greedy, check)|, greedy, check)
  {
    hide At, Encode;
    if check {
      CheckedStarAt(code, pc, SplitOver(greedy, |c| + 6), c, BneCharPos(-(|c| + 11)));
    } else {
      BracketAt(code, pc, SplitOver(greedy, |c| + 5), c, Goto(-(|c| + 10)));
    }
  }

  lemma {:induction false} CheckedStarAt(code: Code, pc: nat, i: Instr, c: Code, j: Instr)
    requires At(code, pc, Encode(i) + Encode(PushCharPos) + c + Encode(j)) && Size(i) == Size(j) == 5
    ensures HasInstr(code, pc, i) && HasInstr(code, pc + 5, PushCharPos)
    ensures At(code, pc + 6, c) && HasInstr(code, pc + 6 + |c|, j)
    ensures |Encode(i) + Encode(PushCharPos) + c + Encode(j)| == |c| + 11
  {
    hide At, Encode;
    AtSplit(code, pc, Encode(i) + Encode(PushCharPos) + c, Encode(j));
    AtSplit(code, pc, Encode(i) + Encode(PushCharPos), c);
    AtSplit(code, pc, Encode(i), Encode(PushCharPos));
    AtInstr(code, pc, i);
    AtInstr(code, pc + 5, PushCharPos);
    AtInstr(code, pc + 6 + |c|, j);
  }

  lemma {:induction false} UpToAt(code: Code, pc: nat, c: Code, k: nat, greedy: bool)
    requires At(code, pc, UpToCode(c, k, greedy))
    ensures HasInstr(code, pc, PushI32(k)) && At(code, pc + 10, c) && UpToShape(code, pc + 5, |c|, greedy)
    ensures |UpToCode(c, k, greedy)| == |c| + 16
  {
    FiveAt(code, pc, PushI32(k), SplitOver(greedy, |c| + 5), c, Loop(-(|c| + 10)), Drop);
  }

  lemma {:induction false} FiveAt(code: Code, pc: nat, p: Instr, i: Instr, c: Code, j: Instr, d: Instr)
    requires At(code, pc, Encode(p) + Encode(i) + c + Encode(j) + Encode(d)) && Size(p) == Size(i) == Size(j) == 5
    ensures HasInstr(code, pc, p) && HasInstr(code, pc + 5, i) && At(code, pc + 10, c)
    ensures HasInstr(code, pc + 10 + |c|, j) && HasInstr(code, pc + 15 + |c|, d)
  {
    hide At, Encode, Size;
    AtSplit(code, pc, Encode(p) + Encode(i) + c + Encode(j), Encode(d));
    AtSplit(code, pc, Encode(p) + Encode(i) + c, Encode(j));
    AtSplit(code, pc, Encode(p) + Encode(i), c);
    AtSplit(code, pc, Encode(p), Encode(i));
    AtInstr(code, pc, p);
    AtInstr(code, pc + 5, i);
    AtInstr(code, pc + 10 + |c|, j);
    AtInstr(code, pc + 15 + |c|, d);
  }

  lemma {:induction false} SimRest(b: Node, cap: nat, code: Code, inp: Input, pc: nat, rep: Rep, greedy: bool,
                                   check: bool, s: St, stack: seq<nat>)
    requires WellFormed(b) && From(b, cap, inp, s) && Anywhere(b, cap, code, inp) && !rep.Times?
    requires At(code, pc, RestCode(Compile(b, cap), rep, greedy, check)) && (rep.Star? ==> check || Consumes(b, inp))
    ensures Refines(code, inp, Ends(pc + |RestCode(Compile(b, cap), rep, greedy, check)|,
                                    Repeat(b, cap, inp, rep, greedy, s), stack), Here(pc, s, stack))
  {
    hide Refines, Compile, StarCode, UpToCode, Boundary, Slow, At, StarShape, UpToShape, Ends, Consumes, Groups;
    var c := Compile(b, cap);
    if rep.Star? {
      hide Repeat;
      StarAt(code, pc, c, greedy, check);
      SimStar(b, cap, code, inp, pc, if check then pc + 6 else pc + 5, pc + |StarCode(c, greedy, check)|, greedy, check,
              s, stack);
    } else if rep.k == 0 {
      EndsOne(pc, s, stack);
      RefinesSame(code, inp, Here(pc, s, stack));
    } else {
      hide Repeat;
      UpToAt(code, pc, c, rep.k, greedy);
      SimUpTo(b, cap, code, inp, pc + 5, greedy, rep.k, s, stack);
      StepPush(code, inp, pc, s, stack, rep.k);
      RefinesTrans(code, inp, Ends(pc + |c| + 16, Repeat(b, cap, inp, rep, greedy, s), stack),
                   Here(pc + 5, s, stack + [rep.k]), Here(pc, s, stack));
    }
  }

  // a repetition started from each of the first results in turn
  lemma {:induction false} SimBoth(b: Node, cap: nat, code: Code, inp: Input, pc: nat, mid: nat, out: nat, min: nat,
                                   rep: Rep, greedy: bool, s: St, stack: seq<nat>)
    requires Ready(b, cap, inp, s)
    requires var first := Repeat(b, cap, inp, Times(min), greedy, s);
             Refines(code, inp, Ends(mid, first, stack), Here(pc, s, stack))
             && forall i | 0 <= i < |first| ::
                  Repeats(b, cap, code, inp, rep, greedy, None, mid, stack, out, stack, first[i])
    ensures var first := Repeat(b, cap, inp, Times(min), greedy, s);
            Refines(code, inp, Ends(out, RepeatAll(b, cap, inp, rep, greedy, None, s.pos, |s.caps|, first), stack),
                    Here(pc, s, stack))
  {
    hide Refines, Repeat, RepeatAll;
    var first := Repeat(b, cap, inp, Times(min), greedy, s);
    RepeatsAll(b, cap, code, inp, rep, greedy, None, s.pos, |s.caps|, mid, stack, out, stack, first);
    RefinesTrans(code, inp, Ends(out, RepeatAll(b, cap, inp, rep, greedy, None, s.pos, |s.caps|, first), stack),
                 Ends(mid, first, stack), Here(pc, s, stack));
  }

  lemma {:induction false} QuantUnfold(b: Node, cap: nat, inp: Input, min: nat, max: nat, greedy: bool, s: St)
    requires WellFormed(Quant(b, min, max, greedy)) && Ready(b, cap, inp, s)
    ensures Matches(Quant(b, min, max, greedy), cap, inp, s) ==
            if min == 0 then Repeat(b, cap, inp, Rest(0, max), greedy, s.(caps := Reset(s.caps, cap, Groups(b))))
            else RepeatAll(b, cap, inp, Rest(min, max), greedy, None, s.pos, |s.caps|,
                           Repeat(b, cap, inp, Times(min), greedy, s))
    ensures Compile(Quant(b, min, max, greedy), cap) == QuantCode(Compile(b, cap), cap, Groups(b), min, max, greedy)
  {
    hide QuantCode;
    if min == 0 {
      var s0 := s.(caps := Reset(s.caps, cap, Groups(b)));
      SingleAll(b, cap, inp, Rest(0, max), greedy, s.pos, |s.caps|, [s0]);
    }
  }

  lemma {:induction false} QuantLayout(b: Node, cap: nat, min: nat, max: nat, greedy: bool)
    requires WellFormed(Quant(b, min, max, greedy))
    ensures Compile(Quant(b, min, max, greedy), cap) == QuantCode(Compile(b, cap), cap, Groups(b), min, max, greedy)
  {
    hide QuantCode;
  }

  // the loop of a quantifier with minimum 0, after the reset
  function SkipCode(c: Code, max: nat, greedy: bool, check: bool): Code {
    if max == 1 then OptionCode(c, greedy) else RestCode(c, Rest(0, max), greedy, check)
  }

  lemma {:induction false} OptionAt(code: Code, pc: nat, c: Code, greedy: bool)
    requires At(code, pc, OptionCode(c, greedy))
    ensures HasInstr(code, pc, SplitOver(greedy, |c|)) && At(code, pc + 5, c) && |OptionCode(c, greedy)| == 5 + |c|
  {
    hide At;
    AtSplit(code, pc, Encode(SplitOver(greedy, |c|)), c);
    AtInstr(code, pc, SplitOver(greedy, |c|));
  }

  lemma {:induction false} SimZero(b: Node, cap: nat, code: Code, inp: Input, pc: nat, max: nat, greedy: bool,
                                   check: bool, s: St, stack: seq<nat>)
    requires WellFormed(b) && From(b, cap, inp, s) && Anywhere(b, cap, code, inp) && max <= INT32_MAX
    requires At(code, pc, SkipCode(Compile(b, cap), max, greedy, check))
             && (max == INT32_MAX ==> check || Consumes(b, inp))
    ensures Refines(code, inp, Ends(pc + |SkipCode(Compile(b, cap), max, greedy, check)|,
                                    Repeat(b, cap, inp, Rest(0, max), greedy, s), stack), Here(pc, s, stack))
  {
    hide Refines, Compile, RestCode, OptionCode, Boundary, Slow, At, Repeat, Ends, Here, Consumes, Groups, Anywhere,
      HasInstr;
    var c := Compile(b, cap);
    if max == 1 {
      OptionAt(code, pc, c, greedy);
      FoundAt(b, cap, code, inp, pc + 5);
      SimOption(b, cap, code, inp, pc, greedy, s, stack);
    } else {
      SimRest(b, cap, code, inp, pc, Rest(0, max), greedy, check, s, stack);
    }
  }

  lemma {:induction false} SimReset(code: Code, inp: Input, pc: nat, cap: nat, groups: nat, s: St, stack: seq<nat>)
    requires At(code, pc, ResetCode(cap, groups)) && s.pos <= |inp.units| && 2 * (cap + groups) <= |s.caps|
    ensures Refines(code, inp, Here(pc + |ResetCode(cap, groups)|, s.(caps := Reset(s.caps, cap, groups)), stack),
                    Here(pc, s, stack))
  {
    var s0 := s.(caps := Reset(s.caps, cap, groups));
    if groups == 0 {
      assert s0.caps == s.caps;
      RefinesSame(code, inp, Here(pc, s, stack));
    } else {
      hide Refines, Reset;
      AtInstr(code, pc, SaveReset(cap, cap + groups - 1));
      RefinesExec(code, inp, pc, s, stack, Here(pc + 3, s0, stack));
    }
  }

  lemma {:induction false} SimFromZero(b: Node, cap: nat, code: Code, inp: Input, pc: nat, max: nat, greedy: bool,
                                       check: bool, s: St, stack: seq<nat>)
    requires WellFormed(Quant(b, 0, max, greedy)) && From(b, cap, inp, s) && Anywhere(b, cap, code, inp)
    requires At(code, pc, ResetCode(cap, Groups(b)) + SkipCode(Compile(b, cap), max, greedy, check))
    requires max == INT32_MAX ==> check || Consumes(b, inp)
    ensures Refines(code, inp, Ends(pc + |ResetCode(cap, Groups(b))| + |SkipCode(Compile(b, cap), max, greedy, check)|,
                                    Matches(Quant(b, 0, max, greedy), cap, inp, s), stack), Here(pc, s, stack))
  {
    hide Refines, Compile, SkipCode, ResetCode, Boundary, Slow, At, Repeat, Matches, Reset;
    hide Ends, Here, Consumes, Groups, Rest, Anywhere;
    QuantUnfold(b, cap, inp, 0, max, greedy, s);
    var reset, loop := ResetCode(cap, Groups(b)), SkipCode(Compile(b, cap), max, greedy, check);
    var s0, mid := s.(caps := Reset(s.caps, cap, Groups(b))), pc + |reset|;
    AtSplit(code, pc, reset, loop);
    SimReset(code, inp, pc, cap, Groups(b), s, stack);
    SimZero(b, cap, code, inp, mid, max, greedy, check, s0, stack);
    RefinesTrans(code, inp, Ends(mid + |loop|, Repeat(b, cap, inp, Rest(0, max), greedy, s0), stack),
                 Here(mid, s0, stack), Here(pc, s, stack));
  }

  lemma {:induction false} SimFromSome(b: Node, cap: nat, code: Code, inp: Input, pc: nat, min: nat, max: nat,
                                       greedy: bool, check: bool, s: St, stack: seq<nat>)
    requires WellFormed(Quant(b, min, max, greedy)) && From(b, cap, inp, s) && Anywhere(b, cap, code, inp) && min > 0
    requires At(code, pc, FirstCode(Compile(b, cap), min) + RestCode(Compile(b, cap), Rest(min, max), greedy, check))
    requires max == INT32_MAX ==> check || Consumes(b, inp)
    ensures var len := |FirstCode(Compile(b, cap), min)| + |RestCode(Compile(b, cap), Rest(min, max), greedy, check)|;
            Refines(code, inp, Ends(pc + len, Matches(Quant(b, min, max, greedy), cap, inp, s), stack),
                    Here(pc, s, stack))
  {
    hide Refines, Compile, FirstCode, RestCode, Boundary, Slow, At, Repeat, RepeatAll, QuantCode, Matches, Ends, Here,
      Groups,
      Anywhere, Consumes;
    QuantUnfold(b, cap, inp, min, max, greedy, s);
    var c := Compile(b, cap);
    var rep := Rest(min, max);
    var mid := pc + |FirstCode(c, min)|;
    var out := mid + |RestCode(c, rep, greedy, check)|;
    AtSplit(code, pc, FirstCode(c, min), RestCode(c, rep, greedy, check));
    SimFirst(b, cap, code, inp, pc, greedy, min, s, stack);
    var first := Repeat(b, cap, inp, Times(min), greedy, s);
    forall i | 0 <= i < |first|
      ensures Repeats(b, cap, code, inp, rep, greedy, None, mid, stack, out, stack, first[i])
    {
      SimRest(b, cap, code, inp, mid, rep, greedy, check, first[i], stack);
    }
    SimBoth(b, cap, code, inp, pc, mid, out, min, rep, greedy, s, stack);
  }

  // the loop of a plus: after the first iteration, a split back to the body
  lemma {:induction false} PlusRounds(b: Node, cap: nat, code: Code, inp: Input, pc: nat, greedy: bool, s: St,
                                      stack: seq<nat>)
    requires WellFormed(b) && From(b, cap, inp, s) && Simulates(b, cap, code, inp, pc) && Consumes(b, inp)
    requires StarShape(code, pc + |Compile(b, cap)|, pc, |Compile(b, cap)|, pc + |Compile(b, cap)| + 5, greedy, false)
    ensures var mid, first := pc + |Compile(b, cap)|, Repeat(b, cap, inp, Times(1), greedy, s);
            forall i | 0 <= i < |first| ::
              Repeats(b, cap, code, inp, Star, greedy, None, mid, stack, mid + 5, stack, first[i])
  {
    hide Refines, Compile, Boundary, Slow, Repeat, Matches, Ends, Here, Simulates, Consumes, StarShape;
    var mid, first := pc + |Compile(b, cap)|, Repeat(b, cap, inp, Times(1), greedy, s);
    forall i | 0 <= i < |first|
      ensures Repeats(b, cap, code, inp, Star, greedy, None, mid, stack, mid + 5, stack, first[i])
    {
      SimStar(b, cap, code, inp, mid, pc, mid + 5, greedy, false, first[i], stack);
    }
  }

  lemma {:induction false} SimPlus(b: Node, cap: nat, code: Code, inp: Input, pc: nat, greedy: bool, s: St,
                                   stack: seq<nat>)
    requires WellFormed(b) && From(b, cap, inp, s) && Anywhere(b, cap, code, inp) && Consumes(b, inp)
    requires var c := Compile(b, cap); At(code, pc, c + Encode(SplitBack(greedy, -(|c| + 5))))
    ensures Refines(code, inp, Ends(pc + |Compile(b, cap)| + 5, Matches(Quant(b, 1, INT32_MAX, greedy), cap, inp, s),
                                    stack),
                    Here(pc, s, stack))
  {
    hide Refines, Compile, Boundary, Slow, At, Repeat, Matches, Ends, Here, Groups, TimesCode, Encode, Simulates,
      Consumes,
      Repeats, Steady;
    QuantUnfold(b, cap, inp, 1, INT32_MAX, greedy, s);
    var c := Compile(b, cap);
    var mid := pc + |c|;
    AtSplit(code, pc, c, Encode(SplitBack(greedy, -(|c| + 5))));
    AtInstr(code, mid, SplitBack(greedy, -(|c| + 5)));
    assert FirstCode(c, 1) == c;
    hide FirstCode;
    SimFirst(b, cap, code, inp, pc, greedy, 1, s, stack);
    PlusRounds(b, cap, code, inp, pc, greedy, s, stack);
    SimBoth(b, cap, code, inp, pc, mid, mid + 5, 1, Star, greedy, s, stack);
  }

  // the ways a quantifier is laid out
  lemma {:induction false} QuantShape(c: Code, cap: nat, groups: nat, min: nat, max: nat, greedy: bool)
    requires min <= max <= INT32_MAX
    ensures var check := greedy && Advance(c) != 1;
            QuantCode(c, cap, groups, min, max, greedy) ==
            if greedy && max > 0 && SimpleCount(c) > 0 then SimpleCode(c, min, max)
            else if min == 0 then ResetCode(cap, groups) + SkipCode(c, max, greedy, check)
            else if min == 1 && max == INT32_MAX && !check then c + Encode(SplitBack(greedy, -(|c| + 5)))
            else FirstCode(c, min) + RestCode(c, Rest(min, max), greedy, check)
  {
    hide SimpleCode, ResetCode, StarCode, UpToCode, OptionCode, TimesCode, Advance, SimpleCount;
  }

  lemma {:induction false} SimSimple(b: Node, min: nat, max: nat, cap: nat, code: Code, inp: Input, pc: nat, s: St,
                                     stack: seq<nat>)
    requires WellFormed(Quant(b, min, max, true)) && Valid(inp) && Ready(b, cap, inp, s) && Boundary(inp, s.pos)
             && max > 0
    requires SimpleCount(Compile(b, cap)) > 0 && At(code, pc, SimpleCode(Compile(b, cap), min, max))
    ensures Refines(code, inp, Ends(pc + |SimpleCode(Compile(b, cap), min, max)|,
                                    Matches(Quant(b, min, max, true), cap, inp, s),
                                    stack), Here(pc, s, stack))
  {
    hide Refines, Compile, Boundary, Slow, At, Matches, Encode, SimpleCount, Ends, Here, Valid;
    var c := Compile(b, cap);
    BracketAt(code, pc, SimpleGreedyQuant(|c| + 1, min, max, SimpleCount(c)), c, Match);
    SimGreedy(b, cap, code, inp, pc, min, max, s, stack);
  }

  lemma {:induction false} FastAtBoundary(b: Node, min: nat, max: nat, greedy: bool, cap: nat, inp: Input, p: nat)
    requires WellFormed(Quant(b, min, max, greedy)) && Steady(Quant(b, min, max, greedy), inp, p)
    ensures greedy && max > 0 && SimpleCount(Compile(b, cap)) > 0 ==> Boundary(inp, p)
  {
    hide Compile, SimpleCount, Boundary;
  }

  // An unbounded loop without a check has a body that consumes.
  lemma {:induction false} LoopGuarded(b: Node, min: nat, max: nat, greedy: bool, cap: nat, inp: Input)
    requires WellFormed(Quant(b, min, max, greedy)) && Productive(Quant(b, min, max, greedy), inp)
    ensures max == INT32_MAX ==> (greedy && Advance(Compile(b, cap)) != 1) || Consumes(b, inp)
  {
    hide Compile, Advance, Matches, After;
    CheckAdvanceSound(b, cap);
  }

  lemma {:induction false} SimQuant(b: Node, min: nat, max: nat, greedy: bool, cap: nat, code: Code, inp: Input,
                                    pc: nat, s: St, stack: seq<nat>)
    requires Compiled(Quant(b, min, max, greedy), cap, code, inp, pc) && Anywhere(b, cap, code, inp)
    requires From(b, cap, inp, s) && Steady(Quant(b, min, max, greedy), inp, s.pos)
    ensures SimAt(Quant(b, min, max, greedy), cap, code, inp, pc, s, stack)
  {
    hide Refines, Compile, Boundary, Slow, At, Matches, QuantCode, FirstCode, RestCode, SkipCode, ResetCode, SimpleCode,
      Encode, Advance;
    hide SimpleCount, Ends, Here, Consumes, Groups, Rest, Anywhere, Valid;
    QuantLayout(b, cap, min, max, greedy);
    var c := Compile(b, cap);
    var check := greedy && Advance(c) != 1;
    QuantShape(c, cap, Groups(b), min, max, greedy);
    LoopGuarded(b, min, max, greedy, cap, inp);
    FastAtBoundary(b, min, max, greedy, cap, inp, s.pos);
    if greedy && max > 0 && SimpleCount(c) > 0 {
      SimSimple(b, min, max, cap, code, inp, pc, s, stack);
    } else if min == 0 {
      SimFromZero(b, cap, code, inp, pc, max, greedy, check, s, stack);
    } else if min == 1 && max == INT32_MAX && !check {
      SimPlus(b, cap, code, inp, pc, greedy, s, stack);
    } else {
      SimFromSome(b, cap, code, inp, pc, min, max, greedy, check, s, stack);
    }
  }

  // Compiling preserves meaning: wherever the code of n sits, it leads from every state to
  // exactly the matches of n, in order.
  lemma {:induction false} CompileCorrect(n: Node, cap: nat, code: Code, inp: Input, pc: nat)
    requires Compiled(n, cap, code, inp, pc)
    ensures Simulates(n, cap, code, inp, pc)
    decreases n, 1
  {
    hide SimAt, At, AltCode, GroupCode, LookCode, QuantCode, Valid, Compile, Boundary, Slow;
    CompileParts(n, cap, code, inp, pc);
    forall s: St, stack: seq<nat> | Ready(n, cap, inp, s) && Steady(n, inp, s.pos)
      ensures SimAt(n, cap, code, inp, pc, s, stack)
    {
      SteadyParts(n, inp, s.pos);
      match n
      case Empty => SimEmpty(cap, code, inp, pc, s, stack);
      case One(t) => SimOne(t, cap, code, inp, pc, s, stack);
      case Check(a) => SimCheck(a, cap, code, inp, pc, s, stack);
      case Cat(l, r) => SimCat(l, r, cap, code, inp, pc, s, stack);
      case Alt(l, r) => SimAlt(l, r, cap, code, inp, pc, s, stack);
      case Group(b) => SimGroup(b, cap, code, inp, pc, s, stack);
      case Look(negative, b) => SimLook(negative, b, cap, code, inp, pc, s, stack);
      case Quant(b, min, max, greedy) => SimQuant(b, min, max, greedy, cap, code, inp, pc, s, stack);
    }
  }

  lemma {:induction false} SimEmpty(cap: nat, code: Code, inp: Input, pc: nat, s: St, stack: seq<nat>)
    requires From(Empty, cap, inp, s)
    ensures SimAt(Empty, cap, code, inp, pc, s, stack)
  {
    EndsOne(pc, s, stack);
    RefinesSame(code, inp, Here(pc, s, stack));
  }

  lemma {:induction false} GroupAt(code: Code, pc: nat, c: Code, cap: nat)
    requires At(code, pc, GroupCode(c, cap))
    ensures At(code, pc + 2, c)
  {
    BracketAt(code, pc, SaveStart(cap), c, SaveEnd(cap));
  }

  lemma {:induction false} LookAt(code: Code, pc: nat, c: Code, negative: bool)
    requires At(code, pc, LookCode(c, negative))
    ensures At(code, pc + 5, c)
  {
    BracketAt(code, pc, LookInstr(negative, |c| + 1), c, Match);
  }

  lemma {:induction false} CompileUnfold(n: Node, cap: nat)
    requires WellFormed(n)
    ensures match n
            case Cat(l, r) => Compile(n, cap) == Compile(l, cap) + Compile(r, cap + Groups(l))
            case Alt(l, r) => Compile(n, cap) == AltCode(Compile(l, cap), Compile(r, cap + Groups(l)))
            case Group(b) => Compile(n, cap) == GroupCode(Compile(b, cap + 1), cap)
            case Look(negative, b) => Compile(n, cap) == LookCode(Compile(b, cap), negative)
            case _ => true
  {
    hide AltCode, GroupCode, LookCode, QuantCode, TestInstr, AnchorInstr, Encode;
  }

  // the induction hypotheses of CompileCorrect
  lemma {:induction false} CompileParts(n: Node, cap: nat, code: Code, inp: Input, pc: nat)
    requires Compiled(n, cap, code, inp, pc)
    ensures n.Cat? ==> Simulates(n.left, cap, code, inp, pc)
    ensures n.Cat? ==> Simulates(n.right, cap + Groups(n.left), code, inp, pc + |Compile(n.left, cap)|)
    ensures n.Alt? ==> Simulates(n.left, cap, code, inp, pc + 5)
    ensures n.Alt? ==> Simulates(n.right, cap + Groups(n.left), code, inp, pc + 10 + |Compile(n.left, cap)|)
    ensures n.Group? ==> Simulates(n.body, cap + 1, code, inp, pc + 2)
    ensures n.Look? ==> Simulates(n.body, cap, code, inp, pc + 5)
    ensures n.Quant? ==> Anywhere(n.body, cap, code, inp)
    decreases n, 0
  {
    hide Simulates, At, AltCode, GroupCode, LookCode, QuantCode, Valid, Groups, Compile;
    CompileUnfold(n, cap);
    match n
    case Cat(l, r) =>
      AtSplit(code, pc, Compile(l, cap), Compile(r, cap + Groups(l)));
      CompileCorrect(l, cap, code, inp, pc);
      CompileCorrect(r, cap + Groups(l), code, inp, pc + |Compile(l, cap)|);
    case Alt(l, r) =>
      AltAt(code, pc, Compile(l, cap), Compile(r, cap + Groups(l)));
      CompileCorrect(l, cap, code, inp, pc + 5);
      CompileCorrect(r, cap + Groups(l), code, inp, pc + 10 + |Compile(l, cap)|);
    case Group(b) =>
      GroupAt(code, pc, Compile(b, cap + 1), cap);
      CompileCorrect(b, cap + 1, code, inp, pc + 2);
    case Look(negative, b) =>
      LookAt(code, pc, Compile(b, cap), negative);
      CompileCorrect(b, cap, code, inp, pc + 5);
    case Quant(b, _, _, _) =>
      forall pc: nat | At(code, pc, Compile(b, cap)) ensures Simulates(b, cap, code, inp, pc) {
        CompileCorrect(b, cap, code, inp, pc);
      }
    case _ =>
  }

  lemma {:induction false} RefinesHalts(code: Code, inp: Input, below: seq<Entry>, ys: seq<Entry>, zs: seq<Entry>,
                                        r: Option<seq<int>>)
    requires Refines(code, inp, ys, zs) && Halts(code, inp, below + ys, r)
    ensures Halts(code, inp, below + zs, r)
  {
  }

  // at the final match the first result wins; without any, what lies below goes on
  lemma {:induction false} FinalMatch(code: Code, inp: Input, below: seq<Entry>, end: nat, rs: seq<St>,
                                      r: Option<seq<int>>)
    requires HasInstr(code, end, Match) && Unmarked(below) && forall i | 0 <= i < |rs| :: rs[i].pos <= |inp.units|
    requires if rs == [] then Halts(code, inp, below, r) else r == Some(rs[0].caps)
    ensures Halts(code, inp, below + Ends(end, rs, []), r)
  {
    if rs == [] {
      assert below + Ends(end, rs, []) == below;
    } else {
      var ss := below + Ends(end, rs, []);
      var rest := Ends(end, rs[1..], []);
      assert ss[..|ss| - 1] == [] + (below + rest);
      UnwindUnmarked([], below + rest, rs[0].caps);
      assert Run(code, inp, Active(ss), 1) == Halt(r);
    }
  }

  lemma {:induction false} ProgramAt(n: Node, sticky: bool)
    requires WellFormed(n)
    ensures var code, start := Program(n, sticky), if sticky then 0 else 11;
            var end := start + |Compile(Group(n), 0)|;
            At(code, start, Compile(Group(n), 0)) && HasInstr(code, end, Match)
    ensures !sticky ==> var code := Program(n, sticky);
            HasInstr(code, 0, SplitGotoFirst(6)) && HasInstr(code, 5, Any) && HasInstr(code, 6, Goto(-11))
  {
    hide Compile, Encode;
    var code, prefix, body := Program(n, sticky), if sticky then [] else SEARCH_PREFIX, Compile(Group(n), 0);
    assert At(code, 0, prefix + body + Encode(Match)) by {
      assert code[0..|code|] == code;
    }
    AtSplit(code, 0, prefix + body, Encode(Match));
    AtSplit(code, 0, prefix, body);
    AtInstr(code, |prefix| + |body|, Match);
    if !sticky {
      BracketAt(code, 0, SplitGotoFirst(6), Encode(Any), Goto(-11));
      AtInstr(code, 5, Any);
    }
  }

  // what a run may start from: an accepted pattern whose lazy loops consume, and a boundary
  // unless no quantifier takes the fast path
  ghost predicate Runnable(n: Node, inp: Input, p: nat) {
    WellFormed(n) && Productive(n, inp) && Valid(inp) && Steady(n, inp, p)
  }

  lemma {:induction false} ProgramCompiled(n: Node, inp: Input, sticky: bool, p: nat)
    requires Runnable(n, inp, p)
    ensures Compiled(Group(n), 0, Program(n, sticky), inp, if sticky then 0 else 11)
    ensures WellFormed(Group(n)) && From(Group(n), 0, inp, St(p, NoCaptures(n)))
  {
    hide Compile, At, Program;
    ProgramAt(n, sticky);
  }

  // From one starting position: the machine halts with the first match, or goes on below.
  lemma {:induction false} HaltsAt(n: Node, inp: Input, sticky: bool, p: nat, below: seq<Entry>, r: Option<seq<int>>)
    requires Runnable(n, inp, p) && p <= |inp.units| && Unmarked(below)
    requires var rs := MatchesAt(n, inp, p);
             if rs == [] then Halts(Program(n, sticky), inp, below, r) else r == Some(rs[0].caps)
    ensures Halts(Program(n, sticky), inp, below + Here(if sticky then 0 else 11, St(p, NoCaptures(n)), []), r)
  {
    hide Compile, Halts, Refines, Matches, Boundary, Slow, Valid, WellFormed, Productive, Program, At, Ends, Here;
    var code, start, s := Program(n, sticky), if sticky then 0 else 11, St(p, NoCaptures(n));
    ProgramCompiled(n, inp, sticky, p);
    var rs, end := MatchesAt(n, inp, p), start + |Compile(Group(n), 0)|;
    CompileCorrect(Group(n), 0, code, inp, start);
    assert SimAt(Group(n), 0, code, inp, start, s, []);
    ProgramAt(n, sticky);
    FinalMatch(code, inp, below, end, rs, r);
    RefinesHalts(code, inp, below, Ends(end, rs, []), Here(start, s, []), r);
  }

  lemma {:induction false} NothingHalts(code: Code, inp: Input)
    ensures Halts(code, inp, [], None)
  {
    assert Run(code, inp, Active([]), 1) == Halt(None);
  }

  // the search prefix: try here, or skip one character and try again
  lemma {:induction false} PrefixStep(code: Code, inp: Input, s: St)
    requires HasInstr(code, 0, SplitGotoFirst(6)) && HasInstr(code, 5, Any) && HasInstr(code, 6, Goto(-11))
    requires s.pos <= |inp.units|
    ensures Step(code, inp, Here(0, s, [])) == Active(Here(5, s, []) + Here(11, s, []))
    ensures s.pos == |inp.units| ==> Step(code, inp, Here(5, s, [])) == Active([])
    ensures s.pos < |inp.units| ==>
              var next := s.(pos := GetChar(inp, s.pos).1);
              Step(code, inp, Here(5, s, [])) == Active(Here(6, next, [])) &&
              Step(code, inp, Here(6, next, [])) == Active(Here(0, next, []))
  {
    hide GetChar;
  }

  lemma {:induction false} SearchHalts(n: Node, inp: Input, p: nat)
    requires Runnable(n, inp, p) && p <= |inp.units|
    ensures Halts(Program(n, false), inp, Here(0, St(p, NoCaptures(n)), []), FirstMatch(n, inp, false, p))
    decreases |inp.units| - p
  {
    hide Halts, Refines, MatchesAt, Boundary, Slow, Program, Step, WellFormed, Productive, Valid, NoCaptures, GetChar;
    var code, s, r := Program(n, false), St(p, NoCaptures(n)), FirstMatch(n, inp, false, p);
    ProgramAt(n, false);
    PrefixStep(code, inp, s);
    var other := Here(5, s, []);
    if MatchesAt(n, inp, p) == [] {
      if p < |inp.units| {
        var next := St(GetChar(inp, p).1, s.caps);
        GetCharBoundary(inp, p);
        SearchHalts(n, inp, next.pos);
        HaltsStep(code, inp, Here(6, next, []), r);
      } else {
        NothingHalts(code, inp);
      }
      HaltsStep(code, inp, other, r);
    }
    HaltsAt(n, inp, false, p, other, r);
    HaltsStep(code, inp, Here(0, s, []), r);
  }

  // lre_compile followed by lre_exec: for an accepted pattern whose lazy loops consume on the
  // input, from any steady position, the machine halts with the captures of the first match.
  lemma {:induction false} ProgramCorrect(n: Node, inp: Input, sticky: bool, p: nat)
    requires WellFormed(n) && Productive(n, inp) && Valid(inp) && Steady(n, inp, p)
    ensures Halts(Program(n, sticky), inp, [Branch(Thread(0, p, NoCaptures(n), []))], FirstMatch(n, inp, sticky, p))
  {
    hide Halts, Matches, Program, NoCaptures, WellFormed, Productive, Valid;
    if sticky {
      NothingHalts(Program(n, true), inp);
      HaltsAt(n, inp, true, p, [], FirstMatch(n, inp, true, p));
      assert [] + Here(0, St(p, NoCaptures(n)), []) == Here(0, St(p, NoCaptures(n)), []);
    } else {
      SearchHalts(n, inp, p);
    }
  }

  // The machine gives at most one answer.
  lemma {:induction false} HaltsOnce(code: Code, inp: Input, ss: seq<Entry>, r: Option<seq<int>>, r': Option<seq<int>>)
    requires Halts(code, inp, ss, r) && Halts(code, inp, ss, r')
    ensures r == r'
  {
    var n: nat :| Run(code, inp, Active(ss), n) == Halt(r);
    var m: nat :| Run(code, inp, Active(ss), m) == Halt(r');
    if n <= m {
      RunMore(code, inp, Active(ss), n, m);
    } else {
      RunMore(code, inp, Active(ss), m, n);
    }
  }
}
