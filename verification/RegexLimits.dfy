/** How far the correctness theorem reaches: outside its two conditions the engine fails, and
    for each the exact condition is a theorem. A run of the fast path has to start at a
    character boundary, and the body of a lazy unbounded loop has to consume. */
module RegexLimits {
  import opened RegexInput
  import opened RegexSyntax
  import opened RegexCode
  import opened RegexMatcher
  import opened RegexCompiler
  import opened RegexVM
  import opened RegexSimulation
  import opened RegexAdvance
  import opened RegexSimple
  import opened RegexLoops
  import opened RegexGreedy
  import opened RegexCorrect

  // the thread lre_exec starts with
  function Start(n: Node, p: nat): seq<Entry> {
    Here(0, St(p, NoCaptures(n)), [])
  }

  // where the code of the pattern starts in its program
  function Origin(sticky: bool): nat { if sticky then 0 else 11 }

  // the program of two pieces in a row
  lemma {:induction false} TwoPieces(n: Node, sticky: bool, a: Code, b: Code)
    requires WellFormed(n) && Compile(n, 1) == a + b
    ensures var code, pc := Program(n, sticky), Origin(sticky);
            HasInstr(code, pc, SaveStart(0)) && At(code, pc + 2, a) && At(code, pc + 2 + |a|, b)
            && HasInstr(code, pc + 2 + |a| + |b|, SaveEnd(0)) && HasInstr(code, pc + 4 + |a| + |b|, Match)
  {
    hide Encode, Compile, Program, AltCode, LookCode, QuantCode;
    CompileUnfold(Group(n), 0);
    ProgramAt(n, sticky);
    var code, pc := Program(n, sticky), Origin(sticky);
    BracketAt(code, pc, SaveStart(0), a + b, SaveEnd(0));
    AtSplit(code, pc + 2, a, b);
    EncodeSize(SaveStart(0));
    EncodeSize(SaveEnd(0));
  }

  lemma {:induction false} RefinesWithin(code: Code, inp: Input, below: seq<Entry>, ys: seq<Entry>, zs: seq<Entry>,
                                         n: nat, r: Option<seq<int>>)
    requires Refines(code, inp, ys, zs) && HaltsWithin(code, inp, below + zs, n, r)
    ensures HaltsWithin(code, inp, below + ys, n, r)
  {
    hide HaltsWithin;
  }

  lemma {:induction false} StepSave(code: Code, inp: Input, pc: nat, s: St)
    requires HasInstr(code, pc, SaveStart(0)) && s.pos <= |inp.units| && 0 < |s.caps|
    ensures Refines(code, inp, Here(pc + 2, Opened(s, 0), []), Here(pc, s, []))
  {
    RefinesExec(code, inp, pc, s, [], Here(pc + 2, Opened(s, 0), []));
  }

  // Lazy loops.

  const NOTHING: Input := Input([], false, false)

  function Lazy(b: Node): Node { Quant(b, 0, INT32_MAX, false) }

  // no assertions and no lookaheads: whether the pattern consumes shows in its structure
  predicate Plain(n: Node) {
    match n
    case Check(_) => false
    case Look(_, _) => false
    case Cat(l, r) => Plain(l) && Plain(r)
    case Alt(l, r) => Plain(l) && Plain(r)
    case Group(b) => Plain(b)
    case Quant(b, _, _, _) => Plain(b)
    case _ => true
  }

  // a plain pattern that need not consume matches the empty string
  lemma {:induction false} EmptyMatch(n: Node, cap: nat, s: St)
    requires WellFormed(n) && Plain(n) && !MustAdvance(n) && Ready(n, cap, NOTHING, s)
    ensures Matches(n, cap, NOTHING, s) != []
    decreases n, 0
  {
    hide Matches, Repeat, RepeatAll, MatchAll, Closed, Boundary, Slow, Compile, Rest;
    match n
    case Empty => OneMatch(cap, s);
    case Cat(l, r) =>
      EmptyMatch(l, cap, s);
      CatUnfold(l, r, cap, NOTHING, s);
      var rs := Matches(l, cap, NOTHING, s);
      EmptyMatch(r, cap + Groups(l), rs[0]);
      FirstOfAll(r, cap + Groups(l), s.pos, |s.caps|, rs);
    case Alt(l, r) =>
      AltUnfold(l, r, cap, NOTHING, s);
      if MustAdvance(l) {
        EmptyMatch(r, cap + Groups(l), s);
      } else {
        EmptyMatch(l, cap, s);
      }
    case Group(b) =>
      GroupUnfold(b, cap, NOTHING, s);
      EmptyMatch(b, cap + 1, Opened(s, cap));
      FirstClosed(Matches(b, cap + 1, NOTHING, Opened(s, cap)), cap, s.pos, |s.caps|);
    case Quant(b, min, max, greedy) => EmptyQuant(b, min, max, greedy, cap, s);
  }

  lemma {:induction false} EmptyQuant(b: Node, min: nat, max: nat, greedy: bool, cap: nat, s: St)
    requires WellFormed(Quant(b, min, max, greedy)) && Plain(b) && (min > 0 ==> !MustAdvance(b))
             && Ready(b, cap, NOTHING, s)
    ensures Matches(Quant(b, min, max, greedy), cap, NOTHING, s) != []
    decreases b, 2
  {
    hide Matches, Repeat, RepeatAll, Compile;
    QuantUnfold(b, cap, NOTHING, min, max, greedy, s);
    if min == 0 {
      LeaveMatch(b, cap, Rest(0, max), greedy, s.(caps := Reset(s.caps, cap, Groups(b))));
    } else {
      TimesMatch(b, cap, min, greedy, s);
      var rs := Repeat(b, cap, NOTHING, Times(min), greedy, s);
      LeaveMatch(b, cap, Rest(min, max), greedy, rs[0]);
      FirstOfRepeats(b, cap, Rest(min, max), greedy, s.pos, |s.caps|, rs);
    }
  }

  lemma {:induction false} FirstClosed(rs: seq<St>, group: nat, from: nat, ncaps: nat)
    requires 2 * group + 1 < ncaps && Later(rs, NOTHING, from, ncaps) && rs != []
    ensures Closed(rs, group, NOTHING, from, ncaps) != []
  {
  }

  lemma {:induction false} OneMatch(cap: nat, s: St)
    requires Ready(Empty, cap, NOTHING, s)
    ensures Matches(Empty, cap, NOTHING, s) == [s]
  {
  }

  lemma {:induction false} FirstOfAll(n: Node, cap: nat, from: nat, ncaps: nat, rs: seq<St>)
    requires Later(rs, NOTHING, from, ncaps) && 2 * (cap + Groups(n)) <= ncaps && rs != []
    requires Matches(n, cap, NOTHING, rs[0]) != []
    ensures MatchAll(n, cap, NOTHING, from, ncaps, rs) != []
  {
    hide Matches;
  }

  lemma {:induction false} FirstOfRepeats(b: Node, cap: nat, rep: Rep, greedy: bool, low: nat, ncaps: nat, rs: seq<St>)
    requires Later(rs, NOTHING, low, ncaps) && 2 * (cap + Groups(b)) <= ncaps && low == 0 && rs != []
    requires Repeat(b, cap, NOTHING, rep, greedy, rs[0]) != []
    ensures RepeatAll(b, cap, NOTHING, rep, greedy, None, low, ncaps, rs) != []
  {
    hide Repeat;
  }

  // a repetition beyond the minimum may always be left
  lemma {:induction false} LeaveMatch(b: Node, cap: nat, rep: Rep, greedy: bool, s: St)
    requires Ready(b, cap, NOTHING, s) && !rep.Times?
    ensures Repeat(b, cap, NOTHING, rep, greedy, s) != []
  {
    hide RepeatAll, Matches;
  }

  lemma {:induction false} TimesMatch(b: Node, cap: nat, k: nat, greedy: bool, s: St)
    requires WellFormed(b) && Plain(b) && !MustAdvance(b) && Ready(b, cap, NOTHING, s)
    ensures Repeat(b, cap, NOTHING, Times(k), greedy, s) != []
    decreases b, 1, k
  {
    hide RepeatAll, Matches;
    if k > 0 {
      EmptyMatch(b, cap, s);
      var rs := Matches(b, cap, NOTHING, s);
      TimesMatch(b, cap, k - 1, greedy, rs[0]);
      hide Repeat;
      FirstOfRepeats(b, cap, Times(k - 1), greedy, s.pos, |s.caps|, rs);
    }
  }

  // the code of a lazy unbounded loop at head, with a character test behind it
  ghost predicate LazyShape(b: Node, cap: nat, code: Code, inp: Input, head: nat, t: CharTest)
    requires WellFormed(b) && WellFormed(One(t))
  {
    var len := |Compile(b, cap)|;
    && HasInstr(code, head, SplitOver(false, len + 5)) && Compiled(b, cap, code, inp, head + 5)
    && HasInstr(code, head + 5 + len, Goto(-(len + 10))) && HasInstr(code, head + 10 + len, TestInstr(t))
  }

  // no character of the input passes the test
  predicate NeverPasses(t: CharTest, inp: Input) {
    forall q | 0 <= q < |inp.units| :: !Passes(t, GetChar(inp, q).0)
  }

  // the body has a match from here that consumes nothing
  predicate Stays(b: Node, cap: nat, inp: Input, s: St)
    requires Ready(b, cap, inp, s)
  {
    exists i | 0 <= i < |Matches(b, cap, inp, s)| :: Matches(b, cap, inp, s)[i].pos == s.pos
  }

  // a loop that nothing can leave: its code, and a state at its head
  ghost predicate Trapped(b: Node, cap: nat, code: Code, inp: Input, head: nat, t: CharTest, s: St) {
    WellFormed(b) && WellFormed(One(t)) && LazyShape(b, cap, code, inp, head, t) && NeverPasses(t, inp)
    && From(b, cap, inp, s)
  }

  // Trying the loop from some state is no help: what halts with it on top halts without it.
  lemma {:induction false} Peel(b: Node, cap: nat, code: Code, inp: Input, head: nat, t: CharTest, below: seq<Entry>,
                                s: St, n: nat, r: Option<seq<int>>)
    requires Trapped(b, cap, code, inp, head, t, s) && HaltsWithin(code, inp, below + Here(head, s, []), n, r)
    ensures HaltsWithin(code, inp, below, n, r)
    decreases n, 0
  {
    hide HaltsWithin, Matches, Compile, LazyShape, NeverPasses, Boundary, Slow;
    LazyRound(b, cap, code, inp, head, t, below, s, n, r);
    PeelAll(b, cap, code, inp, head, t, below, s.pos, |s.caps|, Matches(b, cap, inp, s), n - 1, r);
    HaltsLater(code, inp, below, n - 1, n, r);
  }

  lemma {:induction false} PeelAll(b: Node, cap: nat, code: Code, inp: Input, head: nat, t: CharTest,
                                   below: seq<Entry>, from: nat, ncaps: nat, rs: seq<St>, n: nat, r: Option<seq<int>>)
    requires WellFormed(b) && WellFormed(One(t)) && LazyShape(b, cap, code, inp, head, t) && NeverPasses(t, inp)
    requires Later(rs, inp, from, ncaps) && Steady(b, inp, from) && 2 * (cap + Groups(b)) <= ncaps
    requires HaltsWithin(code, inp, below + Ends(head + 5 + |Compile(b, cap)|, rs, []), n, r)
    ensures HaltsWithin(code, inp, below, n, r)
    decreases n, 1, |rs|
  {
    hide HaltsWithin, Matches, Compile, LazyShape, NeverPasses, Boundary, Slow, Refines, Groups;
    if rs == [] {
      assert below + Ends(head + 5 + |Compile(b, cap)|, rs, []) == below;
    } else {
      ToHead(b, cap, code, inp, head, t, below, rs, n, r);
      Peel(b, cap, code, inp, head, t, below + Ends(head + 5 + |Compile(b, cap)|, rs[1..], []), rs[0], n, r);
      PeelAll(b, cap, code, inp, head, t, below, from, ncaps, rs[1..], n, r);
    }
  }

  lemma {:induction false} HaltsLater(code: Code, inp: Input, ss: seq<Entry>, n: nat, m: nat, r: Option<seq<int>>)
    requires HaltsWithin(code, inp, ss, n, r) && n <= m
    ensures HaltsWithin(code, inp, ss, m, r)
  {
    RunMore(code, inp, Active(ss), n, m);
  }

  // after an iteration, its first result is back at the head
  lemma {:induction false} ToHead(b: Node, cap: nat, code: Code, inp: Input, head: nat, t: CharTest, below: seq<Entry>,
                                  rs: seq<St>, n: nat, r: Option<seq<int>>)
    requires WellFormed(b) && WellFormed(One(t)) && LazyShape(b, cap, code, inp, head, t)
    requires rs != [] && rs[0].pos <= |inp.units|
    requires HaltsWithin(code, inp, below + Ends(head + 5 + |Compile(b, cap)|, rs, []), n, r)
    ensures HaltsWithin(code, inp, below + Ends(head + 5 + |Compile(b, cap)|, rs[1..], []) + Here(head, rs[0], []), n,
                        r)
  {
    hide HaltsWithin, Refines, Compile;
    var back := head + 5 + |Compile(b, cap)|;
    var rest := below + Ends(back, rs[1..], []);
    assert below + Ends(back, rs, []) == rest + Here(back, rs[0], []);
    StepGoto(code, inp, back, rs[0], [], head);
    RefinesWithin(code, inp, rest, Here(head, rs[0], []), Here(back, rs[0], []), n, r);
  }

  // Where the body has a match that consumes nothing, the loop is never left: the rounds
  // tried before that match are no help, and it leads back to the head.
  lemma {:induction false} LazyForever(b: Node, cap: nat, code: Code, inp: Input, head: nat, t: CharTest,
                                       below: seq<Entry>, s: St, n: nat, r: Option<seq<int>>)
    requires Trapped(b, cap, code, inp, head, t, s) && Stays(b, cap, inp, s)
    ensures !HaltsWithin(code, inp, below + Here(head, s, []), n, r)
    decreases n
  {
    hide HaltsWithin, Refines, Matches, Compile, LazyShape, NeverPasses, Boundary, Slow, Ends, Here;
    if HaltsWithin(code, inp, below + Here(head, s, []), n, r) {
      LazyRound(b, cap, code, inp, head, t, below, s, n, r);
      var rs, back := Matches(b, cap, inp, s), head + 5 + |Compile(b, cap)|;
      var i :| 0 <= i < |rs| && rs[i].pos == s.pos;
      assert rs == rs[..i] + rs[i..];
      EndsAppend(back, rs[..i], rs[i..], []);
      assert below + Ends(back, rs, []) == (below + Ends(back, rs[i..], [])) + Ends(back, rs[..i], []);
      PeelAll(b, cap, code, inp, head, t, below + Ends(back, rs[i..], []), s.pos, |s.caps|, rs[..i], n - 1, r);
      ToHead(b, cap, code, inp, head, t, below, rs[i..], n - 1, r);
      StaysAgain(b, cap, inp, s, rs[i]);
      LazyForever(b, cap, code, inp, head, t, below + Ends(back, rs[i..][1..], []), rs[i], n - 1, r);
      assert false;
    }
  }

  lemma {:induction false} StaysAgain(b: Node, cap: nat, inp: Input, s: St, s': St)
    requires Ready(b, cap, inp, s) && Ready(b, cap, inp, s') && s.pos == s'.pos && Stays(b, cap, inp, s)
    ensures Stays(b, cap, inp, s')
  {
    hide Matches;
    MatchesEnd(b, cap, cap, inp, s, s');
  }

  // one round: leaving fails, and the body goes through its matches
  lemma {:induction false} LazyRound(b: Node, cap: nat, code: Code, inp: Input, head: nat, t: CharTest,
                                     below: seq<Entry>, s: St, n: nat, r: Option<seq<int>>)
    requires Trapped(b, cap, code, inp, head, t, s) && HaltsWithin(code, inp, below + Here(head, s, []), n, r)
    ensures n > 0
    ensures HaltsWithin(code, inp, below + Ends(head + 5 + |Compile(b, cap)|, Matches(b, cap, inp, s), []), n - 1, r)
  {
    hide HaltsWithin, Refines, Matches, Compile, Step, TestInstr, Ends, Boundary, Slow, NeverPasses;
    var exit, body := head + 10 + |Compile(b, cap)|, head + 5;
    SplitStep(code, inp, head, exit, s, below);
    HaltsFirst(code, inp, below + Here(head, s, []), n, r);
    assert below + Here(body, s, []) + Here(exit, s, []) == (below + Here(body, s, [])) + Here(exit, s, []);
    TestFails(code, inp, exit, s, t);
    RefinesWithin(code, inp, below + Here(body, s, []), [], Here(exit, s, []), n - 1, r);
    assert below + Here(body, s, []) + [] == below + Here(body, s, []);
    CompileCorrect(b, cap, code, inp, body);
    SimulatesAt(b, cap, code, inp, body, s, []);
    RefinesWithin(code, inp, below, Ends(body + |Compile(b, cap)|, Matches(b, cap, inp, s), []), Here(body, s, []),
                  n - 1, r);
  }

  lemma {:induction false} SplitStep(code: Code, inp: Input, head: nat, exit: nat, s: St, below: seq<Entry>)
    requires HasInstr(code, head, SplitOver(false, exit - (head + 5))) && s.pos <= |inp.units|
    ensures Step(code, inp, below + Here(head, s, [])) == Active(below + Here(head + 5, s, []) + Here(exit, s, []))
  {
    var ss := below + Here(head, s, []);
    assert ss[..|ss| - 1] == below;
    assert below + (Here(head + 5, s, []) + Here(exit, s, [])) == below + Here(head + 5, s, []) + Here(exit, s, []);
  }

  lemma {:induction false} TestFails(code: Code, inp: Input, pc: nat, s: St, t: CharTest)
    requires WellFormed(One(t)) && HasInstr(code, pc, TestInstr(t)) && s.pos <= |inp.units|
    requires Valid(inp) && NeverPasses(t, inp)
    ensures Refines(code, inp, [], Here(pc, s, []))
  {
    hide Refines, TestInstr, CharPasses, Passes, GetChar;
    TestCorrect(t, 0);
    if s.pos < |inp.units| {
      GetCharRange(inp, s.pos);
      TestCorrect(t, GetChar(inp, s.pos).0);
    }
    ExecTest(code, inp, pc, s, [], TestInstr(t));
    RefinesExec(code, inp, pc, s, [], []);
  }

  // The compiler guards only greedy loops against empty iterations. A lazy loop over a body
  // that has an empty match at p, with a test behind it that fails everywhere, does not
  // answer from p, whatever the search goes on with.
  lemma {:induction false} LazyNeverHalts(b: Node, t: CharTest, inp: Input, sticky: bool, s: St, r: Option<seq<int>>)
    requires WellFormed(b) && Productive(b, inp) && WellFormed(One(t)) && Valid(inp) && NeverPasses(t, inp)
    requires From(b, 1, inp, s) && Stays(b, 1, inp, s)
    ensures WellFormed(Cat(Lazy(b), One(t)))
    ensures !Halts(Program(Cat(Lazy(b), One(t)), sticky), inp, Start(Cat(Lazy(b), One(t)), s.pos), r)
  {
    hide Program, HaltsWithin, Halts, Refines, Compile, LazyShape, ResetCode, At, TestInstr, NeverPasses, Matches,
      Boundary, Slow, Productive, Valid, Stays;
    var whole := Cat(Lazy(b), One(t));
    LazyCode(b, t, inp, sticky);
    var code, s0 := Program(whole, sticky), St(s.pos, NoCaptures(whole));
    LazyReady(b, t, inp, s.pos);
    ProgramAt(whole, sticky);
    var s1 := Opened(s0, 0);
    var s2 := s1.(caps := Reset(s1.caps, 1, Groups(b)));
    StaysAgain(b, 1, inp, s, s2);
    if Halts(code, inp, Start(whole, s.pos), r) {
      var below, n := SearchStep(code, inp, sticky, s0, r);
      var pc := Origin(sticky);
      var head := pc + 2 + |ResetCode(1, Groups(b))|;
      StepSave(code, inp, pc, s0);
      SimReset(code, inp, pc + 2, 1, Groups(b), s1, []);
      RefinesTrans(code, inp, Here(head, s2, []), Here(pc + 2, s1, []), Here(pc, s0, []));
      RefinesWithin(code, inp, below, Here(head, s2, []), Here(pc, s0, []), n, r);
      LazyForever(b, 1, code, inp, head, t, below, s2, n, r);
      assert false;
    }
  }

  // a run reaches the code of the pattern at once, in the first of its trials
  lemma {:induction false} SearchStep(code: Code, inp: Input, sticky: bool, s: St, r: Option<seq<int>>)
      returns (below: seq<Entry>, n: nat)
    requires Halts(code, inp, Here(0, s, []), r) && s.pos <= |inp.units|
    requires !sticky ==> HasInstr(code, 0, SplitGotoFirst(6)) && HasInstr(code, 5, Any) && HasInstr(code, 6, Goto(-11))
    ensures HaltsWithin(code, inp, below + Here(Origin(sticky), s, []), n, r)
  {
    hide Step;
    n :| Run(code, inp, Active(Here(0, s, [])), n) == Halt(r);
    below := [];
    assert [] + Here(0, s, []) == Here(0, s, []);
    if !sticky {
      PrefixStep(code, inp, s);
      HaltsFirst(code, inp, Here(0, s, []), n, r);
      below := Here(5, s, []);
    }
  }


  lemma {:induction false} LazyReady(b: Node, t: CharTest, inp: Input, p: nat)
    requires p <= |inp.units|
    ensures var s := Opened(St(p, NoCaptures(Cat(Lazy(b), One(t)))), 0);
            |s.caps| == 2 * (1 + Groups(b)) && s.pos == p
            && Ready(b, 1, inp, s.(caps := Reset(s.caps, 1, Groups(b))))
  {
    assert Groups(Cat(Lazy(b), One(t))) == Groups(Lazy(b)) + Groups(One(t)) == Groups(b);
  }

  // where the loop's code lies in the program
  lemma {:induction false} LazyCode(b: Node, t: CharTest, inp: Input, sticky: bool)
    requires WellFormed(b) && Productive(b, inp) && WellFormed(One(t)) && Valid(inp)
    ensures WellFormed(Cat(Lazy(b), One(t)))
    ensures var code, pc := Program(Cat(Lazy(b), One(t)), sticky), Origin(sticky);
            HasInstr(code, pc, SaveStart(0)) && At(code, pc + 2, ResetCode(1, Groups(b)))
            && LazyShape(b, 1, code, inp, pc + 2 + |ResetCode(1, Groups(b))|, t)
  {
    hide Encode, Program, Compile, At, TestInstr, ResetCode, StarCode, Productive, Valid, LazyShape;
    var whole, c := Cat(Lazy(b), One(t)), Compile(b, 1);
    LazyCompiles(b, t);
    var reset, star := ResetCode(1, Groups(b)), StarCode(c, false, false);
    TwoPieces(whole, sticky, reset + star, Encode(TestInstr(t)));
    var code, pc := Program(whole, sticky), Origin(sticky);
    AtSplit(code, pc + 2, reset, star);
    LoopAt(b, t, inp, code, pc + 2 + |reset|);
  }

  lemma {:induction false} LoopAt(b: Node, t: CharTest, inp: Input, code: Code, head: nat)
    requires WellFormed(b) && Productive(b, inp) && WellFormed(One(t)) && Valid(inp)
    requires var star := StarCode(Compile(b, 1), false, false);
             At(code, head, star) && At(code, head + |star|, Encode(TestInstr(t)))
    ensures LazyShape(b, 1, code, inp, head, t)
  {
    hide Encode, Compile, At, TestInstr, Productive, Valid;
    var c := Compile(b, 1);
    StarAt(code, head, c, false, false);
    EncodeSize(SplitOver(false, |c| + 5));
    EncodeSize(Goto(-(|c| + 10)));
    AtInstr(code, head + |StarCode(c, false, false)|, TestInstr(t));
  }

  lemma {:induction false} LazyCompiles(b: Node, t: CharTest)
    requires WellFormed(b) && WellFormed(One(t))
    ensures WellFormed(Cat(Lazy(b), One(t)))
    ensures Compile(Cat(Lazy(b), One(t)), 1) ==
            ResetCode(1, Groups(b)) + StarCode(Compile(b, 1), false, false) + Encode(TestInstr(t))
  {
    hide Encode, StarCode, ResetCode, SimpleCount, Advance, TestInstr, UpToCode, OptionCode, TimesCode, SimpleCode;
    CompileCat(Lazy(b), One(t), 1);
  }

  // on this input the machine halts on the lazy loop over b whatever follows it, from every boundary
  ghost predicate AlwaysHalts(b: Node, inp: Input)
    requires WellFormed(b)
  {
    forall k: Node, sticky: bool, p: nat | WellFormed(k) && Productive(k, inp) && Steady(Cat(Lazy(b), k), inp, p) ::
      HaltsOn(Cat(Lazy(b), k), inp, sticky, p)
  }

  ghost predicate HaltsOn(n: Node, inp: Input, sticky: bool, p: nat)
    requires WellFormed(n)
  {
    exists r: Option<seq<int>> :: Halts(Program(n, sticky), inp, Start(n, p), r)
  }

  // Exactly the lazy loops over bodies that consume always halt.
  lemma {:induction false} LazyLoopHalts(b: Node, inp: Input)
    requires WellFormed(b) && Productive(b, inp) && Valid(inp)
    ensures Consumes(b, inp) <==> AlwaysHalts(b, inp)
  {
    hide Program, Halts, Matches, Consumes, Valid;
    if Consumes(b, inp) {
      forall k: Node, sticky: bool, p: nat | WellFormed(k) && Productive(k, inp) && Steady(Cat(Lazy(b), k), inp, p)
        ensures HaltsOn(Cat(Lazy(b), k), inp, sticky, p)
      {
        var n := Cat(Lazy(b), k);
        assert WellFormed(Lazy(b)) && Productive(Lazy(b), inp);
        ProgramCorrect(n, inp, sticky, p);
        assert Halts(Program(n, sticky), inp, Start(n, p), FirstMatch(n, inp, sticky, p));
      }
    } else {
      var none := One(Class([]));
      var s := StaysSomewhere(b, inp);
      assert WellFormed(Lazy(b)) && WellFormed(Cat(Lazy(b), none));
      forall r: Option<seq<int>>
        ensures !Halts(Program(Cat(Lazy(b), none), true), inp, Start(Cat(Lazy(b), none), s.pos), r)
      {
        LazyNeverHalts(b, Class([]), inp, true, s, r);
      }
      assert Slow(b) ==> Slow(Lazy(b)) && Slow(none);
      assert WellFormed(none) && Productive(none, inp) && Steady(Cat(Lazy(b), none), inp, s.pos);
      assert !HaltsOn(Cat(Lazy(b), none), inp, true, s.pos);
    }
  }

  // a body that need not consume has an empty match from some state of the loop
  lemma {:induction false} StaysSomewhere(b: Node, inp: Input) returns (s: St)
    requires WellFormed(b) && !Consumes(b, inp)
    ensures From(b, 1, inp, s) && Stays(b, 1, inp, s)
  {
    hide Matches, Boundary, Slow;
    var cap: nat, s0: St :| Ready(b, cap, inp, s0) && Steady(b, inp, s0.pos)
                            && !After(Matches(b, cap, inp, s0), s0.pos);
    s := St(s0.pos, seq(2 * (1 + Groups(b)), _ => -1));
    MatchesEnd(b, cap, 1, inp, s0, s);
  }

  // Without assertions and lookaheads it can be told from the pattern alone.
  lemma {:induction false} PlainLoopHalts(b: Node)
    requires WellFormed(b) && Plain(b) && forall inp: Input :: Productive(b, inp)
    ensures MustAdvance(b) <==> forall inp: Input | Valid(inp) :: AlwaysHalts(b, inp)
  {
    hide Matches, Boundary, Slow, Productive, AlwaysHalts, Consumes, Valid;
    forall inp: Input | Valid(inp) ensures Consumes(b, inp) <==> AlwaysHalts(b, inp) {
      LazyLoopHalts(b, inp);
    }
    if MustAdvance(b) {
      forall inp: Input ensures Consumes(b, inp) { MustAdvanceConsumes(b, inp); }
    } else {
      EmptyStays(b);
    }
  }

  lemma {:induction false} EmptyStays(b: Node)
    requires WellFormed(b) && Plain(b) && !MustAdvance(b)
    ensures Valid(NOTHING) && !Consumes(b, NOTHING)
  {
    hide Matches;
    var s := St(0, seq(2 * (1 + Groups(b)), _ => -1));
    EmptyMatch(b, 1, s);
    assert Matches(b, 1, NOTHING, s)[0].pos == 0;
    assert !After(Matches(b, 1, NOTHING, s), s.pos) && Boundary(NOTHING, 0);
  }

  // Runs that start inside a surrogate pair.

  // how often a character occurs in a row from q on
  function CharRun(inp: Input, q: nat, c: nat): nat
    requires q <= |inp.units|
    decreases |inp.units| - q
  {
    if q < |inp.units| && GetChar(inp, q).0 == c then 1 + CharRun(inp, GetChar(inp, q).1, c) else 0
  }

  // k times the character c
  function Chars(c: nat, k: nat): Node {
    if k == 0 then Empty else Cat(Chars(c, k - 1), One(Lit(c)))
  }

  // .? and then k times the character c
  function DotChars(c: nat, k: nat): Node { Cat(Quant(One(AnyChar), 0, 1, true), Chars(c, k)) }

  lemma {:induction false} CharsAccepted(c: nat, k: nat, inp: Input)
    requires c < 0x110000
    ensures WellFormed(Chars(c, k)) && Productive(Chars(c, k), inp) && Groups(Chars(c, k)) == 0
  {
    if k > 0 {
      CharsAccepted(c, k - 1, inp);
    }
  }

  // position k characters on, within a run of at least k
  function RunEnd(inp: Input, q: nat, c: nat, k: nat): (e: nat)
    requires q <= |inp.units| && k <= CharRun(inp, q, c)
    ensures q <= e <= |inp.units|
    decreases k
  {
    if k == 0 then q else RunEnd(inp, GetChar(inp, q).1, c, k - 1)
  }

  lemma {:induction false} RunEndNext(inp: Input, q: nat, c: nat, k: nat)
    requires q <= |inp.units| && k <= CharRun(inp, q, c)
    ensures var e := RunEnd(inp, q, c, k);
            && (k < CharRun(inp, q, c) <==> e < |inp.units| && GetChar(inp, e).0 == c)
            && (k < CharRun(inp, q, c) ==> RunEnd(inp, q, c, k + 1) == GetChar(inp, e).1)
    decreases k
  {
    if k > 0 {
      RunEndNext(inp, GetChar(inp, q).1, c, k - 1);
    }
  }

  // where k of the characters end
  function Reach(inp: Input, s: St, c: nat, k: nat): (rs: seq<St>)
    requires s.pos <= |inp.units|
    ensures forall i | 0 <= i < |rs| :: s.pos <= rs[i].pos <= |inp.units|
  {
    if k <= CharRun(inp, s.pos, c) then [s.(pos := RunEnd(inp, s.pos, c, k))] else []
  }

  // The characters match exactly where the run is long enough.
  lemma {:induction false} CharsMatch(c: nat, k: nat, cap: nat, inp: Input, s: St)
    requires c < 0x110000 && Ready(Chars(c, k), cap, inp, s)
    ensures Matches(Chars(c, k), cap, inp, s) == Reach(inp, s, c, k)
  {
    hide Matches, MatchAll, CharRun, RunEnd, GetChar, Later, Reach;
    if k == 0 {
      NoChars(c, cap, inp, s);
    } else {
      CharsStep(c, k, cap, inp, s);
      CharsMatch(c, k - 1, cap, inp, s);
      ReachNext(c, k, cap, inp, s);
    }
  }

  lemma {:induction false} NoChars(c: nat, cap: nat, inp: Input, s: St)
    requires Ready(Chars(c, 0), cap, inp, s)
    ensures Matches(Chars(c, 0), cap, inp, s) == Reach(inp, s, c, 0)
  {
    hide GetChar;
  }

  lemma {:induction false} CharsStep(c: nat, k: nat, cap: nat, inp: Input, s: St)
    requires c < 0x110000 && k > 0 && Ready(Chars(c, k), cap, inp, s)
    ensures Ready(Chars(c, k - 1), cap, inp, s) && 2 * cap <= |s.caps|
    ensures var rs := Matches(Chars(c, k - 1), cap, inp, s);
            && Later(rs, inp, s.pos, |s.caps|)
            && Matches(Chars(c, k), cap, inp, s) == MatchAll(One(Lit(c)), cap, inp, s.pos, |s.caps|, rs)
  {
    hide Matches, MatchAll, Later, Productive, WellFormed;
    CharsAccepted(c, k, inp);
    CharsAccepted(c, k - 1, inp);
    CatUnfold(Chars(c, k - 1), One(Lit(c)), cap, inp, s);
  }

  lemma {:induction false} ReachNext(c: nat, k: nat, cap: nat, inp: Input, s: St)
    requires k > 0 && s.pos <= |inp.units| && 2 * cap <= |s.caps|
    requires Later(Reach(inp, s, c, k - 1), inp, s.pos, |s.caps|)
    ensures MatchAll(One(Lit(c)), cap, inp, s.pos, |s.caps|, Reach(inp, s, c, k - 1)) == Reach(inp, s, c, k)
  {
    hide Matches, MatchAll, CharRun, RunEnd, GetChar;
    var rs := Reach(inp, s, c, k - 1);
    if rs == [] {
      NoneLeft(c, cap, inp, s.pos, |s.caps|);
    } else {
      RunEndNext(inp, s.pos, c, k - 1);
      LastChar(c, cap, inp, s.pos, |s.caps|, rs);
    }
  }

  lemma {:induction false} NoneLeft(c: nat, cap: nat, inp: Input, from: nat, ncaps: nat)
    requires 2 * cap <= ncaps
    ensures MatchAll(One(Lit(c)), cap, inp, from, ncaps, []) == []
  {
  }

  lemma {:induction false} LastChar(c: nat, cap: nat, inp: Input, from: nat, ncaps: nat, rs: seq<St>)
    requires |rs| == 1 && Later(rs, inp, from, ncaps) && 2 * cap <= ncaps
    ensures MatchAll(One(Lit(c)), cap, inp, from, ncaps, rs) ==
            var p := rs[0].pos;
            if p < |inp.units| && GetChar(inp, p).0 == c then [rs[0].(pos := GetChar(inp, p).1)] else []
  {
    hide GetChar;
    assert rs[1..] == [];
    assert MatchAll(One(Lit(c)), cap, inp, from, ncaps, rs[1..]) == [];
  }

  // p lies between the halves of the pair that makes the character c
  predicate InsidePair(inp: Input, p: nat, c: nat) {
    && inp.utf16 && 0 < p < |inp.units| && IsHigh(inp.units[p - 1]) && IsLow(inp.units[p])
    && c == Combine(inp.units[p - 1], inp.units[p])
  }

  // around the middle of a pair: what is read there, and where a step back leads
  lemma {:induction false} PairAround(inp: Input, p: nat, c: nat)
    requires InsidePair(inp, p, c)
    ensures 0x10000 <= c < 0x110000 && Boundary(inp, p - 1) && Boundary(inp, p + 1)
    ensures GetChar(inp, p - 1) == (c, p + 1) && GetChar(inp, p) == (inp.units[p], p + 1) && inp.units[p] < 0x10000
    ensures PrevChar(inp, p + 1) == p - 1
    ensures CharRun(inp, p - 1, c) == 1 + CharRun(inp, p + 1, c) && CharRun(inp, p, c) == 0
  {
    hide CharRun;
    RunUnfold(inp, p - 1, c);
    RunUnfold(inp, p, c);
  }

  lemma {:induction false} RunUnfold(inp: Input, q: nat, c: nat)
    requires q < |inp.units|
    ensures CharRun(inp, q, c) == if GetChar(inp, q).0 == c then 1 + CharRun(inp, GetChar(inp, q).1, c) else 0
  {
    hide GetChar;
  }

  // the results of .? from p: one unit on, and p itself
  lemma {:induction false} DotMatches(inp: Input, p: nat, s: St)
    requires s.pos == p < |inp.units| && 2 <= |s.caps|
    ensures Matches(Quant(One(AnyChar), 0, 1, true), 1, inp, s) == [s.(pos := GetChar(inp, p).1), s]
  {
    hide GetChar, MatchAll, Closed, Looked, Boundary, Holds, Compile, RepeatAll;
    var dot, rs := One(AnyChar), Matches(One(AnyChar), 1, inp, s);
    assert s.(caps := Reset(s.caps, 1, 0)) == s;
    QuantUnfold(dot, 1, inp, 0, 1, true, s);
    assert rs == [s.(pos := GetChar(inp, p).1)];
    RepeatAllDone(dot, 1, inp, UpTo(0), true, s.pos, |s.caps|, rs);
  }

  // From inside a pair the pattern has no match: too few characters follow.
  lemma {:induction false} DotCharsFails(inp: Input, p: nat, c: nat)
    requires InsidePair(inp, p, c)
    ensures FirstMatch(DotChars(c, CharRun(inp, p - 1, c)), inp, true, p) == None
  {
    hide Matches, MatchAll, CharRun, GetChar, Chars, FirstMatch, InsidePair, RunEnd;
    PairAround(inp, p, c);
    InsideBounds(inp, p, c);
    var k := CharRun(inp, p - 1, c);
    var dot, tail, n := Quant(One(AnyChar), 0, 1, true), Chars(c, k), DotChars(c, k);
    CharsAccepted(c, k, inp);
    var s := Opened(St(p, NoCaptures(n)), 0);
    DotMatches(inp, p, s);
    CatUnfold(dot, tail, 1, inp, s);
    var rs := Matches(dot, 1, inp, s);
    CharsMatch(c, k, 1, inp, rs[0]);
    CharsMatch(c, k, 1, inp, rs[1]);
    NoneOfTwo(tail, 1, inp, p, |s.caps|, rs);
    NoGroup(n, inp, 0, St(p, NoCaptures(n)));
    NoFirst(n, inp, p);
  }

  lemma {:induction false} InsideBounds(inp: Input, p: nat, c: nat)
    requires InsidePair(inp, p, c)
    ensures 0 < p < |inp.units|
  {
  }

  lemma {:induction false} NoFirst(n: Node, inp: Input, p: nat)
    requires p <= |inp.units| && MatchesAt(n, inp, p) == []
    ensures FirstMatch(n, inp, true, p) == None
  {
  }

  lemma {:induction false} NoneOfTwo(n: Node, cap: nat, inp: Input, from: nat, ncaps: nat, rs: seq<St>)
    requires |rs| == 2 && Later(rs, inp, from, ncaps) && 2 * (cap + Groups(n)) <= ncaps
    requires Matches(n, cap, inp, rs[0]) == [] && Matches(n, cap, inp, rs[1]) == []
    ensures MatchAll(n, cap, inp, from, ncaps, rs) == []
  {
    hide Matches;
    assert rs[1..] == [rs[1]] && rs[2..] == [];
    assert MatchAll(n, cap, inp, from, ncaps, rs[1..][1..]) == [];
    assert MatchAll(n, cap, inp, from, ncaps, rs[1..]) == [];
  }

  lemma {:induction false} NoGroup(n: Node, inp: Input, cap: nat, s: St)
    requires Ready(Group(n), cap, inp, s) && Matches(n, cap + 1, inp, Opened(s, cap)) == []
    ensures Matches(Group(n), cap, inp, s) == []
  {
  }

  // The machine takes the one unit read back as a whole pair, and matches from before p.
  lemma {:induction false} DotCharsRuns(inp: Input, p: nat, c: nat)
    requires Valid(inp) && InsidePair(inp, p, c)
    ensures var n := DotChars(c, CharRun(inp, p - 1, c));
            WellFormed(n) && exists caps: seq<int> :: Halts(Program(n, true), inp, Start(n, p), Some(caps))
  {
    hide Matches, CharRun, GetChar, Chars, InsidePair, RunEnd, Program, Compile, Refines, Halts, Simulates, Boundary,
      StepBack, Valid;
    PairAround(inp, p, c);
    InsideBounds(inp, p, c);
    var k := CharRun(inp, p - 1, c);
    var n := DotChars(c, k);
    DotCharsCode(c, k, inp);
    var code, s := Program(n, true), St(p, NoCaptures(n));
    CharsAccepted(c, k, inp);
    var s0 := Opened(s, 0);
    StepSave(code, inp, 0, s);
    DotBack(code, inp, p, c, k, s0);
    RefinesTrans(code, inp, Here(21, s0.(pos := p - 1), []), Here(2, s0, []), Here(0, s, []));
    var at := s0.(pos := p - 1);
    var end := 21 + |Compile(Chars(c, k), 1)|;
    CharsMatch(c, k, 1, inp, at);
    CompileCorrect(Chars(c, k), 1, code, inp, 21);
    SimulatesAt(Chars(c, k), 1, code, inp, 21, at, []);
    var r := at.(pos := RunEnd(inp, p - 1, c, k));
    EndsOne(end, r, []);
    RefinesTrans(code, inp, Here(end, r, []), Here(21, at, []), Here(0, s, []));
    SaveAndMatch(code, inp, end, r);
    assert [] + Here(end, r, []) == Here(end, r, []) && [] + Here(0, s, []) == Start(n, p);
    RefinesHalts(code, inp, [], Here(end, r, []), Here(0, s, []), Some(ClosedOne(r, 0).caps));
  }

  lemma {:induction false} SaveAndMatch(code: Code, inp: Input, pc: nat, s: St)
    requires HasInstr(code, pc, SaveEnd(0)) && HasInstr(code, pc + 2, Match) && s.pos <= |inp.units| && 1 < |s.caps|
    ensures Halts(code, inp, Here(pc, s, []), Some(ClosedOne(s, 0).caps))
  {
    hide GetChar, CountGreedy, StepBack, Holds;
    var r := ClosedOne(s, 0);
    assert Step(code, inp, Here(pc, s, [])) == Active(Here(pc + 2, r, []));
    assert Here(pc + 2, r, [])[..0] == [];
    assert Step(code, inp, Here(pc + 2, r, [])) == Halt(Some(r.caps));
    hide Step;
    assert Run(code, inp, Active(Here(pc + 2, r, [])), 1) == Halt(Some(r.caps));
    assert Run(code, inp, Active(Here(pc, s, [])), 2) == Halt(Some(r.caps));
  }

  // reading the second half, failing behind it, and stepping back over the pair
  lemma {:induction false} DotBack(code: Code, inp: Input, p: nat, c: nat, k: nat, s: St)
    requires Valid(inp) && InsidePair(inp, p, c) && k == CharRun(inp, p - 1, c) && s.pos == p && |s.caps| == 2
    requires HasInstr(code, 2, SimpleGreedyQuant(2, 0, 1, 1)) && HasInstr(code, 19, Any) && HasInstr(code, 20, Match)
    requires WellFormed(Chars(c, k)) && At(code, 21, Compile(Chars(c, k), 1))
    ensures Refines(code, inp, Here(21, s.(pos := p - 1), []), Here(2, s, []))
  {
    hide Matches, CharRun, GetChar, Chars, InsidePair, Compile, Refines, Simulates, Boundary, Valid, At, CountGreedy,
      StepBack;
    PairAround(inp, p, c);
    InsideBounds(inp, p, c);
    CharsAccepted(c, k, inp);
    var after, before := s.(pos := p + 1), s.(pos := p - 1);
    CountOne(code, inp, p);
    StepGreedy(code, inp, 2, 2, 0, 1, 1, s, [], 1, p + 1);
    var back := Shorter(2, p + 1, 1, s.caps, []);
    // the characters do not follow
    CharsMatch(c, k, 1, inp, after);
    CompileCorrect(Chars(c, k), 1, code, inp, 21);
    SimulatesAt(Chars(c, k), 1, code, inp, 21, after, []);
    RefinesUnder(code, inp, back, [], Here(21, after, []));
    assert back + [] == back;
    RefinesTrans(code, inp, back, back + Here(21, after, []), Here(2, s, []));
    // one character back is two units
    BackOne(inp, p);
    StepShorter(code, inp, 2, 2, 0, 1, 1, p + 1, p - 1, 1, s.caps, []);
    RefinesTrans(code, inp, Here(21, before, []), back, Here(2, s, []));
  }

  lemma {:induction false} BackOne(inp: Input, p: nat)
    requires 0 < p < |inp.units| && PrevChar(inp, p + 1) == p - 1
    ensures StepBack(inp, p + 1, 1) == Some(p - 1)
  {
    hide PrevChar;
    assert StepBack(inp, p - 1, 0) == Some(p - 1);
  }

  lemma {:induction false} CountOne(code: Code, inp: Input, p: nat)
    requires p < |inp.units| && GetChar(inp, p).1 == p + 1 && HasInstr(code, 19, Any) && HasInstr(code, 20, Match)
    ensures CountGreedy(code, inp, 19, p, 1, 0) == Some((1, p + 1))
  {
    hide GetChar, Holds;
    assert SimpleRun(code, inp, 20, p + 1) == Hit(p + 1);
    assert SimpleRun(code, inp, 19, p) == Hit(p + 1);
  }

  lemma {:induction false} DotCharsCode(c: nat, k: nat, inp: Input)
    requires c < 0x110000
    ensures WellFormed(DotChars(c, k)) && Productive(DotChars(c, k), inp) && WellFormed(Chars(c, k))
            && Groups(DotChars(c, k)) == 0
    ensures var code, end := Program(DotChars(c, k), true), 21 + |Compile(Chars(c, k), 1)|;
            && HasInstr(code, 0, SaveStart(0)) && HasInstr(code, 2, SimpleGreedyQuant(2, 0, 1, 1))
            && HasInstr(code, 19, Any) && HasInstr(code, 20, Match) && At(code, 21, Compile(Chars(c, k), 1))
            && HasInstr(code, end, SaveEnd(0)) && HasInstr(code, end + 2, Match)
  {
    hide Encode, Program, Chars, At, AltCode, GroupCode, LookCode, Compile;
    CharsAccepted(c, k, inp);
    assert Productive(One(AnyChar), inp) && Productive(Quant(One(AnyChar), 0, 1, true), inp);
    var i, any := SimpleGreedyQuant(2, 0, 1, 1), Encode(Any);
    EncodeSize(Any);
    EncodeSize(i);
    EncodeSize(Match);
    DotCompiles();
    CompileCat(Quant(One(AnyChar), 0, 1, true), Chars(c, k), 1);
    var quant := Encode(i) + any + Encode(Match);
    TwoPieces(DotChars(c, k), true, quant, Compile(Chars(c, k), 1));
    var code := Program(DotChars(c, k), true);
    BracketAt(code, 2, i, any, Match);
    AtInstr(code, 19, Any);
  }

  lemma {:induction false} DotCompiles()
    ensures WellFormed(Quant(One(AnyChar), 0, 1, true))
    ensures Compile(Quant(One(AnyChar), 0, 1, true), 1) ==
            Encode(SimpleGreedyQuant(2, 0, 1, 1)) + Encode(Any) + Encode(Match)
  {
    hide Encode, SimpleCount;
    AnyIsSimple();
    EncodeSize(Any);
  }

  lemma {:induction false} AnyIsSimple()
    ensures SimpleCount(Encode(Any)) == 1
  {
    assert Encode(Any)[1..] == [];
  }

  // The correctness theorem holds from a position exactly when it is a character boundary.
  // Inside a pair the greedy fast path takes one unit back for a whole pair, to before the start.
  lemma {:induction false} BoundaryExact(inp: Input, p: nat)
    requires Valid(inp) && p <= |inp.units|
    ensures Boundary(inp, p) <==>
            forall n: Node, sticky: bool | WellFormed(n) && Productive(n, inp) ::
              Halts(Program(n, sticky), inp, Start(n, p), FirstMatch(n, inp, sticky, p))
  {
    hide Program, Halts, FirstMatch, Chars, CharRun, Valid;
    if Boundary(inp, p) {
      forall n: Node, sticky: bool | WellFormed(n) && Productive(n, inp)
        ensures Halts(Program(n, sticky), inp, Start(n, p), FirstMatch(n, inp, sticky, p))
      {
        ProgramCorrect(n, inp, sticky, p);
      }
    } else {
      var c := Combine(inp.units[p - 1], inp.units[p]);
      assert InsidePair(inp, p, c);
      PairAround(inp, p, c);
      var k := CharRun(inp, p - 1, c);
      var n := DotChars(c, k);
      DotCharsCode(c, k, inp);
      DotCharsFails(inp, p, c);
      DotCharsRuns(inp, p, c);
      var caps: seq<int> :| Halts(Program(n, true), inp, Start(n, p), Some(caps));
      if Halts(Program(n, true), inp, Start(n, p), None) {
        HaltsOnce(Program(n, true), inp, Start(n, p), Some(caps), None);
      }
      assert !Halts(Program(n, true), inp, Start(n, p), FirstMatch(n, inp, true, p));
    }
  }
}
