/** Simple quantifiers: a body the compiler finds simple reads a fixed number of characters
    or fails, and the run without backtracking does the same. */
module RegexSimple {
  import opened RegexInput
  import opened RegexSyntax
  import opened RegexCode
  import opened RegexMatcher
  import opened RegexCompiler
  import opened RegexVM
  import opened RegexClass

  lemma {:induction false} SimpleCountAppend(a: Code, b: Code)
    ensures SimpleCount(a + b) ==
            if SimpleCount(a) == -1 || SimpleCount(b) == -1 then -1 else SimpleCount(a) + SimpleCount(b)
  {
    SimpleCountBounds(b);
    if a == [] {
      assert a + b == b;
    } else {
      assert (a + b)[1..] == a[1..] + b;
      SimpleCountBounds(a[1..]);
      SimpleCountAppend(a[1..], b);
    }
  }

  lemma {:induction false} SimpleCountBounds(c: Code)
    ensures SimpleCount(c) >= -1
  {
    if c != [] {
      SimpleCountBounds(c[1..]);
    }
  }

  lemma {:induction false} SimpleCountArgs(n: nat)
    ensures SimpleCount(Args(n)) == 0
  {
    if n > 0 {
      assert Args(n)[1..] == Args(n - 1);
      SimpleCountArgs(n - 1);
    }
  }

  lemma {:induction false} SimpleCountEncode(i: Instr)
    ensures SimpleCount(Encode(i)) == if CharLike(i) then 1 else if Assertion(i) then 0 else -1
  {
    assert Encode(i)[1..] == Args(Size(i) - 1);
    SimpleCountArgs(Size(i) - 1);
  }

  lemma {:induction false} NotSimpleHead(i: Instr, c: Code)
    requires !CharLike(i) && !Assertion(i)
    ensures SimpleCount(Encode(i) + c) == -1
  {
    SimpleCountAppend(Encode(i), c);
    SimpleCountEncode(i);
  }

  lemma {:induction false} NotSimpleBracket(i: Instr, a: Code, b: Code)
    requires !CharLike(i) && !Assertion(i)
    ensures SimpleCount(Encode(i) + a + b) == -1
  {
    NotSimpleHead(i, a);
    SimpleCountAppend(Encode(i) + a, b);
  }

  lemma {:induction false} NotSimpleLoops(c: Code, k: nat, greedy: bool, check: bool)
    ensures SimpleCount(UpToCode(c, k, greedy)) == -1
    ensures SimpleCount(TimesCode(c, k)) == -1
    ensures SimpleCount(StarCode(c, greedy, check)) == -1
    ensures SimpleCount(OptionCode(c, greedy)) == -1
  {
    NotSimpleUpTo(PushI32(k), SplitOver(greedy, |c| + 5), c, Loop(-(|c| + 10)));
    NotSimpleBracket(PushI32(k), c, Encode(Loop(-(|c| + 5))));
    SimpleCountAppend(Encode(PushI32(k)) + c + Encode(Loop(-(|c| + 5))), Encode(Drop));
    NotSimpleBracket(SplitOver(greedy, |c| + 5), c, Encode(Goto(-(|c| + 10))));
    NotSimpleBracket(SplitOver(greedy, |c| + 6), Encode(PushCharPos), c);
    SimpleCountAppend(Encode(SplitOver(greedy, |c| + 6)) + Encode(PushCharPos) + c, Encode(BneCharPos(-(|c| + 11))));
    NotSimpleHead(SplitOver(greedy, |c|), c);
  }

  lemma {:induction false} NotSimpleUpTo(p: Instr, s: Instr, c: Code, l: Instr)
    requires !CharLike(p) && !Assertion(p)
    ensures SimpleCount(Encode(p) + Encode(s) + c + Encode(l) + Encode(Drop)) == -1
  {
    NotSimpleBracket(p, Encode(s), c);
    SimpleCountAppend(Encode(p) + Encode(s) + c, Encode(l));
    SimpleCountAppend(Encode(p) + Encode(s) + c + Encode(l), Encode(Drop));
  }

  // A quantifier inside a simple body leaves no trace in the code: {0} or {1}.
  lemma {:induction false} SimpleQuant(c: Code, cap: nat, groups: nat, min: nat, max: nat, greedy: bool)
    requires SimpleCount(QuantCode(c, cap, groups, min, max, greedy)) != -1 && min <= max <= INT32_MAX
    ensures (min == max == 0 && groups == 0 && QuantCode(c, cap, groups, min, max, greedy) == [])
         || (min == max == 1 && QuantCode(c, cap, groups, min, max, greedy) == c)
  {
    var check := greedy && Advance(c) != 1;
    if greedy && max > 0 && SimpleCount(c) > 0 {
      NotSimpleBracket(SimpleGreedyQuant(|c| + 1, min, max, SimpleCount(c)), c, Encode(Match));
    } else if min == 0 {
      SimpleFromZero(c, cap, groups, max, greedy, check);
    } else if min == 1 && max == INT32_MAX && !check {
      SimpleCountAppend(c, Encode(SplitBack(greedy, -(|c| + 5))));
      SimpleCountEncode(SplitBack(greedy, -(|c| + 5)));
    } else {
      SimpleFromSome(c, min, max, greedy, check);
    }
  }

  lemma {:induction false} SimpleFromZero(c: Code, cap: nat, groups: nat, max: nat, greedy: bool, check: bool)
    ensures var loop := if max == 0 then [] else if max == 1 then OptionCode(c, greedy)
                        else if max == INT32_MAX then StarCode(c, greedy, check) else UpToCode(c, max, greedy);
            SimpleCount(ResetCode(cap, groups) + loop) != -1 ==> max == 0 && groups == 0
  {
    var loop := if max == 0 then [] else if max == 1 then OptionCode(c, greedy)
                else if max == INT32_MAX then StarCode(c, greedy, check) else UpToCode(c, max, greedy);
    NotSimpleLoops(c, max, greedy, check);
    SimpleCountAppend(ResetCode(cap, groups), loop);
    if groups != 0 {
      SimpleCountEncode(SaveReset(cap, cap + groups - 1));
    }
  }

  lemma {:induction false} SimpleFromSome(c: Code, min: nat, max: nat, greedy: bool, check: bool)
    requires 0 < min <= max
    ensures var first := if min == 1 then c else TimesCode(c, min);
            var second := if max == INT32_MAX then StarCode(c, greedy, check)
                          else if max > min then UpToCode(c, max - min, greedy) else [];
            SimpleCount(first + second) != -1 ==> min == max == 1 && first + second == c
  {
    var first := if min == 1 then c else TimesCode(c, min);
    var second := if max == INT32_MAX then StarCode(c, greedy, check)
                  else if max > min then UpToCode(c, max - min, greedy) else [];
    NotSimpleLoops(c, min, greedy, check);
    NotSimpleLoops(c, max - min, greedy, check);
    SimpleCountAppend(first, second);
  }

  lemma {:induction false} StepBackAdd(inp: Input, p: nat, k: nat, l: nat)
    requires p <= |inp.units| && StepBack(inp, p, k).Some? && StepBack(inp, p, k).value <= |inp.units|
    ensures StepBack(inp, p, k + l) == StepBack(inp, StepBack(inp, p, k).value, l)
  {
    if k > 0 {
      StepBackAdd(inp, PrevChar(inp, p), k - 1, l);
    }
  }

  // k times GET_CHAR
  function Forward(inp: Input, p: nat, k: nat): Option<nat>
    decreases k
  {
    if k == 0 then Some(p) else if p >= |inp.units| then None else Forward(inp, GetChar(inp, p).1, k - 1)
  }

  lemma {:induction false} ForwardAdd(inp: Input, p: nat, k: nat, l: nat)
    requires Forward(inp, p, k).Some?
    ensures Forward(inp, p, k + l) == Forward(inp, Forward(inp, p, k).value, l)
    decreases k
  {
    if k > 0 {
      ForwardAdd(inp, GetChar(inp, p).1, k - 1, l);
    }
  }

  lemma {:induction false} ForwardBounds(inp: Input, p: nat, k: nat)
    requires p <= |inp.units| && Forward(inp, p, k).Some?
    ensures p + k <= Forward(inp, p, k).value <= |inp.units|
    decreases k
  {
    if k > 0 {
      ForwardBounds(inp, GetChar(inp, p).1, k - 1);
    }
  }

  // From a character boundary, stepping back undoes stepping forward.
  lemma {:induction false} BackUndoesForward(inp: Input, p: nat, k: nat)
    requires p <= |inp.units| && Boundary(inp, p) && Forward(inp, p, k).Some?
    ensures Forward(inp, p, k).value <= |inp.units| && StepBack(inp, Forward(inp, p, k).value, k) == Some(p)
    decreases k
  {
    ForwardBounds(inp, p, k);
    if k > 0 {
      var next := GetChar(inp, p).1;
      GetCharBoundary(inp, p);
      PrevUndoesGet(inp, p);
      BackUndoesForward(inp, next, k - 1);
      StepBackAdd(inp, Forward(inp, p, k).value, k - 1, 1);
      assert StepBack(inp, next, 1) == StepBack(inp, p, 0);
    }
  }

  // From anywhere, as many characters as were read can be stepped back over.
  lemma {:induction false} BackDefined(inp: Input, p: nat, k: nat)
    requires p <= |inp.units| && Forward(inp, p, k).Some?
    ensures Forward(inp, p, k).value <= |inp.units| && StepBack(inp, Forward(inp, p, k).value, k).Some?
  {
    ForwardBounds(inp, p, k);
    if k > 0 {
      var next := GetChar(inp, p).1;
      GetCharBoundary(inp, p);
      BackUndoesForward(inp, next, k - 1);
      StepBackAdd(inp, Forward(inp, p, k).value, k - 1, 1);
      assert StepBack(inp, next, 1) == StepBack(inp, PrevChar(inp, next), 0);
    }
  }

  // What a simple piece of code of that length does at pc from s: read and go on after it, or
  // fail, as the results say; it reads that many characters.
  ghost predicate Follows(rs: seq<St>, count: int, len: nat, code: Code, inp: Input, pc: nat, s: St)
    requires s.pos <= |inp.units| && Later(rs, inp, s.pos, |s.caps|)
  {
    |rs| <= 1 &&
    (rs == [] ==> SimpleRun(code, inp, pc, s.pos) == Miss) &&
    (rs != [] ==>
      && rs[0].caps == s.caps
      && SimpleRun(code, inp, pc, s.pos) == SimpleRun(code, inp, pc + len, rs[0].pos)
      && (count >= 0 ==> Forward(inp, s.pos, count) == Some(rs[0].pos)))
  }

  predicate SimpleHere(n: Node, cap: nat, code: Code, inp: Input, pc: nat, s: St) {
    WellFormed(n) && Valid(inp) && Ready(n, cap, inp, s) && At(code, pc, Compile(n, cap))
  }

  // what the machine does on the code of n, if that is simple
  ghost predicate SimpleAt(n: Node, cap: nat, code: Code, inp: Input, pc: nat, s: St)
    requires WellFormed(n) && Ready(n, cap, inp, s)
  {
    var c := Compile(n, cap);
    SimpleCount(c) != -1 ==> Follows(Matches(n, cap, inp, s), SimpleCount(c), |c|, code, inp, pc, s)
  }

  lemma {:induction false} FollowsOn(rs: seq<St>, k: nat, len: nat, qs: seq<St>, m: nat, len': nat, code: Code,
                                     inp: Input, pc: nat, s: St)
    requires s.pos <= |inp.units| && Later(rs, inp, s.pos, |s.caps|)
    requires Follows(rs, k, len, code, inp, pc, s) && rs != []
    requires Later(qs, inp, rs[0].pos, |s.caps|) && Later(qs, inp, s.pos, |s.caps|)
    requires Follows(qs, m, len', code, inp, pc + len, rs[0])
    ensures Follows(qs, k + m, len + len', code, inp, pc, s)
  {
    if qs != [] {
      ForwardAdd(inp, s.pos, k, m);
    }
  }

  // the opcode of a test does what the test says
  lemma {:induction false} TestCorrect(t: CharTest, c: nat)
    requires WellFormed(One(t)) && c < 0x110000
    ensures IsCharTest(TestInstr(t)) && (CharPasses(TestInstr(t), c) <==> Passes(t, c))
    ensures CharLike(TestInstr(t))
  {
    if t.Class? {
      ClassTestCorrect(t.points, c);
    }
  }

  lemma {:induction false} SimpleOne(t: CharTest, cap: nat, code: Code, inp: Input, pc: nat, s: St)
    requires SimpleHere(One(t), cap, code, inp, pc, s)
    ensures SimpleAt(One(t), cap, code, inp, pc, s)
  {
    hide TestInstr, CharPasses, Passes, Encode, SimpleCount;
    EncodeSize(TestInstr(t));
    var i := TestInstr(t);
    AtInstr(code, pc, i);
    SimpleCountEncode(i);
    TestCorrect(t, 0);
    if s.pos < |inp.units| {
      GetCharRange(inp, s.pos);
      TestCorrect(t, GetChar(inp, s.pos).0);
      assert Forward(inp, s.pos, 1) == Forward(inp, GetChar(inp, s.pos).1, 0);
    }
  }

  lemma {:induction false} SimpleEmpty(cap: nat, code: Code, inp: Input, pc: nat, s: St)
    requires Ready(Empty, cap, inp, s)
    ensures SimpleAt(Empty, cap, code, inp, pc, s)
  {
    hide SimpleRun;
  }

  lemma {:induction false} SimpleCheck(a: Anchor, cap: nat, code: Code, inp: Input, pc: nat, s: St)
    requires SimpleHere(Check(a), cap, code, inp, pc, s)
    ensures SimpleAt(Check(a), cap, code, inp, pc, s)
  {
    AtInstr(code, pc, AnchorInstr(a));
    SimpleCountEncode(AnchorInstr(a));
  }

  // a sequence whose left part has at most one result
  lemma {:induction false} CatSingle(l: Node, r: Node, cap: nat, inp: Input, s: St)
    requires Ready(Cat(l, r), cap, inp, s) && |Matches(l, cap, inp, s)| <= 1
    ensures var rs := Matches(l, cap, inp, s);
            Matches(Cat(l, r), cap, inp, s) == if rs == [] then [] else Matches(r, cap + Groups(l), inp, rs[0])
  {
    hide Matches;
    CatUnfold(l, r, cap, inp, s);
    var rs := Matches(l, cap, inp, s);
    if rs != [] {
      assert MatchAll(r, cap + Groups(l), inp, s.pos, |s.caps|, rs[1..]) == [];
    }
  }

  lemma {:induction false} SimpleZero(b: Node, greedy: bool, cap: nat, inp: Input, s: St)
    requires Ready(b, cap, inp, s) && Groups(b) == 0
    ensures Matches(Quant(b, 0, 0, greedy), cap, inp, s) == [s]
  {
    hide Closed, Looked, Read, Holds, Boundary, RepeatAll, MatchAll;
    assert Reset(s.caps, cap, 0) == s.caps;
    SingleAll(b, cap, inp, UpTo(0), greedy, s.pos, |s.caps|, [s]);
  }

  lemma {:induction false} SimpleOnce(b: Node, greedy: bool, cap: nat, inp: Input, s: St)
    requires Ready(b, cap, inp, s) && |Matches(b, cap, inp, s)| <= 1
    ensures Matches(Quant(b, 1, 1, greedy), cap, inp, s) == Matches(b, cap, inp, s)
  {
    hide Closed, Looked, Read, Holds, Boundary, RepeatAll, MatchAll;
    var rs := Matches(b, cap, inp, s);
    SingleAll(b, cap, inp, Times(0), greedy, s.pos, |s.caps|, rs);
    assert Repeat(b, cap, inp, Times(1), greedy, s) == rs;
    SingleAll(b, cap, inp, UpTo(0), greedy, s.pos, |s.caps|, rs);
  }

  lemma {:induction false} SingleAll(b: Node, cap: nat, inp: Input, rep: Rep, greedy: bool, low: nat, ncaps: nat,
                                     rs: seq<St>)
    requires Later(rs, inp, low, ncaps) && 2 * (cap + Groups(b)) <= ncaps && low <= |inp.units|
    requires |rs| <= 1
    ensures RepeatAll(b, cap, inp, rep, greedy, None, low, ncaps, rs)
         == if rs == [] then [] else Repeat(b, cap, inp, rep, greedy, rs[0])
  {
    if rs != [] {
      assert RepeatAll(b, cap, inp, rep, greedy, None, low, ncaps, rs[1..]) == [];
    }
  }

  lemma {:induction false} SimpleSound(n: Node, cap: nat, code: Code, inp: Input, pc: nat, s: St)
    requires SimpleHere(n, cap, code, inp, pc, s)
    ensures SimpleAt(n, cap, code, inp, pc, s)
    decreases n, 1
  {
    hide AltCode, GroupCode, LookCode, QuantCode, SimpleCount, Boundary, Forward, At, Valid;
    match n
    case Empty => SimpleEmpty(cap, code, inp, pc, s);
    case One(t) => SimpleOne(t, cap, code, inp, pc, s);
    case Check(a) => SimpleCheck(a, cap, code, inp, pc, s);
    case Cat(l, r) => SimpleSoundCat(l, r, cap, code, inp, pc, s);
    case Alt(l, r) => NotSimpleAlt(Compile(l, cap), Compile(r, cap + Groups(l)));
    case Group(b) => NotSimpleGroup(Compile(b, cap + 1), cap);
    case Look(negative, b) => NotSimpleLook(Compile(b, cap), negative);
    case Quant(b, min, max, greedy) => SimpleSoundQuant(b, min, max, greedy, cap, code, inp, pc, s);
  }

  lemma {:induction false} NotSimpleAlt(cl: Code, cr: Code)
    ensures SimpleCount(AltCode(cl, cr)) == -1
  {
    NotSimpleBracket(SplitNextFirst(|cl| + 5), cl, Encode(Goto(|cr|)));
    SimpleCountAppend(Encode(SplitNextFirst(|cl| + 5)) + cl + Encode(Goto(|cr|)), cr);
  }

  lemma {:induction false} NotSimpleGroup(c: Code, cap: nat)
    ensures SimpleCount(GroupCode(c, cap)) == -1
  {
    NotSimpleBracket(SaveStart(cap), c, Encode(SaveEnd(cap)));
  }

  lemma {:induction false} NotSimpleLook(c: Code, negative: bool)
    ensures SimpleCount(LookCode(c, negative)) == -1
  {
    NotSimpleBracket(LookInstr(negative, |c| + 1), c, Encode(Match));
  }

  lemma {:induction false} SimpleCat(l: Node, r: Node, cap: nat, code: Code, inp: Input, pc: nat, s: St)
    requires SimpleHere(Cat(l, r), cap, code, inp, pc, s) && SimpleAt(l, cap, code, inp, pc, s)
    requires var rs := Matches(l, cap, inp, s);
             rs != [] ==> SimpleAt(r, cap + Groups(l), code, inp, pc + |Compile(l, cap)|, rs[0])
    ensures SimpleAt(Cat(l, r), cap, code, inp, pc, s)
  {
    hide Matches, MatchAll, Compile, SimpleCount, SimpleRun, StepBack, Boundary, At, Forward;
    CompileCat(l, r, cap);
    var cl, cr := Compile(l, cap), Compile(r, cap + Groups(l));
    SimpleCountAppend(cl, cr);
    SimpleCountBounds(cl);
    SimpleCountBounds(cr);
    if SimpleCount(cl + cr) != -1 {
      CatSingle(l, r, cap, inp, s);
      var rs := Matches(l, cap, inp, s);
      if rs != [] {
        FollowsOn(rs, SimpleCount(cl), |cl|, Matches(r, cap + Groups(l), inp, rs[0]), SimpleCount(cr), |cr|, code, inp,
                  pc, s);
      }
    }
  }

  lemma {:induction false} SimpleSoundCat(l: Node, r: Node, cap: nat, code: Code, inp: Input, pc: nat, s: St)
    requires SimpleHere(Cat(l, r), cap, code, inp, pc, s)
    ensures SimpleAt(Cat(l, r), cap, code, inp, pc, s)
    decreases Cat(l, r), 0
  {
    hide Compile, Matches, At, Boundary, SimpleAt;
    CompileCat(l, r, cap);
    AtSplit(code, pc, Compile(l, cap), Compile(r, cap + Groups(l)));
    SimpleSound(l, cap, code, inp, pc, s);
    var rs := Matches(l, cap, inp, s);
    if rs != [] {
      SimpleSound(r, cap + Groups(l), code, inp, pc + |Compile(l, cap)|, rs[0]);
    }
    SimpleCat(l, r, cap, code, inp, pc, s);
  }

  lemma {:induction false} SimpleSoundQuant(b: Node, min: nat, max: nat, greedy: bool, cap: nat, code: Code, inp: Input,
                                            pc: nat, s: St)
    requires SimpleHere(Quant(b, min, max, greedy), cap, code, inp, pc, s)
    ensures SimpleAt(Quant(b, min, max, greedy), cap, code, inp, pc, s)
    decreases Quant(b, min, max, greedy), 0
  {
    if SimpleCount(QuantCode(Compile(b, cap), cap, Groups(b), min, max, greedy)) != -1 {
      SimpleQuant(Compile(b, cap), cap, Groups(b), min, max, greedy);
      if min == 1 {
        SimpleSound(b, cap, code, inp, pc, s);
        SimpleOnce(b, greedy, cap, inp, s);
      } else {
        SimpleZero(b, greedy, cap, inp, s);
      }
    }
  }
}
