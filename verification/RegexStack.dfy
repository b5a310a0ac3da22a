/** The static stack bound: in every state the machine can reach on compiled code, each
    thread is at an instruction, and its stack is as high as the jump-ignoring linear scan
    of compute_stack_size says for that instruction. */
module RegexStack {
  import opened RegexInput
  import opened RegexSyntax
  import opened RegexCode
  import opened RegexMatcher
  import opened RegexCompiler
  import opened RegexVM
  import opened RegexLoops
  import opened RegexSimple
  import opened RegexLayout

  // a simple body sits behind the quantifier at k
  predicate BodyBehind(c: Code, k: nat, count: nat, b: Node, cap: nat) {
    WellFormed(b) && At(c, k + 17, Compile(b, cap)) && SimpleCount(Compile(b, cap)) == count > 0
    && HasInstr(c, k + 17 + |Compile(b, cap)|, Match)
  }

  ghost predicate HasBody(c: Code, k: nat, count: nat) {
    exists b: Node, cap: nat :: BodyBehind(c, k, count, b, cap)
  }

  // what an instruction needs beside the stack: registers, a range table, a simple body
  ghost predicate SaneAt(c: Code, k: nat, ncaps: nat)
    requires k < |c| && c[k].Op?
  {
    match c[k].instr
    case SaveStart(i) => 2 * i + 1 < ncaps
    case SaveEnd(i) => 2 * i + 1 < ncaps
    case SaveReset(a, b) => a <= b && 2 * b + 1 < ncaps
    case Range(pairs) => pairs != []
    case Range32(pairs) => pairs != []
    case SimpleGreedyQuant(_, _, _, count) => HasBody(c, k, count)
    case _ => true
  }

  ghost predicate Sane(c: Code, ncaps: nat) {
    forall k | 0 <= k < |c| && c[k].Op? :: SaneAt(c, k, ncaps)
  }

  lemma {:induction false} AtShift(a: Code, c: Code, b: Code, pc: nat, part: Code)
    requires At(c, pc, part)
    ensures At(a + c + b, |a| + pc, part)
  {
    assert (a + c + b)[|a| + pc..|a| + pc + |part|] == c[pc..pc + |part|];
  }

  lemma {:induction false} SaneShift(a: Code, c: Code, b: Code, k: nat, ncaps: nat)
    requires k < |c| && c[k].Op? && SaneAt(c, k, ncaps)
    ensures |a| + k < |a + c + b| && (a + c + b)[|a| + k] == c[k] && SaneAt(a + c + b, |a| + k, ncaps)
  {
    hide At, Compile, SimpleCount, WellFormed;
    if c[k].instr.SimpleGreedyQuant? {
      var count := c[k].instr.count;
      var n: Node, cap: nat :| BodyBehind(c, k, count, n, cap);
      AtShift(a, c, b, k + 17, Compile(n, cap));
      assert BodyBehind(a + c + b, |a| + k, count, n, cap);
    }
  }

  lemma {:induction false} SaneAppend(a: Code, b: Code, ncaps: nat)
    requires Sane(a, ncaps) && Sane(b, ncaps)
    ensures Sane(a + b, ncaps)
  {
    hide SaneAt;
    forall k | 0 <= k < |a + b| && (a + b)[k].Op? ensures SaneAt(a + b, k, ncaps) {
      if k < |a| {
        SaneShift([], a, b, k, ncaps);
        assert [] + a + b == a + b;
      } else {
        SaneShift(a, b, [], k - |a|, ncaps);
        assert a + b + [] == a + b;
      }
    }
  }

  // instructions that need nothing, or find it in their operands
  predicate Modest(i: Instr, ncaps: nat) {
    !i.SimpleGreedyQuant? && (i.SaveStart? || i.SaveEnd? ==> 2 * i.i + 1 < ncaps)
    && (i.SaveReset? ==> i.first <= i.last && 2 * i.last + 1 < ncaps)
    && (i.Range? || i.Range32? ==> i.pairs != [])
  }

  lemma {:induction false} SaneEncode(i: Instr, ncaps: nat)
    requires Modest(i, ncaps)
    ensures Sane(Encode(i), ncaps)
  {
    HeightEncode(i);
  }

  lemma {:induction false} SaneBracket(i: Instr, c: Code, j: Instr, ncaps: nat)
    requires Modest(i, ncaps) && Modest(j, ncaps) && Sane(c, ncaps)
    ensures Sane(Encode(i) + c + Encode(j), ncaps)
  {
    hide Sane, Encode;
    SaneEncode(i, ncaps);
    SaneEncode(j, ncaps);
    SaneAppend(Encode(i), c, ncaps);
    SaneAppend(Encode(i) + c, Encode(j), ncaps);
  }

  lemma {:induction false} SaneSimple(b: Node, cap: nat, min: nat, max: nat, ncaps: nat)
    requires WellFormed(b) && Sane(Compile(b, cap), ncaps) && SimpleCount(Compile(b, cap)) > 0
    ensures Sane(SimpleCode(Compile(b, cap), min, max), ncaps)
  {
    hide Sane, At, SimpleCount, Compile, Encode;
    var c := Compile(b, cap);
    var i := SimpleGreedyQuant(|c| + 1, min, max, SimpleCount(c));
    var whole := SimpleCode(c, min, max);
    SaneEncode(Match, ncaps);
    SaneAppend(c, Encode(Match), ncaps);
    EncodeSize(i);
    EncodeSize(Match);
    assert At(whole, 0, whole) by {
      AtWhole(whole);
    }
    AtSplit(whole, 0, Encode(i) + c, Encode(Match));
    AtSplit(whole, 0, Encode(i), c);
    AtInstr(whole, 17 + |c|, Match);
    AtInstr(whole, 0, i);
    assert BodyBehind(whole, 0, SimpleCount(c), b, cap);
    SaneHead(i, c + Encode(Match), whole, ncaps);
  }

  lemma {:induction false} AtWhole(c: Code)
    ensures At(c, 0, c)
  {
  }

  lemma {:induction false} SaneHead(i: Instr, rest: Code, whole: Code, ncaps: nat)
    requires whole == Encode(i) + rest && Sane(rest, ncaps)
    requires whole != [] && whole[0] == Op(i) && SaneAt(whole, 0, ncaps)
    ensures Sane(whole, ncaps)
  {
    hide SaneAt, Encode;
    HeightEncode(i);
    EncodeSize(i);
    forall k | 0 <= k < |whole| && whole[k].Op? ensures SaneAt(whole, k, ncaps) {
      assert k < Size(i) ==> whole[k] == Encode(i)[k];
      if k >= Size(i) {
        SaneShift(Encode(i), rest, [], k - Size(i), ncaps);
        assert Encode(i) + rest + [] == whole;
      }
    }
  }

  lemma {:induction false} SaneLoops(c: Code, k: nat, greedy: bool, check: bool, ncaps: nat)
    requires Sane(c, ncaps)
    ensures Sane(StarCode(c, greedy, check), ncaps) && Sane(OptionCode(c, greedy), ncaps)
    ensures Sane(UpToCode(c, k, greedy), ncaps) && Sane(TimesCode(c, k), ncaps)
  {
    hide Sane, Encode;
    SaneUpTo(PushI32(k), SplitOver(greedy, |c| + 5), c, Loop(-(|c| + 10)), ncaps);
    SaneBracket(PushI32(k), c, Loop(-(|c| + 5)), ncaps);
    SaneEncode(Drop, ncaps);
    SaneAppend(Encode(PushI32(k)) + c + Encode(Loop(-(|c| + 5))), Encode(Drop), ncaps);
    SaneEncode(SplitOver(greedy, |c|), ncaps);
    SaneAppend(Encode(SplitOver(greedy, |c|)), c, ncaps);
    if check {
      SaneStar(SplitOver(greedy, |c| + 6), c, BneCharPos(-(|c| + 11)), ncaps);
    } else {
      SaneBracket(SplitOver(greedy, |c| + 5), c, Goto(-(|c| + 10)), ncaps);
    }
  }

  lemma {:induction false} SaneStar(i: Instr, c: Code, j: Instr, ncaps: nat)
    requires Sane(c, ncaps) && Modest(i, ncaps) && Modest(j, ncaps)
    ensures Sane(Encode(i) + Encode(PushCharPos) + c + Encode(j), ncaps)
  {
    hide Sane, Encode;
    SaneEncode(i, ncaps);
    SaneEncode(PushCharPos, ncaps);
    SaneEncode(j, ncaps);
    SaneAppend(Encode(i), Encode(PushCharPos), ncaps);
    SaneAppend(Encode(i) + Encode(PushCharPos), c, ncaps);
    SaneAppend(Encode(i) + Encode(PushCharPos) + c, Encode(j), ncaps);
  }

  lemma {:induction false} SaneUpTo(p: Instr, i: Instr, c: Code, j: Instr, ncaps: nat)
    requires Sane(c, ncaps) && Modest(p, ncaps) && Modest(i, ncaps) && Modest(j, ncaps)
    ensures Sane(Encode(p) + Encode(i) + c + Encode(j) + Encode(Drop), ncaps)
  {
    hide Sane, Encode;
    SaneEncode(p, ncaps);
    SaneEncode(i, ncaps);
    SaneEncode(j, ncaps);
    SaneEncode(Drop, ncaps);
    SaneAppend(Encode(p), Encode(i), ncaps);
    SaneAppend(Encode(p) + Encode(i), c, ncaps);
    SaneAppend(Encode(p) + Encode(i) + c, Encode(j), ncaps);
    SaneAppend(Encode(p) + Encode(i) + c + Encode(j), Encode(Drop), ncaps);
  }

  lemma {:induction false} SaneQuant(b: Node, cap: nat, min: nat, max: nat, greedy: bool, ncaps: nat)
    requires WellFormed(b) && min <= max && Sane(Compile(b, cap), ncaps) && 2 * (cap + Groups(b)) <= ncaps
    ensures Sane(QuantCode(Compile(b, cap), cap, Groups(b), min, max, greedy), ncaps)
  {
    hide Sane, Encode, StarCode, UpToCode, OptionCode, TimesCode, SimpleCode, Compile, SimpleCount, Advance, Groups;
    var c := Compile(b, cap);
    var check := greedy && Advance(c) != 1;
    SaneEmpty(ncaps);
    SaneLoops(c, max - min, greedy, check, ncaps);
    SaneLoops(c, min, greedy, check, ncaps);
    SaneLoops(c, max, greedy, check, ncaps);
    if greedy && max > 0 && SimpleCount(c) > 0 {
      SaneSimple(b, cap, min, max, ncaps);
    } else if min == 0 {
      if Groups(b) != 0 {
        SaneEncode(SaveReset(cap, cap + Groups(b) - 1), ncaps);
      }
      SaneAppend(ResetCode(cap, Groups(b)),
                 if max == 0 then [] else if max == 1 then OptionCode(c, greedy)
                 else if max == INT32_MAX then StarCode(c, greedy, check) else UpToCode(c, max, greedy), ncaps);
    } else if min == 1 && max == INT32_MAX && !check {
      SaneEncode(SplitBack(greedy, -(|c| + 5)), ncaps);
      SaneAppend(c, Encode(SplitBack(greedy, -(|c| + 5))), ncaps);
    } else {
      SaneAppend(if min == 1 then c else TimesCode(c, min),
                 if max == INT32_MAX then StarCode(c, greedy, check)
                 else if max > min then UpToCode(c, max - min, greedy) else [], ncaps);
    }
  }

  lemma {:induction false} SaneEmpty(ncaps: nat)
    ensures Sane([], ncaps)
  {
  }

  lemma {:induction false} SaneAlt(cl: Code, cr: Code, ncaps: nat)
    requires Sane(cl, ncaps) && Sane(cr, ncaps)
    ensures Sane(AltCode(cl, cr), ncaps)
  {
    hide Sane, Encode;
    SaneBracket(SplitNextFirst(|cl| + 5), cl, Goto(|cr|), ncaps);
    SaneAppend(Encode(SplitNextFirst(|cl| + 5)) + cl + Encode(Goto(|cr|)), cr, ncaps);
  }

  lemma {:induction false} SaneLook(c: Code, negative: bool, ncaps: nat)
    requires Sane(c, ncaps)
    ensures Sane(LookCode(c, negative), ncaps)
  {
    hide Sane, Encode;
    SaneBracket(LookInstr(negative, |c| + 1), c, Match, ncaps);
  }

  lemma {:induction false} SaneGroup(c: Code, cap: nat, ncaps: nat)
    requires Sane(c, ncaps) && 2 * cap + 1 < ncaps
    ensures Sane(GroupCode(c, cap), ncaps)
  {
    hide Sane, Encode;
    SaneBracket(SaveStart(cap), c, SaveEnd(cap), ncaps);
  }

  lemma {:induction false} SaneLeaf(n: Node, cap: nat, ncaps: nat)
    requires WellFormed(n) && (n.One? || n.Check?)
    ensures Sane(Compile(n, cap), ncaps)
  {
    hide Sane, Encode;
    SaneEncode(if n.One? then TestInstr(n.test) else AnchorInstr(n.anchor), ncaps);
  }

  lemma {:induction false} CompileSane(n: Node, cap: nat, ncaps: nat)
    requires WellFormed(n) && 2 * (cap + Groups(n)) <= ncaps
    ensures Sane(Compile(n, cap), ncaps)
  {
    hide Sane, Encode, AltCode, QuantCode, LookCode, GroupCode;
    match n
    case Empty => SaneEmpty(ncaps);
    case One(_) => SaneLeaf(n, cap, ncaps);
    case Check(_) => SaneLeaf(n, cap, ncaps);
    case Cat(l, r) =>
      CompileSane(l, cap, ncaps);
      CompileSane(r, cap + Groups(l), ncaps);
      SaneAppend(Compile(l, cap), Compile(r, cap + Groups(l)), ncaps);
    case Alt(l, r) =>
      CompileSane(l, cap, ncaps);
      CompileSane(r, cap + Groups(l), ncaps);
      SaneAlt(Compile(l, cap), Compile(r, cap + Groups(l)), ncaps);
    case Group(b) =>
      CompileSane(b, cap + 1, ncaps);
      SaneGroup(Compile(b, cap + 1), cap, ncaps);
    case Look(negative, b) =>
      CompileSane(b, cap, ncaps);
      SaneLook(Compile(b, cap), negative, ncaps);
    case Quant(b, min, max, greedy) =>
      CompileSane(b, cap, ncaps);
      SaneQuant(b, cap, min, max, greedy, ncaps);
  }

  // All jumps stay inside the code, on instructions, at the scanned heights.
  ghost predicate Static(code: Code, ncaps: nat) {
    && Sane(code, ncaps)
    && AllFit(code)
    && forall k, t | 0 <= k < |code| && code[k].Op? && t in Successors(code[k].instr, k) :: t < |code|
  }

  lemma {:induction false} PrefixStatic(n: Node, sticky: bool, ncaps: nat)
    requires WellFormed(n) && 2 * (1 + Groups(n)) <= ncaps
    ensures var piece := (if sticky then [] else SEARCH_PREFIX) + Compile(Group(n), 0);
            Fits(piece) && Sane(piece, ncaps)
  {
    hide Fits, Sane, Compile, Encode;
    var prefix := if sticky then [] else SEARCH_PREFIX;
    EmptyFits();
    SaneEmpty(ncaps);
    PlainFits(Any);
    SaneEncode(Any, ncaps);
    BracketFits(SplitGotoFirst(6), Encode(Any), Goto(-11)) by {
      EncodeSize(Any);
    }
    SaneBracket(SplitGotoFirst(6), Encode(Any), Goto(-11), ncaps);
    CompileFits(Group(n), 0);
    CompileSane(Group(n), 0, ncaps);
    CatFits(prefix, Compile(Group(n), 0));
    SaneAppend(prefix, Compile(Group(n), 0), ncaps);
  }

  lemma {:induction false} MatchEnds(piece: Code, ncaps: nat)
    requires Fits(piece) && Sane(piece, ncaps)
    ensures Static(piece + Encode(Match), ncaps)
  {
    hide Height, SaneAt, Successors;
    var code := piece + Encode(Match);
    SaneEncode(Match, ncaps);
    SaneAppend(piece, Encode(Match), ncaps);
    EncodeSize(Match);
    HeightEncode(Match);
    forall k | 0 <= k < |code| && code[k].Op?
      ensures FitsAt(code, k) && forall t | t in Successors(code[k].instr, k) :: t < |code|
    {
      if k < |piece| {
        EmbedFits([], piece, Encode(Match), k) by { HeightNone(); }
        assert [] + piece + Encode(Match) == code;
        assert FitsAt(piece, k);
      } else {
        MatchFits(code, k);
      }
    }
  }

  lemma {:induction false} MatchFits(code: Code, k: nat)
    requires k < |code| && code[k] == Op(Match)
    ensures FitsAt(code, k) && Successors(code[k].instr, k) == []
  {
  }

  // For every pattern the compiler emits code whose jumps all land on instructions inside it.
  lemma {:induction false} ProgramStatic(n: Node, sticky: bool)
    requires WellFormed(n)
    ensures Static(Program(n, sticky), |NoCaptures(n)|)
  {
    hide Static, Fits, Sane;
    PrefixStatic(n, sticky, |NoCaptures(n)|);
    MatchEnds((if sticky then [] else SEARCH_PREFIX) + Compile(Group(n), 0), |NoCaptures(n)|);
  }

  // a thread at an instruction, with the scanned stack height and all registers
  predicate ThreadOK(code: Code, inp: Input, ncaps: nat, t: Thread) {
    t.pc < |code| && code[t.pc].Op? && |t.stack| == Height(code[..t.pc])
    && t.pos <= |inp.units| && |t.caps| == ncaps
  }

  predicate EntryOK(code: Code, inp: Input, ncaps: nat, e: Entry) {
    match e
    case Branch(t) => ThreadOK(code, inp, ncaps, t)
    case Ahead(t, _) => ThreadOK(code, inp, ncaps, t)
    case Greedy(t, count) =>
      0 < t.pc && ThreadOK(code, inp, ncaps, t.(pc := t.pc - 1)) && code[t.pc - 1].instr.SimpleGreedyQuant?
      && count > 0 && StepBack(inp, t.pos, count * code[t.pc - 1].instr.count).Some?
  }

  predicate AllOK(code: Code, inp: Input, ncaps: nat, ss: seq<Entry>) {
    forall i | 0 <= i < |ss| :: EntryOK(code, inp, ncaps, ss[i])
  }

  // a thread one instruction after t
  predicate Follower(code: Code, inp: Input, t: Thread, t': Thread)
    requires t.pc < |code| && code[t.pc].Op?
  {
    t'.pc in Successors(code[t.pc].instr, t.pc) && |t'.stack| == |t.stack| + Delta(code[t.pc])
    && t'.pos <= |inp.units| && |t'.caps| == |t.caps|
  }

  lemma {:induction false} FollowerOK(code: Code, inp: Input, ncaps: nat, t: Thread, t': Thread)
    requires Static(code, ncaps) && ThreadOK(code, inp, ncaps, t) && Follower(code, inp, t, t')
    ensures ThreadOK(code, inp, ncaps, t')
  {
    hide Height, Successors, Delta;
    assert FitsAt(code, t.pc);
  }

  // Every instruction but the greedy quantifier leads to followers or stops.
  lemma {:induction false} ExecFollows(code: Code, inp: Input, ncaps: nat, t: Thread)
    requires ThreadOK(code, inp, ncaps, t) && SaneAt(code, t.pc, ncaps)
    requires UsesTop(code[t.pc].instr) ==> |t.stack| >= 1
    requires forall u | u in Successors(code[t.pc].instr, t.pc) :: 0 <= u
    requires !code[t.pc].instr.SimpleGreedyQuant? && !IsCharTest(code[t.pc].instr)
             && InstrAnchor(code[t.pc].instr).None?
    ensures match Exec(code, inp, t)
            case Push(es) => forall i | 0 <= i < |es| :: !es[i].Greedy? && Follower(code, inp, t, es[i].t)
            case Accept(caps) => |caps| == ncaps
            case Fault => false
  {
    hide CharPasses, Holds, CountGreedy, GetChar, Height, Reset;
    var i := code[t.pc].instr;
    assert Successors(i, t.pc) == [] || t.pc + Size(i) in Successors(i, t.pc) || i.Goto?;
    if i.Goto? {
      assert Successors(i, t.pc)[0] in Successors(i, t.pc);
    } else if |Successors(i, t.pc)| == 2 {
      assert Successors(i, t.pc)[1] in Successors(i, t.pc);
    }
  }

  lemma {:induction false} TestFollows(code: Code, inp: Input, ncaps: nat, t: Thread)
    requires ThreadOK(code, inp, ncaps, t)
    requires IsCharTest(code[t.pc].instr) || InstrAnchor(code[t.pc].instr).Some?
    ensures Exec(code, inp, t).Push?
    ensures forall i | 0 <= i < |Exec(code, inp, t).entries| ::
              !Exec(code, inp, t).entries[i].Greedy? && Follower(code, inp, t, Exec(code, inp, t).entries[i].t)
  {
    hide CharPasses, Holds, CountGreedy, Height;
  }

  // One run of a simple body: it stops without a fault, and reads its characters.
  lemma {:induction false} BodyRuns(code: Code, inp: Input, k: nat, count: nat, pos: nat)
    requires Valid(inp) && pos <= |inp.units| && HasBody(code, k, count)
    ensures SimpleRun(code, inp, k + 17, pos) != Unfit && count > 0
    ensures SimpleRun(code, inp, k + 17, pos).Hit? ==>
              var next := SimpleRun(code, inp, k + 17, pos).pos;
              pos < next <= |inp.units| && Forward(inp, pos, count) == Some(next)
  {
    hide Compile, At, SimpleCount, Matches, WellFormed, Groups, Forward;
    var b: Node, cap: nat :| BodyBehind(code, k, count, b, cap);
    var s := St(pos, seq(2 * (cap + Groups(b)), _ => -1));
    assert |s.caps| == 2 * (cap + Groups(b));
    SimpleSound(b, cap, code, inp, k + 17, s);
    if Matches(b, cap, inp, s) != [] {
      ForwardBounds(inp, pos, count);
    }
  }

  lemma {:induction false} CountRuns(code: Code, inp: Input, k: nat, count: nat, pos: nat, max: nat, q: nat)
    requires Valid(inp) && pos <= |inp.units| && HasBody(code, k, count)
    ensures var r := CountGreedy(code, inp, k + 17, pos, max, q);
            r.Some? && q <= r.value.0 && Forward(inp, pos, (r.value.0 - q) * count) == Some(r.value.1)
            && r.value.1 <= |inp.units|
    decreases |inp.units| - pos
  {
    hide HasBody, SimpleRun, Forward;
    BodyRuns(code, inp, k, count, pos);
    ForwardNone(inp, pos);
    var run := SimpleRun(code, inp, k + 17, pos);
    if run.Hit? {
      if !(q + 1 >= max && max != INT32_MAX) {
        CountRuns(code, inp, k, count, run.pos, max, q + 1);
        var done := CountGreedy(code, inp, k + 17, run.pos, max, q + 1).value.0;
        ForwardAdd(inp, pos, count, (done - (q + 1)) * count);
        assert count + (done - (q + 1)) * count == (done - q) * count;
      } else {
        assert (q + 1 - q) * count == count;
      }
    } else {
      assert 0 * count == 0;
    }
  }

  lemma {:induction false} ForwardNone(inp: Input, pos: nat)
    ensures Forward(inp, pos, 0) == Some(pos)
  {
  }

  lemma {:induction false} StepBackLess(inp: Input, pos: nat, k: nat, m: nat)
    requires pos <= |inp.units| && k <= m && StepBack(inp, pos, m).Some?
    ensures StepBack(inp, pos, k).Some? && StepBack(inp, pos, k).value <= pos
    decreases k
  {
    if k > 0 {
      StepBackLess(inp, PrevChar(inp, pos), k - 1, m - 1);
    }
  }

  lemma {:induction false} GreedySafe(code: Code, inp: Input, ncaps: nat, t: Thread)
    requires Static(code, ncaps) && ThreadOK(code, inp, ncaps, t) && Valid(inp)
    requires code[t.pc].instr.SimpleGreedyQuant?
    ensures Exec(code, inp, t).Push? && AllOK(code, inp, ncaps, Exec(code, inp, t).entries)
  {
    hide HasBody, Height, StepBack, Forward, CountGreedy, CharPasses, Holds;
    var i, k := code[t.pc].instr, t.pc;
    assert SaneAt(code, k, ncaps);
    CountRuns(code, inp, k, i.count, t.pos, i.max, 0);
    var (q, pos) := CountGreedy(code, inp, k + 17, t.pos, i.max, 0).value;
    var out := k + 17 + i.next;
    assert out == Successors(i, k)[1] && out in Successors(i, k);
    assert FitsAt(code, k);
    FollowerOK(code, inp, ncaps, t, t.(pc := out, pos := pos));
    BackDefined(inp, t.pos, q * i.count);
    if q > i.min {
      assert (q - i.min) * i.count <= q * i.count;
      StepBackLess(inp, pos, (q - i.min) * i.count, q * i.count);
    }
  }

  lemma {:induction false} ResumeSafe(code: Code, inp: Input, ncaps: nat, t: Thread, count: nat)
    requires Static(code, ncaps) && EntryOK(code, inp, ncaps, Greedy(t, count))
    ensures StepTop(code, inp, Greedy(t, count)).Push?
    ensures AllOK(code, inp, ncaps, StepTop(code, inp, Greedy(t, count)).entries)
  {
    hide Height, StepBack, Exec, SaneAt;
    var k := t.pc - 1;
    var i := code[k].instr;
    var out := k + 17 + i.next;
    assert out == Successors(i, k)[1] && out in Successors(i, k);
    assert FitsAt(code, k);
    assert count * i.count == i.count + (count - 1) * i.count;
    StepBackLess(inp, t.pos, i.count, count * i.count);
    StepBackAdd(inp, t.pos, i.count, (count - 1) * i.count);
    var pos := StepBack(inp, t.pos, i.count).value;
    FollowerOK(code, inp, ncaps, t.(pc := k), t.(pc := out, pos := pos));
  }

  lemma {:induction false} TopSafe(code: Code, inp: Input, ncaps: nat, e: Entry)
    requires Static(code, ncaps) && EntryOK(code, inp, ncaps, e) && Valid(inp)
    ensures match StepTop(code, inp, e)
            case Push(es) => AllOK(code, inp, ncaps, es)
            case Accept(caps) => |caps| == ncaps
            case Fault => false
  {
    hide Exec, Height, Successors, StepBack, Delta, Valid;
    match e
    case Branch(t) =>
      assert SaneAt(code, t.pc, ncaps) && FitsAt(code, t.pc);
      if code[t.pc].instr.SimpleGreedyQuant? {
        GreedySafe(code, inp, ncaps, t);
      } else {
        if IsCharTest(code[t.pc].instr) || InstrAnchor(code[t.pc].instr).Some? {
          TestFollows(code, inp, ncaps, t);
        } else {
          ExecFollows(code, inp, ncaps, t);
        }
        if Exec(code, inp, t).Push? {
          FollowersOK(code, inp, ncaps, t, Exec(code, inp, t).entries);
        }
      }
    case Ahead(t, negative) =>
    case Greedy(t, count) => ResumeSafe(code, inp, ncaps, t, count);
  }

  lemma {:induction false} FollowersOK(code: Code, inp: Input, ncaps: nat, t: Thread, es: seq<Entry>)
    requires Static(code, ncaps) && ThreadOK(code, inp, ncaps, t)
    requires forall i | 0 <= i < |es| :: !es[i].Greedy? && Follower(code, inp, t, es[i].t)
    ensures AllOK(code, inp, ncaps, es)
  {
    hide Static, Follower, Height, StepBack;
    forall i | 0 <= i < |es| ensures EntryOK(code, inp, ncaps, es[i]) {
      FollowerOK(code, inp, ncaps, t, es[i].t);
    }
  }

  lemma {:induction false} UnwindSafe(code: Code, inp: Input, ncaps: nat, ss: seq<Entry>, caps: seq<int>)
    requires AllOK(code, inp, ncaps, ss) && |caps| == ncaps
    ensures match Unwind(ss, caps)
            case Active(ss') => AllOK(code, inp, ncaps, ss')
            case Halt(r) => r.Some? && |r.value| == ncaps
            case Abort => false
  {
    hide Height, StepBack;
    if ss != [] && !ss[|ss| - 1].Ahead? {
      UnwindSafe(code, inp, ncaps, ss[..|ss| - 1], caps);
    }
  }

  lemma {:induction false} StepSafe(code: Code, inp: Input, ncaps: nat, ss: seq<Entry>)
    requires Static(code, ncaps) && AllOK(code, inp, ncaps, ss) && Valid(inp)
    ensures match Step(code, inp, ss)
            case Active(ss') => AllOK(code, inp, ncaps, ss')
            case Halt(r) => r.Some? ==> |r.value| == ncaps
            case Abort => false
  {
    hide Static, EntryOK, StepTop, Unwind, Valid;
    if ss != [] {
      var rest := ss[..|ss| - 1];
      TopSafe(code, inp, ncaps, ss[|ss| - 1]);
      if StepTop(code, inp, ss[|ss| - 1]).Accept? {
        UnwindSafe(code, inp, ncaps, rest, StepTop(code, inp, ss[|ss| - 1]).caps);
      }
    }
  }

  lemma {:induction false} RunSafe(code: Code, inp: Input, ncaps: nat, ss: seq<Entry>, n: nat)
    requires Static(code, ncaps) && AllOK(code, inp, ncaps, ss) && Valid(inp)
    ensures match Run(code, inp, Active(ss), n)
            case Active(ss') => AllOK(code, inp, ncaps, ss')
            case Halt(r) => r.Some? ==> |r.value| == ncaps
            case Abort => false
    decreases n
  {
    hide Static, AllOK, Step, Valid;
    if n > 0 {
      StepSafe(code, inp, ncaps, ss);
      if Step(code, inp, ss).Active? {
        RunSafe(code, inp, ncaps, Step(code, inp, ss).ss, n - 1);
      } else {
        assert Run(code, inp, Step(code, inp, ss), n - 1) == Step(code, inp, ss);
      }
    }
  }

  // no prefix of the code is higher than the scan's maximum
  lemma {:induction false} HeightBelow(c: Code)
    ensures Height(c) <= MaxHeight(c)
  {
  }

  lemma {:induction false} MaxHeightGrows(c: Code, k: nat)
    requires k <= |c|
    ensures MaxHeight(c[..k]) <= MaxHeight(c)
  {
    if k < |c| {
      MaxHeightGrows(c[..|c| - 1], k);
      assert c[..|c| - 1][..k] == c[..k];
    } else {
      assert c[..k] == c;
    }
  }

  lemma {:induction false} MaxHeightBounds(c: Code, k: nat)
    requires k <= |c|
    ensures Height(c[..k]) <= MaxHeight(c)
  {
    HeightBelow(c[..k]);
    MaxHeightGrows(c, k);
  }

  function InstrOf(e: Entry): int {
    if e.Greedy? then e.t.pc - 1 else e.t.pc
  }

  // The static stack bound. For every pattern, input and number of steps, also when the run
  // never ends, the machine does not abort, and every thread it holds is at an instruction
  // with exactly the scanned stack height, within the size written in the header.
  lemma {:induction false} StackBound(n: Node, inp: Input, sticky: bool, p: nat, steps: nat)
    requires WellFormed(n) && Valid(inp) && p <= |inp.units|
    ensures var code := Program(n, sticky);
            match Run(code, inp, Active([Branch(Thread(0, p, NoCaptures(n), []))]), steps)
            case Active(ss) =>
              forall i | 0 <= i < |ss| ::
                var pc := InstrOf(ss[i]);
                0 <= pc < |code| && code[pc].Op? && |ss[i].t.stack| == Height(code[..pc]) <= MaxHeight(code)
            case Halt(_) => true
            case Abort => false
  {
    hide Program, Run, Valid, Height, MaxHeight, NoCaptures, Static, StepBack;
    var code, start := Program(n, sticky), [Branch(Thread(0, p, NoCaptures(n), []))];
    ProgramStatic(n, sticky);
    ProgramStarts(n, sticky);
    RunSafe(code, inp, |NoCaptures(n)|, start, steps);
    var c := Run(code, inp, Active(start), steps);
    if c.Active? {
      forall i | 0 <= i < |c.ss|
        ensures 0 <= InstrOf(c.ss[i]) < |code| && Height(code[..InstrOf(c.ss[i])]) <= MaxHeight(code)
      {
        assert EntryOK(code, inp, |NoCaptures(n)|, c.ss[i]);
        MaxHeightBounds(code, InstrOf(c.ss[i]));
      }
    }
  }

  lemma {:induction false} ProgramStarts(n: Node, sticky: bool)
    requires WellFormed(n)
    ensures Program(n, sticky) != [] && Program(n, sticky)[0].Op? && Height(Program(n, sticky)[..0]) == 0
  {
    hide Compile;
    assert Compile(Group(n), 0) == GroupCode(Compile(n, 1), 0) by { CompileGroup(n, 0); }
  }

  lemma {:induction false} CompileGroup(n: Node, cap: nat)
    requires WellFormed(n)
    ensures Compile(Group(n), cap) == GroupCode(Compile(n, cap + 1), cap)
  {
  }
}
