/** Which patterns consume: what the pattern says, what re_check_advance concludes from the
    code, and what it means for the matches. */
module RegexAdvance {
  import opened RegexInput
  import opened RegexSyntax
  import opened RegexCode
  import opened RegexMatcher
  import opened RegexCompiler

  // every match of the pattern consumes at least one character
  predicate MustAdvance(n: Node) {
    match n
    case Empty => false
    case One(_) => true
    case Check(_) => false
    case Cat(l, r) => MustAdvance(l) || MustAdvance(r)
    case Alt(l, r) => MustAdvance(l) && MustAdvance(r)
    case Group(b) => MustAdvance(b)
    case Look(_, _) => false
    case Quant(b, min, _, _) => min > 0 && MustAdvance(b)
  }

  // no quantifier takes the fast path for simple bodies
  ghost predicate Slow(n: Node)
    requires WellFormed(n)
  {
    match n
    case Empty => true
    case One(_) => true
    case Check(_) => true
    case Cat(l, r) => Slow(l) && Slow(r)
    case Alt(l, r) => Slow(l) && Slow(r)
    case Group(b) => Slow(b)
    case Look(_, b) => Slow(b)
    case Quant(b, _, max, greedy) =>
      Slow(b) && (greedy && max > 0 ==> forall cap: nat :: SimpleCount(Compile(b, cap)) <= 0)
  }

  // Positions the matching may start from: character boundaries, and any without the fast path.
  ghost predicate Steady(n: Node, inp: Input, p: nat)
    requires WellFormed(n)
  {
    p <= |inp.units| && (Boundary(inp, p) || Slow(n))
  }

  lemma {:induction false} SteadyParts(n: Node, inp: Input, p: nat)
    requires WellFormed(n) && Steady(n, inp, p)
    ensures n.Cat? || n.Alt? ==> Steady(n.left, inp, p) && Steady(n.right, inp, p)
    ensures n.Group? || n.Look? || n.Quant? ==> Steady(n.body, inp, p)
  {
    hide Boundary, Compile, SimpleCount;
  }

  // on this input no match from such a position is empty
  ghost predicate Consumes(b: Node, inp: Input)
    requires WellFormed(b)
  {
    forall cap: nat, s: St | Ready(b, cap, inp, s) && Steady(b, inp, s.pos) :: After(Matches(b, cap, inp, s), s.pos)
  }

  // On this input the bodies of lazy unbounded quantifiers consume; the compiler guards only
  // the greedy ones.
  ghost predicate Productive(n: Node, inp: Input)
    requires WellFormed(n)
  {
    match n
    case Empty => true
    case One(_) => true
    case Check(_) => true
    case Cat(l, r) => Productive(l, inp) && Productive(r, inp)
    case Alt(l, r) => Productive(l, inp) && Productive(r, inp)
    case Group(b) => Productive(b, inp)
    case Look(_, b) => Productive(b, inp)
    case Quant(b, _, max, greedy) => Productive(b, inp) && (!greedy && max == INT32_MAX ==> Consumes(b, inp))
  }

  lemma {:induction false} AdvanceAppend(a: Code, b: Code)
    ensures Advance(a + b) == if Advance(a) == -2 then Advance(b) else Advance(a)
  {
    if a == [] {
      assert a + b == b;
    } else {
      assert (a + b)[1..] == a[1..] + b;
      AdvanceAppend(a[1..], b);
    }
  }

  lemma {:induction false} AdvanceArgs(n: nat)
    ensures Advance(Args(n)) == -2
  {
    if n > 0 {
      assert Args(n)[1..] == Args(n - 1);
      AdvanceArgs(n - 1);
    }
  }

  lemma {:induction false} AdvanceEncode(i: Instr)
    ensures Advance(Encode(i)) == if CharLike(i) then 1 else if NoEffect(i) then -2 else 0
  {
    assert Encode(i)[1..] == Args(Size(i) - 1);
    AdvanceArgs(Size(i) - 1);
  }

  // an instruction in front of some code
  lemma {:induction false} AdvanceCons(i: Instr, c: Code)
    ensures Advance(Encode(i) + c) == if CharLike(i) then 1 else if NoEffect(i) then Advance(c) else 0
  {
    AdvanceAppend(Encode(i), c);
    AdvanceEncode(i);
  }

  // Loops that start with a split are never found consuming.
  lemma {:induction false} AdvanceStar(c: Code, greedy: bool, check: bool)
    ensures Advance(StarCode(c, greedy, check)) == 0
  {
    hide Encode, Advance;
    if check {
      AdvanceStarChecked(SplitOver(greedy, |c| + 6), c, BneCharPos(-(|c| + 11)));
    } else {
      AdvanceStarPlain(SplitOver(greedy, |c| + 5), c, Goto(-(|c| + 10)));
    }
  }

  lemma {:induction false} AdvanceStarPlain(i: Instr, c: Code, j: Instr)
    requires !CharLike(i) && !NoEffect(i)
    ensures Advance(Encode(i) + c + Encode(j)) == 0
  {
    hide Encode, Advance;
    Assoc3(Encode(i), c, Encode(j));
    AdvanceCons(i, c + Encode(j));
  }

  lemma {:induction false} AdvanceStarChecked(i: Instr, c: Code, j: Instr)
    requires !CharLike(i) && !NoEffect(i)
    ensures Advance(Encode(i) + Encode(PushCharPos) + c + Encode(j)) == 0
  {
    hide Encode, Advance;
    Assoc4(Encode(i), Encode(PushCharPos), c, Encode(j));
    AdvanceCons(i, Encode(PushCharPos) + c + Encode(j));
  }

  lemma {:induction false} AdvanceUpTo(c: Code, k: nat, greedy: bool)
    ensures Advance(UpToCode(c, k, greedy)) == 0
  {
    var tail := c + Encode(Loop(-(|c| + 10))) + Encode(Drop);
    assert UpToCode(c, k, greedy) == Encode(PushI32(k)) + (Encode(SplitOver(greedy, |c| + 5)) + tail);
    AdvanceCons(PushI32(k), Encode(SplitOver(greedy, |c| + 5)) + tail);
    AdvanceCons(SplitOver(greedy, |c| + 5), tail);
  }

  lemma {:induction false} AdvanceTimes(c: Code, k: nat)
    ensures Advance(TimesCode(c, k)) == if Advance(c) == -2 then 0 else Advance(c)
  {
    var tail := Encode(Loop(-(|c| + 5))) + Encode(Drop);
    assert TimesCode(c, k) == Encode(PushI32(k)) + (c + tail);
    AdvanceCons(PushI32(k), c + tail);
    AdvanceAppend(c, tail);
    AdvanceCons(Loop(-(|c| + 5)), Encode(Drop));
  }

  lemma {:induction false} AdvanceSimple(c: Code, min: nat, max: nat)
    requires SimpleCount(c) > 0
    ensures Advance(SimpleCode(c, min, max)) == 0
  {
    var i := SimpleGreedyQuant(|c| + 1, min, max, SimpleCount(c));
    Assoc3(Encode(i), c, Encode(Match));
    AdvanceCons(i, c + Encode(Match));
  }

  // Only a quantifier that must run a consuming body can be found consuming.
  lemma {:induction false} AdvanceQuant(c: Code, cap: nat, groups: nat, min: nat, max: nat, greedy: bool)
    requires min <= max
    ensures Advance(QuantCode(c, cap, groups, min, max, greedy)) == 1 ==> min > 0 && Advance(c) == 1
  {
    var check := greedy && Advance(c) != 1;
    if greedy && max > 0 && SimpleCount(c) > 0 {
      AdvanceSimple(c, min, max);
    } else if min == 0 {
      AdvanceFromZero(c, cap, groups, max, greedy, check);
    } else if min == 1 && max == INT32_MAX && !check {
      AdvanceAppend(c, Encode(SplitBack(greedy, -(|c| + 5))));
      AdvanceEncode(SplitBack(greedy, -(|c| + 5)));
    } else {
      AdvanceFromSome(c, min, max, greedy, check);
    }
  }

  lemma {:induction false} AdvanceFromZero(c: Code, cap: nat, groups: nat, max: nat, greedy: bool, check: bool)
    ensures var loop := if max == 0 then [] else if max == 1 then OptionCode(c, greedy)
                        else if max == INT32_MAX then StarCode(c, greedy, check) else UpToCode(c, max, greedy);
            Advance(ResetCode(cap, groups) + loop) != 1
  {
    var loop := if max == 0 then [] else if max == 1 then OptionCode(c, greedy)
                else if max == INT32_MAX then StarCode(c, greedy, check) else UpToCode(c, max, greedy);
    AdvanceStar(c, greedy, check);
    AdvanceUpTo(c, max, greedy);
    AdvanceCons(SplitOver(greedy, |c|), c);
    assert Advance(loop) != 1;
    AdvanceAppend(ResetCode(cap, groups), loop);
    if groups != 0 {
      AdvanceEncode(SaveReset(cap, cap + groups - 1));
    }
  }

  lemma {:induction false} AdvanceFromSome(c: Code, min: nat, max: nat, greedy: bool, check: bool)
    requires 0 < min <= max
    ensures var first := if min == 1 then c else TimesCode(c, min);
            var second := if max == INT32_MAX then StarCode(c, greedy, check)
                          else if max > min then UpToCode(c, max - min, greedy) else [];
            Advance(first + second) == 1 ==> Advance(c) == 1
  {
    hide Advance, TimesCode, StarCode, UpToCode;
    var first := if min == 1 then c else TimesCode(c, min);
    var second := if max == INT32_MAX then StarCode(c, greedy, check)
                  else if max > min then UpToCode(c, max - min, greedy) else [];
    AdvanceTimes(c, min);
    AdvanceSecond(c, min, max, greedy, check);
    AdvanceAppend(first, second);
  }

  lemma {:induction false} AdvanceSecond(c: Code, min: nat, max: nat, greedy: bool, check: bool)
    ensures Advance(if max == INT32_MAX then StarCode(c, greedy, check)
                    else if max > min then UpToCode(c, max - min, greedy) else []) != 1
  {
    AdvanceNone();
    hide Advance, StarCode, UpToCode;
    AdvanceStar(c, greedy, check);
    if max > min {
      AdvanceUpTo(c, max - min, greedy);
    }
  }

  lemma {:induction false} AdvanceNone()
    ensures Advance([]) == -2
  {
  }

  lemma {:induction false} AdvanceFork(i: Instr, a: Code, j: Instr, b: Code)
    requires !CharLike(i) && !NoEffect(i)
    ensures Advance(Encode(i) + a + Encode(j) + b) == 0
  {
    AdvanceCons(i, a + Encode(j) + b);
    Assoc4(Encode(i), a, Encode(j), b);
  }

  lemma {:induction false} AdvanceBracket(i: Instr, c: Code, j: Instr)
    requires !CharLike(i) && !CharLike(j)
    ensures Advance(Encode(i) + c + Encode(j)) == 1 ==> NoEffect(i) && Advance(c) == 1
  {
    Assoc3(Encode(i), c, Encode(j));
    AdvanceCons(i, c + Encode(j));
    AdvanceAppend(c, Encode(j));
    AdvanceEncode(j);
  }

  lemma {:induction false} AdvanceAlt(cl: Code, cr: Code)
    ensures Advance(AltCode(cl, cr)) == 0
  {
    AdvanceFork(SplitNextFirst(|cl| + 5), cl, Goto(|cr|), cr);
  }

  lemma {:induction false} AdvanceLook(c: Code, negative: bool)
    ensures Advance(LookCode(c, negative)) != 1
  {
    AdvanceBracket(LookInstr(negative, |c| + 1), c, Match);
  }

  lemma {:induction false} AdvanceGroup(c: Code, cap: nat)
    ensures Advance(GroupCode(c, cap)) == 1 ==> Advance(c) == 1
  {
    AdvanceBracket(SaveStart(cap), c, SaveEnd(cap));
  }

  // code found consuming comes from a consuming pattern
  predicate Sound(n: Node, cap: nat)
    requires WellFormed(n)
  {
    Advance(Compile(n, cap)) == 1 ==> MustAdvance(n)
  }

  lemma {:induction false} SoundLeaf(n: Node, cap: nat)
    requires WellFormed(n) && (n.Empty? || n.One? || n.Check?)
    ensures Sound(n, cap)
  {
    if n.Check? {
      AdvanceEncode(AnchorInstr(n.anchor));
    }
  }

  lemma {:induction false} SubWellFormed(n: Node)
    requires WellFormed(n)
    ensures n.Cat? || n.Alt? ==> WellFormed(n.left) && WellFormed(n.right)
    ensures n.Group? || n.Look? || n.Quant? ==> WellFormed(n.body)
  {
  }

  lemma {:induction false} SoundCat(l: Node, r: Node, cap: nat)
    requires WellFormed(Cat(l, r)) && Sound(l, cap) && Sound(r, cap + Groups(l))
    ensures Sound(Cat(l, r), cap)
  {
    hide Compile, Advance;
    CompileCat(l, r, cap);
    AdvanceAppend(Compile(l, cap), Compile(r, cap + Groups(l)));
  }

  lemma {:induction false} SoundAlt(l: Node, r: Node, cap: nat)
    requires WellFormed(Alt(l, r))
    ensures Sound(Alt(l, r), cap)
  {
    AdvanceAlt(Compile(l, cap), Compile(r, cap + Groups(l)));
  }

  lemma {:induction false} SoundGroup(b: Node, cap: nat)
    requires WellFormed(b) && Sound(b, cap + 1)
    ensures Sound(Group(b), cap)
  {
    AdvanceGroup(Compile(b, cap + 1), cap);
  }

  lemma {:induction false} SoundLook(negative: bool, b: Node, cap: nat)
    requires WellFormed(b)
    ensures Sound(Look(negative, b), cap)
  {
    AdvanceLook(Compile(b, cap), negative);
  }

  lemma {:induction false} SoundQuant(b: Node, min: nat, max: nat, greedy: bool, cap: nat)
    requires WellFormed(Quant(b, min, max, greedy)) && Sound(b, cap)
    ensures Sound(Quant(b, min, max, greedy), cap)
  {
    AdvanceQuant(Compile(b, cap), cap, Groups(b), min, max, greedy);
  }

  lemma {:induction false} CompileSound(n: Node, cap: nat)
    requires WellFormed(n)
    ensures Sound(n, cap)
  {
    hide Sound, WellFormed, Groups;
    SubWellFormed(n);
    match n
    case Empty => SoundLeaf(n, cap);
    case One(_) => SoundLeaf(n, cap);
    case Check(_) => SoundLeaf(n, cap);
    case Cat(l, r) =>
      CompileSound(l, cap);
      CompileSound(r, cap + Groups(l));
      SoundCat(l, r, cap);
    case Alt(l, r) => SoundAlt(l, r, cap);
    case Group(b) =>
      CompileSound(b, cap + 1);
      SoundGroup(b, cap);
    case Look(negative, b) => SoundLook(negative, b, cap);
    case Quant(b, min, max, greedy) =>
      CompileSound(b, cap);
      SoundQuant(b, min, max, greedy, cap);
  }

  // all results lie strictly after a position
  predicate After(rs: seq<St>, from: nat) {
    forall i | 0 <= i < |rs| :: from < rs[i].pos
  }

  lemma {:induction false} MatchAllAfter(n: Node, cap: nat, inp: Input, from: nat, ncaps: nat, rs: seq<St>)
    requires Later(rs, inp, from, ncaps) && 2 * (cap + Groups(n)) <= ncaps && After(rs, from)
    ensures After(MatchAll(n, cap, inp, from, ncaps, rs), from)
  {
    if rs != [] {
      MatchAllAfter(n, cap, inp, from, ncaps, rs[1..]);
    }
  }

  lemma {:induction false} RepeatAllAfter(b: Node, cap: nat, inp: Input, rep: Rep, greedy: bool, low: nat, ncaps: nat,
                                          rs: seq<St>)
    requires Later(rs, inp, low, ncaps) && 2 * (cap + Groups(b)) <= ncaps && low <= |inp.units| && After(rs, low)
    ensures After(RepeatAll(b, cap, inp, rep, greedy, None, low, ncaps, rs), low)
  {
    if rs != [] {
      RepeatAllAfter(b, cap, inp, rep, greedy, low, ncaps, rs[1..]);
    }
  }

  lemma {:induction false} ClosedAfter(rs: seq<St>, group: nat, inp: Input, from: nat, ncaps: nat)
    requires 2 * group + 1 < ncaps && Later(rs, inp, from, ncaps) && After(rs, from)
    ensures After(Closed(rs, group, inp, from, ncaps), from)
  {
    if rs != [] {
      ClosedAfter(rs[1..], group, inp, from, ncaps);
    }
  }

  // Consuming patterns do consume, in every match.
  lemma {:induction false} MustAdvanceSound(n: Node, cap: nat, inp: Input, s: St)
    requires MustAdvance(n) && Ready(n, cap, inp, s)
    ensures After(Matches(n, cap, inp, s), s.pos)
    decreases n, 0
  {
    hide Boundary, Holds, Passes;
    match n
    case One(_) =>
    case Cat(l, r) =>
      if MustAdvance(l) {
        MustAdvanceSound(l, cap, inp, s);
        MatchAllAfter(r, cap + Groups(l), inp, s.pos, |s.caps|, Matches(l, cap, inp, s));
      } else {
        MustAdvanceAll(r, cap + Groups(l), inp, s.pos, |s.caps|, Matches(l, cap, inp, s));
      }
    case Alt(l, r) =>
      MustAdvanceSound(l, cap, inp, s);
      MustAdvanceSound(r, cap + Groups(l), inp, s);
    case Group(b) =>
      MustAdvanceSound(b, cap + 1, inp, Opened(s, cap));
      ClosedAfter(Matches(b, cap + 1, inp, Opened(s, cap)), cap, inp, s.pos, |s.caps|);
    case Quant(b, min, max, greedy) =>
      MustAdvanceSound(b, cap, inp, s);
      RepeatAllAfter(b, cap, inp, Times(min - 1), greedy, s.pos, |s.caps|, Matches(b, cap, inp, s));
      RepeatAllAfter(b, cap, inp, Rest(min, max), greedy, s.pos, |s.caps|, Repeat(b, cap, inp, Times(min), greedy, s));
  }

  lemma {:induction false} MustAdvanceAll(n: Node, cap: nat, inp: Input, from: nat, ncaps: nat, rs: seq<St>)
    requires MustAdvance(n) && Later(rs, inp, from, ncaps) && 2 * (cap + Groups(n)) <= ncaps
    ensures After(MatchAll(n, cap, inp, from, ncaps, rs), from)
    decreases n, 1, |rs|
  {
    if rs != [] {
      MustAdvanceSound(n, cap, inp, rs[0]);
      MustAdvanceAll(n, cap, inp, from, ncaps, rs[1..]);
    }
  }

  // re_check_advance is right: a pattern whose code it finds consuming has no empty match.
  lemma {:induction false} CheckAdvanceSound(n: Node, cap: nat)
    requires WellFormed(n)
    ensures Advance(Compile(n, cap)) == 1 ==>
              forall inp: Input, cap': nat, s: St | Ready(n, cap', inp, s) ::
                After(Matches(n, cap', inp, s), s.pos)
  {
    hide Compile, Advance, Matches, After;
    CompileSound(n, cap);
    if Advance(Compile(n, cap)) == 1 {
      forall inp: Input, cap': nat, s: St | Ready(n, cap', inp, s)
        ensures After(Matches(n, cap', inp, s), s.pos)
      {
        MustAdvanceSound(n, cap', inp, s);
      }
    }
  }

  lemma {:induction false} MustAdvanceConsumes(n: Node, inp: Input)
    requires WellFormed(n) && MustAdvance(n)
    ensures Consumes(n, inp)
  {
    hide Matches, After, Steady;
    forall cap: nat, s: St | Ready(n, cap, inp, s) && Steady(n, inp, s.pos)
      ensures After(Matches(n, cap, inp, s), s.pos)
    {
      MustAdvanceSound(n, cap, inp, s);
    }
  }

  // Where the matches end depends on where they start, not on the capture registers.

  predicate SameEnds(rs: seq<St>, qs: seq<St>) {
    |rs| == |qs| && forall i | 0 <= i < |rs| :: rs[i].pos == qs[i].pos
  }

  lemma {:induction false} SameEndsAppend(rs: seq<St>, qs: seq<St>, rs': seq<St>, qs': seq<St>)
    requires SameEnds(rs, qs) && SameEnds(rs', qs')
    ensures SameEnds(rs + rs', qs + qs')
  {
  }

  lemma {:induction false} MatchesEnd(n: Node, cap: nat, cap': nat, inp: Input, s: St, s': St)
    requires Ready(n, cap, inp, s) && Ready(n, cap', inp, s') && s.pos == s'.pos
    ensures SameEnds(Matches(n, cap, inp, s), Matches(n, cap', inp, s'))
    decreases n, 0
  {
    hide SameEnds, MatchAll, Repeat, RepeatAll, Boundary, Closed, Looked, Read, Holds, Reset, Rest, Later;
    match n
    case Empty => SameLeaf(n, cap, cap', inp, s, s');
    case One(t) => SameLeaf(n, cap, cap', inp, s, s');
    case Check(a) => SameLeaf(n, cap, cap', inp, s, s');
    case Cat(l, r) =>
      MatchesEnd(l, cap, cap', inp, s, s');
      MatchAllEnd(r, cap + Groups(l), cap' + Groups(l), inp, s.pos, |s.caps|, |s'.caps|, Matches(l, cap, inp, s),
                  Matches(l, cap', inp, s'));
    case Alt(l, r) =>
      MatchesEnd(l, cap, cap', inp, s, s');
      MatchesEnd(r, cap + Groups(l), cap' + Groups(l), inp, s, s');
      SameEndsAppend(Matches(l, cap, inp, s), Matches(l, cap', inp, s'), Matches(r, cap + Groups(l), inp, s),
                     Matches(r, cap' + Groups(l), inp, s'));
    case Group(b) =>
      MatchesEnd(b, cap + 1, cap' + 1, inp, Opened(s, cap), Opened(s', cap'));
      ClosedEnd(Matches(b, cap + 1, inp, Opened(s, cap)), Matches(b, cap' + 1, inp, Opened(s', cap')), cap, cap', inp,
                s.pos, |s.caps|, |s'.caps|);
    case Look(negative, b) =>
      MatchesEnd(b, cap, cap', inp, s, s');
      LookedEnd(negative, s, s', Matches(b, cap, inp, s), Matches(b, cap', inp, s'), inp);
    case Quant(b, min, max, greedy) => QuantEnd(b, min, max, greedy, cap, cap', inp, s, s');
  }

  lemma {:induction false} QuantEnd(b: Node, min: nat, max: nat, greedy: bool, cap: nat, cap': nat, inp: Input, s: St,
                                    s': St)
    requires Ready(b, cap, inp, s) && Ready(b, cap', inp, s') && s.pos == s'.pos
    ensures SameEnds(Matches(Quant(b, min, max, greedy), cap, inp, s),
                     Matches(Quant(b, min, max, greedy), cap', inp, s'))
    decreases b, 3
  {
    hide SameEnds, Repeat, RepeatAll, Boundary, Reset;
    var s0 := if min == 0 then s.(caps := Reset(s.caps, cap, Groups(b))) else s;
    var s0' := if min == 0 then s'.(caps := Reset(s'.caps, cap', Groups(b))) else s';
    RepeatEnd(b, cap, cap', inp, Times(min), greedy, s0, s0');
    RepeatAllEnd(b, cap, cap', inp, Rest(min, max), greedy, None, s.pos, |s.caps|, |s'.caps|,
                 Repeat(b, cap, inp, Times(min), greedy, s0), Repeat(b, cap', inp, Times(min), greedy, s0'));
  }

  lemma {:induction false} SameLeaf(n: Node, cap: nat, cap': nat, inp: Input, s: St, s': St)
    requires Ready(n, cap, inp, s) && Ready(n, cap', inp, s') && s.pos == s'.pos
    requires n.Empty? || n.One? || n.Check?
    ensures SameEnds(Matches(n, cap, inp, s), Matches(n, cap', inp, s'))
  {
    hide GetChar, Passes, Holds, Boundary;
  }

  lemma {:induction false} MatchAllEnd(n: Node, cap: nat, cap': nat, inp: Input, from: nat, ncaps: nat, ncaps': nat,
                                       rs: seq<St>, rs': seq<St>)
    requires Later(rs, inp, from, ncaps) && 2 * (cap + Groups(n)) <= ncaps
    requires Later(rs', inp, from, ncaps') && 2 * (cap' + Groups(n)) <= ncaps' && SameEnds(rs, rs')
    ensures SameEnds(MatchAll(n, cap, inp, from, ncaps, rs), MatchAll(n, cap', inp, from, ncaps', rs'))
    decreases n, 1, |rs|
  {
    hide Matches, Boundary;
    if rs != [] {
      MatchesEnd(n, cap, cap', inp, rs[0], rs'[0]);
      MatchAllEnd(n, cap, cap', inp, from, ncaps, ncaps', rs[1..], rs'[1..]);
      SameEndsAppend(Matches(n, cap, inp, rs[0]), Matches(n, cap', inp, rs'[0]),
                     MatchAll(n, cap, inp, from, ncaps, rs[1..]), MatchAll(n, cap', inp, from, ncaps', rs'[1..]));
    }
  }

  lemma {:induction false} ClosedEnd(rs: seq<St>, rs': seq<St>, group: nat, group': nat, inp: Input, from: nat,
                                     ncaps: nat, ncaps': nat)
    requires 2 * group + 1 < ncaps && Later(rs, inp, from, ncaps)
    requires 2 * group' + 1 < ncaps' && Later(rs', inp, from, ncaps') && SameEnds(rs, rs')
    ensures SameEnds(Closed(rs, group, inp, from, ncaps), Closed(rs', group', inp, from, ncaps'))
    decreases |rs|
  {
    hide Boundary;
    if rs != [] {
      ClosedEnd(rs[1..], rs'[1..], group, group', inp, from, ncaps, ncaps');
      SameEndsAppend([ClosedOne(rs[0], group)], [ClosedOne(rs'[0], group')],
                     Closed(rs[1..], group, inp, from, ncaps), Closed(rs'[1..], group', inp, from, ncaps'));
    }
  }

  lemma {:induction false} LookedEnd(negative: bool, s: St, s': St, inner: seq<St>, inner': seq<St>, inp: Input)
    requires s.pos <= |inp.units| && s.pos == s'.pos && SameEnds(inner, inner')
    requires Later(inner, inp, s.pos, |s.caps|) && Later(inner', inp, s'.pos, |s'.caps|)
    ensures SameEnds(Looked(negative, s, inner, inp), Looked(negative, s', inner', inp))
  {
    hide Boundary;
  }

  lemma {:induction false} RepeatEnd(b: Node, cap: nat, cap': nat, inp: Input, rep: Rep, greedy: bool, s: St, s': St)
    requires Ready(b, cap, inp, s) && Ready(b, cap', inp, s') && s.pos == s'.pos
    ensures SameEnds(Repeat(b, cap, inp, rep, greedy, s), Repeat(b, cap', inp, rep, greedy, s'))
    decreases b, 2, Rank(rep), |inp.units| - s.pos, 1, 0
  {
    hide Matches, RepeatAll, Boundary;
    if !Done(rep) {
      MatchesEnd(b, cap, cap', inp, s, s');
      var from := if rep.Star? then Some(s.pos) else None;
      var rs, rs' := Matches(b, cap, inp, s), Matches(b, cap', inp, s');
      RepeatAllEnd(b, cap, cap', inp, Next(rep), greedy, from, s.pos, |s.caps|, |s'.caps|, rs, rs');
      var more := RepeatAll(b, cap, inp, Next(rep), greedy, from, s.pos, |s.caps|, rs);
      var more' := RepeatAll(b, cap', inp, Next(rep), greedy, from, s'.pos, |s'.caps|, rs');
      if greedy {
        SameEndsAppend(more, more', [s], [s']);
      } else {
        SameEndsAppend([s], [s'], more, more');
      }
    }
  }

  lemma {:induction false} RepeatAllEnd(b: Node, cap: nat, cap': nat, inp: Input, rep: Rep, greedy: bool,
                                        from: Option<nat>, low: nat, ncaps: nat, ncaps': nat, rs: seq<St>, rs': seq<St>)
    requires Later(rs, inp, low, ncaps) && 2 * (cap + Groups(b)) <= ncaps && low <= |inp.units|
    requires Later(rs', inp, low, ncaps') && 2 * (cap' + Groups(b)) <= ncaps' && SameEnds(rs, rs')
    requires from.Some? ==> from.value == low
    ensures SameEnds(RepeatAll(b, cap, inp, rep, greedy, from, low, ncaps, rs),
                     RepeatAll(b, cap', inp, rep, greedy, from, low, ncaps', rs'))
    decreases b, 2, EachRank(rep), if from.Some? then |inp.units| - low else |inp.units| + 1, 0, |rs|
  {
    hide Repeat, Boundary;
    if rs != [] {
      var stop := Stalled(rep, from, rs[0]);
      if !stop {
        RepeatEnd(b, cap, cap', inp, rep, greedy, rs[0], rs'[0]);
      }
      RepeatAllEnd(b, cap, cap', inp, rep, greedy, from, low, ncaps, ncaps', rs[1..], rs'[1..]);
      SameEndsAppend(if stop then [rs[0]] else Repeat(b, cap, inp, rep, greedy, rs[0]),
                     if stop then [rs'[0]] else Repeat(b, cap', inp, rep, greedy, rs'[0]),
                     RepeatAll(b, cap, inp, rep, greedy, from, low, ncaps, rs[1..]),
                     RepeatAll(b, cap', inp, rep, greedy, from, low, ncaps', rs'[1..]));
    }
  }
}
