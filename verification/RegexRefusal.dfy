/** Which patterns the compiler refuses, in terms of the pattern: what does not fit the bytes of
    the header and of the class table. */
module RegexRefusal {
  import opened RegexSyntax
  import opened RegexCode
  import opened RegexCompiler
  import opened RegexLayout

  // how deep quantifiers are nested
  function Nesting(n: Node): nat {
    match n
    case Empty => 0
    case One(_) => 0
    case Check(_) => 0
    case Cat(l, r) => Greater(Nesting(l), Nesting(r))
    case Alt(l, r) => Greater(Nesting(l), Nesting(r))
    case Group(b) => Nesting(b)
    case Look(_, b) => Nesting(b)
    case Quant(b, _, _, _) => Nesting(b) + 1
  }

  function Greater(a: nat, b: nat): nat { if a < b then b else a }

  // the character classes, as lists of interval ends
  function Classes(n: Node): set<seq<nat>> {
    match n
    case Empty => {}
    case One(t) => if t.Class? then {t.points} else {}
    case Check(_) => {}
    case Cat(l, r) => Classes(l) + Classes(r)
    case Alt(l, r) => Classes(l) + Classes(r)
    case Group(b) => Classes(b)
    case Look(_, b) => Classes(b)
    case Quant(b, _, _, _) => Classes(b)
  }

  // more than 255 groups, the whole pattern among them, or a class of 65535 intervals
  ghost predicate TooLarge(n: Node) {
    1 + Groups(n) > 255 || exists c: seq<nat> :: c in Classes(n) && |c| / 2 >= 65535
  }

  // code that leaves the stack as it was and rises at most h above that
  predicate Rises(c: Code, h: nat) {
    Height(c) == 0 && MaxHeight(c) <= h
  }

  lemma {:induction false} MaxAppend(a: Code, b: Code)
    ensures MaxHeight(a + b) <= Greater(MaxHeight(a), if Height(a) + MaxHeight(b) < 0 then 0
              else Height(a) + MaxHeight(b))
  {
    if b == [] {
      assert a + b == a;
    } else {
      var c := a + b;
      assert c[..|c| - 1] == a + b[..|b| - 1];
      MaxAppend(a, b[..|b| - 1]);
      HeightAppend(a, b);
    }
  }

  lemma {:induction false} OneCell(c: Cell)
    ensures Height([c]) == Delta(c) && MaxHeight([c]) == if Delta(c) > 0 then Delta(c) else 0
  {
    var one := [c];
    assert one[..|one| - 1] == [] && one[|one| - 1] == c;
    assert Height([]) == 0 && MaxHeight([]) == 0;
    assert Height(one) == Height(one[..|one| - 1]) + Delta(one[|one| - 1]);
  }

  lemma {:induction false} MaxArgs(n: nat)
    ensures MaxHeight(Args(n)) == 0
  {
    if n > 0 {
      MaxArgs(n - 1);
      HeightArgs(n - 1);
      OneCell(Arg);
      MaxAppend([Arg], Args(n - 1));
    }
  }

  lemma {:induction false} MaxEncode(i: Instr)
    ensures Height(Encode(i)) == Delta(Op(i)) && MaxHeight(Encode(i)) <= Greater(0, if Delta(Op(i)) > 0 then 1 else 0)
  {
    HeightEncode(i);
    MaxArgs(Size(i) - 1);
    OneCell(Op(i));
    MaxAppend([Op(i)], Args(Size(i) - 1));
  }

  lemma {:induction false} RisesAppend(a: Code, b: Code, h: nat)
    requires Rises(a, h) && Rises(b, h)
    ensures Rises(a + b, h)
  {
    HeightAppend(a, b);
    MaxAppend(a, b);
  }

  lemma {:induction false} RisesInstr(i: Instr, h: nat)
    requires Delta(Op(i)) == 0
    ensures Rises(Encode(i), h)
  {
    MaxEncode(i);
  }

  lemma {:induction false} RisesAround(i: Instr, c: Code, j: Instr, h: nat)
    requires Delta(Op(i)) == 0 && Delta(Op(j)) == 0 && Rises(c, h)
    ensures Rises(Encode(i) + c + Encode(j), h)
  {
    hide Encode, Rises;
    RisesInstr(i, h);
    RisesInstr(j, h);
    RisesAppend(Encode(i), c, h);
    RisesAppend(Encode(i) + c, Encode(j), h);
  }

  // a push in front and a pop behind
  lemma {:induction false} RisesPushed(i: Instr, c: Code, j: Instr, h: nat)
    requires Delta(Op(i)) == 1 && Delta(Op(j)) == -1 && Rises(c, h)
    ensures Rises(Encode(i) + c + Encode(j), h + 1)
  {
    hide Encode;
    MaxEncode(i);
    MaxEncode(j);
    HeightAppend(Encode(i), c);
    MaxAppend(Encode(i), c);
    HeightAppend(Encode(i) + c, Encode(j));
    MaxAppend(Encode(i) + c, Encode(j));
  }

  lemma {:induction false} RisesMore(c: Code, h: nat)
    requires Rises(c, h)
    ensures Rises(c, h + 1)
  {
  }

  lemma {:induction false} RisesNothing(h: nat)
    ensures Rises([], h)
  {
  }

  lemma {:induction false} StarRises(c: Code, greedy: bool, check: bool, h: nat)
    requires Rises(c, h)
    ensures Rises(StarCode(c, greedy, check), h + 1)
  {
    hide Encode, Rises;
    if check {
      var i, p, j := SplitOver(greedy, |c| + 6), PushCharPos, BneCharPos(-(|c| + 11));
      RisesPushed(p, c, j, h);
      RisesInstr(i, h + 1);
      RisesAppend(Encode(i), Encode(p) + c + Encode(j), h + 1);
      Assoc4(Encode(i), Encode(p), c, Encode(j));
    } else {
      RisesMore(c, h);
      RisesAround(SplitOver(greedy, |c| + 5), c, Goto(-(|c| + 10)), h + 1);
    }
  }

  lemma {:induction false} UpToRises(c: Code, k: nat, greedy: bool, h: nat)
    requires Rises(c, h)
    ensures Rises(UpToCode(c, k, greedy), h + 1)
  {
    hide Encode, Rises;
    var p, i, j := PushI32(k), SplitOver(greedy, |c| + 5), Loop(-(|c| + 10));
    RisesAround(i, c, j, h);
    RisesPushed(p, Encode(i) + c + Encode(j), Drop, h);
    Assoc4(Encode(p), Encode(i), c, Encode(j));
  }

  lemma {:induction false} TimesRises(c: Code, k: nat, h: nat)
    requires Rises(c, h)
    ensures Rises(TimesCode(c, k), h + 1)
  {
    hide Encode, Rises;
    var p, j := PushI32(k), Loop(-(|c| + 5));
    RisesInstr(j, h);
    RisesAppend(c, Encode(j), h);
    RisesPushed(p, c + Encode(j), Drop, h);
    Assoc3(Encode(p), c, Encode(j));
  }

  lemma {:induction false} QuantRises(c: Code, cap: nat, groups: nat, min: nat, max: nat, greedy: bool, h: nat)
    requires Rises(c, h)
    ensures Rises(QuantCode(c, cap, groups, min, max, greedy), h + 1)
  {
    hide Encode, Rises, StarCode, UpToCode, TimesCode, SimpleCount, Advance;
    var check := greedy && Advance(c) != 1;
    RisesMore(c, h);
    RisesNothing(h + 1);
    StarRises(c, greedy, check, h);
    if greedy && max > 0 && SimpleCount(c) > 0 {
      RisesAround(SimpleGreedyQuant(|c| + 1, min, max, SimpleCount(c)), c, Match, h + 1);
    } else if min == 0 {
      ZeroRises(c, cap, groups, max, greedy, check, h);
    } else {
      SomeRises(c, min, max, greedy, check, h);
    }
  }

  lemma {:induction false} ZeroRises(c: Code, cap: nat, groups: nat, max: nat, greedy: bool, check: bool, h: nat)
    requires Rises(c, h)
    ensures Rises(ZeroCode(c, cap, groups, max, greedy, check), h + 1)
  {
    hide Encode, Rises, StarCode, UpToCode;
    RisesMore(c, h);
    RisesNothing(h + 1);
    StarRises(c, greedy, check, h);
    UpToRises(c, max, greedy, h);
    RisesInstr(SplitOver(greedy, |c|), h + 1);
    RisesAppend(Encode(SplitOver(greedy, |c|)), c, h + 1);
    var reset := ResetCode(cap, groups);
    if groups != 0 {
      RisesInstr(SaveReset(cap, cap + groups - 1), h + 1);
    }
    var loop := if max == 0 then [] else if max == 1 then OptionCode(c, greedy)
                else if max == INT32_MAX then StarCode(c, greedy, check) else UpToCode(c, max, greedy);
    RisesAppend(reset, loop, h + 1);
  }

  lemma {:induction false} SomeRises(c: Code, min: nat, max: nat, greedy: bool, check: bool, h: nat)
    requires Rises(c, h)
    ensures Rises(SomeCode(c, min, max, greedy, check), h + 1)
  {
    hide Encode, Rises, StarCode, UpToCode, TimesCode;
    RisesMore(c, h);
    RisesNothing(h + 1);
    if min == 1 && max == INT32_MAX && !check {
      RisesInstr(SplitBack(greedy, -(|c| + 5)), h + 1);
      RisesAppend(c, Encode(SplitBack(greedy, -(|c| + 5))), h + 1);
    } else {
      StarRises(c, greedy, check, h);
      TimesRises(c, min, h);
      if max > min {
        UpToRises(c, max - min, greedy, h);
      }
      var first := if min == 1 then c else TimesCode(c, min);
      var second := if max == INT32_MAX then StarCode(c, greedy, check)
                    else if max > min then UpToCode(c, max - min, greedy) else [];
      RisesAppend(first, second, h + 1);
    }
  }

  lemma {:induction false} RisesUpTo(c: Code, h: nat, k: nat)
    requires Rises(c, h) && h <= k
    ensures Rises(c, k)
  {
  }

  // Nested quantifiers are all that the stack is for.
  lemma {:induction false} CompileRises(n: Node, cap: nat)
    requires WellFormed(n)
    ensures Rises(Compile(n, cap), Nesting(n))
  {
    hide Encode, Rises, QuantCode, TestInstr;
    var h := Nesting(n);
    match n
    case Empty => RisesNothing(h);
    case One(t) => RisesTest(t, h);
    case Check(a) => RisesInstr(AnchorInstr(a), h);
    case Cat(l, r) =>
      CompileRises(l, cap);
      CompileRises(r, cap + Groups(l));
      RisesUpTo(Compile(l, cap), Nesting(l), h);
      RisesUpTo(Compile(r, cap + Groups(l)), Nesting(r), h);
      RisesAppend(Compile(l, cap), Compile(r, cap + Groups(l)), h);
    case Alt(l, r) =>
      var cl, cr := Compile(l, cap), Compile(r, cap + Groups(l));
      CompileRises(l, cap);
      CompileRises(r, cap + Groups(l));
      RisesUpTo(cl, Nesting(l), h);
      RisesUpTo(cr, Nesting(r), h);
      RisesAround(SplitNextFirst(|cl| + 5), cl, Goto(|cr|), h);
      RisesAppend(Encode(SplitNextFirst(|cl| + 5)) + cl + Encode(Goto(|cr|)), cr, h);
    case Group(b) =>
      CompileRises(b, cap + 1);
      RisesAround(SaveStart(cap), Compile(b, cap + 1), SaveEnd(cap), h);
    case Look(negative, b) =>
      CompileRises(b, cap);
      RisesAround(LookInstr(negative, |Compile(b, cap)| + 1), Compile(b, cap), Match, h);
    case Quant(b, min, max, greedy) =>
      CompileRises(b, cap);
      QuantRises(Compile(b, cap), cap, Groups(b), min, max, greedy, Nesting(b));
  }

  lemma {:induction false} RisesTest(t: RegexSyntax.CharTest, h: nat)
    requires WellFormed(One(t))
    ensures Rises(Encode(TestInstr(t)), h)
  {
    hide Encode, Rises;
    assert Delta(Op(TestInstr(t))) == 0;
    RisesInstr(TestInstr(t), h);
  }

  lemma {:induction false} ProgramRises(n: Node, sticky: bool)
    requires WellFormed(n)
    ensures MaxHeight(Program(n, sticky)) <= Nesting(n)
  {
    hide Encode, Rises, Compile;
    var h := Nesting(n);
    GroupNesting(n);
    CompileRises(Group(n), 0);
    RisesNothing(h);
    RisesInstr(Any, h);
    RisesAround(SplitGotoFirst(6), Encode(Any), Goto(-11), h);
    RisesInstr(Match, h);
    var prefix := if sticky then [] else SEARCH_PREFIX;
    RisesAppend(prefix, Compile(Group(n), 0), h);
    RisesAppend(prefix + Compile(Group(n), 0), Encode(Match), h);
    RisesMeans(Program(n, sticky), h);
  }

  lemma {:induction false} GroupNesting(n: Node)
    requires WellFormed(n)
    ensures WellFormed(Group(n)) && Nesting(Group(n)) == Nesting(n)
  {
  }

  lemma {:induction false} RisesMeans(c: Code, h: nat)
    requires Rises(c, h)
    ensures MaxHeight(c) <= h
  {
  }
}
