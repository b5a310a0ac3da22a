/** The loops of a quantifier: each piece of loop code leads from its first instruction to
    the results of the repetition it stands for, in order. */
module RegexLoops {
  import opened RegexInput
  import opened RegexSyntax
  import opened RegexCode
  import opened RegexMatcher
  import opened RegexCompiler
  import opened RegexVM
  import opened RegexSimulation
  import opened RegexAdvance

  // the running thread at pc with the state s
  function Here(pc: nat, s: St, stack: seq<nat>): seq<Entry> {
    [Branch(Thread(pc, s.pos, s.caps, stack))]
  }

  lemma {:induction false} EndsOne(pc: nat, s: St, stack: seq<nat>)
    ensures Ends(pc, [s], stack) == Here(pc, s, stack)
  {
    assert Ends(pc, [s][1..], stack) == [];
  }

  // an instruction that leads to other threads
  lemma {:induction false} RefinesExec(code: Code, inp: Input, pc: nat, s: St, stack: seq<nat>, es: seq<Entry>)
    requires Exec(code, inp, Thread(pc, s.pos, s.caps, stack)) == Push(es)
    ensures Refines(code, inp, es, Here(pc, s, stack))
  {
    hide Exec;
    assert Here(pc, s, stack)[..0] + es == es;
    RefinesStep(code, inp, es, Here(pc, s, stack));
  }

  predicate HasInstr(code: Code, pc: nat, i: Instr) {
    pc < |code| && code[pc] == Op(i)
  }

  lemma {:induction false} StepGoto(code: Code, inp: Input, pc: nat, s: St, stack: seq<nat>, to: nat)
    requires HasInstr(code, pc, Goto(to - (pc + 5))) && s.pos <= |inp.units|
    ensures Refines(code, inp, Here(to, s, stack), Here(pc, s, stack))
  {
    RefinesExec(code, inp, pc, s, stack, Here(to, s, stack));
  }

  // both ways out of a split, the preferred one on top
  function Ways(exit: nat, body: nat, greedy: bool, s: St, stack: seq<nat>): seq<Entry> {
    if greedy then Here(exit, s, stack) + Here(body, s, stack) else Here(body, s, stack) + Here(exit, s, stack)
  }

  lemma {:induction false} StepSplitOver(code: Code, inp: Input, pc: nat, s: St, stack: seq<nat>, greedy: bool,
                                         exit: nat)
    requires HasInstr(code, pc, SplitOver(greedy, exit - (pc + 5))) && s.pos <= |inp.units|
    ensures Refines(code, inp, Ways(exit, pc + 5, greedy, s, stack), Here(pc, s, stack))
  {
    RefinesExec(code, inp, pc, s, stack, Ways(exit, pc + 5, greedy, s, stack));
  }

  lemma {:induction false} StepSplitBack(code: Code, inp: Input, pc: nat, s: St, stack: seq<nat>, greedy: bool,
                                         body: nat)
    requires HasInstr(code, pc, SplitBack(greedy, body - (pc + 5))) && s.pos <= |inp.units|
    ensures Refines(code, inp, Ways(pc + 5, body, greedy, s, stack), Here(pc, s, stack))
  {
    RefinesExec(code, inp, pc, s, stack, Ways(pc + 5, body, greedy, s, stack));
  }

  lemma {:induction false} StepPushCharPos(code: Code, inp: Input, pc: nat, s: St, stack: seq<nat>)
    requires HasInstr(code, pc, PushCharPos) && s.pos <= |inp.units|
    ensures Refines(code, inp, Here(pc + 1, s, stack + [s.pos]), Here(pc, s, stack))
  {
    RefinesExec(code, inp, pc, s, stack, Here(pc + 1, s, stack + [s.pos]));
  }

  lemma {:induction false} StepPush(code: Code, inp: Input, pc: nat, s: St, stack: seq<nat>, v: nat)
    requires HasInstr(code, pc, PushI32(v)) && s.pos <= |inp.units|
    ensures Refines(code, inp, Here(pc + 5, s, stack + [v]), Here(pc, s, stack))
  {
    RefinesExec(code, inp, pc, s, stack, Here(pc + 5, s, stack + [v]));
  }

  lemma {:induction false} StepDrop(code: Code, inp: Input, pc: nat, s: St, stack: seq<nat>, v: nat)
    requires HasInstr(code, pc, Drop) && s.pos <= |inp.units|
    ensures Refines(code, inp, Here(pc + 1, s, stack), Here(pc, s, stack + [v]))
  {
    assert (stack + [v])[..|stack|] == stack;
    RefinesExec(code, inp, pc, s, stack + [v], Here(pc + 1, s, stack));
  }

  lemma {:induction false} StepBne(code: Code, inp: Input, pc: nat, s: St, stack: seq<nat>, v: nat, to: nat)
    requires HasInstr(code, pc, BneCharPos(to - (pc + 5))) && s.pos <= |inp.units|
    ensures Refines(code, inp, Here(if v != s.pos then to else pc + 5, s, stack), Here(pc, s, stack + [v]))
  {
    assert (stack + [v])[..|stack|] == stack;
    RefinesExec(code, inp, pc, s, stack + [v], Here(if v != s.pos then to else pc + 5, s, stack));
  }

  lemma {:induction false} StepLoop(code: Code, inp: Input, pc: nat, s: St, stack: seq<nat>, v: nat, to: nat)
    requires HasInstr(code, pc, Loop(to - (pc + 5))) && s.pos <= |inp.units| && v > 0
    ensures Refines(code, inp, Here(if v > 1 then to else pc + 5, s, stack + [v - 1]), Here(pc, s, stack + [v]))
  {
    assert (stack + [v])[|stack| := v - 1] == stack + [v - 1];
    RefinesExec(code, inp, pc, s, stack + [v], Here(if v > 1 then to else pc + 5, s, stack + [v - 1]));
  }

  // Taking the results of the body or leaving at once, in the order of preference.
  lemma {:induction false} Choice(code: Code, inp: Input, exit: nat, body: nat, greedy: bool, s: St, out: nat,
                                  outStack: seq<nat>, stack: seq<nat>, more: seq<St>)
    requires Refines(code, inp, Ends(out, more, outStack), Here(body, s, stack))
    requires Refines(code, inp, Here(out, s, outStack), Here(exit, s, stack))
    ensures Refines(code, inp, Ends(out, if greedy then more + [s] else [s] + more, outStack),
                    Ways(exit, body, greedy, s, stack))
  {
    hide Refines;
    var ends, leave := Ends(out, more, outStack), Here(out, s, outStack);
    EndsOne(out, s, outStack);
    if greedy {
      EndsAppend(out, more, [s], outStack);
      RefinesUnder(code, inp, leave, ends, Here(body, s, stack));
      RefinesOver(code, inp, leave, Here(exit, s, stack), Here(body, s, stack));
      RefinesTrans(code, inp, leave + ends, leave + Here(body, s, stack), Ways(exit, body, greedy, s, stack));
    } else {
      EndsAppend(out, [s], more, outStack);
      RefinesUnder(code, inp, ends, leave, Here(exit, s, stack));
      RefinesOver(code, inp, ends, Here(body, s, stack), Here(exit, s, stack));
      RefinesTrans(code, inp, ends + leave, ends + Here(exit, s, stack), Ways(exit, body, greedy, s, stack));
    }
  }

  // The code of n at pc leads from any state to the results of n behind it.
  ghost predicate SimAt(n: Node, cap: nat, code: Code, inp: Input, pc: nat, s: St, stack: seq<nat>)
    requires WellFormed(n) && Ready(n, cap, inp, s)
  {
    Refines(code, inp, Ends(pc + |Compile(n, cap)|, Matches(n, cap, inp, s), stack), Here(pc, s, stack))
  }

  ghost predicate Simulates(n: Node, cap: nat, code: Code, inp: Input, pc: nat)
    requires WellFormed(n)
  {
    forall s: St, stack: seq<nat> | Ready(n, cap, inp, s) && Steady(n, inp, s.pos) ::
      SimAt(n, cap, code, inp, pc, s, stack)
  }

  lemma {:induction false} SimulatesAt(n: Node, cap: nat, code: Code, inp: Input, pc: nat, s: St, stack: seq<nat>)
    requires WellFormed(n) && Simulates(n, cap, code, inp, pc) && Ready(n, cap, inp, s) && Steady(n, inp, s.pos)
    ensures Refines(code, inp, Ends(pc + |Compile(n, cap)|, Matches(n, cap, inp, s), stack), Here(pc, s, stack))
  {
    hide Refines, Matches, Compile, Boundary, Slow;
    assert SimAt(n, cap, code, inp, pc, s, stack);
  }

  // From r at `mid`, the repetition (or, if stalled, r itself) is reached at `out`.
  ghost predicate Repeats(b: Node, cap: nat, code: Code, inp: Input, rep: Rep, greedy: bool, from: Option<nat>,
                          mid: nat, midStack: seq<nat>, out: nat, outStack: seq<nat>, r: St)
    requires Ready(b, cap, inp, r)
  {
    Refines(code, inp, Ends(out, if Stalled(rep, from, r) then [r] else Repeat(b, cap, inp, rep, greedy, r), outStack),
            Here(mid, r, midStack))
  }

  lemma {:induction false} RepeatsAll(b: Node, cap: nat, code: Code, inp: Input, rep: Rep, greedy: bool,
                                      from: Option<nat>, low: nat, ncaps: nat, mid: nat, midStack: seq<nat>, out: nat,
                                      outStack: seq<nat>, rs: seq<St>)
    requires Later(rs, inp, low, ncaps) && 2 * (cap + Groups(b)) <= ncaps && low <= |inp.units|
    requires from.Some? ==> from.value == low
    requires forall i | 0 <= i < |rs| ::
               Repeats(b, cap, code, inp, rep, greedy, from, mid, midStack, out, outStack, rs[i])
    ensures Refines(code, inp, Ends(out, RepeatAll(b, cap, inp, rep, greedy, from, low, ncaps, rs), outStack),
                    Ends(mid, rs, midStack))
  {
    hide Refines, Repeat;
    if rs != [] {
      RepeatsAll(b, cap, code, inp, rep, greedy, from, low, ncaps, mid, midStack, out, outStack, rs[1..]);
      var first := if Stalled(rep, from, rs[0]) then [rs[0]] else Repeat(b, cap, inp, rep, greedy, rs[0]);
      assert Repeats(b, cap, code, inp, rep, greedy, from, mid, midStack, out, outStack, rs[0]);
      RefinesCons(code, inp, out, outStack, first, RepeatAll(b, cap, inp, rep, greedy, from, low, ncaps, rs[1..]),
                  mid, midStack, rs);
    } else {
      RefinesSame(code, inp, []);
    }
  }

  lemma {:induction false} RefinesSame(code: Code, inp: Input, ss: seq<Entry>)
    ensures Refines(code, inp, ss, ss)
  {
  }

  // the body once, then the repetition from each of its results
  lemma {:induction false} Iterate(b: Node, cap: nat, code: Code, inp: Input, rep: Rep, greedy: bool, from: Option<nat>,
                                   s: St, body: nat, stack: seq<nat>, out: nat, outStack: seq<nat>)
    requires WellFormed(b) && Ready(b, cap, inp, s) && Steady(b, inp, s.pos) && Simulates(b, cap, code, inp, body)
    requires from.Some? ==> from.value == s.pos
    requires forall i | 0 <= i < |Matches(b, cap, inp, s)| ::
               Repeats(b, cap, code, inp, rep, greedy, from, body + |Compile(b, cap)|, stack, out, outStack,
                       Matches(b, cap, inp, s)[i])
    ensures Refines(code, inp, Ends(out, RepeatAll(b, cap, inp, rep, greedy, from, s.pos, |s.caps|,
                                                   Matches(b, cap, inp, s)),
                                    outStack), Here(body, s, stack))
  {
    hide Refines, Repeat, RepeatAll, Matches, Compile;
    var rs, mid := Matches(b, cap, inp, s), body + |Compile(b, cap)|;
    RepeatsAll(b, cap, code, inp, rep, greedy, from, s.pos, |s.caps|, mid, stack, out, outStack, rs);
    assert SimAt(b, cap, code, inp, body, s, stack);
    RefinesTrans(code, inp, Ends(out, RepeatAll(b, cap, inp, rep, greedy, from, s.pos, |s.caps|, rs), outStack),
                 Ends(mid, rs, stack), Here(body, s, stack));
  }

  // An unbounded loop whose split is at head and whose body of that length is at body.
  predicate StarShape(code: Code, head: nat, body: nat, len: nat, exit: nat, greedy: bool, check: bool) {
    if check then
      && HasInstr(code, head, SplitOver(greedy, exit - (head + 5))) && HasInstr(code, head + 5, PushCharPos)
      && body == head + 6
      && HasInstr(code, body + len, BneCharPos(head - (body + len + 5))) && exit == body + len + 5
    else if body + len == head then
      HasInstr(code, head, SplitBack(greedy, body - (head + 5))) && exit == head + 5
    else
      && HasInstr(code, head, SplitOver(greedy, exit - (head + 5))) && body == head + 5
      && HasInstr(code, body + len, Goto(head - (body + len + 5))) && exit == body + len + 5
  }

  // with a check, the position where the iteration began is on the stack during the body
  function BodyStack(check: bool, s: St, stack: seq<nat>): seq<nat> {
    if check then stack + [s.pos] else stack
  }

  lemma {:induction false} StarEnter(code: Code, inp: Input, head: nat, body: nat, len: nat, exit: nat, greedy: bool,
                                     check: bool, s: St, stack: seq<nat>, more: seq<St>)
    requires StarShape(code, head, body, len, exit, greedy, check) && s.pos <= |inp.units|
    requires Refines(code, inp, Ends(exit, more, stack), Here(body, s, BodyStack(check, s, stack)))
    ensures Refines(code, inp, Ends(exit, if greedy then more + [s] else [s] + more, stack), Here(head, s, stack))
  {
    hide Refines;
    RefinesSame(code, inp, Here(exit, s, stack));
    var first := if check then head + 5 else body;
    if check {
      StepPushCharPos(code, inp, head + 5, s, stack);
      RefinesTrans(code, inp, Ends(exit, more, stack), Here(body, s, stack + [s.pos]), Here(head + 5, s, stack));
    }
    Choice(code, inp, exit, first, greedy, s, exit, stack, stack, more);
    if !check && body + len == head {
      StepSplitBack(code, inp, head, s, stack, greedy, body);
    } else {
      StepSplitOver(code, inp, head, s, stack, greedy, exit);
    }
    RefinesTrans(code, inp, Ends(exit, if greedy then more + [s] else [s] + more, stack),
                 Ways(exit, first, greedy, s, stack), Here(head, s, stack));
  }

  lemma {:induction false} StarBack(code: Code, inp: Input, head: nat, body: nat, len: nat, exit: nat, greedy: bool,
                                    check: bool, s: St, stack: seq<nat>, r: St)
    requires StarShape(code, head, body, len, exit, greedy, check) && s.pos <= r.pos <= |inp.units|
    requires check || s.pos < r.pos
    ensures Refines(code, inp, Here(if Stalled(Star, Some(s.pos), r) then exit else head, r, stack),
                    Here(body + len, r, BodyStack(check, s, stack)))
  {
    hide Refines;
    if check {
      StepBne(code, inp, body + len, r, stack, s.pos, head);
    } else if body + len == head {
      RefinesSame(code, inp, Here(head, r, stack));
    } else {
      StepGoto(code, inp, body + len, r, stack, head);
    }
  }

  // An unbounded loop delivers the starred body's results.
  lemma {:induction false} SimStar(b: Node, cap: nat, code: Code, inp: Input, head: nat, body: nat, exit: nat,
                                   greedy: bool, check: bool, s: St, stack: seq<nat>)
    requires WellFormed(b) && Ready(b, cap, inp, s) && Steady(b, inp, s.pos) && Simulates(b, cap, code, inp, body)
    requires StarShape(code, head, body, |Compile(b, cap)|, exit, greedy, check)
    requires check || Consumes(b, inp)
    ensures Refines(code, inp, Ends(exit, Repeat(b, cap, inp, Star, greedy, s), stack), Here(head, s, stack))
    decreases |inp.units| - s.pos
  {
    hide Refines, Matches, Compile, Simulates, Boundary, Slow, RepeatAll, StarShape;
    var rs, len := Matches(b, cap, inp, s), |Compile(b, cap)|;
    if !check {
      assert After(rs, s.pos);
    }
    forall i | 0 <= i < |rs|
      ensures Repeats(b, cap, code, inp, Star, greedy, Some(s.pos), body + len, BodyStack(check, s, stack), exit, stack,
                      rs[i])
    {
      var r := rs[i];
      StarBack(code, inp, head, body, len, exit, greedy, check, s, stack, r);
      if Stalled(Star, Some(s.pos), r) {
        EndsOne(exit, r, stack);
      } else {
        SimStar(b, cap, code, inp, head, body, exit, greedy, check, r, stack);
        RefinesTrans(code, inp, Ends(exit, Repeat(b, cap, inp, Star, greedy, r), stack), Here(head, r, stack),
                     Here(body + len, r, BodyStack(check, s, stack)));
      }
    }
    Iterate(b, cap, code, inp, Star, greedy, Some(s.pos), s, body, BodyStack(check, s, stack), exit, stack);
    StarEnter(code, inp, head, body, len, exit, greedy, check, s, stack,
              RepeatAll(b, cap, inp, Star, greedy, Some(s.pos), s.pos, |s.caps|, rs));
  }

  // A counted loop: split at head, body behind it, the counter decremented after the body.
  predicate UpToShape(code: Code, head: nat, len: nat, greedy: bool) {
    && HasInstr(code, head, SplitOver(greedy, len + 5))
    && HasInstr(code, head + 5 + len, Loop(-(len + 10)))
    && HasInstr(code, head + 10 + len, Drop)
  }

  lemma {:induction false} SimUpTo(b: Node, cap: nat, code: Code, inp: Input, head: nat, greedy: bool, k: nat, s: St,
                                   stack: seq<nat>)
    requires WellFormed(b) && Ready(b, cap, inp, s) && Steady(b, inp, s.pos) && Simulates(b, cap, code, inp, head + 5)
    requires UpToShape(code, head, |Compile(b, cap)|, greedy) && k > 0
    ensures Refines(code, inp, Ends(head + 11 + |Compile(b, cap)|, Repeat(b, cap, inp, UpTo(k), greedy, s), stack),
                    Here(head, s, stack + [k]))
    decreases k
  {
    hide Refines, Matches, Compile, Simulates, Boundary, Slow, RepeatAll;
    var rs, len := Matches(b, cap, inp, s), |Compile(b, cap)|;
    var drop, out := head + 10 + len, head + 11 + len;
    forall i | 0 <= i < |rs|
      ensures Repeats(b, cap, code, inp, UpTo(k - 1), greedy, None, head + 5 + len, stack + [k], out, stack, rs[i])
    {
      var r := rs[i];
      StepLoop(code, inp, head + 5 + len, r, stack, k, head);
      var next := Here(if k > 1 then head else drop, r, stack + [k - 1]);
      if k > 1 {
        SimUpTo(b, cap, code, inp, head, greedy, k - 1, r, stack);
      } else {
        StepDrop(code, inp, drop, r, stack, 0);
        EndsOne(out, r, stack);
      }
      RefinesTrans(code, inp, Ends(out, Repeat(b, cap, inp, UpTo(k - 1), greedy, r), stack), next,
                   Here(head + 5 + len, r, stack + [k]));
    }
    Iterate(b, cap, code, inp, UpTo(k - 1), greedy, None, s, head + 5, stack + [k], out, stack);
    StepDrop(code, inp, drop, s, stack, k);
    var more := RepeatAll(b, cap, inp, UpTo(k - 1), greedy, None, s.pos, |s.caps|, rs);
    Choice(code, inp, drop, head + 5, greedy, s, out, stack, stack + [k], more);
    StepSplitOver(code, inp, head, s, stack + [k], greedy, drop);
    RefinesTrans(code, inp, Ends(out, if greedy then more + [s] else [s] + more, stack),
                 Ways(drop, head + 5, greedy, s, stack + [k]), Here(head, s, stack + [k]));
  }

  predicate TimesShape(code: Code, body: nat, len: nat) {
    HasInstr(code, body + len, Loop(-(len + 5))) && HasInstr(code, body + len + 5, Drop)
  }

  lemma {:induction false} SimTimes(b: Node, cap: nat, code: Code, inp: Input, body: nat, greedy: bool, k: nat, s: St,
                                    stack: seq<nat>)
    requires WellFormed(b) && Ready(b, cap, inp, s) && Steady(b, inp, s.pos) && Simulates(b, cap, code, inp, body)
    requires TimesShape(code, body, |Compile(b, cap)|) && k > 0
    ensures Refines(code, inp, Ends(body + |Compile(b, cap)| + 6, Repeat(b, cap, inp, Times(k), greedy, s), stack),
                    Here(body, s, stack + [k]))
    decreases k
  {
    hide Refines, Matches, Compile, Simulates, Boundary, Slow, RepeatAll;
    var rs, mid := Matches(b, cap, inp, s), body + |Compile(b, cap)|;
    forall i | 0 <= i < |rs|
      ensures Repeats(b, cap, code, inp, Times(k - 1), greedy, None, mid, stack + [k], mid + 6, stack, rs[i])
    {
      var r := rs[i];
      StepLoop(code, inp, mid, r, stack, k, body);
      var next := Here(if k > 1 then body else mid + 5, r, stack + [k - 1]);
      if k > 1 {
        SimTimes(b, cap, code, inp, body, greedy, k - 1, r, stack);
      } else {
        StepDrop(code, inp, mid + 5, r, stack, 0);
        EndsOne(mid + 6, r, stack);
      }
      RefinesTrans(code, inp, Ends(mid + 6, Repeat(b, cap, inp, Times(k - 1), greedy, r), stack), next,
                   Here(mid, r, stack + [k]));
    }
    Iterate(b, cap, code, inp, Times(k - 1), greedy, None, s, body, stack + [k], mid + 6, stack);
  }

  lemma {:induction false} SimOption(b: Node, cap: nat, code: Code, inp: Input, head: nat, greedy: bool, s: St,
                                     stack: seq<nat>)
    requires WellFormed(b) && Ready(b, cap, inp, s) && Steady(b, inp, s.pos) && Simulates(b, cap, code, inp, head + 5)
    requires HasInstr(code, head, SplitOver(greedy, |Compile(b, cap)|))
    ensures Refines(code, inp, Ends(head + 5 + |Compile(b, cap)|, Repeat(b, cap, inp, UpTo(1), greedy, s), stack),
                    Here(head, s, stack))
  {
    hide Refines, Matches, Compile, Simulates, Boundary, Slow, RepeatAll;
    var rs, out := Matches(b, cap, inp, s), head + 5 + |Compile(b, cap)|;
    forall i | 0 <= i < |rs|
      ensures Repeats(b, cap, code, inp, UpTo(0), greedy, None, out, stack, out, stack, rs[i])
    {
      EndsOne(out, rs[i], stack);
      RefinesSame(code, inp, Here(out, rs[i], stack));
    }
    Iterate(b, cap, code, inp, UpTo(0), greedy, None, s, head + 5, stack, out, stack);
    var more := RepeatAll(b, cap, inp, UpTo(0), greedy, None, s.pos, |s.caps|, rs);
    RefinesSame(code, inp, Here(out, s, stack));
    Choice(code, inp, out, head + 5, greedy, s, out, stack, stack, more);
    StepSplitOver(code, inp, head, s, stack, greedy, out);
    RefinesTrans(code, inp, Ends(out, if greedy then more + [s] else [s] + more, stack),
                 Ways(out, head + 5, greedy, s, stack), Here(head, s, stack));
  }
}
