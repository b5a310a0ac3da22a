/** Reasoning about the machine: replacing pending entries by others that lead to the
    same answer, below and on top of anything else on the state stack. */
module RegexSimulation {
  import opened RegexInput
  import opened RegexCode
  import opened RegexMatcher
  import opened RegexVM

  // Whatever lies below, the machine answers from zs as it answers from ys, and then it has
  // taken at least as many steps.
  ghost predicate Refines(code: Code, inp: Input, ys: seq<Entry>, zs: seq<Entry>) {
    Leads(code, inp, ys, zs) && NoLater(code, inp, ys, zs)
  }

  ghost predicate Leads(code: Code, inp: Input, ys: seq<Entry>, zs: seq<Entry>) {
    forall ws: seq<Entry>, r: Option<seq<int>> :: Halts(code, inp, ws + ys, r) ==> Halts(code, inp, ws + zs, r)
  }

  ghost predicate HaltsWithin(code: Code, inp: Input, ss: seq<Entry>, n: nat, r: Option<seq<int>>) {
    Run(code, inp, Active(ss), n) == Halt(r)
  }

  ghost predicate NoLater(code: Code, inp: Input, ys: seq<Entry>, zs: seq<Entry>) {
    forall ws: seq<Entry>, n: nat, r: Option<seq<int>> ::
      HaltsWithin(code, inp, ws + zs, n, r) ==> HaltsWithin(code, inp, ws + ys, n, r)
  }

  lemma {:induction false} RunMore(code: Code, inp: Input, c: Config, n: nat, m: nat)
    requires n <= m && !Run(code, inp, c, n).Active?
    ensures Run(code, inp, c, m) == Run(code, inp, c, n)
    decreases n
  {
    hide Step;
    if n > 0 && c.Active? {
      RunMore(code, inp, Step(code, inp, c.ss), n - 1, m - 1);
    }
  }

  // the first step of a run that halts
  lemma {:induction false} HaltsFirst(code: Code, inp: Input, ss: seq<Entry>, n: nat, r: Option<seq<int>>)
    requires HaltsWithin(code, inp, ss, n, r)
    ensures n > 0 && Run(code, inp, Step(code, inp, ss), n - 1) == Halt(r)
    ensures Step(code, inp, ss).Active? ==>
              HaltsWithin(code, inp, Step(code, inp, ss).ss, n - 1, r)
              && HaltsWithin(code, inp, Step(code, inp, ss).ss, n, r)
  {
    hide Step;
    if Step(code, inp, ss).Active? {
      RunMore(code, inp, Step(code, inp, ss), n - 1, n);
    }
  }

  predicate Unmarked(ss: seq<Entry>) {
    forall i | 0 <= i < |ss| :: !ss[i].Ahead?
  }

  lemma {:induction false} HaltsStep(code: Code, inp: Input, ss: seq<Entry>, r: Option<seq<int>>)
    requires ss != [] && Step(code, inp, ss).Active?
    requires Halts(code, inp, Step(code, inp, ss).ss, r)
    ensures Halts(code, inp, ss, r)
  {
    var n: nat :| Run(code, inp, Active(Step(code, inp, ss).ss), n) == Halt(r);
    assert Run(code, inp, Active(ss), n + 1) == Halt(r);
  }

  lemma {:induction false} RefinesTrans(code: Code, inp: Input, xs: seq<Entry>, ys: seq<Entry>, zs: seq<Entry>)
    requires Refines(code, inp, xs, ys) && Refines(code, inp, ys, zs)
    ensures Refines(code, inp, xs, zs)
  {
    hide HaltsWithin, Halts;
  }

  // entries below
  lemma {:induction false} RefinesUnder(code: Code, inp: Input, below: seq<Entry>, ys: seq<Entry>, zs: seq<Entry>)
    requires Refines(code, inp, ys, zs)
    ensures Refines(code, inp, below + ys, below + zs)
  {
    hide HaltsWithin, Halts;
    forall ws: seq<Entry>
      ensures ws + (below + ys) == (ws + below) + ys && ws + (below + zs) == (ws + below) + zs
    {
    }
    forall ws: seq<Entry>, r: Option<seq<int>> | Halts(code, inp, ws + (below + ys), r)
      ensures Halts(code, inp, ws + (below + zs), r)
    {
      assert Halts(code, inp, (ws + below) + ys, r);
    }
    forall ws: seq<Entry>, n: nat, r: Option<seq<int>> | HaltsWithin(code, inp, ws + (below + zs), n, r)
      ensures HaltsWithin(code, inp, ws + (below + ys), n, r)
    {
      assert HaltsWithin(code, inp, (ws + below) + zs, n, r);
    }
  }

  // one step of the machine
  lemma {:induction false} RefinesStep(code: Code, inp: Input, ys: seq<Entry>, zs: seq<Entry>)
    requires zs != [] && StepTop(code, inp, zs[|zs| - 1]).Push?
    requires ys == zs[..|zs| - 1] + StepTop(code, inp, zs[|zs| - 1]).entries
    ensures Refines(code, inp, ys, zs)
  {
    hide Refines, StepTop;
    forall ws: seq<Entry> ensures Step(code, inp, ws + zs) == Active(ws + ys) {
      assert (ws + zs)[..|ws + zs| - 1] + StepTop(code, inp, zs[|zs| - 1]).entries == ws + ys;
    }
    RefinesStepAll(code, inp, ys, zs);
  }

  // one step that leaves alone whatever lies below
  lemma {:induction false} RefinesStepAll(code: Code, inp: Input, ys: seq<Entry>, zs: seq<Entry>)
    requires zs != [] && forall ws: seq<Entry> :: Step(code, inp, ws + zs) == Active(ws + ys)
    ensures Refines(code, inp, ys, zs)
  {
    hide Step, HaltsWithin, Halts;
    forall ws: seq<Entry>, r: Option<seq<int>> | Halts(code, inp, ws + ys, r)
      ensures Halts(code, inp, ws + zs, r)
    {
      HaltsStep(code, inp, ws + zs, r);
    }
    forall ws: seq<Entry>, n: nat, r: Option<seq<int>> | HaltsWithin(code, inp, ws + zs, n, r)
      ensures HaltsWithin(code, inp, ws + ys, n, r)
    {
      HaltsFirst(code, inp, ws + zs, n, r);
    }
  }

  lemma {:induction false} UnwindUnmarked(ws: seq<Entry>, ss: seq<Entry>, caps: seq<int>)
    requires Unmarked(ss)
    ensures Unwind(ws + ss, caps) == Unwind(ws, caps)
  {
    if ss == [] {
      assert ws + ss == ws;
    } else {
      assert (ws + ss)[..|ws + ss| - 1] == ws + ss[..|ss| - 1];
      UnwindUnmarked(ws, ss[..|ss| - 1], caps);
    }
  }

  lemma {:induction false} UnwindMarked(ws: seq<Entry>, ss: seq<Entry>, caps: seq<int>) returns (ss': seq<Entry>)
    requires !Unmarked(ss)
    ensures forall us: seq<Entry> :: Unwind(us + ss, caps) == Active(us + ss')
  {
    var rest, e := ss[..|ss| - 1], ss[|ss| - 1];
    if !e.Ahead? {
      ss' := UnwindMarked(ws, rest, caps);
    } else {
      ss' := if e.negative then rest else rest + [Branch(e.t.(caps := caps))];
    }
    forall us: seq<Entry> ensures Unwind(us + ss, caps) == Active(us + ss') {
      assert (us + ss)[..|us + ss| - 1] == us + rest;
      if e.Ahead? && !e.negative {
        assert us + rest + [Branch(e.t.(caps := caps))] == us + ss';
      }
    }
  }

  // Entries on top: while they run, what is below only shows when they are used up, or is
  // cut away down to a mark that lies deeper still.
  lemma {:induction false} RefinesOver(code: Code, inp: Input, ys: seq<Entry>, zs: seq<Entry>, top: seq<Entry>)
    requires Refines(code, inp, ys, zs) && Unmarked(ys) && Unmarked(zs)
    ensures Refines(code, inp, ys + top, zs + top)
  {
    hide Run, Unmarked, HaltsWithin;
    forall ws: seq<Entry>, r: Option<seq<int>> | Halts(code, inp, ws + (ys + top), r)
      ensures Halts(code, inp, ws + (zs + top), r)
    {
      var n: nat :| Run(code, inp, Active(ws + (ys + top)), n) == Halt(r);
      RunOver(code, inp, ws, ys, zs, top, n, r);
    }
    forall ws: seq<Entry>, n: nat, r: Option<seq<int>> | HaltsWithin(code, inp, ws + (zs + top), n, r)
      ensures HaltsWithin(code, inp, ws + (ys + top), n, r)
    {
      RunBack(code, inp, ws, ys, zs, top, n, r);
    }
  }

  // the other direction, step by step
  lemma {:induction false} RunBack(code: Code, inp: Input, ws: seq<Entry>, ys: seq<Entry>, zs: seq<Entry>,
                                   top: seq<Entry>, n: nat, r: Option<seq<int>>)
    requires NoLater(code, inp, ys, zs) && Unmarked(ys) && Unmarked(zs)
    requires HaltsWithin(code, inp, ws + (zs + top), n, r)
    ensures HaltsWithin(code, inp, ws + (ys + top), n, r)
    decreases n, 1
  {
    hide NoLater, StepTop, Unmarked, Unwind, Run;
    if top == [] {
      BackBelow(code, inp, ws, ys, zs, n, r);
      assert ys + top == ys && zs + top == zs;
    } else {
      SplitTop(ws, ys, top);
      SplitTop(ws, zs, top);
      HaltsFirst(code, inp, ws + (zs + top), n, r);
      match StepTop(code, inp, top[|top| - 1]) {
        case Push(es) =>
          RestAssoc(ws, ys, top, es);
          RestAssoc(ws, zs, top, es);
          RunBack(code, inp, ws, ys, zs, top[..|top| - 1] + es, n - 1, r);
          HaltsOneMore(code, inp, ws + (ys + top), n - 1, r);
        case Accept(caps) => AcceptBack(code, inp, ws, ys, zs, top, caps, n, r);
        case Fault => HaltedStays(code, inp, Abort, n - 1);
      }
    }
  }

  lemma {:induction false} HaltedStays(code: Code, inp: Input, c: Config, n: nat)
    requires !c.Active?
    ensures Run(code, inp, c, n) == c
  {
  }

  lemma {:induction false} BackBelow(code: Code, inp: Input, ws: seq<Entry>, ys: seq<Entry>, zs: seq<Entry>, n: nat,
                                     r: Option<seq<int>>)
    requires NoLater(code, inp, ys, zs)
    ensures HaltsWithin(code, inp, ws + zs, n, r) ==> HaltsWithin(code, inp, ws + ys, n, r)
  {
    hide HaltsWithin;
  }

  lemma {:induction false} HaltsOneMore(code: Code, inp: Input, ss: seq<Entry>, n: nat, r: Option<seq<int>>)
    requires Run(code, inp, Step(code, inp, ss), n) == Halt(r)
    ensures HaltsWithin(code, inp, ss, n + 1, r)
  {
    hide Step;
  }

  lemma {:induction false} SplitTop(ws: seq<Entry>, ys: seq<Entry>, top: seq<Entry>)
    requires top != []
    ensures var ss := ws + (ys + top);
            ss != [] && ss[..|ss| - 1] == ws + (ys + top[..|top| - 1]) && ss[|ss| - 1] == top[|top| - 1]
  {
    var ss := ws + (ys + top);
    assert ss == (ws + (ys + top[..|top| - 1])) + [top[|top| - 1]];
  }

  lemma {:induction false} RestAssoc(ws: seq<Entry>, ys: seq<Entry>, top: seq<Entry>, es: seq<Entry>)
    requires top != []
    ensures ws + (ys + top[..|top| - 1]) + es == ws + (ys + (top[..|top| - 1] + es))
  {
  }

  lemma {:induction false} AcceptBack(code: Code, inp: Input, ws: seq<Entry>, ys: seq<Entry>, zs: seq<Entry>,
                                      top: seq<Entry>, caps: seq<int>, n: nat, r: Option<seq<int>>)
    requires NoLater(code, inp, ys, zs) && Unmarked(ys) && Unmarked(zs) && n > 0
    requires Run(code, inp, Step(code, inp, ws + (zs + top)), n - 1) == Halt(r)
    requires top != [] && StepTop(code, inp, top[|top| - 1]) == Accept(caps)
    ensures HaltsWithin(code, inp, ws + (ys + top), n, r)
    decreases n, 0
  {
    hide NoLater, StepTop, Unwind, Run;
    var rest := top[..|top| - 1];
    SplitTop(ws, ys, top);
    SplitTop(ws, zs, top);
    if Unmarked(rest) {
      UnwindUnmarked(ws, ys + rest, caps);
      UnwindUnmarked(ws, zs + rest, caps);
    } else {
      var rest' := UnwindMarked(ws, rest, caps);
      assert ws + (ys + rest) == (ws + ys) + rest && ws + (zs + rest) == (ws + zs) + rest;
      assert (ws + ys) + rest' == ws + (ys + rest') && (ws + zs) + rest' == ws + (zs + rest');
      RunBack(code, inp, ws, ys, zs, rest', n - 1, r);
    }
    HaltsOneMore(code, inp, ws + (ys + top), n - 1, r);
  }

  lemma {:induction false} RunOver(code: Code, inp: Input, ws: seq<Entry>, ys: seq<Entry>, zs: seq<Entry>,
                                   top: seq<Entry>, n: nat, r: Option<seq<int>>)
    requires Refines(code, inp, ys, zs) && Unmarked(ys) && Unmarked(zs)
    requires Run(code, inp, Active(ws + (ys + top)), n) == Halt(r)
    ensures Halts(code, inp, ws + (zs + top), r)
    decreases n, 1
  {
    if top == [] {
      assert ys + top == ys && zs + top == zs;
      assert Halts(code, inp, ws + ys, r);
    } else {
      match StepTop(code, inp, top[|top| - 1]) {
        case Push(es) => PushOver(code, inp, ws, ys, zs, top, es, n, r);
        case Accept(caps) => MatchOver(code, inp, ws, ys, zs, top, caps, n, r);
        case Fault =>
      }
    }
  }

  // the case of RunOver where the top entry makes a step
  lemma {:induction false} PushOver(code: Code, inp: Input, ws: seq<Entry>, ys: seq<Entry>, zs: seq<Entry>,
                                    top: seq<Entry>, es: seq<Entry>, n: nat, r: Option<seq<int>>)
    requires Refines(code, inp, ys, zs) && Unmarked(ys) && Unmarked(zs)
    requires Run(code, inp, Active(ws + (ys + top)), n) == Halt(r)
    requires top != [] && StepTop(code, inp, top[|top| - 1]) == Push(es)
    ensures Halts(code, inp, ws + (zs + top), r)
    decreases n, 0
  {
    hide Refines, StepTop;
    var rest := top[..|top| - 1];
    assert (ws + (ys + top))[..|ws + (ys + top)| - 1] + es == ws + (ys + (rest + es));
    assert (ws + (zs + top))[..|ws + (zs + top)| - 1] + es == ws + (zs + (rest + es));
    RunOver(code, inp, ws, ys, zs, rest + es, n - 1, r);
    HaltsStep(code, inp, ws + (zs + top), r);
  }

  // the case of RunOver where the top entry matches
  lemma {:induction false} MatchOver(code: Code, inp: Input, ws: seq<Entry>, ys: seq<Entry>, zs: seq<Entry>,
                                     top: seq<Entry>, caps: seq<int>, n: nat, r: Option<seq<int>>)
    requires Refines(code, inp, ys, zs) && Unmarked(ys) && Unmarked(zs)
    requires Run(code, inp, Active(ws + (ys + top)), n) == Halt(r)
    requires top != [] && StepTop(code, inp, top[|top| - 1]) == Accept(caps)
    ensures Halts(code, inp, ws + (zs + top), r)
    decreases n, 0
  {
    hide Refines, StepTop, Unwind;
    var rest, n1 := top[..|top| - 1], n - 1;
    assert (ws + (ys + top))[..|ws + (ys + top)| - 1] == ws + (ys + rest);
    assert (ws + (zs + top))[..|ws + (zs + top)| - 1] == ws + (zs + rest);
    if Unmarked(rest) {
      UnwindUnmarked(ws, ys + rest, caps);
      UnwindUnmarked(ws, zs + rest, caps);
      assert Run(code, inp, Step(code, inp, ws + (zs + top)), n1) == Halt(r);
      assert Run(code, inp, Active(ws + (zs + top)), n) == Halt(r);
    } else {
      var rest' := UnwindMarked(ws, rest, caps);
      assert ws + (ys + rest) == (ws + ys) + rest && ws + (zs + rest) == (ws + zs) + rest;
      assert (ws + ys) + rest' == ws + (ys + rest') && (ws + zs) + rest' == ws + (zs + rest');
      RunOver(code, inp, ws, ys, zs, rest', n1, r);
      HaltsStep(code, inp, ws + (zs + top), r);
    }
  }

  // threads at pc, one for every result; the first result is on top
  function Ends(pc: nat, rs: seq<St>, stack: seq<nat>): (ss: seq<Entry>)
    ensures |ss| == |rs| && Unmarked(ss)
  {
    if rs == [] then []
    else Ends(pc, rs[1..], stack) + [Branch(Thread(pc, rs[0].pos, rs[0].caps, stack))]
  }

  lemma {:induction false} EndsAppend(pc: nat, rs: seq<St>, qs: seq<St>, stack: seq<nat>)
    ensures Ends(pc, rs + qs, stack) == Ends(pc, qs, stack) + Ends(pc, rs, stack)
  {
    if rs == [] {
      assert rs + qs == qs;
    } else {
      assert (rs + qs)[1..] == rs[1..] + qs;
      EndsAppend(pc, rs[1..], qs, stack);
    }
  }

  // Going on from every result in turn: from the first one, then from the others.
  lemma {:induction false} RefinesCons(code: Code, inp: Input, end: nat, endStack: seq<nat>, first: seq<St>,
                                       others: seq<St>, mid: nat, midStack: seq<nat>, rs: seq<St>)
    requires rs != []
    requires Refines(code, inp, Ends(end, first, endStack), [Branch(Thread(mid, rs[0].pos, rs[0].caps, midStack))])
    requires Refines(code, inp, Ends(end, others, endStack), Ends(mid, rs[1..], midStack))
    ensures Refines(code, inp, Ends(end, first + others, endStack), Ends(mid, rs, midStack))
  {
    var top, below, rest := Ends(end, first, endStack), Ends(end, others, endStack), Ends(mid, rs[1..], midStack);
    EndsAppend(end, first, others, endStack);
    RefinesOver(code, inp, below, rest, top);
    RefinesUnder(code, inp, rest, top, [Branch(Thread(mid, rs[0].pos, rs[0].caps, midStack))]);
    RefinesTrans(code, inp, below + top, rest + top, Ends(mid, rs, midStack));
  }
}
