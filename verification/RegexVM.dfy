/** The backtracking machine of lre_exec_backtrack, one instruction at a time. A
    configuration is the state stack with the running thread on top of it. */
module RegexVM {
  import opened RegexInput
  import opened RegexSyntax
  import opened RegexCode
  import opened RegexMatcher

  // StackInt is an unsigned machine word
  const STACK_INT_MAX: nat := 0xffff_ffff_ffff_ffff

  // pc, cptr, capture and stack
  datatype Thread = Thread(pc: nat, pos: nat, caps: seq<int>, stack: seq<nat>)

  // REExecState: a pending alternative, a lookahead mark, a greedy loop to shorten
  datatype Entry =
    | Branch(t: Thread)
    | Ahead(t: Thread, negative: bool)
    | Greedy(t: Thread, count: nat)

  datatype Outcome = Push(entries: seq<Entry>) | Accept(caps: seq<int>) | Fault

  datatype Config = Active(ss: seq<Entry>) | Halt(result: Option<seq<int>>) | Abort

  // the binary search of REOP_range and REOP_range32
  predicate Search(pairs: seq<(nat, nat)>, c: nat, lo: int, hi: int)
    requires 0 <= lo && hi < |pairs|
    decreases hi - lo + 1
  {
    if lo > hi then false
    else
      var idx := (lo + hi) / 2;
      if c < pairs[idx].0 then Search(pairs, c, lo, idx - 1)
      else if c > pairs[idx].1 then Search(pairs, c, idx + 1, hi)
      else true
  }

  predicate InPairs16(pairs: seq<(nat, nat)>, c: nat)
    requires pairs != []
  {
    if c < pairs[0].0 then false
    else if c >= 0xffff && pairs[|pairs| - 1].1 == 0xffff then true
    else if c > pairs[|pairs| - 1].1 then false
    else Search(pairs, c, 0, |pairs| - 1)
  }

  predicate InPairs32(pairs: seq<(nat, nat)>, c: nat)
    requires pairs != []
  {
    if c < pairs[0].0 then false
    else if c > pairs[|pairs| - 1].1 then false
    else Search(pairs, c, 0, |pairs| - 1)
  }

  predicate IsCharTest(i: Instr) {
    i.Char? || i.Char32? || i.Dot? || i.Any? || (i.Range? && i.pairs != []) || (i.Range32? && i.pairs != [])
  }

  // the test a character opcode makes
  predicate CharPasses(i: Instr, c: nat)
    requires IsCharTest(i)
  {
    match i
    case Char(x) => c == x
    case Char32(x) => c == x
    case Dot => !IsLineTerminator(c)
    case Any => true
    case Range(pairs) => InPairs16(pairs, c)
    case Range32(pairs) => InPairs32(pairs, c)
  }

  function InstrAnchor(i: Instr): Option<Anchor> {
    match i
    case LineStart => Some(Anchor.LineStart)
    case LineEnd => Some(Anchor.LineEnd)
    case WordBoundary => Some(Anchor.WordBoundary)
    case NotWordBoundary => Some(Anchor.NotWordBoundary)
    case _ => None
  }

  // A run of the machine with no_recurse set, over the opcodes a simple quantifier may hold.
  datatype SimpleResult = Hit(pos: nat) | Miss | Unfit

  function SimpleRun(code: Code, inp: Input, pc: nat, pos: nat): SimpleResult
    requires pos <= |inp.units|
    decreases |code| - pc
  {
    if pc >= |code| || code[pc].Arg? then Unfit
    else
      var i := code[pc].instr;
      if i.Match? then Hit(pos)
      else if IsCharTest(i) then
        if pos < |inp.units| && CharPasses(i, GetChar(inp, pos).0)
        then SimpleRun(code, inp, pc + Size(i), GetChar(inp, pos).1) else Miss
      else if InstrAnchor(i).Some? then
        if Holds(InstrAnchor(i).value, inp, pos) then SimpleRun(code, inp, pc + 1, pos) else Miss
      else Unfit
  }

  // the counting loop of REOP_simple_greedy_quant, q iterations done; None unless every iteration advances
  function CountGreedy(code: Code, inp: Input, pc: nat, pos: nat, max: nat, q: nat): Option<(nat, nat)>
    requires pos <= |inp.units|
    decreases |inp.units| - pos
  {
    match SimpleRun(code, inp, pc, pos)
    case Unfit => None
    case Miss => Some((q, pos))
    case Hit(next) =>
      if !(pos < next <= |inp.units|) then None
      else if q + 1 >= max && max != INT32_MAX then Some((q + 1, next))
      else CountGreedy(code, inp, pc, next, max, q + 1)
  }

  // k times PREV_CHAR
  function StepBack(inp: Input, pos: nat, k: nat): Option<nat>
    requires pos <= |inp.units|
  {
    if k == 0 then Some(pos)
    else if pos == 0 then None
    else StepBack(inp, PrevChar(inp, pos), k - 1)
  }

  function GoTo(t: Thread, pc: int): Outcome {
    if pc < 0 then Fault else Push([Branch(t.(pc := pc))])
  }

  function Fork(t: Thread, other: int, first: int): Outcome {
    if other < 0 || first < 0 then Fault
    else Push([Branch(t.(pc := other)), Branch(t.(pc := first))])
  }

  // one instruction of the running thread
  function Exec(code: Code, inp: Input, t: Thread): Outcome {
    if t.pc >= |code| || code[t.pc].Arg? || t.pos > |inp.units| then Fault
    else
      var i := code[t.pc].instr;
      var next := t.pc + Size(i);
      var top := |t.stack| - 1;
      if IsCharTest(i) then
        if t.pos < |inp.units| && CharPasses(i, GetChar(inp, t.pos).0)
        then Push([Branch(t.(pc := next, pos := GetChar(inp, t.pos).1))]) else Push([])
      else if InstrAnchor(i).Some? then
        if Holds(InstrAnchor(i).value, inp, t.pos) then GoTo(t, next) else Push([])
      else match i
        case Goto(off) => GoTo(t, next + off)
        case SplitGotoFirst(off) => Fork(t, next, next + off)
        case SplitNextFirst(off) => Fork(t, next + off, next)
        case Match => Accept(t.caps)
        case SaveStart(k) =>
          if 2 * k >= |t.caps| then Fault else GoTo(t.(caps := t.caps[2 * k := t.pos]), next)
        case SaveEnd(k) =>
          if 2 * k + 1 >= |t.caps| then Fault else GoTo(t.(caps := t.caps[2 * k + 1 := t.pos]), next)
        case SaveReset(a, b) =>
          if a > b || 2 * b + 1 >= |t.caps| then Fault else GoTo(t.(caps := Reset(t.caps, a, b + 1 - a)), next)
        case PushI32(v) => GoTo(t.(stack := t.stack + [v]), next)
        case PushCharPos => GoTo(t.(stack := t.stack + [t.pos]), next)
        case Drop => if top < 0 then Fault else GoTo(t.(stack := t.stack[..top]), next)
        case Loop(off) =>
          if top < 0 then Fault
          else
            var left := if t.stack[top] == 0 then STACK_INT_MAX else t.stack[top] - 1;
            GoTo(t.(stack := t.stack[top := left]), if left != 0 then next + off else next)
        case BneCharPos(off) =>
          if top < 0 then Fault
          else GoTo(t.(stack := t.stack[..top]), if t.stack[top] != t.pos then next + off else next)
        case Lookahead(off) => Mark(t, next, off, false)
        case NegativeLookahead(off) => Mark(t, next, off, true)
        case SimpleGreedyQuant(len, min, max, _) =>
          if next + len < 0 then Fault
          else
            (match CountGreedy(code, inp, next, t.pos, max, 0)
             case None => Fault
             case Some((q, pos)) =>
               if q < min then Push([])
               else
                 var out := Branch(t.(pc := next + len, pos := pos));
                 if q > min then Push([Greedy(t.(pc := t.pc + 1, pos := pos), q - min), out]) else Push([out]))
        case _ => Fault
  }

  function Mark(t: Thread, next: nat, off: int, negative: bool): Outcome {
    if next + off < 0 then Fault else Push([Ahead(t.(pc := next + off), negative), Branch(t.(pc := next))])
  }

  // the entry on top of the stack: run its instruction, or resume it after a failure
  function StepTop(code: Code, inp: Input, e: Entry): Outcome {
    match e
    case Branch(t) => Exec(code, inp, t)
    case Ahead(t, negative) => if negative then Push([Branch(t)]) else Push([])
    case Greedy(t, count) =>
      // t.pc is the operand of the quantifier
      if t.pc == 0 || t.pc > |code| || code[t.pc - 1].Arg? || !code[t.pc - 1].instr.SimpleGreedyQuant?
         || t.pos > |inp.units| || count == 0 then Fault
      else
        var i := code[t.pc - 1].instr;
        match StepBack(inp, t.pos, i.count)
        case None => Fault
        case Some(pos) =>
          if t.pc + 16 + i.next < 0 then Fault
          else
            var out := Branch(t.(pc := t.pc + 16 + i.next, pos := pos));
            if count > 1 then Push([Greedy(t.(pos := pos), count - 1), out]) else Push([out])
  }

  // After a match: fall back to the nearest lookahead mark. A positive one goes on with the
  // captures found inside, a negative one has failed.
  function Unwind(ss: seq<Entry>, caps: seq<int>): Config {
    if ss == [] then Halt(Some(caps))
    else
      var rest, e := ss[..|ss| - 1], ss[|ss| - 1];
      if !e.Ahead? then Unwind(rest, caps)
      else if e.negative then Active(rest)
      else Active(rest + [Branch(e.t.(caps := caps))])
  }

  function Step(code: Code, inp: Input, ss: seq<Entry>): Config {
    if ss == [] then Halt(None)
    else
      match StepTop(code, inp, ss[|ss| - 1])
      case Push(es) => Active(ss[..|ss| - 1] + es)
      case Accept(caps) => Unwind(ss[..|ss| - 1], caps)
      case Fault => Abort
  }

  // n steps
  function Run(code: Code, inp: Input, c: Config, n: nat): Config
    decreases n
  {
    if n == 0 || !c.Active? then c else Run(code, inp, Step(code, inp, c.ss), n - 1)
  }

  // the machine stops on these entries with that answer
  ghost predicate Halts(code: Code, inp: Input, ss: seq<Entry>, r: Option<seq<int>>) {
    exists n: nat :: Run(code, inp, Active(ss), n) == Halt(r)
  }
}
