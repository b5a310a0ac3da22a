/** The backtracking engine of libregexp.c: lre_exec_backtrack on its registers, capture array,
    operand stack and state stack, each instruction doing what the machine of RegexVM does. */
module RegexEngine {
  import opened RegexInput
  import opened RegexSyntax
  import opened RegexCode
  import opened RegexMatcher
  import opened RegexMeaning
  import opened RegexCaptures
  import opened RegexCompiler
  import opened RegexVM
  import opened RegexClass
  import opened RegexAdvance
  import opened RegexLayout
  import opened RegexStack
  import opened RegexRefusal
  import opened RegexCorrect
  import opened RegexEmitter

  // how an instruction ends: the thread goes on, fails, or matches
  datatype Verdict = Goes | Fails | Matched

  method TestChar(i: Instr, c: nat) returns (hit: bool)
    requires IsCharTest(i)
    ensures hit == CharPasses(i, c)
  {
    match i {
      case Char(val) => hit := c == val;
      case Char32(val) => hit := c == val;
      case Dot => hit := !IsLineTerminator(c);
      case Any => hit := true;
      case Range(pairs) => hit := TestRange16(pairs, c);
      case Range32(pairs) => hit := TestRange32(pairs, c);
    }
  }

  method TestAnchor(i: Instr, inp: Input, cptr: nat) returns (hit: bool)
    requires InstrAnchor(i).Some? && cptr <= |inp.units|
    ensures hit == Holds(InstrAnchor(i).value, inp, cptr)
  {
    if i.LineStart? {
      hit := cptr == 0 || (inp.multiLine && IsLineTerminator(PeekPrev(inp, cptr)));
    } else if i.LineEnd? {
      hit := cptr == |inp.units| || (inp.multiLine && IsLineTerminator(GetChar(inp, cptr).0));
    } else {
      var v1 := cptr != 0 && IsWordChar(PeekPrev(inp, cptr));
      var v2 := cptr < |inp.units| && IsWordChar(GetChar(inp, cptr).0);
      hit := (v1 != v2) == i.WordBoundary?;
    }
  }

  // lre_exec_backtrack with no_recurse set: the first failure or the match ends it
  method RunSimple(code: Code, inp: Input, start: nat, from: nat) returns (res: Option<nat>)
    requires from <= |inp.units| && SimpleRun(code, inp, start, from) != Unfit
    ensures SimpleRun(code, inp, start, from) == if res.Some? then Hit(res.value) else Miss
  {
    hide CharPasses, Holds, GetChar;
    var pc: nat, cptr: nat := start, from;
    while true
      invariant cptr <= |inp.units| && SimpleRun(code, inp, pc, cptr) == SimpleRun(code, inp, start, from)
      decreases |code| - pc
    {
      var i := code[pc].instr;
      if i.Match? {
        return Some(cptr);
      }
      pc := pc + Size(i);
      var hit;
      if IsCharTest(i) {
        if cptr >= |inp.units| {
          return None;
        }
        var (c, next) := GetChar(inp, cptr);
        cptr := next;
        hit := TestChar(i, c);
      } else {
        hit := TestAnchor(i, inp, cptr);
      }
      if !hit {
        return None;
      }
    }
  }

  // REExecContext with the registers of lre_exec_backtrack
  class Engine {
    const code: Code
    const inp: Input
    const capture: array<int>
    const stack: array<nat>
    var pc: nat
    var cptr: nat
    var stackLen: nat
    var stateStack: seq<Entry>

    ghost predicate Valid()
      reads this
    {
      && stackLen <= stack.Length
      && (capture as object) != stack
      && Static(code, capture.Length)
      && MaxHeight(code) <= stack.Length <= STACK_SIZE_MAX
      && RegexInput.Valid(inp)
    }

    function Current(): Thread
      reads this, capture, stack
      requires stackLen <= stack.Length
    {
      Thread(pc, cptr, capture[..], stack[..stackLen])
    }

    ghost function Entries(): seq<Entry>
      reads this, capture, stack
      requires stackLen <= stack.Length
    {
      stateStack + [Branch(Current())]
    }

    // every pending thread is at an instruction at the scanned height
    ghost predicate Safe()
      reads this, capture, stack
    {
      Valid() && ThreadOK(code, inp, capture.Length, Current()) && AllOK(code, inp, capture.Length, stateStack)
    }

    // the configuration of the machine after an instruction
    ghost function After(v: Verdict): Config
      reads this, capture, stack
      requires stackLen <= stack.Length
    {
      match v
      case Goes => Active(Entries())
      case Fails => Active(stateStack)
      case Matched => Unwind(stateStack, capture[..])
    }

    twostate predicate Stepped(v: Verdict)
      reads this, capture, stack
      requires old(stackLen <= stack.Length)
    {
      Valid() &&
      match Exec(code, inp, old(Current()))
      case Push(es) =>
        if v == Goes then Entries() == old(stateStack) + es else v == Fails && es == [] && stateStack == old(stateStack)
      case Accept(caps) => v == Matched && caps == capture[..] && stateStack == old(stateStack)
      case Fault => false
    }

    constructor (code: Code, inp: Input, captureCount: nat, stackSize: nat, cindex: nat)
      requires Static(code, 2 * captureCount) && MaxHeight(code) <= stackSize <= STACK_SIZE_MAX && RegexInput.Valid(inp)
      ensures Valid() && fresh(capture) && fresh(stack) && this.code == code && this.inp == inp
      ensures capture.Length == 2 * captureCount && stateStack == []
      ensures Current() == Thread(0, cindex, seq(2 * captureCount, _ => -1), [])
    {
      this.code, this.inp := code, inp;
      this.pc, this.cptr, this.stackLen, this.stateStack := 0, cindex, 0, [];
      var c := new int[2 * captureCount](_ => -1);
      capture := c;
      stack := new nat[stackSize];
      new;
      assert capture[..] == seq(2 * captureCount, _ => -1);
    }

    // push_state: the stack length is kept in a byte
    method PushState(pc: nat, cptr: nat, kind: nat, count: nat)
      requires Valid() && kind <= 3
      modifies this`stateStack
      ensures stateStack == old(stateStack) + [EntryOf(kind, Thread(pc, cptr, capture[..], stack[..stackLen]), count)]
    {
      var len := stackLen % 0x100;
      stateStack := stateStack + [EntryOf(kind, Thread(pc, cptr, capture[..], stack[..len]), count)];
    }

    // REOP_char, REOP_char32, REOP_dot, REOP_any, REOP_range, REOP_range32
    method StepChar(i: Instr) returns (v: Verdict)
      requires Safe() && code[pc] == Op(i) && IsCharTest(i)
      modifies this`pc, this`cptr
      ensures Stepped(v)
    {
      hide Static, AllOK, ThreadOK, Height, MaxHeight, InPairs16, InPairs32, Size, EntryOK, GetChar;
      HereOK();
      if cptr >= |inp.units| {
        return Fails;
      }
      var (c, next) := GetChar(inp, cptr);
      cptr, pc := next, pc + Size(i);
      var hit := TestChar(i, c);
      v := if hit then Goes else Fails;
    }

    // REOP_line_start, REOP_line_end, REOP_word_boundary, REOP_not_word_boundary
    method StepAnchor(i: Instr) returns (v: Verdict)
      requires Safe() && code[pc] == Op(i) && InstrAnchor(i).Some?
      modifies this`pc
      ensures Stepped(v)
    {
      hide Static, AllOK, ThreadOK, Height, MaxHeight, EntryOK, GetChar, PeekPrev, IsWordChar;
      HereOK();
      var hit := TestAnchor(i, inp, cptr);
      pc := pc + 1;
      v := if hit then Goes else Fails;
    }

    // the machine has an instruction at pc and does not fault there
    lemma {:induction false} HereOK()
      requires Safe()
      ensures pc < |code| && code[pc].Op? && cptr <= |inp.units| && stackLen == Height(code[..pc])
      ensures !Exec(code, inp, Current()).Fault?
    {
      hide Static, Exec, AllOK, Height, StepBack;
      TopSafe(code, inp, capture.Length, Branch(Current()));
    }

    // REOP_goto, the splits and the lookaheads
    method StepJump(i: Instr) returns (v: Verdict)
      requires Safe() && code[pc] == Op(i)
      requires i.Goto? || i.SplitGotoFirst? || i.SplitNextFirst? || i.Lookahead? || i.NegativeLookahead?
      modifies this`pc, this`stateStack
      ensures Stepped(v)
    {
      hide Static, AllOK, ThreadOK, Height, MaxHeight, EntryOK;
      HereOK();
      var val, next := i.off, pc + 5;
      if i.SplitNextFirst? {
        PushState(next + val, cptr, STATE_SPLIT, 0);
        pc := next;
      } else if i.SplitGotoFirst? {
        PushState(next, cptr, STATE_SPLIT, 0);
        pc := next + val;
      } else if i.Goto? {
        pc := next + val;
      } else {
        PushState(next + val, cptr, if i.Lookahead? then STATE_LOOKAHEAD else STATE_NEGATIVE_LOOKAHEAD, 0);
        pc := next;
      }
      v := Goes;
    }

    // REOP_save_start, REOP_save_end
    method StepSave(i: Instr) returns (v: Verdict)
      requires Safe() && code[pc] == Op(i) && (i.SaveStart? || i.SaveEnd?)
      modifies this`pc, capture
      ensures Stepped(v)
    {
      hide Static, AllOK, ThreadOK, Height, MaxHeight, EntryOK;
      HereOK();
      capture[2 * i.i + if i.SaveStart? then 0 else 1] := cptr;
      pc := pc + 2;
      v := Goes;
    }

    // REOP_save_reset
    method StepReset(i: Instr) returns (v: Verdict)
      requires Safe() && code[pc] == Op(i) && i.SaveReset?
      modifies this`pc, capture
      ensures Stepped(v)
    {
      hide Static, AllOK, ThreadOK, Height, MaxHeight, EntryOK, Reset;
      HereOK();
      var val, val2 := i.first, i.last;
      ResetNone(capture[..], i.first);
      ghost var was := capture[..];
      while val <= val2
        invariant i.first <= val <= val2 + 1 && pc == old(pc) && stack[..] == old(stack[..])
        invariant capture[..] == Reset(was, i.first, val - i.first)
      {
        ResetMore(was, i.first, val - i.first);
        capture[2 * val] := -1;
        capture[2 * val + 1] := -1;
        val := val + 1;
      }
      assert stack[..stackLen] == old(stack[..stackLen]);
      pc := pc + 3;
      v := Goes;
    }

    // REOP_push_i32, REOP_push_char_pos, REOP_drop, REOP_loop, REOP_bne_char_pos
    method StepStack(i: Instr) returns (v: Verdict)
      requires Safe() && code[pc] == Op(i)
      requires i.PushI32? || i.PushCharPos? || i.Drop? || i.Loop? || i.BneCharPos?
      modifies this`pc, this`stackLen, stack
      ensures Stepped(v)
    {
      hide Static, AllOK, ThreadOK, Height, MaxHeight, EntryOK;
      HereOK();
      StackRoom();
      var next := pc + Size(i);
      ghost var was := stack[..stackLen];
      match i {
        case PushI32(val) =>
          stack[stackLen] := val;
          stackLen := stackLen + 1;
          assert stack[..stackLen] == was + [val];
        case PushCharPos =>
          stack[stackLen] := cptr;
          stackLen := stackLen + 1;
          assert stack[..stackLen] == was + [cptr];
        case Drop =>
          stackLen := stackLen - 1;
          assert stack[..stackLen] == was[..|was| - 1];
        case Loop(off) =>
          stack[stackLen - 1] := if stack[stackLen - 1] == 0 then STACK_INT_MAX else stack[stackLen - 1] - 1;
          assert stack[..stackLen] == was[|was| - 1 := stack[stackLen - 1]];
          if stack[stackLen - 1] != 0 {
            next := next + off;
          }
        case BneCharPos(off) =>
          stackLen := stackLen - 1;
          assert stack[..stackLen] == was[..|was| - 1];
          if stack[stackLen] != cptr {
            next := next + off;
          }
      }
      pc := next;
      v := Goes;
    }

    // REOP_simple_greedy_quant
    method StepGreedy(i: Instr) returns (v: Verdict)
      requires Safe() && code[pc] == Op(i) && i.SimpleGreedyQuant?
      modifies this`pc, this`cptr, this`stateStack
      ensures Stepped(v)
    {
      hide Static, AllOK, ThreadOK, Height, MaxHeight, EntryOK, SimpleRun;
      HereOK();
      var pc1 := pc + 17;
      var q: nat, end: nat := 0, cptr;
      ghost var counted := CountGreedy(code, inp, pc1, cptr, i.max, 0);
      while true
        invariant end <= |inp.units| && pc == old(pc) && cptr == old(cptr) && stateStack == old(stateStack)
        invariant counted.Some? && CountGreedy(code, inp, pc1, end, i.max, q) == counted
        decreases |inp.units| - end
      {
        var res := RunSimple(code, inp, pc1, end);
        if res.None? {
          break;
        }
        end := res.value;
        q := q + 1;
        if q >= i.max && i.max != INT32_MAX {
          break;
        }
      }
      assert counted == Some((q, end));
      pc, cptr := pc1 + i.next, end;
      if q < i.min {
        return Fails;
      }
      if q > i.min {
        PushState(pc1 - 16, cptr, STATE_GREEDY_QUANT, q - i.min);
      }
      v := Goes;
    }

    // one instruction of the running thread
    method StepInstr() returns (v: Verdict)
      requires Safe()
      modifies this`pc, this`cptr, this`stackLen, this`stateStack, capture, stack
      ensures Stepped(v)
    {
      hide Static, AllOK, ThreadOK, Height, MaxHeight, EntryOK, Size, Exec;
      HereOK();
      ExecKinds(code, inp, Current());
      var i := code[pc].instr;
      if i.Match? {
        v := Matched;
      } else if IsCharTest(i) {
        v := StepChar(i);
      } else if InstrAnchor(i).Some? {
        v := StepAnchor(i);
      } else if i.SaveStart? || i.SaveEnd? {
        v := StepSave(i);
      } else if i.SaveReset? {
        v := StepReset(i);
      } else if i.PushI32? || i.PushCharPos? || i.Drop? || i.Loop? || i.BneCharPos? {
        v := StepStack(i);
      } else if i.SimpleGreedyQuant? {
        v := StepGreedy(i);
      } else {
        v := StepJump(i);
      }
    }

    // What an instruction left behind is the machine's next configuration, and again safe.
    twostate lemma {:induction false} StepKeeps(v: Verdict)
      requires old(Safe()) && Stepped(v)
      ensures old(Step(code, inp, Entries())) == After(v)
      ensures AllOK(code, inp, capture.Length, stateStack) && (v == Goes ==> Safe())
    {
      hide Static, ThreadOK, Exec, Height, MaxHeight, StepBack;
      ghost var ss, t := old(stateStack), old(Current());
      ghost var es := old(Entries());
      assert es[|es| - 1] == Branch(t) && es[..|es| - 1] == ss;
      assert AllOK(code, inp, capture.Length, es);
      StepSafe(code, inp, capture.Length, es);
      if v == Goes {
        var now := Entries();
        assert now[|now| - 1] == Branch(Current()) && now[..|now| - 1] == stateStack;
      } else {
        assert v == Fails ==> ss + [] == ss;
      }
    }

    // pop_state: registers, captures and operand stack of a saved thread; pop_state1 keeps the captures
    method PopState(t: Thread, keep: bool)
      requires Valid() && |t.caps| == capture.Length && |t.stack| <= stack.Length
      modifies this`pc, this`cptr, this`stackLen, capture, stack
      ensures Valid() && Current() == if keep then t.(caps := old(capture[..])) else t
    {
      hide Static, MaxHeight;
      if !keep {
        forall k | 0 <= k < capture.Length {
          capture[k] := t.caps[k];
        }
        assert capture[..] == t.caps;
      }
      pc, cptr, stackLen := t.pc, t.pos, |t.stack|;
      forall k | 0 <= k < |t.stack| {
        stack[k] := t.stack[k];
      }
      assert stack[..stackLen] == t.stack;
    }

    // PREV_CHAR, char_count times
    method GoBack(from: nat, charCount: nat) returns (pos: nat)
      requires from <= |inp.units| && StepBack(inp, from, charCount).Some?
      ensures StepBack(inp, from, charCount) == Some(pos)
    {
      pos := from;
      var i := 0;
      while i < charCount
        invariant i <= charCount && pos <= |inp.units|
        invariant StepBack(inp, pos, charCount - i) == StepBack(inp, from, charCount)
      {
        pos := PrevChar(inp, pos);
        i := i + 1;
      }
    }

    // a greedy loop gives one iteration back and goes on behind it
    method Shorten(t: Thread, count: nat)
      requires Valid() && stateStack != [] && stateStack[|stateStack| - 1] == Greedy(t, count)
      requires AllOK(code, inp, capture.Length, stateStack)
      modifies this`pc, this`cptr, this`stackLen, this`stateStack, capture, stack
      ensures Valid() && Step(code, inp, old(stateStack)) == Active(Entries())
    {
      hide Static, Height, MaxHeight, Exec, ThreadOK;
      var rs := |stateStack| - 1;
      assert EntryOK(code, inp, capture.Length, stateStack[rs]);
      StateFits(stateStack[rs]);
      GreedyResumes(code, inp, capture.Length, t, count);
      PopState(t, false);
      var charCount := code[pc - 1].instr.count;
      cptr := GoBack(cptr, charCount);
      pc := (pc + 16) + code[pc - 1].instr.next;
      stateStack := stateStack[rs := Greedy(t.(pos := cptr), count - 1)];
      if count - 1 == 0 {
        stateStack := stateStack[..rs];
      }
    }

    // the saved stacks of pending threads fit the operand stack
    lemma {:induction false} StateFits(e: Entry)
      requires Valid() && EntryOK(code, inp, capture.Length, e)
      ensures |e.t.caps| == capture.Length && |e.t.stack| <= stack.Length
    {
      hide Static, Height, MaxHeight, StepBack;
      MaxHeightBounds(code, if e.Greedy? then e.t.pc - 1 else e.t.pc);
    }

    lemma {:induction false} AllSafe()
      requires Valid() && AllOK(code, inp, capture.Length, Entries())
      ensures Safe()
    {
      hide Static, ThreadOK, Height, MaxHeight, AllOK, StepBack;
      TopOK(code, inp, capture.Length, Entries());
      ghost var now := Entries();
      assert now[|now| - 1] == Branch(Current()) && now[..|now| - 1] == stateStack;
    }

    // The pop loop after a match or a failure. It resumes a thread, or finds the answer.
    method Recurse(matched: bool, ghost result: Option<seq<int>>, ghost fuel: nat)
        returns (resumed: bool, ret: bool, ghost left: nat)
      requires Valid() && AllOK(code, inp, capture.Length, stateStack)
      requires Run(code, inp, After(if matched then Matched else Fails), fuel) == Halt(result)
      modifies this`pc, this`cptr, this`stackLen, this`stateStack, capture, stack
      ensures left <= fuel && Valid()
      ensures if resumed then Safe() && Run(code, inp, Active(Entries()), left) == Halt(result)
              else result == if ret then Some(capture[..]) else None
    {
      hide Static, ThreadOK, Exec, Height, MaxHeight, StepBack, Step, Run, AllOK;
      ret, left := matched, fuel;
      while stateStack != []
        invariant Valid() && AllOK(code, inp, capture.Length, stateStack) && left <= fuel
        invariant Run(code, inp, After(if ret then Matched else Fails), left) == Halt(result)
        decreases |stateStack|
      {
        var rs := |stateStack| - 1;
        var e := stateStack[rs];
        TopOK(code, inp, capture.Length, stateStack);
        StateFits(e);
        if !ret {
          FailStep(code, inp, capture.Length, stateStack, left, result);
          if e.Branch? {
            PopState(e.t, false);
            stateStack := stateStack[..rs];
            return true, ret, left;
          }
          left := left - 1;
          if e.Greedy? {
            Shorten(e.t, e.count);
            AllSafe();
            return true, ret, left;
          }
          if e.negative {
            PopState(e.t, false);
            stateStack := stateStack[..rs];
            return true, ret, left;
          }
        } else if e.Ahead? {
          if !e.negative {
            RecapOK(code, inp, capture.Length, e.t, capture[..]);
            PopState(e.t, true);
            stateStack := stateStack[..rs];
            return true, ret, left;
          }
          ret := false;
        }
        stateStack := stateStack[..rs];
      }
      EmptyEnds(code, inp, left, capture[..], result);
      resumed := false;
    }

    // lre_exec_backtrack: whenever the machine halts, this returns its answer
    method LreExecBacktrack(ghost result: Option<seq<int>>, ghost steps: nat) returns (ret: bool)
      requires Safe() && Run(code, inp, Active(Entries()), steps) == Halt(result)
      modifies this`pc, this`cptr, this`stackLen, this`stateStack, capture, stack
      ensures result == if ret then Some(capture[..]) else None
    {
      hide Static, ThreadOK, Exec, Height, MaxHeight, StepBack, Step, Run, AllOK;
      ghost var fuel := steps;
      while true
        invariant Safe() && Run(code, inp, Active(Entries()), fuel) == Halt(result)
        decreases fuel
      {
        RunOne(code, inp, Entries(), fuel, result);
        fuel := fuel - 1;
        label before:
        var v := StepInstr();
        StepKeeps@before(v);
        if v != Goes {
          var resumed;
          resumed, ret, fuel := Recurse(v == Matched, result, fuel);
          if !resumed {
            return;
          }
        }
      }
    }

    // the header's stack size leaves room for what the instruction pushes
    lemma {:induction false} StackRoom()
      requires Safe() && pc < |code| && code[pc].Op? && !code[pc].instr.Match?
      ensures stackLen + Delta(code[pc]) <= stack.Length
    {
      hide Height, MaxHeight, AllOK, Sane;
      var t := pc + Size(code[pc].instr);
      assert FitsAt(code, pc);
      assert code[pc].instr.Goto? || t in Successors(code[pc].instr, pc);
      if !code[pc].instr.Goto? {
        MaxHeightBounds(code, t);
      }
    }
  }

  lemma {:induction false} ExecKinds(code: Code, inp: Input, t: Thread)
    requires !Exec(code, inp, t).Fault? && t.pc < |code| && code[t.pc].Op?
    ensures code[t.pc].instr.Match? ==> Exec(code, inp, t) == Accept(t.caps)
    ensures code[t.pc].instr.Range? || code[t.pc].instr.Range32? ==> IsCharTest(code[t.pc].instr)
  {
  }

  lemma {:induction false} ResetNone(caps: seq<int>, first: nat)
    requires 2 * first <= |caps|
    ensures Reset(caps, first, 0) == caps
  {
  }

  lemma {:induction false} ResetMore(caps: seq<int>, first: nat, k: nat)
    requires 2 * (first + k) + 2 <= |caps|
    ensures var j := 2 * (first + k);
            Reset(caps, first, k + 1) == Reset(caps, first, k)[j := -1][j + 1 := -1]
  {
  }

  lemma {:induction false} RunOne(code: Code, inp: Input, ss: seq<Entry>, fuel: nat, result: Option<seq<int>>)
    requires Run(code, inp, Active(ss), fuel) == Halt(result)
    ensures fuel > 0 && Run(code, inp, Step(code, inp, ss), fuel - 1) == Halt(result)
  {
    hide Step;
  }

  lemma {:induction false} RunHalted(code: Code, inp: Input, r: Option<seq<int>>, fuel: nat)
    ensures Run(code, inp, Halt(r), fuel) == Halt(r)
  {
  }

  lemma {:induction false} EmptyEnds(code: Code, inp: Input, fuel: nat, caps: seq<int>, result: Option<seq<int>>)
    ensures Run(code, inp, Active([]), fuel) == Halt(result) ==> result == None
    ensures Run(code, inp, Unwind([], caps), fuel) == Halt(result) ==> result == Some(caps)
  {
    RunHalted(code, inp, Some(caps), fuel);
    if Run(code, inp, Active([]), fuel) == Halt(result) {
      RunOne(code, inp, [], fuel, result);
      RunHalted(code, inp, None, fuel - 1);
    }
  }

  lemma {:induction false} TopOK(code: Code, inp: Input, ncaps: nat, ss: seq<Entry>)
    requires AllOK(code, inp, ncaps, ss) && ss != []
    ensures EntryOK(code, inp, ncaps, ss[|ss| - 1]) && AllOK(code, inp, ncaps, ss[..|ss| - 1])
  {
    hide EntryOK;
  }

  lemma {:induction false} RecapOK(code: Code, inp: Input, ncaps: nat, t: Thread, caps: seq<int>)
    requires |caps| == ncaps
    ensures ThreadOK(code, inp, ncaps, t) ==> ThreadOK(code, inp, ncaps, t.(caps := caps))
  {
    hide Height;
  }

  // what a failure does to the entry on top
  lemma {:induction false} FailStep(code: Code, inp: Input, ncaps: nat, ss: seq<Entry>, fuel: nat,
                                    result: Option<seq<int>>)
    requires Static(code, ncaps) && AllOK(code, inp, ncaps, ss) && ss != [] && Valid(inp)
    requires Run(code, inp, Active(ss), fuel) == Halt(result)
    ensures fuel > 0 && ss == ss[..|ss| - 1] + [ss[|ss| - 1]]
    ensures var e, rest := ss[|ss| - 1], ss[..|ss| - 1];
            && (e.Ahead? ==>
                  Run(code, inp, Active(if e.negative then rest + [Branch(e.t)] else rest), fuel - 1) == Halt(result))
            && (e.Greedy? ==> Run(code, inp, Step(code, inp, ss), fuel - 1) == Halt(result))
            && (e.Greedy? ==> Step(code, inp, ss).Active? && AllOK(code, inp, ncaps, Step(code, inp, ss).ss))
  {
    hide Static, Exec, StepBack, Run, AllOK;
    RunOne(code, inp, ss, fuel, result);
    var e, rest := ss[|ss| - 1], ss[..|ss| - 1];
    StepSafe(code, inp, ncaps, ss);
    assert e.Ahead? && !e.negative ==> rest + [] == rest;
  }

  lemma {:induction false} GreedyResumes(code: Code, inp: Input, ncaps: nat, t: Thread, count: nat)
    requires Static(code, ncaps) && EntryOK(code, inp, ncaps, Greedy(t, count))
    ensures 0 < t.pc <= |code| && code[t.pc - 1].Op? && code[t.pc - 1].instr.SimpleGreedyQuant? && t.pos <= |inp.units|
    ensures StepBack(inp, t.pos, code[t.pc - 1].instr.count).Some? && t.pc + 16 + code[t.pc - 1].instr.next >= 0
  {
    hide Static, StepBack, Exec, Height;
    ResumeSafe(code, inp, ncaps, t, count);
  }

  const STATE_SPLIT: nat := 0
  const STATE_LOOKAHEAD: nat := 1
  const STATE_NEGATIVE_LOOKAHEAD: nat := 2
  const STATE_GREEDY_QUANT: nat := 3

  function EntryOf(kind: nat, t: Thread, count: nat): Entry {
    if kind == STATE_SPLIT then Branch(t)
    else if kind == STATE_LOOKAHEAD then Ahead(t, false)
    else if kind == STATE_NEGATIVE_LOOKAHEAD then Ahead(t, true)
    else Greedy(t, count)
  }

  // Compiled.code with its header fields: lre_exec on a compiled pattern
  method LreExec(c: Compiled, inp: Input, cindex: nat, ghost result: Option<seq<int>>)
    returns (ret: bool, capture: array<int>)
    requires Static(c.code, 2 * c.captureCount) && MaxHeight(c.code) <= c.stackSize <= STACK_SIZE_MAX && Valid(inp)
    requires c.code != [] && c.code[0].Op? && cindex <= |inp.units|
    requires Halts(c.code, inp, [Branch(Thread(0, cindex, seq(2 * c.captureCount, _ => -1), []))], result)
    ensures result == if ret then Some(capture[..]) else None
  {
    hide Static, MaxHeight, Run, Step, Valid;
    var s := new Engine(c.code, inp, c.captureCount, c.stackSize, cindex);
    ghost var steps: nat :| Run(c.code, inp, Active([Branch(Thread(0, cindex, seq(2 * c.captureCount, _ => -1), []))]),
                                steps)
                            == Halt(result);
    assert s.Entries() == [Branch(s.Current())];
    assert c.code[..0] == [];
    ret := s.LreExecBacktrack(result, steps);
    capture := s.capture;
  }

  // The whole engine. A pattern the compiler takes is compiled and run, and the answer is the
  // first match of the ordered matcher: whether there is one, and every capture register. Read
  // on the input itself, that is the leftmost match there is.
  method Match(n: Node, inp: Input, sticky: bool, cindex: nat) returns (r: Option<Option<seq<int>>>)
    requires WellFormed(n) && Productive(n, inp) && Valid(inp) && Steady(n, inp, cindex)
    ensures r.None? <==> TooLarge(n) || MaxHeight(Program(n, sticky)) > 255
    ensures r.None? ==> TooLarge(n) || Nesting(n) > 255
    ensures r.Some? ==> r.value == FirstMatch(n, inp, sticky, cindex) && Answers(n, inp, sticky, cindex, r.value)
  {
    hide WellFormed, Productive, Valid, Program, MaxHeight, Static, Halts, Matches, NoCaptures, Answers, TooLarge,
      Nesting;
    var compiled := LreCompile(n, sticky);
    if compiled.None? {
      return None;
    }
    ProgramStatic(n, sticky);
    ProgramStarts(n, sticky);
    ProgramCorrect(n, inp, sticky, cindex);
    FirstMatchAnswers(n, inp, sticky, cindex);
    NoCapturesAre(n);
    var ret, capture := LreExec(compiled.value, inp, cindex, FirstMatch(n, inp, sticky, cindex));
    r := Some(if ret then Some(capture[..]) else None);
  }

  lemma {:induction false} NoCapturesAre(n: Node)
    ensures NoCaptures(n) == seq(2 * (1 + Groups(n)), _ => -1)
  {
  }
}
