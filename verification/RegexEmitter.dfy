/** The emitting methods of libregexp.c, on the pattern's structure: code is appended, room
    is made in front of what has been emitted, and jumps are patched once their length is known. */
module RegexEmitter {
  import opened RegexSyntax
  import opened RegexCode
  import opened RegexMatcher
  import opened RegexCompiler
  import opened RegexAdvance
  import opened RegexSimple
  import opened RegexLayout
  import opened RegexStack
  import opened RegexRefusal
  import opened CodePointSet

  lemma {:induction false} IsCodeHead(c: Code, pos: nat)
    requires pos < |c| && IsCode(c[pos..])
    ensures c[pos].Op? && pos + Size(c[pos].instr) <= |c|
    ensures var n := Size(c[pos].instr);
            c[pos..] == Encode(c[pos].instr) + c[pos + n..] && IsCode(c[pos + n..])
    ensures c[..pos + Size(c[pos].instr)] == c[..pos] + Encode(c[pos].instr)
  {
    var d, i := c[pos..], c[pos].instr;
    var n := Size(i);
    assert d[..n] == Encode(i) && d[n..] == c[pos + n..];
    assert d == d[..n] + d[n..];
    assert c[..pos + n] == c[..pos] + d[..n];
  }

  lemma {:induction false} AdvanceInstr(c: Code, pos: nat)
    requires pos < |c| && IsCode(c[pos..])
    ensures c[pos].Op? && pos + Size(c[pos].instr) <= |c| && IsCode(c[pos + Size(c[pos].instr)..])
    ensures var i := c[pos].instr;
            Advance(c[pos..]) == if CharLike(i) then 1 else if NoEffect(i) then Advance(c[pos + Size(i)..]) else 0
  {
    hide IsCode, Advance, CharLike, NoEffect;
    IsCodeHead(c, pos);
    AdvanceCons(c[pos].instr, c[pos + Size(c[pos].instr)..]);
  }

  // re_check_advance
  method CheckAdvance(buf: Code) returns (ret: int)
    requires IsCode(buf)
    ensures ret == if Advance(buf) == -2 then 0 else Advance(buf)
  {
    hide IsCode, CharLike, NoEffect, Size;
    ret := -2;
    var pos := 0;
    assert buf[0..] == buf;
    while pos < |buf|
      invariant 0 <= pos <= |buf| && IsCode(buf[pos..])
      invariant Advance(buf) == if ret == -2 then Advance(buf[pos..]) else ret
      invariant ret in {-2, 0, 1}
    {
      hide Advance;
      AdvanceInstr(buf, pos);
      var opcode := buf[pos].instr;
      if CharLike(opcode) {
        if ret == -2 {
          ret := 1;
        }
      } else if NoEffect(opcode) {
      } else {
        if ret == -2 {
          ret := 0;
        }
      }
      pos := pos + Size(opcode);
    }
    if ret == -2 {
      ret := 0;
    }
  }

  lemma {:induction false} SimpleCountInstr(c: Code, pos: nat)
    requires pos < |c| && IsCode(c[pos..])
    ensures c[pos].Op? && pos + Size(c[pos].instr) <= |c| && IsCode(c[pos + Size(c[pos].instr)..])
    ensures var i := c[pos].instr;
            var rest := SimpleCount(c[pos + Size(i)..]);
            && rest >= -1
            && SimpleCount(c[pos..]) == (if rest == -1 then -1
                                         else if CharLike(i) then rest + 1
                                         else if Assertion(i) then rest else -1)
  {
    hide IsCode, SimpleCount, CharLike, Assertion, Encode;
    IsCodeHead(c, pos);
    var i := c[pos].instr;
    SimpleCountAppend(Encode(i), c[pos + Size(i)..]);
    SimpleCountEncode(i);
    SimpleCountBounds(c[pos + Size(i)..]);
  }

  // re_is_simple_quantifier
  method IsSimpleQuantifier(buf: Code) returns (count: int)
    requires IsCode(buf)
    ensures count == SimpleCount(buf)
  {
    hide IsCode, CharLike, Assertion, Size;
    count := 0;
    var pos := 0;
    assert buf[0..] == buf;
    SimpleCountBounds(buf);
    while pos < |buf|
      invariant 0 <= pos <= |buf| && IsCode(buf[pos..]) && count >= 0
      invariant SimpleCount(buf) == if SimpleCount(buf[pos..]) == -1 then -1 else count + SimpleCount(buf[pos..])
    {
      hide SimpleCount;
      SimpleCountInstr(buf, pos);
      var opcode := buf[pos].instr;
      if CharLike(opcode) {
        count := count + 1;
      } else if !Assertion(opcode) {
        return -1;
      }
      pos := pos + Size(opcode);
    }
  }

  lemma {:induction false} HeightInstr(c: Code, pos: nat)
    requires pos < |c| && IsCode(c[pos..])
    ensures c[pos].Op? && pos + Size(c[pos].instr) <= |c|
    ensures var next := pos + Size(c[pos].instr);
            Height(c[..next]) == Height(c[..pos]) + Delta(c[pos])
            && MaxHeight(c[..next]) == (if Height(c[..next]) > MaxHeight(c[..pos]) then Height(c[..next])
                                        else MaxHeight(c[..pos]))
  {
    IsCodeHead(c, pos);
    var i := c[pos].instr;
    HeightEncode(i);
    HeightAppend(c[..pos], Encode(i));
    var with := c[..pos] + [Op(i)];
    assert with[..pos] == c[..pos];
    assert c[..pos] + Encode(i) == with + Args(Size(i) - 1);
    HeightAppend(c[..pos], [Op(i)]);
    assert [Op(i)][..0] == [];
    MaxHeightArgs(with, Size(i) - 1);
  }

  lemma {:induction false} MaxHeightArgs(c: Code, n: nat)
    requires c != []
    ensures MaxHeight(c + Args(n)) == MaxHeight(c) && Height(c + Args(n)) == Height(c)
  {
    if n > 0 {
      MaxHeightArgs(c, n - 1);
      ArgsLast(n);
      var d := c + Args(n);
      assert d[..|d| - 1] == c + Args(n - 1) && d[|d| - 1] == Arg;
      HeightBelow(c + Args(n - 1));
    } else {
      assert c + Args(0) == c;
    }
  }

  lemma {:induction false} ArgsLast(n: nat)
    requires n > 0
    ensures Args(n) == Args(n - 1) + [Arg]
  {
    if n > 1 {
      ArgsLast(n - 1);
    }
  }

  // one step of the scan: the stack cannot go negative, and a deeper stack shows in the maximum
  lemma {:induction false} ScanInstr(c: Code, pos: nat)
    requires pos < |c| && IsCode(c[pos..]) && AllFit(c)
    ensures c[pos].Op? && pos + Size(c[pos].instr) <= |c| && IsCode(c[pos + Size(c[pos].instr)..])
    ensures var i, next := c[pos].instr, pos + Size(c[pos].instr);
            && Height(c[..next]) == Height(c[..pos]) + Grows(i)
            && Height(c[..pos]) <= MaxHeight(c[..pos]) <= MaxHeight(c[..next]) <= MaxHeight(c)
            && MaxHeight(c[..next]) == (if Height(c[..next]) > MaxHeight(c[..pos]) then Height(c[..next])
                                        else MaxHeight(c[..pos]))
            && (Grows(i) < 0 ==> Height(c[..pos]) >= 1)
  {
    hide IsCode, Height, MaxHeight, Size, Encode, Successors;
    IsCodeHead(c, pos);
    HeightInstr(c, pos);
    HeightBelow(c[..pos]);
    MaxHeightGrows(c, pos + Size(c[pos].instr));
    assert FitsAt(c, pos);
  }

  function Grows(i: Instr): int {
    if i.PushI32? || i.PushCharPos? then 1 else if i.Drop? || i.BneCharPos? then -1 else 0
  }

  // compute_stack_size: nothing when quantifiers nest too deep for the header
  method ComputeStackSize(code: Code) returns (r: Option<nat>)
    requires IsCode(code) && AllFit(code)
    ensures r == if MaxHeight(code) <= STACK_SIZE_MAX then Some(MaxHeight(code)) else None
  {
    hide IsCode, Size, AllFit;
    var size: nat, max: nat, pos := 0, 0, 0;
    assert code[..0] == [] && code[0..] == code;
    while pos < |code|
      invariant 0 <= pos <= |code| && IsCode(code[pos..])
      invariant size == Height(code[..pos]) && max == MaxHeight(code[..pos]) <= STACK_SIZE_MAX
    {
      hide Height, MaxHeight;
      ScanInstr(code, pos);
      var opcode := code[pos].instr;
      if opcode.PushI32? || opcode.PushCharPos? {
        size := size + 1;
        if size > max {
          if size > STACK_SIZE_MAX {
            return None;
          }
          max := size;
        }
      } else if opcode.Drop? || opcode.BneCharPos? {
        size := size - 1;
      }
      pos := pos + Size(opcode);
    }
    assert code[..pos] == code;
    r := Some(max);
  }

  // everything the compiler emits is a row of whole instructions
  lemma {:induction false} IsCodeAppend3(i: Instr, c: Code, j: Instr)
    requires IsCode(c)
    ensures IsCode(Encode(i) + c + Encode(j))
  {
    IsCodeEncode(i);
    IsCodeEncode(j);
    IsCodeAppend(Encode(i), c);
    IsCodeAppend(Encode(i) + c, Encode(j));
  }

  lemma {:induction false} IsCodeLoops(c: Code, k: nat, greedy: bool, check: bool)
    requires IsCode(c)
    ensures IsCode(StarCode(c, greedy, check)) && IsCode(OptionCode(c, greedy))
    ensures IsCode(UpToCode(c, k, greedy)) && IsCode(TimesCode(c, k))
  {
    hide IsCode, Encode;
    IsCodeEncode(Drop);
    IsCodeEncode(SplitOver(greedy, |c|));
    IsCodeAppend(Encode(SplitOver(greedy, |c|)), c);
    IsCodeAppend3(PushI32(k), c, Loop(-(|c| + 5)));
    IsCodeAppend(Encode(PushI32(k)) + c + Encode(Loop(-(|c| + 5))), Encode(Drop));
    IsCodeAppend4(PushI32(k), SplitOver(greedy, |c| + 5), c, Loop(-(|c| + 10)));
    IsCodeAppend(Encode(PushI32(k)) + Encode(SplitOver(greedy, |c| + 5)) + c + Encode(Loop(-(|c| + 10))), Encode(Drop));
    if check {
      IsCodeAppend4(SplitOver(greedy, |c| + 6), PushCharPos, c, BneCharPos(-(|c| + 11)));
    } else {
      IsCodeAppend3(SplitOver(greedy, |c| + 5), c, Goto(-(|c| + 10)));
    }
  }

  lemma {:induction false} IsCodeAppend4(i: Instr, j: Instr, c: Code, k: Instr)
    requires IsCode(c)
    ensures IsCode(Encode(i) + Encode(j) + c + Encode(k))
  {
    hide IsCode, Encode;
    IsCodeEncode(i);
    IsCodeEncode(j);
    IsCodeEncode(k);
    IsCodeAppend(Encode(i), Encode(j));
    IsCodeAppend(Encode(i) + Encode(j), c);
    IsCodeAppend(Encode(i) + Encode(j) + c, Encode(k));
  }

  lemma {:induction false} IsCodeQuant(c: Code, cap: nat, groups: nat, min: nat, max: nat, greedy: bool)
    requires IsCode(c) && min <= max
    ensures IsCode(QuantCode(c, cap, groups, min, max, greedy))
  {
    hide IsCode, Encode, StarCode, UpToCode, OptionCode, TimesCode, Advance, SimpleCount;
    var check := greedy && Advance(c) != 1;
    IsCodeEmpty();
    IsCodeLoops(c, min, greedy, check);
    IsCodeLoops(c, max, greedy, check);
    IsCodeLoops(c, max - min, greedy, check);
    if greedy && max > 0 && SimpleCount(c) > 0 {
      IsCodeAppend3(SimpleGreedyQuant(|c| + 1, min, max, SimpleCount(c)), c, Match);
    } else if min == 0 {
      if groups != 0 {
        IsCodeEncode(SaveReset(cap, cap + groups - 1));
      }
      IsCodeAppend(ResetCode(cap, groups), if max == 0 then [] else if max == 1 then OptionCode(c, greedy)
                   else if max == INT32_MAX then StarCode(c, greedy, check) else UpToCode(c, max, greedy));
    } else if min == 1 && max == INT32_MAX && !check {
      IsCodeEncode(SplitBack(greedy, -(|c| + 5)));
      IsCodeAppend(c, Encode(SplitBack(greedy, -(|c| + 5))));
    } else {
      IsCodeAppend(if min == 1 then c else TimesCode(c, min),
                   if max == INT32_MAX then StarCode(c, greedy, check)
                   else if max > min then UpToCode(c, max - min, greedy) else []);
    }
  }

  lemma {:induction false} IsCodeEmpty()
    ensures IsCode([])
  {
  }

  lemma {:induction false} CompileIsCode(n: Node, cap: nat)
    requires WellFormed(n)
    ensures IsCode(Compile(n, cap))
  {
    hide IsCode, Encode, QuantCode;
    match n
    case Empty => IsCodeEmpty();
    case One(t) => IsCodeEncode(TestInstr(t));
    case Check(a) => IsCodeEncode(AnchorInstr(a));
    case Cat(l, r) =>
      CompileIsCode(l, cap);
      CompileIsCode(r, cap + Groups(l));
      IsCodeAppend(Compile(l, cap), Compile(r, cap + Groups(l)));
    case Alt(l, r) =>
      CompileIsCode(l, cap);
      CompileIsCode(r, cap + Groups(l));
      var cl, cr := Compile(l, cap), Compile(r, cap + Groups(l));
      IsCodeAppend3(SplitNextFirst(|cl| + 5), cl, Goto(|cr|));
      IsCodeAppend(Encode(SplitNextFirst(|cl| + 5)) + cl + Encode(Goto(|cr|)), cr);
    case Group(b) =>
      CompileIsCode(b, cap + 1);
      IsCodeAppend3(SaveStart(cap), Compile(b, cap + 1), SaveEnd(cap));
    case Look(negative, b) =>
      CompileIsCode(b, cap);
      IsCodeAppend3(LookInstr(negative, |Compile(b, cap)| + 1), Compile(b, cap), Match);
    case Quant(b, min, max, greedy) =>
      CompileIsCode(b, cap);
      IsCodeQuant(Compile(b, cap), cap, Groups(b), min, max, greedy);
  }

  lemma {:induction false} PutCode(c: Code, pos: nat, i: Instr)
    requires pos + Size(i) <= |c| && c[pos..pos + Size(i)] == Args(Size(i))
    ensures c[pos := Op(i)] == c[..pos] + Encode(i) + c[pos + Size(i)..]
  {
    PutFront(c, pos, i);
    EncodeParts(i);
    hide Encode, Args, Size;
    RestOfRoom(c, pos, Size(i));
    PutParts(c[..pos], Op(i), Args(Size(i) - 1), c[pos + Size(i)..]);
  }

  lemma {:induction false} EncodeParts(i: Instr)
    ensures Encode(i) == [Op(i)] + Args(Size(i) - 1) && Args(Size(i))[1..] == Args(Size(i) - 1)
  {
  }

  lemma {:induction false} PutFront(c: Code, pos: nat, i: Instr)
    requires pos < |c|
    ensures c[pos := Op(i)] == c[..pos] + [Op(i)] + c[pos + 1..]
  {
  }

  lemma {:induction false} PutParts(a: Code, op: Cell, args: Code, rest: Code)
    ensures a + [op] + (args + rest) == a + ([op] + args) + rest
  {
  }

  lemma {:induction false} RestOfRoom(c: Code, pos: nat, n: nat)
    requires 0 < n && pos + n <= |c|
    ensures c[pos + 1..] == c[pos..pos + n][1..] + c[pos + n..]
  {
  }

  lemma {:induction false} RoomForTwo(pre: Code, i: Instr, j: Instr, c: Code)
    ensures var room := pre + Args(Size(i) + Size(j)) + c;
            room[..|pre|] == pre && room[|pre|..|pre| + Size(i)] == Args(Size(i))
            && room[|pre| + Size(i)..] == Args(Size(j)) + c
  {
    hide Args, Size;
    var m, n := Args(Size(i)), Args(Size(j));
    ArgsAppend(Size(i), Size(j));
    assert pre + (m + n) + c == pre + m + (n + c);
  }

  lemma {:induction false} PutAfter(a: Code, b: Code, c: Code)
    ensures a + (b + c) == a + b + c
    ensures (a + b + c)[|a|..|a| + |b|] == b && (a + b + c)[..|a|] == a && (a + b + c)[|a| + |b|..] == c
  {
  }

  // jump instructions, whose operand counts from their end
  predicate IsJump(i: Instr) {
    i.Goto? || i.SplitGotoFirst? || i.SplitNextFirst? || i.Loop? || i.BneCharPos? || i.Lookahead?
    || i.NegativeLookahead?
  }

  function Aimed(i: Instr, off: int): Instr
    requires IsJump(i)
  {
    i.(off := off)
  }

  lemma {:induction false} TailAt(pre: Code, i: Instr, rest: Code)
    ensures var c := pre + Encode(i) + rest;
            c[|pre|] == Op(i) && c[..|pre|] == pre && c[|pre|..] == Encode(i) + rest
  {
    assert (pre + Encode(i) + rest)[|pre|..] == Encode(i) + rest;
  }

  lemma {:induction false} Halves(a: Code, b: Code)
    ensures (a + b)[..|a|] == a && (a + b)[|a|..] == b
  {
  }

  lemma {:induction false} SplitTail(c: Code, pos: nat, a: Code, b: Code)
    requires pos <= |c| && c[pos..] == a + b
    ensures c == c[..pos] + a + b
  {
    assert c == c[..pos] + c[pos..];
  }

  lemma {:induction false} AtKept(a: Code, b: Code, copy: nat, len: nat)
    requires copy + len <= |a|
    ensures (a + b)[copy..copy + len] == a[copy..copy + len]
  {
  }

  lemma {:induction false} RePut(pre: Code, i: Instr, j: Instr, rest: Code)
    requires Size(i) == Size(j)
    ensures (pre + Encode(i) + rest)[|pre| := Op(j)] == pre + Encode(j) + rest
    ensures (pre + Encode(i) + rest)[|pre|] == Op(i)
  {
    var e := Encode(i);
    assert e[0 := Op(j)] == Encode(j);
    assert (pre + e + rest)[|pre| := Op(j)] == pre + e[0 := Op(j)] + rest;
  }

  // classes whose table of intervals has a 16-bit length
  predicate TablesFit(n: Node) {
    match n
    case Empty => true
    case One(t) => t.Class? ==> |t.points| / 2 < 65535
    case Check(_) => true
    case Cat(l, r) => TablesFit(l) && TablesFit(r)
    case Alt(l, r) => TablesFit(l) && TablesFit(r)
    case Group(b) => TablesFit(b)
    case Look(_, b) => TablesFit(b)
    case Quant(b, _, _, _) => TablesFit(b)
  }

  // REParseState: the growing buffer and the number of capture groups met
  class Emitter {
    var byteCode: Code
    var captureCount: nat

    constructor ()
      ensures byteCode == [] && captureCount == 1
    {
      byteCode := [];
      captureCount := 1;
    }

    // re_emit_op and its variants with operands
    method Emit(i: Instr)
      modifies this`byteCode
      ensures byteCode == old(byteCode) + Encode(i)
    {
      byteCode := byteCode + Encode(i);
    }

    // re_emit_goto
    method EmitGoto(i: Instr, target: nat)
      requires IsJump(i)
      modifies this`byteCode
      ensures byteCode == old(byteCode) + Encode(Aimed(i, target - (|old(byteCode)| + 5)))
    {
      Emit(Aimed(i, target - (|byteCode| + 5)));
    }

    // dbuf_insert: make room for len bytes at pos
    method Insert(pos: nat, len: nat)
      requires pos <= |byteCode|
      modifies this`byteCode
      ensures byteCode == old(byteCode)[..pos] + Args(len) + old(byteCode)[pos..]
    {
      byteCode := byteCode[..pos] + Args(len) + byteCode[pos..];
    }

    // write an opcode and its operands into room made for it
    method Put(pos: nat, i: Instr)
      requires pos + Size(i) <= |byteCode| && byteCode[pos..pos + Size(i)] == Args(Size(i))
      modifies this`byteCode
      ensures byteCode == old(byteCode)[..pos] + Encode(i) + old(byteCode)[pos + Size(i)..]
    {
      PutCode(byteCode, pos, i);
      byteCode := byteCode[pos := Op(i)];
    }

    // dbuf_put_self: append a copy of what was emitted before
    method PutSelf(offset: nat, len: nat)
      requires offset + len <= |byteCode|
      modifies this`byteCode
      ensures byteCode == old(byteCode) + old(byteCode)[offset..offset + len]
    {
      byteCode := byteCode + byteCode[offset..offset + len];
    }

    // put an instruction in front of what was emitted from start on
    method PutInFront(start: nat, i: Instr)
      requires start <= |byteCode|
      modifies this`byteCode
      ensures byteCode == old(byteCode)[..start] + Encode(i) + old(byteCode)[start..]
    {
      hide Encode, Size, Args;
      Insert(start, Size(i));
      assert byteCode[start..start + Size(i)] == Args(Size(i));
      Put(start, i);
      assert old(byteCode)[..start] == byteCode[..start];
    }

    // the same with two instructions in the room of one insertion
    method PutTwoInFront(start: nat, i: Instr, j: Instr)
      requires start <= |byteCode|
      modifies this`byteCode
      ensures byteCode == old(byteCode)[..start] + (Encode(i) + Encode(j)) + old(byteCode)[start..]
    {
      hide Encode, Size, Args;
      ghost var pre, c := byteCode[..start], byteCode[start..];
      RoomForTwo(pre, i, j, c);
      Insert(start, Size(i) + Size(j));
      Put(start, i);
      PutAfter(pre + Encode(i), Args(Size(j)), c);
      EncodeSize(i);
      Put(start + Size(i), j);
      Assoc3(pre, Encode(i), Encode(j));
    }

    // re_emit_range
    method EmitRange(points: seq<nat>) returns (ok: bool)
      requires Canonical(points)
      modifies this`byteCode
      ensures ok == (|points| / 2 < 65535)
      ensures byteCode == if ok then old(byteCode) + Encode(RangeInstr(points)) else old(byteCode)
    {
      hide Encode;
      var len := |points| / 2;
      if len >= 65535 {
        return false;
      }
      ok := true;
      if len == 0 {
        Emit(Char32(UINT32_MAX));
      } else {
        var high := points[|points| - 1];
        if high == UINT32_MAX {
          high := points[|points| - 2];
        }
        var pairs: seq<(nat, nat)>, i := [], 0;
        if high <= 0xffff {
          while i < |points|
            invariant i % 2 == 0 && i <= |points| && |pairs| == i / 2
            invariant pairs == Pairs16(points)[..i / 2]
          {
            high := LastOf(points, i / 2);
            if high == UINT32_MAX - 1 {
              high := 0xffff;
            }
            assert Pairs16(points)[i / 2] == (points[i], high);
            pairs := pairs + [(points[i], high)];
            i := i + 2;
          }
          assert pairs == Pairs16(points);
          Emit(Range(pairs));
        } else {
          while i < |points|
            invariant i % 2 == 0 && i <= |points| && |pairs| == i / 2
            invariant pairs == Pairs32(points)[..i / 2]
          {
            assert Pairs32(points)[i / 2] == (points[i], LastOf(points, i / 2));
            pairs := pairs + [(points[i], LastOf(points, i / 2))];
            i := i + 2;
          }
          assert pairs == Pairs32(points);
          Emit(Range32(pairs));
        }
      }
    }

    // the shortcut for greedy loops over simple bodies
    method EmitSimple(start: nat, min: nat, max: nat, count: int)
      requires start <= |byteCode| && count == SimpleCount(byteCode[start..]) > 0
      modifies this`byteCode
      ensures byteCode == old(byteCode)[..start] + SimpleCode(old(byteCode)[start..], min, max)
    {
      hide Encode, SimpleCount;
      ghost var pre, c := byteCode[..start], byteCode[start..];
      Emit(Match);
      assert byteCode == pre + (c + Encode(Match));
      assert byteCode[..start] == pre && byteCode[start..] == c + Encode(Match);
      EncodeSize(Match);
      PutInFront(start, SimpleGreedyQuant(|byteCode| - start, min, max, count));
      Assoc3(Encode(SimpleGreedyQuant(|c| + 1, min, max, count)), c, Encode(Match));
    }

    // a loop that runs for as long as its body matches
    method EmitStar(start: nat, len: nat, greedy: bool, check: bool)
      requires start + len == |byteCode|
      modifies this`byteCode
      ensures byteCode == old(byteCode)[..start] + StarCode(old(byteCode)[start..], greedy, check)
    {
      hide Encode, StarCode;
      ghost var pre, c := byteCode[..start], byteCode[start..];
      var split := SplitOver(greedy, len + if check then 6 else 5);
      ghost var front := StarFront(len, greedy, check);
      if check {
        PutTwoInFront(start, split, PushCharPos);
        EmitGoto(BneCharPos(0), start);
      } else {
        PutInFront(start, split);
        EmitGoto(Goto(0), start);
      }
      StarUnfold(c, greedy, check);
      Assoc4(pre, front, c, StarBack(len, check));
    }

    // a loop that runs at most max times
    method EmitUpTo(start: nat, len: nat, max: nat, greedy: bool)
      requires start + len == |byteCode|
      modifies this`byteCode
      ensures byteCode == old(byteCode)[..start] + UpToCode(old(byteCode)[start..], max, greedy)
    {
      hide Encode;
      ghost var pre, c := byteCode[..start], byteCode[start..];
      var split := SplitOver(greedy, len + 5);
      PutTwoInFront(start, PushI32(max), split);
      EncodeSize(PushI32(max));
      EncodeSize(split);
      EmitGoto(Loop(0), start + 5);
      Emit(Drop);
      ghost var loop := Loop(-(|c| + 10));
      Assoc5(pre, Encode(PushI32(max)) + Encode(split), c, Encode(loop), Encode(Drop));
    }

    // what the quantifier code does when the body may be skipped
    method EmitFromZero(start: nat, cap: nat, max: nat, greedy: bool, check: bool)
      requires start <= |byteCode| && cap <= captureCount
      modifies this`byteCode
      ensures byteCode == old(byteCode)[..start] +
                          ZeroCode(old(byteCode)[start..], cap, captureCount - cap, max, greedy, check)
    {
      hide Encode, StarCode, UpToCode, OptionCode;
      var lastAtomStart, len := start, |byteCode| - start;
      ghost var pre, c := byteCode[..start], byteCode[start..];
      ghost var reset := ResetCode(cap, captureCount - cap);
      if cap != captureCount {
        var op := SaveReset(cap, captureCount - 1);
        PutInFront(lastAtomStart, op);
        EncodeSize(op);
        lastAtomStart := lastAtomStart + 3;
      } else {
        assert byteCode == pre + reset + c;
      }
      assert byteCode == pre + reset + c && lastAtomStart == |pre + reset|;
      assert byteCode[..lastAtomStart] == pre + reset && byteCode[lastAtomStart..] == c;
      if max == 0 {
        byteCode := byteCode[..lastAtomStart];
      } else if max == 1 {
        var split := SplitOver(greedy, len);
        PutInFront(lastAtomStart, split);
        OptionUnfold(c, greedy);
        Assoc3(pre + reset, Encode(split), c);
      } else if max == INT32_MAX {
        EmitStar(lastAtomStart, len, greedy, check);
      } else {
        EmitUpTo(lastAtomStart, len, max, greedy);
      }
      Assoc3(pre, reset, if max == 0 then [] else if max == 1 then OptionCode(c, greedy)
                         else if max == INT32_MAX then StarCode(c, greedy, check) else UpToCode(c, max, greedy));
    }

    // exactly count times
    method EmitTimes(start: nat, len: nat, count: nat)
      requires start + len == |byteCode|
      modifies this`byteCode
      ensures byteCode == old(byteCode)[..start] + TimesCode(old(byteCode)[start..], count)
      ensures start + 5 + len <= |byteCode| && byteCode[start + 5..start + 5 + len] == old(byteCode)[start..]
    {
      hide Encode;
      ghost var pre, c := byteCode[..start], byteCode[start..];
      PutInFront(start, PushI32(count));
      EncodeSize(PushI32(count));
      EmitGoto(Loop(0), start + 5);
      Emit(Drop);
      ghost var loop := Loop(-(|c| + 5));
      Assoc5(pre, Encode(PushI32(count)), c, Encode(loop), Encode(Drop));
      assert byteCode == pre + Encode(PushI32(count)) + c + (Encode(loop) + Encode(Drop));
    }

    // a copy of the body at copy, in a loop without bound
    method EmitStarCopy(copy: nat, len: nat, greedy: bool, check: bool)
      requires copy + len <= |byteCode|
      modifies this`byteCode
      ensures byteCode == old(byteCode) + StarCode(old(byteCode)[copy..copy + len], greedy, check)
    {
      hide Encode, StarCode;
      ghost var was, c := byteCode, byteCode[copy..copy + len];
      var pos := |byteCode|;
      var split := SplitOver(greedy, len + if check then 6 else 5);
      ghost var front := StarFront(len, greedy, check);
      Emit(split);
      if check {
        Emit(PushCharPos);
        Assoc3(was, Encode(split), Encode(PushCharPos));
      }
      AtKept(was, front, copy, len);
      PutSelf(copy, len);
      if check {
        EmitGoto(BneCharPos(0), pos);
      } else {
        EmitGoto(Goto(0), pos);
      }
      StarUnfold(c, greedy, check);
      Assoc4(was, front, c, StarBack(len, check));
    }

    // a copy of the body at copy, at most max times
    method EmitUpToCopy(copy: nat, len: nat, max: nat, greedy: bool)
      requires copy + len <= |byteCode|
      modifies this`byteCode
      ensures byteCode == old(byteCode) + UpToCode(old(byteCode)[copy..copy + len], max, greedy)
    {
      hide Encode;
      ghost var was, c := byteCode, byteCode[copy..copy + len];
      Emit(PushI32(max));
      EncodeSize(PushI32(max));
      var pos, split := |byteCode|, SplitOver(greedy, len + 5);
      Emit(split);
      EncodeSize(split);
      assert byteCode == was + (Encode(PushI32(max)) + Encode(split));
      assert byteCode[copy..copy + len] == c;
      PutSelf(copy, len);
      EmitGoto(Loop(0), pos);
      Emit(Drop);
      Assoc5(was, Encode(PushI32(max)) + Encode(split), c, Encode(Loop(-(|c| + 10))), Encode(Drop));
    }

    // the quantifier code when the body has to match at least once
    method EmitFromSome(start: nat, min: nat, max: nat, greedy: bool, check: bool)
      requires start <= |byteCode| && 1 <= min <= max
      modifies this`byteCode
      ensures byteCode == old(byteCode)[..start] + SomeCode(old(byteCode)[start..], min, max, greedy, check)
    {
      hide Encode, StarCode, UpToCode, TimesCode;
      ghost var pre, c := byteCode[..start], byteCode[start..];
      var lastAtomStart, len := start, |byteCode| - start;
      if min == 1 && max == INT32_MAX && !check {
        EmitGoto(SplitBack(greedy, 0), lastAtomStart);
        Assoc3(pre, c, Encode(SplitBack(greedy, -(|c| + 5))));
      } else {
        ghost var first := if min == 1 then c else TimesCode(c, min);
        if min != 1 {
          EmitTimes(start, len, min);
          lastAtomStart := lastAtomStart + 5;
        }
        assert byteCode == pre + first && byteCode[lastAtomStart..lastAtomStart + len] == c;
        if max == INT32_MAX {
          EmitStarCopy(lastAtomStart, len, greedy, check);
          Assoc3(pre, first, StarCode(c, greedy, check));
        } else if max > min {
          EmitUpToCopy(lastAtomStart, len, max - min, greedy);
          Assoc3(pre, first, UpToCode(c, max - min, greedy));
        }
      }
    }

    // the quantifier code of re_parse_term, for the atom emitted from start on
    method EmitQuantifier(start: nat, cap: nat, min: nat, max: nat, greedy: bool, ghost pre: Code, ghost atom: Code)
      requires byteCode == pre + atom && start == |pre| && IsCode(atom) && cap <= captureCount && min <= max
      modifies this`byteCode
      ensures byteCode == pre + QuantCode(atom, cap, captureCount - cap, min, max, greedy)
    {
      hide Encode, StarCode, UpToCode, TimesCode, OptionCode, IsCode, SimpleCount, Advance;
      Halves(pre, atom);
      QuantParts(atom, cap, captureCount - cap, min, max, greedy);
      AdvanceBounds(atom);
      var addZeroAdvanceCheck := false;
      if greedy {
        if max > 0 {
          var len := IsSimpleQuantifier(byteCode[start..]);
          if len > 0 {
            EmitSimple(start, min, max, len);
            return;
          }
        }
        var ret := CheckAdvance(byteCode[start..]);
        addZeroAdvanceCheck := ret == 0;
      }
      if min == 0 {
        EmitFromZero(start, cap, max, greedy, addZeroAdvanceCheck);
      } else {
        EmitFromSome(start, min, max, greedy, addZeroAdvanceCheck);
      }
    }

    // the loop over all starting positions
    method EmitPrefix(sticky: bool)
      requires byteCode == []
      modifies this`byteCode
      ensures byteCode == if sticky then [] else SEARCH_PREFIX
    {
      if !sticky {
        Emit(SplitGotoFirst(6));
        Emit(Any);
        Emit(Goto(-11));
        assert byteCode == SEARCH_PREFIX;
      }
    }

    // what the compiler has done to the buffer for a pattern it accepts
    twostate predicate Emitted(n: Node, ok: bool)
      requires WellFormed(n)
      reads this
    {
      EmittedAs(Groups(n), Compile(n, old(captureCount)), TablesFit(n), ok)
    }

    twostate predicate EmittedAs(groups: nat, code: Code, fit: bool, ok: bool)
      reads this
    {
      (ok <==> old(captureCount) + groups <= CAPTURE_COUNT_MAX && fit) &&
      (ok ==> byteCode == old(byteCode) + code && captureCount == old(captureCount) + groups)
    }

    // re_parse_disjunction, re_parse_alternative and re_parse_term
    method EmitNode(n: Node) returns (ok: bool)
      requires WellFormed(n) && captureCount <= CAPTURE_COUNT_MAX
      modifies this
      ensures Emitted(n, ok)
      decreases n, 1
    {
      hide Encode, AltCode, GroupCode, LookCode, QuantCode;
      match n
      case Empty =>
        ok := true;
        assert byteCode == byteCode + [];
      case One(t) =>
        if t.Class? {
          ok := EmitRange(t.points);
        } else {
          Emit(TestInstr(t));
          ok := true;
        }
      case Check(a) =>
        Emit(AnchorInstr(a));
        ok := true;
      case Cat(l, r) => ok := EmitCat(n, l, r);
      case Alt(l, r) => ok := EmitAlt(n, l, r);
      case Group(b) => ok := EmitGroup(n, b);
      case Look(negative, b) => ok := EmitLook(n, negative, b);
      case Quant(b, min, max, greedy) => ok := EmitQuant(n, b, min, max, greedy);
    }

    method EmitCat(n: Node, l: Node, r: Node) returns (ok: bool)
      requires n == Cat(l, r) && WellFormed(n) && captureCount <= CAPTURE_COUNT_MAX
      modifies this
      ensures Emitted(n, ok)
      decreases n, 0
    {
      hide Compile;
      ghost var was, cap := byteCode, captureCount;
      CompileCat(l, r, cap);
      ok := EmitNode(l);
      if ok {
        ok := EmitNode(r);
        Assoc3(was, Compile(l, cap), Compile(r, cap + Groups(l)));
      }
    }

    // a disjunction: a split goes in front of the first alternative, whose end jumps over the second
    method EmitAlt(n: Node, l: Node, r: Node) returns (ok: bool)
      requires n == Alt(l, r) && WellFormed(n) && captureCount <= CAPTURE_COUNT_MAX
      modifies this
      ensures Emitted(n, ok)
      decreases n, 0
    {
      hide Compile, Encode;
      ghost var was, cap := byteCode, captureCount;
      CompileAlt(l, r, cap);
      ghost var cl, cr := Compile(l, cap), Compile(r, cap + Groups(l));
      var start := |byteCode|;
      ok := EmitNode(l);
      if ok {
        var len := |byteCode| - start;
        var split := SplitNextFirst(len + 5);
        Halves(was, cl);
        PutInFront(start, split);
        var pos := |byteCode|;
        Emit(Goto(0));
        EncodeSize(Goto(0));
        ok := EmitNode(r);
        if ok {
          TailAt(was + Encode(split) + cl, Goto(0), cr);
          PatchOffset(pos, cr);
          Assoc5(was, Encode(split), cl, Encode(Goto(|cr|)), cr);
        }
      }
    }

    // write the distance to the end of the buffer into the jump emitted between before and after
    method PatchOffset(pos: nat, ghost after: Code)
      requires pos + |after| + 5 == |byteCode| && byteCode[pos].Op? && IsJump(byteCode[pos].instr)
      requires byteCode[pos..] == Encode(byteCode[pos].instr) + after
      modifies this`byteCode
      ensures byteCode == old(byteCode)[..pos] + Encode(Aimed(old(byteCode)[pos].instr, |after|)) + after
    {
      hide Encode;
      var i := byteCode[pos].instr;
      RePut(byteCode[..pos], i, Aimed(i, |byteCode| - (pos + 5)), after);
      SplitTail(byteCode, pos, Encode(i), after);
      byteCode := byteCode[pos := Op(Aimed(i, |byteCode| - (pos + 5)))];
    }

    method EmitGroup(n: Node, b: Node) returns (ok: bool)
      requires n == Group(b) && WellFormed(n) && captureCount <= CAPTURE_COUNT_MAX
      modifies this
      ensures Emitted(n, ok)
      decreases n, 0
    {
      hide Encode;
      ghost var was, cap := byteCode, captureCount;
      CompileGroup(b, cap);
      hide Compile, WellFormed;
      if captureCount >= CAPTURE_COUNT_MAX {
        return false;
      }
      var captureIndex := captureCount;
      captureCount := captureCount + 1;
      Emit(SaveStart(captureIndex));
      ok := EmitNode(b);
      if ok {
        Emit(SaveEnd(captureIndex));
        Assoc4(was, Encode(SaveStart(cap)), Compile(b, cap + 1), Encode(SaveEnd(cap)));
      }
    }

    method EmitLook(n: Node, negative: bool, b: Node) returns (ok: bool)
      requires n == Look(negative, b) && WellFormed(n) && captureCount <= CAPTURE_COUNT_MAX
      modifies this
      ensures Emitted(n, ok)
      decreases n, 0
    {
      hide Encode;
      ghost var was, cap := byteCode, captureCount;
      CompileLook(negative, b, cap);
      hide Compile;
      var pos, op := |byteCode|, LookInstr(negative, 0);
      EncodeSize(op);
      EncodeSize(Match);
      Emit(op);
      ok := EmitNode(b);
      if ok {
        Emit(Match);
        ghost var c := Compile(b, cap);
        Assoc3(was + Encode(op), c, Encode(Match));
        TailAt(was, op, c + Encode(Match));
        PatchOffset(pos, c + Encode(Match));
        Assoc4(was, Encode(LookInstr(negative, |c| + 1)), c, Encode(Match));
      }
    }

    method EmitQuant(n: Node, b: Node, min: nat, max: nat, greedy: bool) returns (ok: bool)
      requires n == Quant(b, min, max, greedy) && WellFormed(n) && captureCount <= CAPTURE_COUNT_MAX
      modifies this
      ensures Emitted(n, ok)
      decreases n, 0
    {
      hide Compile, IsCode, TablesFit, Groups, QuantCode, WellFormed;
      CompileQuant(b, min, max, greedy, captureCount);
      var lastAtomStart, lastCaptureCount := |byteCode|, captureCount;
      ghost var atom := Compile(b, captureCount);
      ok := EmitAtom(b, atom);
      if ok {
        EmitQuantifier(lastAtomStart, lastCaptureCount, min, max, greedy, old(byteCode), atom);
      }
      assert EmittedAs(Groups(b), QuantCode(atom, old(captureCount), Groups(b), min, max, greedy), TablesFit(b), ok);
    }

    method EmitAtom(b: Node, ghost atom: Code) returns (ok: bool)
      requires WellFormed(b) && captureCount <= CAPTURE_COUNT_MAX && atom == Compile(b, captureCount)
      modifies this
      ensures EmittedAs(Groups(b), atom, TablesFit(b), ok) && IsCode(atom)
      decreases b, 2
    {
      hide Compile, IsCode, TablesFit, Groups;
      CompileIsCode(b, captureCount);
      ok := EmitNode(b);
    }
  }

  // lre_compile without the header bytes: the code, the number of captures, the stack size
  datatype Compiled = Compiled(code: Code, captureCount: nat, stackSize: nat)

  // The compiler delivers the program of the pattern, and fails exactly when the pattern has
  // too many groups, too large a class, or too deeply nested counters.
  method LreCompile(n: Node, sticky: bool) returns (r: Option<Compiled>)
    requires WellFormed(n)
    ensures var height := MaxHeight(Program(n, sticky));
            r == if TooLarge(n) || height > 255 then None
                 else Some(Compiled(Program(n, sticky), 1 + Groups(n), height))
    ensures r.None? ==> TooLarge(n) || Nesting(n) > 255
  {
    hide Encode, WellFormed, MaxHeight, AllFit, IsCode, TablesFit, Program, Compile, Groups;
    TablesFitMeans(n);
    ProgramRises(n, sticky);
    var s := new Emitter();
    s.EmitPrefix(sticky);
    s.Emit(SaveStart(0));
    var ok := s.EmitNode(n);
    if !ok {
      return None;
    }
    s.Emit(SaveEnd(0));
    s.Emit(Match);
    ProgramParts(n, sticky, if sticky then [] else SEARCH_PREFIX);
    ProgramIsCode(n, sticky);
    ProgramAllFit(n, sticky);
    var size := ComputeStackSize(s.byteCode);
    if size.None? {
      return None;
    }
    r := Some(Compiled(s.byteCode, s.captureCount, size.value));
  }

  lemma {:induction false} TablesFitMeans(n: Node)
    ensures TablesFit(n) <==> forall c: seq<nat> | c in Classes(n) :: |c| / 2 < 65535
  {
    match n
    case Empty =>
    case One(_) =>
    case Check(_) =>
    case Cat(l, r) =>
      TablesFitMeans(l);
      TablesFitMeans(r);
    case Alt(l, r) =>
      TablesFitMeans(l);
      TablesFitMeans(r);
    case Group(b) => TablesFitMeans(b);
    case Look(_, b) => TablesFitMeans(b);
    case Quant(b, _, _, _) => TablesFitMeans(b);
  }

  lemma {:induction false} ProgramParts(n: Node, sticky: bool, prefix: Code)
    requires WellFormed(n) && prefix == if sticky then [] else SEARCH_PREFIX
    ensures Program(n, sticky) == prefix + Encode(SaveStart(0)) + Compile(n, 1) + Encode(SaveEnd(0)) + Encode(Match)
  {
    CompileGroup(n, 0);
    hide Compile, Encode;
    Assoc4(prefix, Encode(SaveStart(0)), Compile(n, 1), Encode(SaveEnd(0)));
  }

  lemma {:induction false} ProgramAllFit(n: Node, sticky: bool)
    requires WellFormed(n)
    ensures AllFit(Program(n, sticky))
  {
    hide Program, Sane, AllFit;
    ProgramStatic(n, sticky);
  }

  lemma {:induction false} GroupWellFormed(n: Node)
    requires WellFormed(n)
    ensures WellFormed(Group(n))
  {
  }

  lemma {:induction false} ProgramIsCode(n: Node, sticky: bool)
    requires WellFormed(n)
    ensures IsCode(Program(n, sticky))
  {
    hide Compile, Encode, IsCode, WellFormed;
    GroupWellFormed(n);
    CompileIsCode(Group(n), 0);
    IsCodeEncode(Match);
    IsCodeEmpty();
    IsCodeEncode(SplitGotoFirst(6));
    IsCodeEncode(Any);
    IsCodeEncode(Goto(-11));
    IsCodeAppend(Encode(SplitGotoFirst(6)), Encode(Any));
    IsCodeAppend(Encode(SplitGotoFirst(6)) + Encode(Any), Encode(Goto(-11)));
    var prefix := if sticky then [] else SEARCH_PREFIX;
    IsCodeAppend(prefix, Compile(Group(n), 0));
    IsCodeAppend(prefix + Compile(Group(n), 0), Encode(Match));
  }

  lemma {:induction false} CompileLook(negative: bool, b: Node, cap: nat)
    requires WellFormed(Look(negative, b))
    ensures WellFormed(b) && Compile(Look(negative, b), cap) == LookCode(Compile(b, cap), negative)
  {
  }

  lemma {:induction false} CompileQuant(b: Node, min: nat, max: nat, greedy: bool, cap: nat)
    requires WellFormed(Quant(b, min, max, greedy))
    ensures WellFormed(b) && min <= max <= INT32_MAX
    ensures Groups(Quant(b, min, max, greedy)) == Groups(b) && TablesFit(Quant(b, min, max, greedy)) == TablesFit(b)
    ensures Compile(Quant(b, min, max, greedy), cap) == QuantCode(Compile(b, cap), cap, Groups(b), min, max, greedy)
  {
  }

  lemma {:induction false} ArgsAppend(m: nat, n: nat)
    ensures Args(m + n) == Args(m) + Args(n)
  {
    if m > 0 {
      ArgsAppend(m - 1, n);
      assert Args(m) + Args(n) == [Arg] + (Args(m - 1) + Args(n));
    } else {
      assert Args(0) + Args(n) == Args(n);
    }
  }

  lemma {:induction false} Assoc5(a: Code, b: Code, c: Code, d: Code, e: Code)
    ensures a + b + c + d + e == a + (b + c + d + e)
  {
  }

  ghost function StarFront(len: nat, greedy: bool, check: bool): (c: Code)
    ensures |c| == if check then 6 else 5
  {
    if check then Encode(SplitOver(greedy, len + 6)) + Encode(PushCharPos) else Encode(SplitOver(greedy, len + 5))
  }

  ghost function StarBack(len: nat, check: bool): Code {
    if check then Encode(BneCharPos(-(len + 11))) else Encode(Goto(-(len + 10)))
  }

  lemma {:induction false} StarUnfold(c: Code, greedy: bool, check: bool)
    ensures StarCode(c, greedy, check) == StarFront(|c|, greedy, check) + c + StarBack(|c|, check)
  {
  }

  lemma {:induction false} OptionUnfold(c: Code, greedy: bool)
    ensures OptionCode(c, greedy) == Encode(SplitOver(greedy, |c|)) + c
  {
  }

  lemma {:induction false} AdvanceBounds(c: Code)
    ensures Advance(c) in {-2, 0, 1}
  {
    if c != [] {
      AdvanceBounds(c[1..]);
    }
  }

  lemma {:induction false} QuantParts(c: Code, cap: nat, groups: nat, min: nat, max: nat, greedy: bool)
    ensures QuantCode(c, cap, groups, min, max, greedy) ==
            if greedy && max > 0 && SimpleCount(c) > 0 then SimpleCode(c, min, max)
            else if min == 0 then ZeroCode(c, cap, groups, max, greedy, greedy && Advance(c) != 1)
            else SomeCode(c, min, max, greedy, greedy && Advance(c) != 1)
  {
    hide StarCode, UpToCode, TimesCode, OptionCode, SimpleCount, Advance, Encode, SimpleCode, ResetCode;
  }
}
