/** The bytecode of libregexp.c. A code buffer is a sequence of cells: the opcode of an
    instruction with its operands, then one filler cell for every operand byte, so that
    positions, sizes and relative jumps are those of the byte buffer. */
module RegexCode {

  const CAPTURE_COUNT_MAX: nat := 255
  const STACK_SIZE_MAX: nat := 255

  datatype Instr =
    | Char(c: nat)
    | Char32(c: nat)
    | Dot
    | Any
    | LineStart
    | LineEnd
    | Goto(off: int)
    | SplitGotoFirst(off: int)
    | SplitNextFirst(off: int)
    | Match
    | SaveStart(i: nat)
    | SaveEnd(i: nat)
    | SaveReset(first: nat, last: nat)
    | Loop(off: int)
    | PushI32(v: nat)
    | Drop
    | WordBoundary
    | NotWordBoundary
    | Range(pairs: seq<(nat, nat)>)
    | Range32(pairs: seq<(nat, nat)>)
    | Lookahead(off: int)
    | NegativeLookahead(off: int)
    | PushCharPos
    | BneCharPos(off: int)
    | SimpleGreedyQuant(next: int, min: nat, max: nat, count: nat)

  // sizes of libregexp-opcode.h; the range opcodes are followed by their table
  function Size(i: Instr): (n: nat)
    ensures n > 0
  {
    match i
    case Char(_) => 3
    case Char32(_) => 5
    case Goto(_) => 5
    case SplitGotoFirst(_) => 5
    case SplitNextFirst(_) => 5
    case SaveStart(_) => 2
    case SaveEnd(_) => 2
    case SaveReset(_, _) => 3
    case Loop(_) => 5
    case PushI32(_) => 5
    case Range(pairs) => 3 + 4 * |pairs|
    case Range32(pairs) => 3 + 8 * |pairs|
    case Lookahead(_) => 5
    case NegativeLookahead(_) => 5
    case BneCharPos(_) => 5
    case SimpleGreedyQuant(_, _, _, _) => 17
    case _ => 1
  }

  datatype Cell = Op(instr: Instr) | Arg

  type Code = seq<Cell>

  function Args(n: nat): (c: Code)
    ensures |c| == n
  {
    if n == 0 then [] else [Arg] + Args(n - 1)
  }

  function Encode(i: Instr): (c: Code)
    ensures |c| == Size(i) && c[0] == Op(i)
  {
    [Op(i)] + Args(Size(i) - 1)
  }

  lemma {:induction false} EncodeSize(i: Instr)
    ensures |Encode(i)| == Size(i)
  {
  }

  // part sits in code at position pc
  predicate At(code: Code, pc: nat, part: Code) {
    pc + |part| <= |code| && code[pc..pc + |part|] == part
  }

  lemma {:induction false} AtSplit(code: Code, pc: nat, a: Code, b: Code)
    requires At(code, pc, a + b)
    ensures At(code, pc, a) && At(code, pc + |a|, b)
  {
    assert code[pc..pc + |a|] == (a + b)[..|a|] == a;
    assert code[pc + |a|..pc + |a| + |b|] == (a + b)[|a|..] == b;
  }

  lemma {:induction false} AtInstr(code: Code, pc: nat, i: Instr)
    requires At(code, pc, Encode(i))
    ensures pc < |code| && code[pc] == Op(i)
  {
    assert code[pc] == code[pc..pc + Size(i)][0];
  }

  lemma {:induction false} Assoc3(a: Code, b: Code, c: Code)
    ensures a + b + c == a + (b + c)
  {
  }

  lemma {:induction false} Assoc4(a: Code, b: Code, c: Code, d: Code)
    ensures a + b + c + d == a + (b + c + d)
  {
  }

  // whole instructions, one after the other
  predicate IsCode(c: Code) {
    c == [] ||
    (c[0].Op? && Size(c[0].instr) <= |c| && c[..Size(c[0].instr)] == Encode(c[0].instr)
      && IsCode(c[Size(c[0].instr)..]))
  }

  lemma {:induction false} IsCodeAppend(a: Code, b: Code)
    requires IsCode(a) && IsCode(b)
    ensures IsCode(a + b)
  {
    if a == [] {
      assert a + b == b;
    } else {
      var n := Size(a[0].instr);
      assert (a + b)[..n] == a[..n] && (a + b)[n..] == a[n..] + b;
      IsCodeAppend(a[n..], b);
    }
  }

  lemma {:induction false} IsCodeEncode(i: Instr)
    ensures IsCode(Encode(i))
  {
    assert Encode(i)[..Size(i)] == Encode(i) && Encode(i)[Size(i)..] == [];
  }
}
