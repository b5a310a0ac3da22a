/** From patterns to bytecode: the code every construct compiles to, and the emitting
    methods of libregexp.c, which get there by inserting and patching. */
module RegexCompiler {
  import opened RegexInput
  import opened RegexSyntax
  import opened RegexCode
  import opened CodePointSet

  predicate CharLike(i: Instr) {
    i.Char? || i.Char32? || i.Dot? || i.Any? || i.Range? || i.Range32?
  }

  predicate Assertion(i: Instr) {
    i.LineStart? || i.LineEnd? || i.WordBoundary? || i.NotWordBoundary?
  }

  // instructions re_check_advance passes over
  predicate NoEffect(i: Instr) {
    Assertion(i) || i.PushI32? || i.PushCharPos? || i.Drop? || i.SaveStart? || i.SaveEnd? || i.SaveReset?
  }

  // re_check_advance before its last line: 1, 0, or -2 when nothing decides
  function Advance(c: Code): int {
    if c == [] then -2
    else if c[0].Arg? then Advance(c[1..])
    else if CharLike(c[0].instr) then 1
    else if NoEffect(c[0].instr) then Advance(c[1..])
    else 0
  }

  // re_is_simple_quantifier: how many characters the code reads, -1 when it is not simple
  function SimpleCount(c: Code): int {
    if c == [] then 0
    else
      var rest := SimpleCount(c[1..]);
      if c[0].Arg? then rest
      else if rest == -1 then -1
      else if CharLike(c[0].instr) then rest + 1
      else if Assertion(c[0].instr) then rest
      else -1
  }

  // the 16-bit form writes infinity as 0xffff
  function Pairs16(points: seq<nat>): (r: seq<(nat, nat)>)
    requires Canonical(points)
    ensures |r| == |points| / 2
  {
    seq(|points| / 2, i requires 0 <= i < |points| / 2 =>
      (points[2 * i], if points[2 * i + 1] == UINT32_MAX then 0xffff else LastOf(points, i)))
  }

  function Pairs32(points: seq<nat>): (r: seq<(nat, nat)>)
    requires Canonical(points)
    ensures |r| == |points| / 2
  {
    seq(|points| / 2, i requires 0 <= i < |points| / 2 => (points[2 * i], LastOf(points, i)))
  }

  // the last code point of interval i
  function LastOf(points: seq<nat>, i: nat): nat
    requires Canonical(points) && 2 * i + 1 < |points|
  {
    assert points[2 * i] < points[2 * i + 1];
    points[2 * i + 1] - 1
  }

  function HighPoint(points: seq<nat>): nat
    requires Canonical(points) && points != []
  {
    if points[|points| - 1] == UINT32_MAX then points[|points| - 2] else points[|points| - 1]
  }

  // re_emit_range
  function RangeInstr(points: seq<nat>): Instr
    requires Canonical(points)
  {
    if points == [] then Char32(UINT32_MAX)
    else if HighPoint(points) <= 0xffff then Range(Pairs16(points))
    else Range32(Pairs32(points))
  }

  function TestInstr(t: CharTest): Instr
    requires t.Class? ==> Canonical(t.points)
  {
    match t
    case Lit(c) => if c <= 0xffff then Char(c) else Char32(c)
    case Dot => Instr.Dot
    case AnyChar => Any
    case Class(points) => RangeInstr(points)
  }

  function AnchorInstr(a: Anchor): Instr {
    match a
    case LineStart => Instr.LineStart
    case LineEnd => Instr.LineEnd
    case WordBoundary => Instr.WordBoundary
    case NotWordBoundary => Instr.NotWordBoundary
  }

  // REOP_split_goto_first + greedy: a greedy quantifier tries the body first
  function SplitOver(greedy: bool, off: int): Instr {
    if greedy then SplitNextFirst(off) else SplitGotoFirst(off)
  }

  // REOP_split_next_first - greedy, for the split at the end of a loop
  function SplitBack(greedy: bool, off: int): Instr {
    if greedy then SplitGotoFirst(off) else SplitNextFirst(off)
  }

  function ResetCode(cap: nat, groups: nat): Code {
    if groups == 0 then [] else Encode(SaveReset(cap, cap + groups - 1))
  }

  function StarCode(c: Code, greedy: bool, check: bool): Code {
    if check then
      Encode(SplitOver(greedy, |c| + 6)) + Encode(PushCharPos) + c + Encode(BneCharPos(-(|c| + 11)))
    else
      Encode(SplitOver(greedy, |c| + 5)) + c + Encode(Goto(-(|c| + 10)))
  }

  function OptionCode(c: Code, greedy: bool): Code {
    Encode(SplitOver(greedy, |c|)) + c
  }

  // at most k >= 1 iterations
  function UpToCode(c: Code, k: nat, greedy: bool): Code {
    Encode(PushI32(k)) + Encode(SplitOver(greedy, |c| + 5)) + c + Encode(Loop(-(|c| + 10))) + Encode(Drop)
  }

  // exactly k >= 2 iterations
  function TimesCode(c: Code, k: nat): Code {
    Encode(PushI32(k)) + c + Encode(Loop(-(|c| + 5))) + Encode(Drop)
  }

  function SimpleCode(c: Code, min: nat, max: nat): Code
    requires SimpleCount(c) > 0
  {
    Encode(SimpleGreedyQuant(|c| + 1, min, max, SimpleCount(c))) + c + Encode(Match)
  }

  // a quantifier whose body, with that many groups from cap on, may be skipped
  function ZeroCode(c: Code, cap: nat, groups: nat, max: nat, greedy: bool, check: bool): Code {
    ResetCode(cap, groups) +
    (if max == 0 then []
     else if max == 1 then OptionCode(c, greedy)
     else if max == INT32_MAX then StarCode(c, greedy, check)
     else UpToCode(c, max, greedy))
  }

  // a quantifier whose body has to match once
  function SomeCode(c: Code, min: nat, max: nat, greedy: bool, check: bool): Code {
    if min == 1 && max == INT32_MAX && !check then c + Encode(SplitBack(greedy, -(|c| + 5)))
    else
      (if min == 1 then c else TimesCode(c, min)) +
      (if max == INT32_MAX then StarCode(c, greedy, check)
       else if max > min then UpToCode(c, max - min, greedy)
       else [])
  }

  // a quantifier over the code c of a body with that many groups from cap on
  function QuantCode(c: Code, cap: nat, groups: nat, min: nat, max: nat, greedy: bool): Code {
    if greedy && max > 0 && SimpleCount(c) > 0 then SimpleCode(c, min, max)
    else if min == 0 then ZeroCode(c, cap, groups, max, greedy, greedy && Advance(c) != 1)
    else SomeCode(c, min, max, greedy, greedy && Advance(c) != 1)
  }

  function AltCode(cl: Code, cr: Code): Code {
    Encode(SplitNextFirst(|cl| + 5)) + cl + Encode(Goto(|cr|)) + cr
  }

  function GroupCode(c: Code, cap: nat): Code {
    Encode(SaveStart(cap)) + c + Encode(SaveEnd(cap))
  }

  function LookInstr(negative: bool, off: int): Instr {
    if negative then NegativeLookahead(off) else Lookahead(off)
  }

  function LookCode(c: Code, negative: bool): Code {
    Encode(LookInstr(negative, |c| + 1)) + c + Encode(Match)
  }

  // the code of a node whose first group, if any, is number cap
  function Compile(n: Node, cap: nat): Code
    requires WellFormed(n)
  {
    match n
    case Empty => []
    case One(t) => Encode(TestInstr(t))
    case Check(a) => Encode(AnchorInstr(a))
    case Cat(l, r) => Compile(l, cap) + Compile(r, cap + Groups(l))
    case Alt(l, r) => AltCode(Compile(l, cap), Compile(r, cap + Groups(l)))
    case Group(b) => GroupCode(Compile(b, cap + 1), cap)
    case Look(negative, b) => LookCode(Compile(b, cap), negative)
    case Quant(b, min, max, greedy) => QuantCode(Compile(b, cap), cap, Groups(b), min, max, greedy)
  }

  lemma {:induction false} CompileCat(l: Node, r: Node, cap: nat)
    requires WellFormed(Cat(l, r))
    ensures WellFormed(l) && WellFormed(r)
    ensures Compile(Cat(l, r), cap) == Compile(l, cap) + Compile(r, cap + Groups(l))
  {
    hide AltCode, GroupCode, LookCode, QuantCode, TestInstr, AnchorInstr, Encode;
  }

  lemma {:induction false} CompileAlt(l: Node, r: Node, cap: nat)
    requires WellFormed(Alt(l, r))
    ensures WellFormed(l) && WellFormed(r)
    ensures Compile(Alt(l, r), cap) == AltCode(Compile(l, cap), Compile(r, cap + Groups(l)))
  {
    hide AltCode, GroupCode, LookCode, QuantCode, TestInstr, AnchorInstr, Encode;
  }

  const SEARCH_PREFIX: Code := Encode(SplitGotoFirst(6)) + Encode(Any) + Encode(Goto(-11))

  // lre_compile, without the header
  function Program(n: Node, sticky: bool): Code
    requires WellFormed(n)
  {
    (if sticky then [] else SEARCH_PREFIX) + Compile(Group(n), 0) + Encode(Match)
  }

  // compute_stack_size: the change of height a cell makes, and the height before a cell
  function Delta(cell: Cell): int {
    if cell.Arg? then 0
    else match cell.instr
      case PushI32(_) => 1
      case PushCharPos => 1
      case Drop => -1
      case BneCharPos(_) => -1
      case _ => 0
  }

  function Height(c: Code): int {
    if c == [] then 0 else Height(c[..|c| - 1]) + Delta(c[|c| - 1])
  }

  function MaxHeight(c: Code): (h: int)
    ensures h >= 0
  {
    if c == [] then 0
    else
      var m := MaxHeight(c[..|c| - 1]);
      if Height(c) > m then Height(c) else m
  }
}
