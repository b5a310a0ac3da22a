/** The subject string of the regexp engine: the cursor macros of libregexp.c on a
    buffer of 8- or 16-bit units, and the tests an instruction makes at a position. */
module RegexInput {

  // cbuf is `units`; `utf16` is cbuf_type == 2, the two other buffer types read unit by unit.
  datatype Input = Input(units: seq<nat>, utf16: bool, multiLine: bool)

  predicate Valid(inp: Input) {
    forall i | 0 <= i < |inp.units| :: inp.units[i] < 0x10000
  }

  predicate IsHigh(c: nat) { 0xd800 <= c < 0xdc00 }

  predicate IsLow(c: nat) { 0xdc00 <= c < 0xe000 }

  function Combine(hi: nat, lo: nat): nat {
    (hi % 0x400) * 0x400 + lo % 0x400 + 0x10000
  }

  // GET_CHAR: the character at p and the position after it
  function GetChar(inp: Input, p: nat): (r: (nat, nat))
    requires p < |inp.units|
    ensures p < r.1 <= |inp.units|
  {
    var c := inp.units[p];
    if inp.utf16 && IsHigh(c) && p + 1 < |inp.units| && IsLow(inp.units[p + 1]) then
      (Combine(c, inp.units[p + 1]), p + 2)
    else
      (c, p + 1)
  }

  // PREV_CHAR: the position one character back
  function PrevChar(inp: Input, p: nat): (r: nat)
    requires 0 < p <= |inp.units|
    ensures r < p
  {
    if inp.utf16 && IsLow(inp.units[p - 1]) && 1 < p && IsHigh(inp.units[p - 2]) then p - 2 else p - 1
  }

  // PEEK_PREV_CHAR: the character just before p
  function PeekPrev(inp: Input, p: nat): nat
    requires 0 < p <= |inp.units|
  {
    var c := inp.units[p - 1];
    if inp.utf16 && IsLow(c) && 1 < p && IsHigh(inp.units[p - 2]) then Combine(inp.units[p - 2], c) else c
  }

  // p does not fall between the two halves of a surrogate pair
  predicate Boundary(inp: Input, p: nat) {
    p <= |inp.units| &&
    !(inp.utf16 && 0 < p < |inp.units| && IsHigh(inp.units[p - 1]) && IsLow(inp.units[p]))
  }

  // Reading a character leads to a boundary, from wherever it starts.
  lemma {:induction false} GetCharBoundary(inp: Input, p: nat)
    requires p < |inp.units|
    ensures Boundary(inp, GetChar(inp, p).1)
  {
  }

  // Stepping back undoes one step forward exactly at character boundaries.
  lemma {:induction false} PrevUndoesGet(inp: Input, p: nat)
    requires p < |inp.units|
    ensures PrevChar(inp, GetChar(inp, p).1) == p <==> Boundary(inp, p)
  {
  }

  // Characters of a valid buffer stay below the end of the code space.
  lemma {:induction false} GetCharRange(inp: Input, p: nat)
    requires Valid(inp) && p < |inp.units|
    ensures GetChar(inp, p).0 < 0x110000
  {
  }

  predicate IsLineTerminator(c: nat) { c == 0x0a || c == 0x0d || c == 0x2028 || c == 0x2029 }

  predicate IsWordChar(c: nat) {
    (0x30 <= c <= 0x39) || (0x61 <= c <= 0x7a) || (0x41 <= c <= 0x5a) || c == 0x5f
  }

  datatype Anchor = LineStart | LineEnd | WordBoundary | NotWordBoundary

  // the test of an assertion opcode at position p
  predicate Holds(a: Anchor, inp: Input, p: nat)
    requires p <= |inp.units|
  {
    match a
    case LineStart => p == 0 || (inp.multiLine && IsLineTerminator(PeekPrev(inp, p)))
    case LineEnd => p == |inp.units| || (inp.multiLine && IsLineTerminator(GetChar(inp, p).0))
    case WordBoundary => WordBefore(inp, p) != WordAfter(inp, p)
    case NotWordBoundary => WordBefore(inp, p) == WordAfter(inp, p)
  }

  predicate WordBefore(inp: Input, p: nat)
    requires p <= |inp.units|
  {
    p != 0 && IsWordChar(PeekPrev(inp, p))
  }

  predicate WordAfter(inp: Input, p: nat)
    requires p <= |inp.units|
  {
    p < |inp.units| && IsWordChar(GetChar(inp, p).0)
  }
}
