/** Patterns as libregexp.c parses them, and the ordered-choice matcher that says what they mean. */
module RegexSyntax {
  import opened RegexInput
  import opened CodePointSet

  const INT32_MAX: nat := 0x7fff_ffff

  datatype CharTest = Lit(c: nat) | Dot | AnyChar | Class(points: seq<nat>)

  // Alternatives and terms are nested to the left, in the order the parser meets them.
  datatype Node =
    | Empty
    | One(test: CharTest)
    | Check(anchor: Anchor)
    | Cat(left: Node, right: Node)
    | Alt(left: Node, right: Node)
    | Group(body: Node)
    | Look(negative: bool, body: Node)
    | Quant(body: Node, min: nat, max: nat, greedy: bool)

  // number of capture groups
  function Groups(n: Node): nat {
    match n
    case Empty => 0
    case One(_) => 0
    case Check(_) => 0
    case Cat(l, r) => Groups(l) + Groups(r)
    case Alt(l, r) => Groups(l) + Groups(r)
    case Group(b) => 1 + Groups(b)
    case Look(_, b) => Groups(b)
    case Quant(b, _, _, _) => Groups(b)
  }

  // what the parser accepts: literals and classes in range, min <= max <= INT32_MAX
  predicate WellFormed(n: Node) {
    match n
    case Empty => true
    case One(t) => (t.Lit? ==> t.c < 0x110000) && (t.Class? ==> Canonical(t.points))
    case Check(_) => true
    case Cat(l, r) => WellFormed(l) && WellFormed(r)
    case Alt(l, r) => WellFormed(l) && WellFormed(r)
    case Group(b) => WellFormed(b)
    case Look(_, b) => WellFormed(b)
    case Quant(b, min, max, _) => WellFormed(b) && min <= max <= INT32_MAX
  }
}
