/** The meaning of a pattern: the list of all its matches from a position, in the order a
    backtracking matcher tries them. The engine has to deliver the first one. */
module RegexMatcher {
  import opened RegexInput
  import opened RegexSyntax
  import opened CodePointSet

  datatype Option<+T> = None | Some(value: T)

  // a position and the capture registers, two per group; -1 is NULL
  datatype St = St(pos: nat, caps: seq<int>)

  predicate Ready(n: Node, cap: nat, inp: Input, s: St) {
    s.pos <= |inp.units| && 2 * (cap + Groups(n)) <= |s.caps|
  }

  // results that lie within the input, not before `from`, with all registers; from a
  // character boundary they are at character boundaries
  predicate Later(rs: seq<St>, inp: Input, from: nat, ncaps: nat) {
    forall i | 0 <= i < |rs| ::
      from <= rs[i].pos <= |inp.units| && |rs[i].caps| == ncaps && (Boundary(inp, from) ==> Boundary(inp, rs[i].pos))
  }

  predicate Passes(t: CharTest, c: nat) {
    match t
    case Lit(x) => c == x
    case Dot => !IsLineTerminator(c)
    case AnyChar => true
    case Class(points) => InSet(points, c)
  }

  function Reset(caps: seq<int>, first: nat, count: nat): (r: seq<int>)
    requires 2 * (first + count) <= |caps|
    ensures |r| == |caps|
  {
    caps[..2 * first] + seq(2 * count, _ => -1) + caps[2 * (first + count)..]
  }

  // how a quantified body is repeated once its minimum is met, and up to there
  datatype Rep = Times(k: nat) | UpTo(k: nat) | Star

  function Rank(rep: Rep): nat {
    match rep case Star => 0 case Times(k) => 2 * k case UpTo(k) => 2 * k
  }

  function EachRank(rep: Rep): nat {
    if rep.Star? then 0 else Rank(rep) + 1
  }

  function Matches(n: Node, cap: nat, inp: Input, s: St): (rs: seq<St>)
    requires Ready(n, cap, inp, s)
    ensures Later(rs, inp, s.pos, |s.caps|)
    decreases n, 0
  {
    match n
    case Empty => [s]
    case One(t) => Read(t, inp, s)
    case Check(a) => if Holds(a, inp, s.pos) then [s] else []
    case Cat(l, r) => MatchAll(r, cap + Groups(l), inp, s.pos, |s.caps|, Matches(l, cap, inp, s))
    case Alt(l, r) => Matches(l, cap, inp, s) + Matches(r, cap + Groups(l), inp, s)
    case Group(b) => Closed(Matches(b, cap + 1, inp, Opened(s, cap)), cap, inp, s.pos, |s.caps|)
    case Look(negative, b) => Looked(negative, s, Matches(b, cap, inp, s), inp)
    case Quant(b, min, max, greedy) =>
      var s0 := if min == 0 then s.(caps := Reset(s.caps, cap, Groups(b))) else s;
      var first := Repeat(b, cap, inp, Times(min), greedy, s0);
      RepeatAll(b, cap, inp, Rest(min, max), greedy, None, s.pos, |s.caps|, first)
  }

  // the results of going on with n from each of rs in turn
  function MatchAll(n: Node, cap: nat, inp: Input, from: nat, ncaps: nat, rs: seq<St>): (qs: seq<St>)
    requires Later(rs, inp, from, ncaps) && 2 * (cap + Groups(n)) <= ncaps
    ensures Later(qs, inp, from, ncaps)
    decreases n, 1, |rs|
  {
    if rs == [] then []
    else Matches(n, cap, inp, rs[0]) + MatchAll(n, cap, inp, from, ncaps, rs[1..])
  }

  function Read(t: CharTest, inp: Input, s: St): (rs: seq<St>)
    requires s.pos <= |inp.units|
    ensures Later(rs, inp, s.pos, |s.caps|)
  {
    if s.pos < |inp.units| && Passes(t, GetChar(inp, s.pos).0) then [s.(pos := GetChar(inp, s.pos).1)] else []
  }

  function Opened(s: St, group: nat): St
    requires 2 * group < |s.caps|
  {
    s.(caps := s.caps[2 * group := s.pos])
  }

  function ClosedOne(r: St, group: nat): St
    requires 2 * group + 1 < |r.caps|
  {
    r.(caps := r.caps[2 * group + 1 := r.pos])
  }

  // the group's end is saved in every result of its body
  function Closed(rs: seq<St>, group: nat, inp: Input, from: nat, ncaps: nat): (qs: seq<St>)
    requires 2 * group + 1 < ncaps && Later(rs, inp, from, ncaps)
    ensures Later(qs, inp, from, ncaps)
  {
    if rs == [] then [] else [ClosedOne(rs[0], group)] + Closed(rs[1..], group, inp, from, ncaps)
  }

  // A lookahead consumes nothing; a positive one keeps the captures of its first match.
  function Looked(negative: bool, s: St, inner: seq<St>, inp: Input): (qs: seq<St>)
    requires s.pos <= |inp.units| && Later(inner, inp, s.pos, |s.caps|)
    ensures Later(qs, inp, s.pos, |s.caps|)
  {
    if negative then (if inner == [] then [s] else [])
    else (if inner == [] then [] else [s.(caps := inner[0].caps)])
  }

  function Rest(min: nat, max: nat): Rep {
    if max == INT32_MAX then Star else if max > min then UpTo(max - min) else UpTo(0)
  }

  // A starred body is not entered again after an iteration that consumed nothing.
  function Repeat(b: Node, cap: nat, inp: Input, rep: Rep, greedy: bool, s: St): (rs: seq<St>)
    requires Ready(b, cap, inp, s)
    ensures Later(rs, inp, s.pos, |s.caps|)
    decreases b, 2, Rank(rep), |inp.units| - s.pos, 1, 0
  {
    if Done(rep) then [s]
    else
      var from := if rep.Star? then Some(s.pos) else None;
      var more := RepeatAll(b, cap, inp, Next(rep), greedy, from, s.pos, |s.caps|, Matches(b, cap, inp, s));
      if rep.Times? then more else if greedy then more + [s] else [s] + more
  }

  predicate Done(rep: Rep) { rep == Times(0) || rep == UpTo(0) }

  function Next(rep: Rep): Rep
    requires !Done(rep)
  {
    match rep case Times(k) => Times(k - 1) case UpTo(k) => UpTo(k - 1) case Star => Star
  }

  predicate Stalled(rep: Rep, from: Option<nat>, r: St) {
    rep.Star? && from.Some? && r.pos <= from.value
  }

  function RepeatAll(b: Node, cap: nat, inp: Input, rep: Rep, greedy: bool, from: Option<nat>, low: nat, ncaps: nat,
                     rs: seq<St>): (qs: seq<St>)
    requires Later(rs, inp, low, ncaps) && 2 * (cap + Groups(b)) <= ncaps && low <= |inp.units|
    requires from.Some? ==> from.value == low
    ensures Later(qs, inp, low, ncaps)
    decreases b, 2, EachRank(rep), if from.Some? then |inp.units| - low else |inp.units| + 1, 0, |rs|
  {
    if rs == [] then []
    else
      (if Stalled(rep, from, rs[0]) then [rs[0]] else Repeat(b, cap, inp, rep, greedy, rs[0]))
      + RepeatAll(b, cap, inp, rep, greedy, from, low, ncaps, rs[1..])
  }

  lemma {:induction false} CatUnfold(l: Node, r: Node, cap: nat, inp: Input, s: St)
    requires Ready(Cat(l, r), cap, inp, s)
    ensures Matches(Cat(l, r), cap, inp, s) == MatchAll(r, cap + Groups(l), inp, s.pos, |s.caps|,
                                                        Matches(l, cap, inp, s))
  {
    hide MatchAll, Read, Holds, Closed, Looked, Repeat, RepeatAll, Boundary;
  }

  lemma {:induction false} AltUnfold(l: Node, r: Node, cap: nat, inp: Input, s: St)
    requires Ready(Alt(l, r), cap, inp, s)
    ensures Matches(Alt(l, r), cap, inp, s) == Matches(l, cap, inp, s) + Matches(r, cap + Groups(l), inp, s)
  {
    hide MatchAll, Read, Holds, Closed, Looked, Repeat, RepeatAll, Boundary;
  }

  // the whole pattern is group 0
  function MatchesAt(n: Node, inp: Input, p: nat): seq<St>
    requires p <= |inp.units|
  {
    Matches(Group(n), 0, inp, St(p, NoCaptures(n)))
  }

  function NoCaptures(n: Node): (caps: seq<int>)
    ensures |caps| == 2 * (1 + Groups(n))
  {
    seq(2 * (1 + Groups(n)), _ => -1)
  }

  // the captures of the first match at p, or, when not sticky, at the first later character that has one
  function FirstMatch(n: Node, inp: Input, sticky: bool, p: nat): Option<seq<int>>
    requires p <= |inp.units|
    decreases |inp.units| - p
  {
    var rs := MatchesAt(n, inp, p);
    if rs != [] then Some(rs[0].caps)
    else if sticky || p == |inp.units| then None
    else FirstMatch(n, inp, sticky, GetChar(inp, p).1)
  }
}
