/** Static shape of the compiled code: every jump of a piece of code lands on an instruction
    boundary of the same piece, at the stack height the linear scan finds there. */
module RegexLayout {
  import opened RegexSyntax
  import opened RegexCode
  import opened RegexCompiler

  // positions an instruction at pos may continue at
  function Successors(i: Instr, pos: int): seq<int> {
    var next := pos + Size(i);
    match i
    case Goto(off) => [next + off]
    case SplitGotoFirst(off) => [next, next + off]
    case SplitNextFirst(off) => [next, next + off]
    case Lookahead(off) => [next, next + off]
    case NegativeLookahead(off) => [next, next + off]
    case Loop(off) => [next, next + off]
    case BneCharPos(off) => [next, next + off]
    case SimpleGreedyQuant(len, _, _, _) => [next, next + len]
    case Match => []
    case _ => [next]
  }

  // instructions that read the top of the stack
  predicate UsesTop(i: Instr) {
    i.Loop? || i.Drop? || i.BneCharPos?
  }

  // an instruction boundary of c, or its end
  predicate Lands(c: Code, t: int) {
    0 <= t <= |c| && (t < |c| ==> c[t].Op?)
  }

  predicate FitsAt(c: Code, k: nat)
    requires k < |c| && c[k].Op?
  {
    var i := c[k].instr;
    && (UsesTop(i) ==> Height(c[..k]) >= 1)
    && forall t | t in Successors(i, k) :: Lands(c, t) && Height(c[..t]) == Height(c[..k]) + Delta(c[k])
  }

  ghost predicate AllFit(c: Code) {
    forall k | 0 <= k < |c| && c[k].Op? :: FitsAt(c, k)
  }

  // a closed piece of code that leaves the stack as it was
  ghost predicate Fits(c: Code) {
    && (c != [] ==> c[0].Op?)
    && Height(c) == 0
    && forall k | 0 <= k < |c| && c[k].Op? :: FitsAt(c, k)
  }

  lemma {:induction false} HeightAppend(a: Code, b: Code)
    ensures Height(a + b) == Height(a) + Height(b)
  {
    if b == [] {
      assert a + b == a;
    } else {
      assert (a + b)[..|a + b| - 1] == a + b[..|b| - 1];
      HeightAppend(a, b[..|b| - 1]);
    }
  }

  lemma {:induction false} HeightArgs(n: nat)
    ensures Height(Args(n)) == 0
    ensures forall k | 0 <= k < n :: Args(n)[k] == Arg
  {
    if n > 0 {
      HeightArgs(n - 1);
      HeightAppend([Arg], Args(n - 1));
      assert [Arg][..0] == [];
    }
  }

  lemma {:induction false} HeightEncode(i: Instr)
    ensures Height(Encode(i)) == Delta(Op(i))
    ensures forall k | 0 < k < |Encode(i)| :: Encode(i)[k] == Arg
  {
    HeightArgs(Size(i) - 1);
    HeightAppend([Op(i)], Args(Size(i) - 1));
    assert [Op(i)][..0] == [];
  }

  // Code laid out as a row of instructions and closed pieces.
  datatype Part = Ins(i: Instr) | Sub(c: Code)

  function PartCode(p: Part): Code { match p case Ins(i) => Encode(i) case Sub(c) => c }

  function Len(p: Part): nat { match p case Ins(i) => Size(i) case Sub(c) => |c| }

  // position of part j and stack height before it
  function Off(ps: seq<Part>, j: nat): nat
    requires j <= |ps|
  {
    if j == 0 then 0 else Off(ps, j - 1) + Len(ps[j - 1])
  }

  function Level(ps: seq<Part>, j: nat): int
    requires j <= |ps|
  {
    if j == 0 then 0
    else Level(ps, j - 1) + (match ps[j - 1] case Ins(i) => Delta(Op(i)) case Sub(_) => 0)
  }

  function Flat(ps: seq<Part>, j: nat): Code
    requires j <= |ps|
  {
    if j == 0 then [] else Flat(ps, j - 1) + PartCode(ps[j - 1])
  }

  ghost predicate SubsFit(ps: seq<Part>) {
    forall j | 0 <= j < |ps| && ps[j].Sub? :: Fits(ps[j].c)
  }

  lemma {:induction false} FlatMeasures(ps: seq<Part>, j: nat)
    requires j <= |ps| && SubsFit(ps)
    ensures |Flat(ps, j)| == Off(ps, j) && Height(Flat(ps, j)) == Level(ps, j)
  {
    hide Height, Fits;
    if j > 0 {
      FlatMeasures(ps, j - 1);
      HeightAppend(Flat(ps, j - 1), PartCode(ps[j - 1]));
      PartMeasures(ps, j - 1);
    } else {
      HeightNone();
    }
  }

  lemma {:induction false} HeightNone()
    ensures Height([]) == 0
  {
  }

  lemma {:induction false} PartMeasures(ps: seq<Part>, j: nat)
    requires j < |ps| && SubsFit(ps)
    ensures |PartCode(ps[j])| == Len(ps[j])
    ensures Height(PartCode(ps[j])) == if ps[j].Ins? then Delta(Op(ps[j].i)) else 0
  {
    hide Height, Encode;
    if ps[j].Ins? {
      HeightEncode(ps[j].i);
      EncodeSize(ps[j].i);
    }
  }

  lemma {:induction false} FlatPrefix(ps: seq<Part>, i: nat, j: nat)
    requires i <= j <= |ps| && SubsFit(ps)
    ensures Off(ps, i) <= Off(ps, j) == |Flat(ps, j)| && Flat(ps, j)[..Off(ps, i)] == Flat(ps, i)
    decreases j
  {
    hide Height, PartCode, Level, Fits;
    FlatMeasures(ps, j);
    if i < j {
      FlatPrefix(ps, i, j - 1);
      FlatMeasures(ps, j - 1);
      TakePrefix(Flat(ps, j - 1), PartCode(ps[j - 1]), Off(ps, i));
    }
  }

  lemma {:induction false} TakePrefix(a: Code, b: Code, k: nat)
    requires k <= |a|
    ensures (a + b)[..k] == a[..k]
  {
  }

  // Every part begins with an instruction, so the boundary between two parts is one.
  lemma {:induction false} BoundaryLands(ps: seq<Part>, i: nat, j: nat)
    requires i <= j <= |ps| && SubsFit(ps)
    ensures Off(ps, i) <= |Flat(ps, j)| && Lands(Flat(ps, j), Off(ps, i))
    decreases j
  {
    hide Height, Level;
    FlatPrefix(ps, i, j);
    if i < j {
      BoundaryLands(ps, i, j - 1);
      FlatMeasures(ps, j - 1);
      var a, b := Flat(ps, j - 1), PartCode(ps[j - 1]);
      assert Off(ps, i) < |a| ==> (a + b)[Off(ps, i)] == a[Off(ps, i)];
      if Off(ps, i) == |a| && b != [] {
        assert (a + b)[|a|] == b[0];
      }
    }
  }

  // a target is the boundary before part m, at the expected height
  predicate AtBoundary(ps: seq<Part>, t: int, level: int, m: nat) {
    m <= |ps| && t == Off(ps, m) && Level(ps, m) == level
  }

  ghost predicate Reached(ps: seq<Part>, t: int, level: int) {
    exists m: nat :: AtBoundary(ps, t, level, m)
  }

  // the instruction parts of a row jump to boundaries of the row at the right height
  ghost predicate PartFits(ps: seq<Part>, j: nat)
    requires j < |ps|
  {
    match ps[j]
    case Sub(_) => Level(ps, j) >= 0
    case Ins(i) =>
      && (UsesTop(i) ==> Level(ps, j) >= 1)
      && forall t | t in Successors(i, Off(ps, j)) :: Reached(ps, t, Level(ps, j) + Delta(Op(i)))
  }

  ghost predicate RowFits(ps: seq<Part>) {
    SubsFit(ps) && Level(ps, |ps|) == 0 && forall j | 0 <= j < |ps| :: PartFits(ps, j)
  }

  lemma {:induction false} FindPart(ps: seq<Part>, n: nat, k: nat) returns (j: nat)
    requires n <= |ps| && SubsFit(ps) && k < |Flat(ps, n)|
    ensures j < n && Off(ps, j) <= k < Off(ps, j + 1)
    decreases n
  {
    hide Height, PartCode, Level, Fits, Flat;
    FlatMeasures(ps, n);
    if n > 0 {
      FlatMeasures(ps, n - 1);
      if k < Off(ps, n - 1) {
        j := FindPart(ps, n - 1, k);
      } else {
        j := n - 1;
      }
    }
  }

  // Where part j sits in the whole row.
  lemma {:induction false} PartSits(ps: seq<Part>, j: nat) returns (after: Code)
    requires j < |ps| && SubsFit(ps)
    ensures Flat(ps, |ps|) == Flat(ps, j) + PartCode(ps[j]) + after
    ensures after != [] ==> after[0].Op?
    ensures |Flat(ps, j)| == Off(ps, j) && |PartCode(ps[j])| == Len(ps[j]) && Height(Flat(ps, j)) == Level(ps, j)
  {
    hide Height, Fits, Level;
    var whole := Flat(ps, |ps|);
    FlatPrefix(ps, j + 1, |ps|);
    FlatMeasures(ps, j);
    FlatMeasures(ps, j + 1);
    PartMeasures(ps, j);
    BoundaryLands(ps, j + 1, |ps|);
    after := whole[Off(ps, j + 1)..];
    assert whole == whole[..Off(ps, j + 1)] + after;
  }

  lemma {:induction false} EmbedTarget(a: Code, c: Code, b: Code, u: int)
    requires Lands(c, u) && (b != [] ==> b[0].Op?)
    ensures Lands(a + c + b, |a| + u) && Height((a + c + b)[..|a| + u]) == Height(a) + Height(c[..u])
  {
    hide Height;
    var whole := a + c + b;
    assert whole[..|a| + u] == a + c[..u];
    HeightAppend(a, c[..u]);
    if |a| + u < |whole| {
      assert whole[|a| + u] == if u < |c| then c[u] else b[0];
    }
  }

  // A closed piece keeps its jumps wherever it is put.
  lemma {:induction false} EmbedFits(a: Code, c: Code, b: Code, k: nat)
    requires Fits(c) && k < |c| && c[k].Op? && Height(a) >= 0 && (b != [] ==> b[0].Op?)
    ensures |a| + k < |a + c + b| && (a + c + b)[|a| + k] == c[k] && FitsAt(a + c + b, |a| + k)
  {
    hide Height, Delta, Successors;
    var whole, i := a + c + b, c[k].instr;
    assert FitsAt(c, k);
    assert Lands(c, k) by { LandsHere(c, k); }
    EmbedTarget(a, c, b, k);
    forall t | t in Successors(i, |a| + k)
      ensures Lands(whole, t) && Height(whole[..t]) == Height(whole[..|a| + k]) + Delta(c[k])
    {
      SuccessorsShift(i, |a|, k, t);
      assert Lands(c, t - |a|);
      EmbedTarget(a, c, b, t - |a|);
    }
  }

  lemma {:induction false} LandsHere(c: Code, k: nat)
    requires k < |c| && c[k].Op?
    ensures Lands(c, k)
  {
  }

  lemma {:induction false} SuccessorsShift(i: Instr, base: nat, k: nat, t: int)
    requires t in Successors(i, base + k)
    ensures t - base in Successors(i, k)
  {
    var there, here := Successors(i, base + k), Successors(i, k);
    assert |there| == |here| && forall x | 0 <= x < |there| :: there[x] == here[x] + base;
    var x :| 0 <= x < |there| && there[x] == t;
    assert here[x] == t - base;
  }

  lemma {:induction false} InsFits(ps: seq<Part>, j: nat)
    requires j < |ps| && SubsFit(ps) && ps[j].Ins? && PartFits(ps, j)
    ensures Off(ps, j) < |Flat(ps, |ps|)| && Flat(ps, |ps|)[Off(ps, j)] == Op(ps[j].i)
    ensures FitsAt(Flat(ps, |ps|), Off(ps, j))
  {
    hide Successors, Off, Level, Flat, Height, Delta;
    var whole, k, i := Flat(ps, |ps|), Off(ps, j), ps[j].i;
    var after := PartSits(ps, j);
    assert whole[k] == Encode(i)[0];
    FlatPrefix(ps, j, |ps|);
    forall t | t in Successors(i, k)
      ensures Lands(whole, t) && Height(whole[..t]) == Height(whole[..k]) + Delta(whole[k])
    {
      assert Reached(ps, t, Level(ps, j) + Delta(Op(i)));
      var m: nat :| AtBoundary(ps, t, Level(ps, j) + Delta(Op(i)), m);
      BoundaryLands(ps, m, |ps|);
      FlatPrefix(ps, m, |ps|);
      FlatMeasures(ps, m);
    }
  }

  // A row whose parts fit is a closed piece itself.
  lemma {:induction false} FlatFits(ps: seq<Part>)
    requires RowFits(ps)
    ensures Fits(Flat(ps, |ps|))
  {
    hide Off, Level, Flat, FitsAt, Height;
    var whole := Flat(ps, |ps|);
    FlatMeasures(ps, |ps|);
    BoundaryLands(ps, 0, |ps|);
    OffZero(ps);
    forall k | 0 <= k < |whole| && whole[k].Op? ensures FitsAt(whole, k) {
      var j := FindPart(ps, |ps|, k);
      assert PartFits(ps, j);
      OffNext(ps, j);
      var after := PartSits(ps, j);
      if ps[j].Ins? {
        HeightEncode(ps[j].i);
        assert whole[k] == Encode(ps[j].i)[k - Off(ps, j)];
        InsFits(ps, j);
      } else {
        assert whole[k] == ps[j].c[k - Off(ps, j)];
        EmbedFits(Flat(ps, j), ps[j].c, after, k - Off(ps, j));
      }
    }
  }

  lemma {:induction false} OffZero(ps: seq<Part>)
    ensures Off(ps, 0) == 0
  {
  }

  lemma {:induction false} OffNext(ps: seq<Part>, j: nat)
    requires j < |ps|
    ensures Off(ps, j + 1) == Off(ps, j) + Len(ps[j])
  {
  }

  // The layouts of the compiler. In each, the parts are listed with their boundaries.

  lemma {:induction false} EmptyFits()
    ensures Fits([])
  {
  }

  lemma {:induction false} Row1(p: Part)
    requires RowFits([p])
    ensures Fits(PartCode(p))
  {
    var ps := [p];
    FlatFits(ps);
    assert Flat(ps, 1) == Flat(ps, 0) + PartCode(p) == PartCode(p);
  }

  lemma {:induction false} Row2(p: Part, q: Part)
    requires RowFits([p, q])
    ensures Fits(PartCode(p) + PartCode(q))
  {
    var ps := [p, q];
    FlatFits(ps);
    assert Flat(ps, 1) == Flat(ps, 0) + PartCode(p) == PartCode(p);
    assert Flat(ps, 2) == Flat(ps, 1) + PartCode(q);
  }

  lemma {:induction false} Row3(p: Part, q: Part, r: Part)
    requires RowFits([p, q, r])
    ensures Fits(PartCode(p) + PartCode(q) + PartCode(r))
  {
    var ps := [p, q, r];
    FlatFits(ps);
    assert Flat(ps, 1) == Flat(ps, 0) + PartCode(p) == PartCode(p);
    assert Flat(ps, 2) == Flat(ps, 1) + PartCode(q);
    assert Flat(ps, 3) == Flat(ps, 2) + PartCode(r);
  }

  lemma {:induction false} Row4(p: Part, q: Part, r: Part, s: Part)
    requires RowFits([p, q, r, s])
    ensures Fits(PartCode(p) + PartCode(q) + PartCode(r) + PartCode(s))
  {
    var ps := [p, q, r, s];
    FlatFits(ps);
    assert Flat(ps, 1) == Flat(ps, 0) + PartCode(p) == PartCode(p);
    assert Flat(ps, 2) == Flat(ps, 1) + PartCode(q);
    assert Flat(ps, 3) == Flat(ps, 2) + PartCode(r);
    assert Flat(ps, 4) == Flat(ps, 3) + PartCode(s);
  }

  lemma {:induction false} Row5(p: Part, q: Part, r: Part, s: Part, u: Part)
    requires RowFits([p, q, r, s, u])
    ensures Fits(PartCode(p) + PartCode(q) + PartCode(r) + PartCode(s) + PartCode(u))
  {
    var ps := [p, q, r, s, u];
    FlatFits(ps);
    assert Flat(ps, 1) == Flat(ps, 0) + PartCode(p) == PartCode(p);
    assert Flat(ps, 2) == Flat(ps, 1) + PartCode(q);
    assert Flat(ps, 3) == Flat(ps, 2) + PartCode(r);
    assert Flat(ps, 4) == Flat(ps, 3) + PartCode(s);
    assert Flat(ps, 5) == Flat(ps, 4) + PartCode(u);
  }

  // boundaries and heights of a row, computed from the front
  lemma {:induction false} Measures(ps: seq<Part>, j: nat)
    requires j < |ps|
    ensures Off(ps, 0) == 0 && Level(ps, 0) == 0
    ensures Off(ps, j + 1) == Off(ps, j) + Len(ps[j])
    ensures Level(ps, j + 1) == Level(ps, j) + if ps[j].Ins? then Delta(Op(ps[j].i)) else 0
  {
  }

  lemma {:induction false} Reaches(ps: seq<Part>, t: int, level: int, m: nat)
    requires m <= |ps| && t == Off(ps, m) && Level(ps, m) == level
    ensures Reached(ps, t, level)
  {
    assert AtBoundary(ps, t, level, m);
  }

  lemma {:induction false} CatFits(a: Code, b: Code)
    requires Fits(a) && Fits(b)
    ensures Fits(a + b)
  {
    hide Fits;
    var ps := [Sub(a), Sub(b)];
    Measures(ps, 0); Measures(ps, 1);
    Row2(Sub(a), Sub(b));
  }

  // an instruction that only goes on and does not touch the stack
  lemma {:induction false} PlainFits(i: Instr)
    requires Successors(i, 0) == [Size(i)] && Delta(Op(i)) == 0 && !UsesTop(i)
    ensures Fits(Encode(i))
  {
    hide Fits;
    var ps := [Ins(i)];
    Measures(ps, 0);
    Reaches(ps, Size(i), 0, 1);
    Row1(Ins(i));
  }

  predicate GoesTo(i: Instr, pos: int, t0: int, t1: int) {
    forall t | t in Successors(i, pos) :: t == t0 || t == t1
  }

  // a piece between two instructions, the first of which may jump to the end
  lemma {:induction false} BracketFits(i: Instr, c: Code, j: Instr)
    requires Fits(c) && !UsesTop(i) && !UsesTop(j) && Delta(Op(i)) == Delta(Op(j)) == 0
    requires GoesTo(i, 0, Size(i), Size(i) + |c| + Size(j))
    requires GoesTo(j, Size(i) + |c|, 0, Size(i) + |c| + Size(j))
    ensures Fits(Encode(i) + c + Encode(j))
  {
    hide Fits, Successors;
    var ps := [Ins(i), Sub(c), Ins(j)];
    Measures(ps, 0); Measures(ps, 1); Measures(ps, 2);
    Reaches(ps, 0, 0, 0);
    Reaches(ps, Size(i), 0, 1);
    Reaches(ps, Size(i) + |c| + Size(j), 0, 3);
    Row3(Ins(i), Sub(c), Ins(j));
  }

  lemma {:induction false} AltFits(cl: Code, cr: Code)
    requires Fits(cl) && Fits(cr)
    ensures Fits(AltCode(cl, cr))
  {
    hide Fits, Off, Level, Encode;
    var i, j := SplitNextFirst(|cl| + 5), Goto(|cr|);
    var ps := [Ins(i), Sub(cl), Ins(j), Sub(cr)];
    Measures(ps, 0); Measures(ps, 1); Measures(ps, 2); Measures(ps, 3);
    Reaches(ps, 5, 0, 1);
    Reaches(ps, 10 + |cl|, 0, 3);
    Reaches(ps, 10 + |cl| + |cr|, 0, 4);
    Row4(Ins(i), Sub(cl), Ins(j), Sub(cr));
  }

  lemma {:induction false} OptionFits(c: Code, greedy: bool)
    requires Fits(c)
    ensures Fits(OptionCode(c, greedy))
  {
    hide Fits;
    var i := SplitOver(greedy, |c|);
    var ps := [Ins(i), Sub(c)];
    Measures(ps, 0); Measures(ps, 1);
    Reaches(ps, 5, 0, 1);
    Reaches(ps, 5 + |c|, 0, 2);
    Row2(Ins(i), Sub(c));
  }

  lemma {:induction false} PlusFits(c: Code, greedy: bool)
    requires Fits(c)
    ensures Fits(c + Encode(SplitBack(greedy, -(|c| + 5))))
  {
    hide Fits;
    var i := SplitBack(greedy, -(|c| + 5));
    var ps := [Sub(c), Ins(i)];
    Measures(ps, 0); Measures(ps, 1);
    Reaches(ps, 0, 0, 0);
    Reaches(ps, |c| + 5, 0, 2);
    Row2(Sub(c), Ins(i));
  }

  lemma {:induction false} StarFits(c: Code, greedy: bool, check: bool)
    requires Fits(c)
    ensures Fits(StarCode(c, greedy, check))
  {
    hide Fits, Off, Level, Encode;
    if check {
      var i, j := SplitOver(greedy, |c| + 6), BneCharPos(-(|c| + 11));
      var ps := [Ins(i), Ins(PushCharPos), Sub(c), Ins(j)];
      Measures(ps, 0); Measures(ps, 1); Measures(ps, 2); Measures(ps, 3);
      Reaches(ps, 0, 0, 0);
      Reaches(ps, 5, 0, 1);
      Reaches(ps, 6, 1, 2);
      Reaches(ps, |c| + 11, 0, 4);
      Row4(Ins(i), Ins(PushCharPos), Sub(c), Ins(j));
    } else {
      BracketFits(SplitOver(greedy, |c| + 5), c, Goto(-(|c| + 10)));
    }
  }

  lemma {:induction false} TimesFits(c: Code, k: nat)
    requires Fits(c)
    ensures Fits(TimesCode(c, k))
  {
    hide Fits, Off, Level, Encode;
    var j := Loop(-(|c| + 5));
    var ps := [Ins(PushI32(k)), Sub(c), Ins(j), Ins(Drop)];
    Measures(ps, 0); Measures(ps, 1); Measures(ps, 2); Measures(ps, 3);
    Reaches(ps, 5, 1, 1);
    Reaches(ps, |c| + 10, 1, 3);
    Reaches(ps, |c| + 11, 0, 4);
    Row4(Ins(PushI32(k)), Sub(c), Ins(j), Ins(Drop));
  }

  lemma {:induction false} UpToFits(c: Code, k: nat, greedy: bool)
    requires Fits(c)
    ensures Fits(UpToCode(c, k, greedy))
  {
    hide Fits, Off, Level, Encode;
    var i, j := SplitOver(greedy, |c| + 5), Loop(-(|c| + 10));
    var ps := [Ins(PushI32(k)), Ins(i), Sub(c), Ins(j), Ins(Drop)];
    Measures(ps, 0); Measures(ps, 1); Measures(ps, 2); Measures(ps, 3); Measures(ps, 4);
    Reaches(ps, 5, 1, 1);
    Reaches(ps, 10, 1, 2);
    Reaches(ps, |c| + 15, 1, 4);
    Reaches(ps, |c| + 16, 0, 5);
    Row5(Ins(PushI32(k)), Ins(i), Sub(c), Ins(j), Ins(Drop));
  }

  lemma {:induction false} QuantFits(c: Code, cap: nat, groups: nat, min: nat, max: nat, greedy: bool)
    requires Fits(c)
    ensures Fits(QuantCode(c, cap, groups, min, max, greedy))
  {
    hide Fits, StarCode, UpToCode, OptionCode, TimesCode, Encode, Advance;
    var check := greedy && Advance(c) != 1;
    StarFits(c, greedy, check);
    EmptyFits();
    if greedy && max > 0 && SimpleCount(c) > 0 {
      BracketFits(SimpleGreedyQuant(|c| + 1, min, max, SimpleCount(c)), c, Match);
    } else if min == 0 {
      if groups != 0 {
        PlainFits(SaveReset(cap, cap + groups - 1));
      }
      OptionFits(c, greedy);
      UpToFits(c, max, greedy);
      CatFits(ResetCode(cap, groups), if max == 0 then [] else if max == 1 then OptionCode(c, greedy)
                                      else if max == INT32_MAX then StarCode(c, greedy, check)
                                      else UpToCode(c, max, greedy));
    } else if min == 1 && max == INT32_MAX && !check {
      PlusFits(c, greedy);
    } else {
      TimesFits(c, min);
      if max > min {
        UpToFits(c, max - min, greedy);
      }
      CatFits(if min == 1 then c else TimesCode(c, min),
              if max == INT32_MAX then StarCode(c, greedy, check)
              else if max > min then UpToCode(c, max - min, greedy) else []);
    }
  }

  // Whatever the compiler emits for a pattern is a closed piece of code.
  lemma {:induction false} CompileFits(n: Node, cap: nat)
    requires WellFormed(n)
    ensures Fits(Compile(n, cap))
  {
    hide Fits, AltCode, QuantCode, Encode;
    match n
    case Empty => EmptyFits();
    case One(t) => PlainFits(TestInstr(t));
    case Check(a) => PlainFits(AnchorInstr(a));
    case Cat(l, r) =>
      CompileFits(l, cap);
      CompileFits(r, cap + Groups(l));
      CatFits(Compile(l, cap), Compile(r, cap + Groups(l)));
    case Alt(l, r) =>
      CompileFits(l, cap);
      CompileFits(r, cap + Groups(l));
      AltFits(Compile(l, cap), Compile(r, cap + Groups(l)));
    case Group(b) =>
      CompileFits(b, cap + 1);
      BracketFits(SaveStart(cap), Compile(b, cap + 1), SaveEnd(cap));
    case Look(negative, b) =>
      CompileFits(b, cap);
      BracketFits(LookInstr(negative, |Compile(b, cap)| + 1), Compile(b, cap), Match);
    case Quant(b, min, max, greedy) =>
      CompileFits(b, cap);
      QuantFits(Compile(b, cap), cap, Groups(b), min, max, greedy);
  }
}
