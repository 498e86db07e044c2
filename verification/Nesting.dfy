/**
 * Which lines are accepted (server/hb/proc.c:384-628), told from the lines alone: what a line needs
 * of the levels that are open, the error if it does not find it, and that the lines which find what
 * they need, with every level closed in the end, are those of nested bodies and no others.
 */
module Nesting {
  import opened Options
  import opened Control
  import opened CodeGen
  import opened Lines
  import opened Library
  import opened Holes

  // ---- one line ----

  predicate OpensLevel(l: Line) { l.DoWhile? || l.IfLn? || l.DoCase? }

  /** The line belongs to the innermost open level, or needs none. After ELSE there is no more ELSE
      and no ELSEIF, after OTHERWISE no more OTHERWISE and no CASE. */
  predicate Suits(nest: Stack<Level>, l: Line) {
    match l
    case EndDo => nest.Push? && nest.top == WhileL
    case ElseIf(_) => nest.Push? && (nest.top == IfL || nest.top == ElseIfL)
    case ElseLn => nest.Push? && (nest.top == IfL || nest.top == ElseIfL)
    case EndIf => nest.Push? && (nest.top == IfL || nest.top == ElseIfL || nest.top == ElseL)
    case CaseLn(_) => nest.Push? && nest.top.CaseL?
    case OtherwiseLn => nest.Push? && nest.top.CaseL?
    case EndCase => nest.Push? && (nest.top.CaseL? || nest.top.OtherL?)
    case _ => true
  }

  /** The error of a line that does not. */
  function Complaint(l: Line): Error {
    match l
    case EndDo => UNBAL_ENDDO
    case ElseIf(_) => MISSING_IF
    case ElseLn => MISSING_IF
    case EndIf => UNBAL_ENDIF
    case CaseLn(_) => MISSING_CASE
    case OtherwiseLn => MISSING_CASE
    case _ => UNBAL_ENDCASE
  }

  /** A loop is open, however deep. */
  predicate Looping(nest: Stack<Level>) { nest.Push? && (nest.top == WhileL || Looping(nest.below)) }

  /** The addresses that the open levels keep: two for WHILE, one for IF and for ELSE, two from the
      second arm of a chain on. */
  function Addresses(nest: Stack<Level>): nat {
    if nest.Empty? then 0
    else (match nest.top
      case WhileL => 2
      case IfL => 1
      case ElseIfL => 2
      case ElseL => 1
      case CaseL(s, nf) => if s && nf then 2 else if s || nf then 1 else 0
      case OtherL(nf) => if nf then 1 else 0) + Addresses(nest.below)
  }

  /** What becomes of a line, with `a` addresses below those of the open levels: its error, or None. */
  function Verdict(nest: Stack<Level>, a: nat, l: Line, fcn: bool): Option<Error> {
    if OpensLevel(l) && Len(nest) == 31 then Some(TOOMANY_LEVELS)
    else if !Suits(nest, l) then Some(Complaint(l))
    else if (l.ExitLn? || l.LoopLn?) && !Looping(nest) then Some(UNBAL_LOOP)
    else if l.ReturnLn? && fcn then Some(BAD_EXP)
    else if l.ReturnValLn? && !fcn then Some(EXCESS_SYNTAX)
    else
      var now := Addresses(NestAfter(nest, l));
      if now > Addresses(nest) && a + now >= 32 then Some(STACK_FAULT) else None
  }

  /** Some(e) exactly if r is that error. */
  predicate Says(v: Option<Error>, r: Res) { if v.Some? then r == Err(v.v) else r.Ok? }

  lemma {:induction false} AddressesAre(nest: Stack<Level>, addrs: Stack<int>)
    requires Older(nest, addrs).Some?
    ensures Len(addrs) == Len(Older(nest, addrs).v) + Addresses(nest)
    decreases nest
  {
    if nest.Push? {
      match Height(nest.top)
      case 0 => AddressesAre(nest.below, addrs);
      case 1 => AddressesAre(nest.below, addrs.below);
      case _ => AddressesAre(nest.below, addrs.below.below);
    }
  }

  lemma {:induction false} LoopingIs(nest: Stack<Level>)
    ensures Looping(nest) <==> InLoop(nest)
    decreases nest
  {
    if nest.Push? { LoopingIs(nest.below); }
  }

  /** Every line, in every state that lines lead to: the error, and no other, that the open levels
      give rise to. */
  lemma StepJudged(c: Comp, l: Line, fcn: bool, base: Stack<int>, lo: nat)
    requires Balanced(c, base, lo) && Small(c)
    ensures Says(Verdict(c.nest, Len(base), l, fcn), Step(c, l, fcn))
  {
    AddressesAre(c.nest, c.addrs);
    LoopingIs(c.nest);
    match l
    case ElseIf(_) => ChainJudged(c, false, l, fcn, base, lo);
    case ElseLn => ChainJudged(c, false, l, fcn, base, lo);
    case EndIf => ChainJudged(c, false, l, fcn, base, lo);
    case CaseLn(_) => ChainJudged(c, true, l, fcn, base, lo);
    case OtherwiseLn => ChainJudged(c, true, l, fcn, base, lo);
    case EndCase => ChainJudged(c, true, l, fcn, base, lo);
    case _ => OpenJudged(c, l, fcn, base, lo);
  }

  lemma OpenJudged(c: Comp, l: Line, fcn: bool, base: Stack<int>, lo: nat)
    requires Balanced(c, base, lo) && Small(c) && Len(c.addrs) == Len(base) + Addresses(c.nest)
    requires Looping(c.nest) <==> InLoop(c.nest)
    requires !l.ElseIf? && !l.ElseLn? && !l.EndIf? && !l.CaseLn? && !l.OtherwiseLn? && !l.EndCase?
    ensures Says(Verdict(c.nest, Len(base), l, fcn), Step(c, l, fcn))
  {
    match l
    case DoWhile(b) => WhileStep(b, c.out, c.addrs, c.nest, fcn);
    case IfLn(b) => IfStep(b, c.out, c.addrs, c.nest, fcn);
    case _ =>
  }

  lemma ChainJudged(c: Comp, isCase: bool, l: Line, fcn: bool, base: Stack<int>, lo: nat)
    requires Balanced(c, base, lo) && Small(c) && Len(c.addrs) == Len(base) + Addresses(c.nest)
    requires if isCase then l.CaseLn? || l.OtherwiseLn? || l.EndCase? else l.ElseIf? || l.ElseLn? || l.EndIf?
    ensures Says(Verdict(c.nest, Len(base), l, fcn), Step(c, l, fcn))
  {
    if TopTested(c, isCase) {
      TestedJudged(c, isCase, l, fcn, base, lo);
    }
  }

  lemma TestedJudged(c: Comp, isCase: bool, l: Line, fcn: bool, base: Stack<int>, lo: nat)
    requires Balanced(c, base, lo) && Small(c) && Len(c.addrs) == Len(base) + Addresses(c.nest)
    requires if isCase then l.CaseLn? || l.OtherwiseLn? || l.EndCase? else l.ElseIf? || l.ElseLn? || l.EndIf?
    requires TopTested(c, isCase)
    ensures Says(Verdict(c.nest, Len(base), l, fcn), Step(c, l, fcn))
  {
    var first, addrs, j, f, nest := InChain(c, isCase, base, lo);
    if l.CaseLn? || l.ElseIf? {
      FurtherJudged(c, isCase, first, l, addrs, j, f, nest, fcn, Len(base));
    } else {
      LastJudged(c, isCase, first, l, addrs, j, f, nest, fcn, Len(base));
    }
  }

  /** The last part of a chain, and its end, need no more addresses. */
  lemma LastJudged(c: Comp, isCase: bool, first: bool, l: Line, addrs: Stack<int>, j: int, f: int, nest: Stack<Level>,
                   fcn: bool, a: nat)
    requires c == Chain(isCase, first, c.out, addrs, j, f, nest) && (first <==> j == -1) && Small(c)
    requires if isCase then l.OtherwiseLn? || l.EndCase? else l.ElseLn? || l.EndIf?
    ensures Says(Verdict(c.nest, a, l, fcn), Step(c, l, fcn))
  {
    assert Addresses(c.nest) == (if first then 1 else 2) + Addresses(nest);
    if l.OtherwiseLn? || l.ElseLn? {
      OtherStep(isCase, first, c.out, addrs, j, f, nest, fcn);
      assert Addresses(NestAfter(c.nest, l)) == 1 + Addresses(nest);
    } else {
      EndStep(isCase, first, c.out, addrs, j, f, nest, fcn);
    }
  }

  /** A further arm: one address more behind the first, none behind the others. */
  lemma FurtherJudged(c: Comp, isCase: bool, first: bool, l: Line, addrs: Stack<int>, j: int, f: int,
                      nest: Stack<Level>, fcn: bool, a: nat)
    requires c == Chain(isCase, first, c.out, addrs, j, f, nest) && (first <==> j == -1) && Small(c)
    requires Len(c.addrs) == a + Addresses(c.nest) && if isCase then l.CaseLn? else l.ElseIf?
    ensures Says(Verdict(c.nest, a, l, fcn), Step(c, l, fcn))
  {
    LinkStep(isCase, first, l.c, c.out, addrs, j, f, nest, fcn);
    assert Addresses(c.nest) == (if first then 1 else 2) + Addresses(nest);
    assert Addresses(NestAfter(c.nest, l)) == 2 + Addresses(nest);
  }

  /** The code of the lines that open and close nothing. */
  lemma CodeOfLine(c: Comp, b: Blk, name: string)
    ensures Step(c, Line.Plain(b), false) == Ok(c.(out := c.out + [Code(b)]))
    ensures Step(c, ReturnLn, false) == Ok(c.(out := c.out + [Jmp(RETURN, 0)]))
    ensures Step(c, ReturnValLn(b), true) == Ok(c.(out := c.out + [Code(b), Jmp(FCNRTN, 0)]))
    ensures Step(c, CallLn(b, name), false) == Ok(c.(out := c.out + [Code(b), Ask(name)]))
  {
  }

  // ---- a list of lines ----

  /** The error of the first line that has one. */
  function Judged(nest: Stack<Level>, a: nat, ls: seq<Line>, fcn: bool): Option<Error>
    decreases ls
  {
    if ls == [] then None
    else
      var v := Verdict(nest, a, ls[0], fcn);
      if v.Some? then v else Judged(NestAfter(nest, ls[0]), a, ls[1..], fcn)
  }

  lemma {:induction false} RunJudged(c: Comp, ls: seq<Line>, fcn: bool, base: Stack<int>, lo: nat)
    requires Balanced(c, base, lo) && Small(c)
    ensures Says(Judged(c.nest, Len(base), ls, fcn), Feed(c, ls, fcn))
    decreases ls
  {
    if ls != [] {
      StepJudged(c, ls[0], fcn, base, lo);
      var r := Step(c, ls[0], fcn);
      if r.Ok? {
        StepKeeps(c, ls[0], fcn, base, lo);
        StepLimits(c, ls[0], fcn);
        NestStep(c, ls[0], fcn);
        RunJudged(r.c, ls[1..], fcn, base, lo);
      }
    }
  }

  /** The lines of a module: the error is that of the first line that has one, told from the lines. */
  lemma FeedJudged(out: seq<Instr>, addrs: Stack<int>, ls: seq<Line>, fcn: bool)
    requires Len(addrs) < MAXLEVEL
    ensures Says(Judged(Empty, Len(addrs), ls, fcn), Feed(Comp(out, addrs, Empty), ls, fcn))
  {
    RunJudged(Comp(out, addrs, Empty), ls, fcn, addrs, |out|);
  }

  // ---- lines that find their level ----

  /** The levels open after lines each of which suits those before it. */
  function Walk(nest: Stack<Level>, ls: seq<Line>): Option<Stack<Level>>
    decreases ls
  {
    if ls == [] then Some(nest) else if !Suits(nest, ls[0]) then None else Walk(NestAfter(nest, ls[0]), ls[1..])
  }

  lemma {:induction false} WalkAppend(nest: Stack<Level>, l1: seq<Line>, l2: seq<Line>)
    ensures Walk(nest, l1 + l2) == var w := Walk(nest, l1); if w.None? then None else Walk(w.v, l2)
    decreases l1
  {
    if l1 == [] {
      assert l1 + l2 == l2;
    } else {
      assert (l1 + l2)[1..] == l1[1..] + l2;
      if Suits(nest, l1[0]) { WalkAppend(NestAfter(nest, l1[0]), l1[1..], l2); }
    }
  }

  lemma WalkCons(nest: Stack<Level>, l: Line, ls: seq<Line>)
    ensures Walk(nest, [l] + ls) == if Suits(nest, l) then Walk(NestAfter(nest, l), ls) else None
  {
    assert ([l] + ls)[1..] == ls;
  }

  lemma {:induction false} WalkJudged(nest: Stack<Level>, a: nat, ls: seq<Line>, fcn: bool)
    requires Judged(nest, a, ls, fcn) == None
    ensures Walk(nest, ls) == Some(OpenAfter(nest, ls))
    decreases ls
  {
    if ls != [] { WalkJudged(NestAfter(nest, ls[0]), a, ls[1..], fcn); }
  }

  // ---- reading a body off its lines ----

  datatype Read<T> = Read(t: T, rest: seq<Line>)

  /** Lines that do not start a statement. */
  predicate Closer(l: Line) {
    l.EndDo? || l.ElseIf? || l.ElseLn? || l.EndIf? || l.CaseLn? || l.OtherwiseLn? || l.EndCase?
  }

  function EndOf(isCase: bool): Line { if isCase then EndCase else EndIf }
  function ElseOf(isCase: bool): Line { if isCase then OtherwiseLn else ElseLn }
  predicate ArmOf(isCase: bool, l: Line) { if isCase then l.CaseLn? else l.ElseIf? }

  function ReadB(ls: seq<Line>): (r: Option<Read<Block>>)
    ensures r.Some? ==> |r.v.rest| <= |ls|
    decreases |ls|, 1
  {
    if ls == [] || Closer(ls[0]) then Some(Read(Nil, ls))
    else match ReadS(ls)
      case None => None
      case Some(s) => match ReadB(s.rest)
        case None => None
        case Some(b) => Some(Read(Then(s.t, b.t), b.rest))
  }

  function ReadS(ls: seq<Line>): (r: Option<Read<Stmt>>)
    requires ls != [] && !Closer(ls[0])
    ensures r.Some? ==> |r.v.rest| < |ls|
    decreases |ls|, 0
  {
    var more := ls[1..];
    match ls[0]
    case DoWhile(c) => ReadLoop(c, more)
    case IfLn(c) => ReadIf(c, more)
    case DoCase => ReadCase(more)
    case Plain(c) => Some(Read(Do(c), more))
    case ExitLn => Some(Read(Exit, more))
    case LoopLn => Some(Read(Loop, more))
    case ReturnLn => Some(Read(Return, more))
    case ReturnValLn(e) => Some(Read(ReturnVal(e), more))
    case CallLn(args, name) => Some(Read(Call(args, name), more))
    case _ => None
  }

  function ReadLoop(c: Blk, ls: seq<Line>): (r: Option<Read<Stmt>>)
    ensures r.Some? ==> |r.v.rest| < |ls|
    decreases |ls|, 2
  {
    match ReadB(ls)
    case None => None
    case Some(b) => if b.rest != [] && b.rest[0] == EndDo then Some(Read(While(c, b.t), b.rest[1..])) else None
  }

  function ReadIf(c: Blk, ls: seq<Line>): (r: Option<Read<Stmt>>)
    ensures r.Some? ==> |r.v.rest| < |ls|
    decreases |ls|, 2
  {
    match ReadB(ls)
    case None => None
    case Some(b) => match ReadA(false, b.rest)
      case None => None
      case Some(a) => Some(Read(Choose(false, Nil, Arm(c, b.t, a.t)), a.rest))
  }

  function ReadCase(ls: seq<Line>): (r: Option<Read<Stmt>>)
    ensures r.Some? ==> |r.v.rest| < |ls|
    decreases |ls|, 2
  {
    match ReadB(ls)
    case None => None
    case Some(b) => match ReadA(true, b.rest)
      case None => None
      case Some(a) => Some(Read(Choose(true, b.t, a.t), a.rest))
  }

  /** The rest of a chain. */
  function ReadA(isCase: bool, ls: seq<Line>): (r: Option<Read<Arms>>)
    ensures r.Some? ==> |r.v.rest| < |ls|
    decreases |ls|, 1
  {
    if ls == [] then None
    else if ls[0] == EndOf(isCase) then Some(Read(End, ls[1..]))
    else if ls[0] != ElseOf(isCase) && !ArmOf(isCase, ls[0]) then None
    else match ReadB(ls[1..])
      case None => None
      case Some(b) =>
        if ls[0] == ElseOf(isCase) then
          if b.rest != [] && b.rest[0] == EndOf(isCase) then Some(Read(Otherwise(b.t), b.rest[1..])) else None
        else match ReadA(isCase, b.rest)
          case None => None
          case Some(a) => Some(Read(Arm(ls[0].c, b.t, a.t), a.rest))
  }

  // ---- what is read is what stands there ----

  /** The lines are those of the part, and the rest. */
  predicate Reads(ls: seq<Line>, part: seq<Line>, rest: seq<Line>) { ls == part + rest }

  /** A line, two parts behind it, and what is left. */
  lemma Glue(ls: seq<Line>, a: seq<Line>, mid: seq<Line>, b: seq<Line>, rest: seq<Line>)
    requires ls != [] && Reads(ls[1..], a, mid) && Reads(mid, b, rest)
    ensures Reads(ls, [ls[0]] + (a + b), rest)
  {
    assert ls == [ls[0]] + ls[1..];
  }

  lemma GlueTwo(ls: seq<Line>, a: seq<Line>, mid: seq<Line>, b: seq<Line>, rest: seq<Line>)
    requires Reads(ls, a, mid) && Reads(mid, b, rest)
    ensures Reads(ls, a + b, rest)
  {
  }

  lemma ReadsOne(ls: seq<Line>)
    requires ls != []
    ensures Reads(ls, [ls[0]], ls[1..])
  {
  }

  lemma {:induction false} ShowsB(ls: seq<Line>)
    requires ReadB(ls).Some?
    ensures var p := ReadB(ls).v; IfsB(p.t) && Reads(ls, LinesB(p.t), p.rest) && (p.rest != [] ==> Closer(p.rest[0]))
    decreases |ls|, 1
  {
    if ls != [] && !Closer(ls[0]) {
      ShowsS(ls);
      var s := ReadS(ls).v;
      ShowsB(s.rest);
      var b := ReadB(s.rest).v;
      GlueTwo(ls, LinesS(s.t), s.rest, LinesB(b.t), b.rest);
    }
  }

  lemma {:induction false} ShowsS(ls: seq<Line>)
    requires ls != [] && !Closer(ls[0]) && ReadS(ls).Some?
    ensures var p := ReadS(ls).v; IfsS(p.t) && Reads(ls, LinesS(p.t), p.rest)
    decreases |ls|, 0
  {
    ReadsOne(ls);
    if ls[0].DoWhile? || ls[0].IfLn? || ls[0].DoCase? {
      ShowsB(ls[1..]);
      var b := ReadB(ls[1..]).v;
      if ls[0].DoWhile? {
        ReadsOne(b.rest);
        Glue(ls, LinesB(b.t), b.rest, [EndDo], b.rest[1..]);
      } else {
        ShowsA(ls[0].DoCase?, b.rest);
        var a := ReadA(ls[0].DoCase?, b.rest).v;
        Glue(ls, LinesB(b.t), b.rest, LinesA(ls[0].DoCase?, a.t), a.rest);
      }
    }
  }

  lemma {:induction false} ShowsA(isCase: bool, ls: seq<Line>)
    requires ReadA(isCase, ls).Some?
    ensures var p := ReadA(isCase, ls).v; IfsA(p.t) && Reads(ls, LinesA(isCase, p.t), p.rest)
    decreases |ls|, 1
  {
    ReadsOne(ls);
    if ls[0] != EndOf(isCase) {
      ShowsB(ls[1..]);
      var b := ReadB(ls[1..]).v;
      if ls[0] == ElseOf(isCase) {
        ReadsOne(b.rest);
        Glue(ls, LinesB(b.t), b.rest, [EndOf(isCase)], b.rest[1..]);
      } else {
        ShowsA(isCase, b.rest);
        var a := ReadA(isCase, b.rest).v;
        Glue(ls, LinesB(b.t), b.rest, LinesA(isCase, a.t), a.rest);
      }
    }
  }

  // ---- nested bodies find their levels, and close them ----

  lemma {:induction false} NestedB(nest: Stack<Level>, b: Block)
    requires IfsB(b)
    ensures Walk(nest, LinesB(b)) == Some(nest)
    decreases b
  {
    if b.Then? {
      WalkAppend(nest, LinesS(b.s), LinesB(b.rest));
      NestedS(nest, b.s);
      NestedB(nest, b.rest);
    }
  }

  lemma {:induction false} NestedS(nest: Stack<Level>, s: Stmt)
    requires IfsS(s)
    ensures Walk(nest, LinesS(s)) == Some(nest)
    decreases s, 1
  {
    if s.While? {
      NestedLoop(nest, s);
    } else if s.Choose? {
      NestedChoice(nest, s);
    } else {
      WalkCons(nest, LinesS(s)[0], []);
      assert LinesS(s) == [LinesS(s)[0]] + [];
    }
  }

  lemma {:induction false} NestedLoop(nest: Stack<Level>, s: Stmt)
    requires s.While? && IfsS(s)
    ensures Walk(nest, LinesS(s)) == Some(nest)
    decreases s, 0
  {
    var n := Push(WhileL, nest);
    WalkCons(nest, DoWhile(s.c), LinesB(s.body) + [EndDo]);
    WalkAppend(n, LinesB(s.body), [EndDo]);
    NestedB(n, s.body);
    WalkCons(n, EndDo, []);
    assert [EndDo] + [] == [EndDo];
  }

  lemma {:induction false} NestedChoice(nest: Stack<Level>, s: Stmt)
    requires s.Choose? && IfsS(s)
    ensures Walk(nest, LinesS(s)) == Some(nest)
    decreases s, 0
  {
    if s.isCase {
      var n := Push(CaseL(false, false), nest);
      WalkCons(nest, DoCase, LinesB(s.pre) + LinesA(true, s.arms));
      WalkAppend(n, LinesB(s.pre), LinesA(true, s.arms));
      NestedB(n, s.pre);
      NestedA(n, true, s.arms);
    } else {
      var n, a := Push(IfL, nest), s.arms;
      WalkCons(nest, IfLn(a.c), LinesB(a.body) + LinesA(false, a.rest));
      WalkAppend(n, LinesB(a.body), LinesA(false, a.rest));
      NestedB(n, a.body);
      NestedA(n, false, a.rest);
    }
  }

  predicate InArms(nest: Stack<Level>, isCase: bool) {
    nest.Push? && if isCase then nest.top.CaseL? else nest.top == IfL || nest.top == ElseIfL
  }

  lemma {:induction false} NestedA(nest: Stack<Level>, isCase: bool, arms: Arms)
    requires IfsA(arms) && InArms(nest, isCase)
    ensures Walk(nest, LinesA(isCase, arms)) == Some(nest.below)
    decreases arms
  {
    match arms
    case End => WalkCons(nest, EndOf(isCase), []);
    case Otherwise(body) =>
      var n := NestAfter(nest, ElseOf(isCase));
      WalkCons(nest, ElseOf(isCase), LinesB(body) + [EndOf(isCase)]);
      WalkAppend(n, LinesB(body), [EndOf(isCase)]);
      NestedB(n, body);
      WalkCons(n, EndOf(isCase), []);
    case Arm(c, body, rest) =>
      var l := if isCase then CaseLn(c) else ElseIf(c);
      var n := NestAfter(nest, l);
      WalkCons(nest, l, LinesB(body) + LinesA(isCase, rest));
      WalkAppend(n, LinesB(body), LinesA(isCase, rest));
      NestedB(n, body);
      NestedA(n, isCase, rest);
  }

  // ---- and no others do ----

  /** Lines that fail, or leave more than n levels open. */
  predicate Unfinished(nest: Stack<Level>, ls: seq<Line>, n: nat) {
    var w := Walk(nest, ls); w.None? || Len(w.v) > n
  }

  /** After a body in some level the rest of the lines goes on there. */
  lemma ReadOn(nest: Stack<Level>, ls: seq<Line>)
    requires ReadB(ls).Some?
    ensures Walk(nest, ls) == Walk(nest, ReadB(ls).v.rest)
    ensures ReadB(ls).v.rest != [] ==> Closer(ReadB(ls).v.rest[0])
  {
    ShowsB(ls);
    var b := ReadB(ls).v;
    WalkAppend(nest, LinesB(b.t), b.rest);
    NestedB(nest, b.t);
  }

  lemma {:induction false} DeadB(nest: Stack<Level>, ls: seq<Line>)
    requires ReadB(ls).None?
    ensures Unfinished(nest, ls, Len(nest))
    decreases |ls|, 1
  {
    if ReadS(ls).None? {
      DeadS(nest, ls);
    } else {
      var s := ReadS(ls).v;
      ShowsS(ls);
      WalkAppend(nest, LinesS(s.t), s.rest);
      NestedS(nest, s.t);
      DeadB(nest, s.rest);
    }
  }

  lemma {:induction false} DeadS(nest: Stack<Level>, ls: seq<Line>)
    requires ls != [] && !Closer(ls[0]) && ReadS(ls).None?
    ensures Unfinished(nest, ls, Len(nest))
    decreases |ls|, 0
  {
    var more, n := ls[1..], NestAfter(nest, ls[0]);
    if ReadB(more).None? {
      DeadB(n, more);
    } else {
      ReadOn(n, more);
      var rest := ReadB(more).v.rest;
      if !ls[0].DoWhile? { DeadA(n, ls[0].DoCase?, rest); }
    }
  }

  lemma {:induction false} DeadA(nest: Stack<Level>, isCase: bool, ls: seq<Line>)
    requires InArms(nest, isCase) && ReadA(isCase, ls).None? && (ls != [] ==> Closer(ls[0]))
    ensures Unfinished(nest, ls, Len(nest.below))
    decreases |ls|, 1
  {
    if ls != [] && Suits(nest, ls[0]) && ls[0] != EndOf(isCase) {
      var more, n := ls[1..], NestAfter(nest, ls[0]);
      if ReadB(more).None? {
        DeadB(n, more);
      } else {
        ReadOn(n, more);
        if ls[0] != ElseOf(isCase) { DeadA(n, isCase, ReadB(more).v.rest); }
      }
    }
  }

  /** Lines each of which finds its level, and that close every level, are those of a nested body. */
  lemma WalkIff(ls: seq<Line>)
    ensures Walk(Empty, ls) == Some(Empty) <==> exists b :: IfsB(b) && ls == LinesB(b)
  {
    if Walk(Empty, ls) == Some(Empty) {
      if ReadB(ls).None? { DeadB(Empty, ls); }
      ReadOn(Empty, ls);
      ShowsB(ls);
      var b := ReadB(ls).v;
      assert LinesB(b.t) + [] == LinesB(b.t);
      assert IfsB(b.t) && ls == LinesB(b.t);
    }
    if b :| IfsB(b) && ls == LinesB(b) { NestedB(Empty, b); }
  }

  // ---- what is accepted ----

  /** The lines of some nested body that the stacks have room for. */
  ghost predicate Whole(ls: seq<Line>, a: nat, fcn: bool) {
    exists b :: IfsB(b) && FitsB(b, 0, a, fcn, false) && ls == LinesB(b)
  }

  /** The first lines of one. */
  ghost predicate Begun(ls: seq<Line>, a: nat, fcn: bool) {
    exists b :: IfsB(b) && FitsB(b, 0, a, fcn, false) && ls <= LinesB(b)
  }

  /** The lines of a module are accepted with no level left open if and only if they are those of a
      nested body within the limits. */
  lemma WholeIff(out: seq<Instr>, addrs: Stack<int>, ls: seq<Line>, fcn: bool)
    requires Len(addrs) < MAXLEVEL
    ensures var r := Feed(Comp(out, addrs, Empty), ls, fcn);
      r.Ok? && r.c.nest == Empty <==> Whole(ls, Len(addrs), fcn)
  {
    var c := Comp(out, addrs, Empty);
    var r := Feed(c, ls, fcn);
    if r.Ok? && r.c.nest == Empty {
      FeedJudged(out, addrs, ls, fcn);
      WalkJudged(Empty, Len(addrs), ls, fcn);
      NestFeed(c, ls, fcn);
      WalkIff(ls);
      var b :| IfsB(b) && ls == LinesB(b);
      FeedBlock(b, out, addrs, Empty, fcn);
      assert FitsB(b, 0, Len(addrs), fcn, false);
    }
    if Whole(ls, Len(addrs), fcn) {
      var b :| IfsB(b) && FitsB(b, 0, Len(addrs), fcn, false) && ls == LinesB(b);
      FeedBlock(b, out, addrs, Empty, fcn);
    }
  }

  /** The lines that close the open levels, innermost first. */
  function Closing(nest: Stack<Level>): seq<Line>
    decreases nest
  {
    if nest.Empty? then []
    else [match nest.top
      case WhileL => EndDo
      case CaseL(_, _) => EndCase
      case OtherL(_) => EndCase
      case _ => EndIf] + Closing(nest.below)
  }

  lemma {:induction false} ClosingJudged(nest: Stack<Level>, a: nat, fcn: bool)
    ensures Judged(nest, a, Closing(nest), fcn) == None && OpenAfter(nest, Closing(nest)) == Empty
    decreases nest
  {
    if nest.Push? {
      var ls := Closing(nest);
      assert ls[1..] == Closing(nest.below);
      assert NestAfter(nest, ls[0]) == nest.below;
      ClosingJudged(nest.below, a, fcn);
    }
  }

  /** The lines of a module are accepted if and only if they are the first lines of a nested body
      within the limits. */
  lemma BegunIff(out: seq<Instr>, addrs: Stack<int>, ls: seq<Line>, fcn: bool)
    requires Len(addrs) < MAXLEVEL
    ensures Feed(Comp(out, addrs, Empty), ls, fcn).Ok? <==> Begun(ls, Len(addrs), fcn)
  {
    var c := Comp(out, addrs, Empty);
    if Feed(c, ls, fcn).Ok? {
      var c' := Feed(c, ls, fcn).c;
      var all := ls + Closing(c'.nest);
      FeedKeeps(c, ls, fcn, addrs, |out|);
      FeedAppend(c, ls, Closing(c'.nest), fcn);
      ClosingJudged(c'.nest, Len(addrs), fcn);
      RunJudged(c', Closing(c'.nest), fcn, addrs, |out|);
      NestFeed(c', Closing(c'.nest), fcn);
      WholeIff(out, addrs, all, fcn);
      var b :| IfsB(b) && FitsB(b, 0, Len(addrs), fcn, false) && all == LinesB(b);
      assert ls <= LinesB(b);
    }
    if Begun(ls, Len(addrs), fcn) {
      var b :| IfsB(b) && FitsB(b, 0, Len(addrs), fcn, false) && ls <= LinesB(b);
      FeedBlock(b, out, addrs, Empty, fcn);
      assert LinesB(b) == ls + LinesB(b)[|ls|..];
      FeedAppend(c, ls, LinesB(b)[|ls|..], fcn);
    }
  }

  // ---- whole files ----

  /** Each module is the beginning of a nested body, and the last one is all of one. */
  ghost predicate Nests(ms: seq<Module>) {
    (forall k {:trigger ms[k]} :: 0 <= k < |ms| ==> Begun(ms[k].lines, 0, ms[k].fcn))
    && (ms != [] ==> Whole(ms[|ms| - 1].lines, 0, ms[|ms| - 1].fcn))
  }

  /** What the end of the source says about levels that are open. */
  ghost predicate EndSays(nest: Stack<Level>, e: Error) {
    nest.Push?
    && (nest.top == IfL ==> e == UNBAL_IF) && (nest.top == WhileL ==> e == UNBAL_DOWHILE)
    && (nest.top.CaseL? ==> e == UNBAL_CASE)
    && (nest.top == ElseL || nest.top == ElseIfL || nest.top.OtherL? ==> e == UNKNOWN_CONTROL)
  }

  /** What is looked at before the lines of a module: how many modules there are, and its name. */
  lemma NameFails(lib: Lib, m: Module, last: bool)
    ensures |lib.defs| >= 32767 ==> CompileOne(lib, m, last) == Failed(TOOMANYPROCS)
    ensures |lib.defs| < 32767 && m.name in lib.defs ==> CompileOne(lib, m, last) == Failed(MULTI_DEF)
    ensures |lib.defs| < 32767 && m.name !in lib.defs && m.fcn && Called(lib.sym, m.name) ==>
      CompileOne(lib, m, last) == Failed(PROC_MISMATCH)
  {
  }

  /** A module whose name can be defined, whatever its lines: it fails with the error of its first
      line that has one, or with what the end of the source says, or for want of a RETURN line. */
  lemma ModuleFails(lib: Lib, m: Module, last: bool)
    requires Len(lib.addrs) < MAXLEVEL && |lib.defs| < 32767 && m.name !in lib.defs
    requires !(m.fcn && Called(lib.sym, m.name))
    ensures var r, v, nest := CompileOne(lib, m, last), Judged(Empty, Len(lib.addrs), m.lines, m.fcn),
        OpenAfter(Empty, m.lines);
      if v.Some? then r == Failed(v.v)
      else if last && nest != Empty then r.Failed? && EndSays(nest, r.e)
      else if !last && m.fcn && (forall k :: 0 <= k < |m.lines| ==> !m.lines[k].ReturnLn? && !m.lines[k].ReturnValLn?)
      then r == Failed(MISSING_RETURN)
      else r.Done?
  {
    FeedJudged(lib.sym, lib.addrs, m.lines, m.fcn);
    ReturnsMeans(m.lines);
    var c := Comp(lib.sym, lib.addrs, Empty);
    if Feed(c, m.lines, m.fcn).Ok? { NestFeed(c, m.lines, m.fcn); }
  }

  lemma {:induction false} ReturnsMeans(ls: seq<Line>)
    ensures Returns(ls) <==> exists k :: 0 <= k < |ls| && (ls[k].ReturnLn? || ls[k].ReturnValLn?)
    decreases ls
  {
    if ls != [] {
      ReturnsMeans(ls[1..]);
      assert forall k :: 0 < k < |ls| ==> ls[k] == ls[1..][k - 1];
    }
  }

  /** A body that there is room for has room if less is taken. */
  lemma {:induction false} FitsLess(b: Block, n: nat, a: nat, a': nat, fcn: bool, loop: bool)
    requires FitsB(b, n, a, fcn, loop) && a' <= a
    ensures FitsB(b, n, a', fcn, loop)
    decreases b
  {
    if b.Then? {
      FitsLess(b.rest, n, a, a', fcn, loop);
      match b.s
      case While(_, body) => FitsLess(body, n + 1, a + 2, a' + 2, fcn, true);
      case Choose(_, pre, arms) =>
        FitsLess(pre, n + 1, a, a', fcn, loop);
        FitsLessFirst(arms, n + 1, a, a', fcn, loop);
      case _ =>
    }
  }

  lemma {:induction false} FitsLessFirst(arms: Arms, n: nat, a: nat, a': nat, fcn: bool, loop: bool)
    requires FitsFirst(arms, n, a, fcn, loop) && a' <= a
    ensures FitsFirst(arms, n, a', fcn, loop)
    decreases arms
  {
    match arms
    case End =>
    case Otherwise(body) => FitsLess(body, n, a, a', fcn, loop);
    case Arm(_, body, rest) =>
      FitsLess(body, n, a + 1, a' + 1, fcn, loop);
      FitsLessRest(rest, n, a, a', fcn, loop);
  }

  lemma {:induction false} FitsLessRest(arms: Arms, n: nat, a: nat, a': nat, fcn: bool, loop: bool)
    requires FitsRest(arms, n, a, fcn, loop) && a' <= a
    ensures FitsRest(arms, n, a', fcn, loop)
    decreases arms
  {
    match arms
    case End =>
    case Otherwise(body) => FitsLess(body, n, a + 1, a' + 1, fcn, loop);
    case Arm(_, body, rest) =>
      FitsLess(body, n, a + 2, a' + 2, fcn, loop);
      FitsLessRest(rest, n, a, a', fcn, loop);
  }

  /** A module that compiles. */
  lemma OneNests(lib: Lib, m: Module, last: bool)
    requires Len(lib.addrs) < MAXLEVEL && CompileOne(lib, m, last).Done?
    ensures Len(CompileOne(lib, m, last).lib.addrs) < MAXLEVEL
    ensures Begun(m.lines, 0, m.fcn) && (last ==> Whole(m.lines, 0, m.fcn))
  {
    var a := Len(lib.addrs);
    BegunIff(lib.sym, lib.addrs, m.lines, m.fcn);
    WholeIff(lib.sym, lib.addrs, m.lines, m.fcn);
    FeedKeeps(Comp(lib.sym, lib.addrs, Empty), m.lines, m.fcn, lib.addrs, |lib.sym|);
    var b :| IfsB(b) && FitsB(b, 0, a, m.fcn, false) && m.lines <= LinesB(b);
    FitsLess(b, 0, a, 0, m.fcn, false);
    if last {
      var b :| IfsB(b) && FitsB(b, 0, a, m.fcn, false) && m.lines == LinesB(b);
      FitsLess(b, 0, a, 0, m.fcn, false);
    }
  }

  /** Whatever the lines of a file: it compiles only if its modules begin nested bodies, and the last
      one ends one. */
  lemma {:induction false} FileNests(lib: Lib, ms: seq<Module>)
    requires Len(lib.addrs) < MAXLEVEL && CompileAll(lib, ms).Done?
    ensures Nests(ms)
    decreases ms
  {
    if ms != [] {
      OneNests(lib, ms[0], |ms| == 1);
      FileNests(CompileOne(lib, ms[0], |ms| == 1).lib, ms[1..]);
      assert forall k :: 0 < k < |ms| ==> ms[k] == ms[1..][k - 1];
    }
  }

  /** A file of any lines compiles, with no module leaving a level open, if and only if it is one of
      nested bodies that is acceptable. */
  lemma {:induction false} FileIff(lib: Lib, ms: seq<Module>, called: set<string>)
    requires lib.addrs == Empty && |lib.sym| > 0 && forall n :: Called(lib.sym, n) <==> n in called
    ensures CompileAll(lib, ms).Done? && (forall k :: 0 <= k < |ms| ==> OpenAfter(Empty, ms[k].lines) == Empty)
      <==> exists ps: seq<Proc> :: AllIfs(ps) && ms == ModulesOf(ps) && Acceptable(ps, lib.defs.Keys, called)
  {
    if CompileAll(lib, ms).Done? && (forall k :: 0 <= k < |ms| ==> OpenAfter(Empty, ms[k].lines) == Empty) {
      var ps := Procs(lib, ms);
      CompilesIff(lib, ps, called);
    }
    if ps: seq<Proc> :| AllIfs(ps) && ms == ModulesOf(ps) && Acceptable(ps, lib.defs.Keys, called) {
      CompilesIff(lib, ps, called);
      forall k | 0 <= k < |ms| ensures OpenAfter(Empty, ms[k].lines) == Empty {
        ModuleAt(ps, k);
        NestedB(Empty, ps[k].body);
        WalkOpen(Empty, ms[k].lines);
      }
    }
  }

  lemma {:induction false} WalkOpen(nest: Stack<Level>, ls: seq<Line>)
    requires Walk(nest, ls).Some?
    ensures Walk(nest, ls) == Some(OpenAfter(nest, ls))
    decreases ls
  {
    if ls != [] { WalkOpen(NestAfter(nest, ls[0]), ls[1..]); }
  }

  lemma {:induction false} ModuleAt(ps: seq<Proc>, k: nat)
    requires k < |ps|
    ensures ModulesOf(ps)[k] == Module(ps[k].name, ps[k].fcn, LinesB(ps[k].body))
    decreases ps
  {
    if k > 0 { ModuleAt(ps[1..], k - 1); }
  }

  /** The nested bodies of a file that compiles. */
  lemma {:induction false} Procs(lib: Lib, ms: seq<Module>) returns (ps: seq<Proc>)
    requires lib.addrs == Empty && CompileAll(lib, ms).Done?
    requires forall k :: 0 <= k < |ms| ==> OpenAfter(Empty, ms[k].lines) == Empty
    ensures AllIfs(ps) && ms == ModulesOf(ps)
    decreases ms
  {
    ps := [];
    if ms != [] {
      var m, c := ms[0], Comp(lib.sym, lib.addrs, Empty);
      WholeIff(lib.sym, lib.addrs, m.lines, m.fcn);
      NestFeed(c, m.lines, m.fcn);
      LeftOver(c, m.lines, m.fcn);
      var b :| IfsB(b) && FitsB(b, 0, 0, m.fcn, false) && m.lines == LinesB(b);
      var more := Procs(CompileOne(lib, m, |ms| == 1).lib, ms[1..]);
      ps := [Proc(m.name, m.fcn, b)] + more;
      assert ms == [m] + ms[1..];
    }
  }

  // ---- no two bodies have the same lines ----

  /** Behind its first line. */
  lemma Unglue(ls: seq<Line>, l: Line, a: seq<Line>, b: seq<Line>, rest: seq<Line>)
    requires Reads(ls, [l] + (a + b), rest)
    ensures ls != [] && ls[0] == l && Reads(ls[1..], a, b + rest) && Reads(b + rest, b, rest)
  {
    assert ls == [l] + (a + (b + rest));
  }

  lemma UnglueOne(ls: seq<Line>, l: Line, rest: seq<Line>)
    requires Reads(ls, [l], rest)
    ensures ls != [] && ls[0] == l && Some(ls[1..]) == Some(rest)
  {
    assert ls[1..] == rest;
  }

  lemma {:induction false} FindsB(ls: seq<Line>, b: Block, rest: seq<Line>)
    requires IfsB(b) && Reads(ls, LinesB(b), rest) && (rest != [] ==> Closer(rest[0]))
    ensures ReadB(ls) == Some(Read(b, rest))
    decreases b
  {
    if b.Then? {
      var more := LinesB(b.rest) + rest;
      assert ls == LinesS(b.s) + more;
      FindsS(ls, b.s, more);
      FindsB(more, b.rest, rest);
    } else {
      assert ls == rest;
    }
  }

  lemma {:induction false} FindsS(ls: seq<Line>, s: Stmt, rest: seq<Line>)
    requires IfsS(s) && Reads(ls, LinesS(s), rest)
    ensures ls != [] && !Closer(ls[0]) && ReadS(ls) == Some(Read(s, rest))
    decreases s, 1
  {
    if s.While? {
      Unglue(ls, DoWhile(s.c), LinesB(s.body), [EndDo], rest);
      FindsB(ls[1..], s.body, [EndDo] + rest);
      UnglueOne([EndDo] + rest, EndDo, rest);
    } else if s.Choose? {
      FindsChoice(ls, s, rest);
    } else {
      UnglueOne(ls, LinesS(s)[0], rest);
    }
  }

  lemma {:induction false} FindsChoice(ls: seq<Line>, s: Stmt, rest: seq<Line>)
    requires s.Choose? && IfsS(s) && Reads(ls, LinesS(s), rest)
    ensures ls != [] && !Closer(ls[0]) && ReadS(ls) == Some(Read(s, rest))
    decreases s, 0
  {
    var body, arms := if s.isCase then s.pre else s.arms.body, if s.isCase then s.arms else s.arms.rest;
    var more := LinesA(s.isCase, arms) + rest;
    Unglue(ls, if s.isCase then DoCase else IfLn(s.arms.c), LinesB(body), LinesA(s.isCase, arms), rest);
    FindsA(more, s.isCase, arms, rest);
    FindsB(ls[1..], body, more);
  }

  lemma {:induction false} FindsA(ls: seq<Line>, isCase: bool, arms: Arms, rest: seq<Line>)
    requires IfsA(arms) && Reads(ls, LinesA(isCase, arms), rest)
    ensures ls != [] && Closer(ls[0]) && ReadA(isCase, ls) == Some(Read(arms, rest))
    decreases arms, 1
  {
    match arms
    case End => UnglueOne(ls, EndOf(isCase), rest);
    case Otherwise(body) =>
      Unglue(ls, ElseOf(isCase), LinesB(body), [EndOf(isCase)], rest);
      FindsB(ls[1..], body, [EndOf(isCase)] + rest);
      UnglueOne([EndOf(isCase)] + rest, EndOf(isCase), rest);
    case Arm(_, _, _) => FindsArm(ls, isCase, arms, rest);
  }

  lemma {:induction false} FindsArm(ls: seq<Line>, isCase: bool, arms: Arms, rest: seq<Line>)
    requires arms.Arm? && IfsA(arms) && Reads(ls, LinesA(isCase, arms), rest)
    ensures ls != [] && Closer(ls[0]) && ReadA(isCase, ls) == Some(Read(arms, rest))
    decreases arms, 0
  {
    var l := if isCase then CaseLn(arms.c) else ElseIf(arms.c);
    var tail := LinesA(isCase, arms.rest) + rest;
    Unglue(ls, l, LinesB(arms.body), LinesA(isCase, arms.rest), rest);
    FindsA(tail, isCase, arms.rest, rest);
    FindsB(ls[1..], arms.body, tail);
  }

  /** The lines of a module say what body it is. */
  lemma OneBody(b: Block, b': Block)
    requires IfsB(b) && IfsB(b') && LinesB(b) == LinesB(b')
    ensures b == b'
  {
    FindsB(LinesB(b), b, []);
    FindsB(LinesB(b), b', []);
  }
}
