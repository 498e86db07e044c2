/** The one-pass compiler as it meets a body: line by line, with a stack of open
    levels and a stack of addresses that still have to be patched (ec). */
module Lines {
  import opened Options
  import opened Control
  import opened CodeGen

  datatype Line =
    | Plain(c: Blk)
    | DoWhile(c: Blk) | EndDo | ExitLn | LoopLn
    | IfLn(c: Blk) | ElseIf(c: Blk) | ElseLn | EndIf
    | DoCase | CaseLn(c: Blk) | OtherwiseLn | EndCase
    | ReturnLn | ReturnValLn(e: Blk)
    | CallLn(args: Blk, name: string)

  /** A nest-stack entry; the flags of CASE say that a second arm (`s`) and a first arm (`nf`) were seen. */
  datatype Level = IfL | ElseIfL | ElseL | CaseL(s: bool, nf: bool) | OtherL(nf: bool) | WhileL

  datatype Error =
    | TOOMANY_LEVELS | STACK_FAULT
    | UNBAL_ENDDO | UNBAL_LOOP | MISSING_IF | UNBAL_ENDIF | MISSING_CASE | UNBAL_ENDCASE
    | UNBAL_IF | UNBAL_DOWHILE | UNBAL_CASE | UNKNOWN_CONTROL
    | EXCESS_SYNTAX | BAD_EXP | MULTI_DEF | PROC_MISMATCH | MISSING_RETURN | TOOMANYPROCS

  const MAXLEVEL: nat := 32

  datatype Stack<T> = Empty | Push(top: T, below: Stack<T>)

  function Len<T>(s: Stack<T>): nat {
    if s.Empty? then 0 else Len(s.below) + 1
  }

  /** The object file so far, the addresses to patch, the open levels. */
  datatype Comp = Comp(out: seq<Instr>, addrs: Stack<int>, nest: Stack<Level>)

  datatype Res = Ok(c: Comp) | Err(e: Error) {
    predicate IsFailure() { Err? }
    function PropagateFailure(): Res requires Err? { this }
    function Extract(): Comp requires Ok? { c }
  }

  function Put(c: Comp, i: Instr): Comp { c.(out := c.out + [i]) }

  function PushLevel(c: Comp, l: Level): Res {
    if Len(c.nest) + 1 == MAXLEVEL then Err(TOOMANY_LEVELS) else Ok(c.(nest := Push(l, c.nest)))
  }

  function PushAddr(c: Comp, a: int): Res {
    if Len(c.addrs) + 1 >= MAXLEVEL then Err(STACK_FAULT) else Ok(c.(addrs := Push(a, c.addrs)))
  }

  /** The innermost open level, if there is one. */
  predicate Top(c: Comp, l: Level) { c.nest.Push? && c.nest.top == l }
  predicate TopCase(c: Comp) { c.nest.Push? && c.nest.top.CaseL? }

  function ChgLevel(c: Comp, l: Level): Comp requires c.nest.Push? {
    c.(nest := Push(l, c.nest.below))
  }

  function PopLevel(c: Comp): Comp requires c.nest.Push? {
    c.(nest := c.nest.below)
  }

  /** Pop an address and let the jump found there lead to the end of the file. */
  function ModAddr(c: Comp): Res {
    if c.addrs.Empty? then Err(STACK_FAULT)
    else Ok(c.(addrs := c.addrs.below, out := Patch(c.out, c.addrs.top, |c.out|)))
  }

  /** The same for the address below the top one. */
  function ModJmp(c: Comp): Res {
    if c.addrs.Empty? then Err(STACK_FAULT)
    else
      var c1 :- ModAddr(c.(addrs := c.addrs.below));
      PushAddr(c1, c.addrs.top)
  }

  function JmpCodegen(c: Comp): Res {
    var c1 :- ModAddr(Put(c, Jmp(JUMP, PLACE_HOLDER)));
    PushAddr(c1, |c1.out| - 1)
  }

  function CondCodegen(c: Comp, b: Blk): Res {
    PushAddr(c.(out := Test(c.out, b)), |c.out| + 1)
  }

  /** How many addresses an open level keeps on the stack. */
  function Height(l: Level): nat {
    match l
    case IfL => 1 case ElseL => 1 case ElseIfL => 2 case WhileL => 2
    case CaseL(s, nf) => (if s then 1 else 0) + (if nf then 1 else 0)
    case OtherL(nf) => if nf then 1 else 0
  }

  predicate InLoop(nest: Stack<Level>) {
    nest.Push? && (nest.top == WhileL || InLoop(nest.below))
  }

  /** The jump that waits for the end of the innermost open WHILE; item 0 stands in when none is open. */
  function Waiting(nest: Stack<Level>, addrs: Stack<int>): int
    decreases nest
  {
    if nest.Empty? || addrs.Empty? then 0
    else if nest.top == WhileL then addrs.top
    else match Height(nest.top)
      case 0 => Waiting(nest.below, addrs)
      case 1 => Waiting(nest.below, addrs.below)
      case _ => if addrs.below.Empty? then 0 else Waiting(nest.below, addrs.below.below)
  }

  /** The stack with another jump in that place. */
  function SetWaiting(nest: Stack<Level>, addrs: Stack<int>, v: int): Stack<int>
    decreases nest
  {
    if nest.Empty? || addrs.Empty? then addrs
    else if nest.top == WhileL then Push(v, addrs.below)
    else match Height(nest.top)
      case 0 => SetWaiting(nest.below, addrs, v)
      case 1 => Push(addrs.top, SetWaiting(nest.below, addrs.below, v))
      case _ =>
        if addrs.below.Empty? then addrs
        else Push(addrs.top, Push(addrs.below.top, SetWaiting(nest.below, addrs.below.below, v)))
  }

  /** The addresses below those that the open levels keep. */
  function Older(nest: Stack<Level>, addrs: Stack<int>): (r: Option<Stack<int>>)
    decreases nest
  {
    if nest.Empty? then Some(addrs)
    else match Height(nest.top)
      case 0 => Older(nest.below, addrs)
      case 1 => if addrs.Empty? then None else Older(nest.below, addrs.below)
      case _ => if addrs.Empty? || addrs.below.Empty? then None else Older(nest.below, addrs.below.below)
  }

  predicate Small(c: Comp) {
    Len(c.addrs) < MAXLEVEL && Len(c.nest) < MAXLEVEL
  }

  /** One line of the body of a procedure or, with `fcn`, of a function. */
  function Step(c: Comp, l: Line, fcn: bool): Res
  {
    match l
    case Plain(b) => Ok(Put(c, Code(b)))
    case DoWhile(b) =>
      var c1 :- PushLevel(c, WhileL);
      var c2 :- PushAddr(c1, |c1.out|);
      CondCodegen(c2, b)
    case EndDo =>
      if !Top(c, WhileL) then Err(UNBAL_ENDDO)
      else if c.addrs.Empty? || c.addrs.below.Empty? then Err(STACK_FAULT)
      else ModAddr(Comp(c.out + [Jmp(JUMP, c.addrs.below.top)], Push(c.addrs.top, c.addrs.below.below), c.nest.below))
    case ExitLn | LoopLn =>   // LOOP is told from EXIT by the number of the keyword, not that of the command
      if !InLoop(c.nest) then Err(UNBAL_LOOP)
      else Ok(Comp(Patch(c.out, Waiting(c.nest, c.addrs), |c.out|) + [Jmp(JUMP, PLACE_HOLDER)],
          SetWaiting(c.nest, c.addrs, |c.out|), c.nest))
    case IfLn(b) =>
      var c1 :- PushLevel(c, IfL);
      CondCodegen(c1, b)
    case ElseIf(b) =>
      if Top(c, IfL) then
        var c1 :- JmpCodegen(c);
        CondCodegen(ChgLevel(c1, ElseIfL), b)
      else if Top(c, ElseIfL) then
        var c1 :- ModJmp(c);
        var c2 :- JmpCodegen(c1);
        CondCodegen(c2, b)
      else Err(MISSING_IF)
    case ElseLn =>
      if Top(c, IfL) then
        var c1 :- JmpCodegen(c);
        Ok(ChgLevel(c1, ElseL))
      else if Top(c, ElseIfL) then
        var c1 :- ModJmp(c);
        var c2 :- JmpCodegen(c1);
        Ok(ChgLevel(c2, ElseL))
      else Err(MISSING_IF)
    case EndIf =>
      if Top(c, IfL) || Top(c, ElseL) then
        var c1 :- ModAddr(c);
        Ok(PopLevel(c1))
      else if Top(c, ElseIfL) then
        var c1 :- ModJmp(c);
        var c2 :- ModAddr(c1);
        Ok(PopLevel(c2))
      else Err(UNBAL_ENDIF)
    case DoCase => PushLevel(c, CaseL(false, false))
    case CaseLn(b) =>
      if !TopCase(c) then Err(MISSING_CASE)
      else if c.nest.top.nf then
        var c1 :- if c.nest.top.s then ModJmp(c) else Ok(c);
        var c2 :- JmpCodegen(c1);
        CondCodegen(ChgLevel(c2, CaseL(true, true)), b)
      else CondCodegen(ChgLevel(c, CaseL(c.nest.top.s, true)), b)
    case OtherwiseLn =>
      if !TopCase(c) then Err(MISSING_CASE)
      else if c.nest.top.nf then
        var c1 :- if c.nest.top.s then ModJmp(c) else Ok(c);
        var c2 :- JmpCodegen(c1);
        Ok(ChgLevel(c2, OtherL(true)))
      else Ok(ChgLevel(c, OtherL(false)))
    case EndCase =>
      if TopCase(c) && c.nest.top.nf then
        var c1 :- if c.nest.top.s then ModJmp(c) else Ok(c);
        var c2 :- ModAddr(c1);
        Ok(PopLevel(c2))
      else if Top(c, OtherL(true)) then
        var c1 :- ModAddr(c);
        Ok(PopLevel(c1))
      else if TopCase(c) || Top(c, OtherL(false)) then Ok(PopLevel(c))
      else Err(UNBAL_ENDCASE)
    case ReturnLn => if fcn then Err(BAD_EXP) else Ok(Put(c, Jmp(RETURN, 0)))
    case ReturnValLn(e) => if !fcn then Err(EXCESS_SYNTAX) else Ok(c.(out := c.out + [Code(e), Jmp(FCNRTN, 0)]))
    case CallLn(args, name) => Ok(c.(out := c.out + [Code(args), Ask(name)]))
  }

  function Feed(c: Comp, ls: seq<Line>, fcn: bool): Res
    decreases ls
  {
    if ls == [] then Ok(c)
    else
      var c1 :- Step(c, ls[0], fcn);
      Feed(c1, ls[1..], fcn)
  }

  lemma {:induction false} FeedAppend(c: Comp, l1: seq<Line>, l2: seq<Line>, fcn: bool)
    ensures Feed(c, l1 + l2, fcn) == (var r := Feed(c, l1, fcn); if r.Err? then r else Feed(r.c, l2, fcn))
    decreases l1
  {
    if l1 == [] {
      assert l1 + l2 == l2;
    } else {
      assert (l1 + l2)[1..] == l1[1..] + l2;
      var r := Step(c, l1[0], fcn);
      if r.Ok? { FeedAppend(r.c, l1[1..], l2, fcn); }
    }
  }

  lemma FeedOne(c: Comp, l: Line, fcn: bool)
    ensures Feed(c, [l], fcn) == Step(c, l, fcn)
  {
    var r := Step(c, l, fcn);
    if r.Ok? { assert Feed(r.c, [], fcn) == r; }
  }

  lemma FeedCons(c: Comp, l: Line, ls: seq<Line>, fcn: bool)
    ensures Feed(c, [l] + ls, fcn) == (var r := Step(c, l, fcn); if r.Err? then r else Feed(r.c, ls, fcn))
  {
    FeedOne(c, l, fcn);
    FeedAppend(c, [l], ls, fcn);
  }

  // ----------------------------------------------------- a body, line by line

  function LinesB(b: Block): seq<Line>
    decreases b
  {
    match b case Nil => [] case Then(s, rest) => LinesS(s) + LinesB(rest)
  }

  function LinesS(s: Stmt): seq<Line>
    decreases s
  {
    match s
    case Do(c) => [Plain(c)]
    case While(c, body) => [DoWhile(c)] + (LinesB(body) + [EndDo])
    case Choose(true, pre, arms) => [DoCase] + (LinesB(pre) + LinesA(true, arms))
    case Choose(false, pre, Arm(c, body, rest)) => [IfLn(c)] + (LinesB(body) + LinesA(false, rest))
    case Choose(false, _, _) => []
    case Exit => [ExitLn]
    case Loop => [LoopLn]
    case Return => [ReturnLn]
    case ReturnVal(e) => [ReturnValLn(e)]
    case Call(args, name) => [CallLn(args, name)]
  }

  function LinesA(isCase: bool, arms: Arms): seq<Line>
    decreases arms
  {
    match arms
    case End => [if isCase then EndCase else EndIf]
    case Otherwise(body) => [if isCase then OtherwiseLn
        else ElseLn] + (LinesB(body) + [if isCase then EndCase else EndIf])
    case Arm(c, body, rest) => [if isCase then CaseLn(c) else ElseIf(c)] + (LinesB(body) + LinesA(isCase, rest))
  }

  /** What the stacks have room for: `n` levels are open and `a` addresses are kept. */
  predicate FitsB(b: Block, n: nat, a: nat, fcn: bool, loop: bool)
    decreases b
  {
    match b case Nil => true case Then(s, rest) => FitsS(s, n, a, fcn, loop) && FitsB(rest, n, a, fcn, loop)
  }

  predicate FitsS(s: Stmt, n: nat, a: nat, fcn: bool, loop: bool)
    decreases s
  {
    match s
    case While(_, body) => n + 1 < MAXLEVEL && a + 2 < MAXLEVEL && FitsB(body, n + 1, a + 2, fcn, true)
    case Choose(_, pre, arms) =>
      n + 1 < MAXLEVEL && FitsB(pre, n + 1, a, fcn, loop) && FitsFirst(arms, n + 1, a, fcn, loop)
    case Exit => loop
    case Loop => loop
    case Return => !fcn
    case ReturnVal(_) => fcn
    case _ => true
  }

  predicate FitsFirst(arms: Arms, n: nat, a: nat, fcn: bool, loop: bool)
    decreases arms
  {
    match arms
    case End => true
    case Otherwise(body) => FitsB(body, n, a, fcn, loop)
    case Arm(_, body, rest) => a + 1 < MAXLEVEL && FitsB(body, n, a + 1, fcn, loop) && FitsRest(rest, n, a, fcn, loop)
  }

  predicate FitsRest(arms: Arms, n: nat, a: nat, fcn: bool, loop: bool)
    decreases arms
  {
    match arms
    case End => true
    case Otherwise(body) => FitsB(body, n, a + 1, fcn, loop)
    case Arm(_, body, rest) => a + 2 < MAXLEVEL && FitsB(body, n, a + 2, fcn, loop) && FitsRest(rest, n, a, fcn, loop)
  }

  /** Every IF starts with an arm (DO CASE may start with anything). */
  predicate IfsB(b: Block) {
    match b case Nil => true case Then(s, rest) => IfsS(s) && IfsB(rest)
  }
  predicate IfsS(s: Stmt) {
    match s
    case While(_, body) => IfsB(body)
    case Choose(isCase, pre, arms) => (isCase || (pre.Nil? && arms.Arm?)) && IfsB(pre) && IfsA(arms)
    case _ => true
  }
  predicate IfsA(arms: Arms) {
    match arms
    case End => true
    case Otherwise(body) => IfsB(body)
    case Arm(_, body, rest) => IfsB(body) && IfsA(rest)
  }

  // ------------------------------- the lines of a body leave the predicted code

  /** `r` is the outcome that the structured code generator predicts, `fits` telling whether there is one. */
  predicate Predicted(r: Res, fits: bool, e: Emit, addrs: Stack<int>, nest: Stack<Level>) {
    if fits then r == Ok(Comp(e.out, SetWaiting(nest, addrs, e.w), nest)) && (!InLoop(nest) ==> e.w == 0)
    else r.Err?
  }

  /** The stacks are within their limits and hold at least what the open levels keep. */
  predicate Sane(addrs: Stack<int>, nest: Stack<Level>) {
    Len(nest) < MAXLEVEL && Len(addrs) < MAXLEVEL && Older(nest, addrs).Some?
  }

  lemma {:induction false} SetTwice(nest: Stack<Level>, addrs: Stack<int>, v: int, u: int)
    requires Older(nest, addrs).Some?
    ensures Older(nest, SetWaiting(nest, addrs, v)) == Older(nest, addrs)
      && Len(SetWaiting(nest, addrs, v)) == Len(addrs)
    ensures SetWaiting(nest, SetWaiting(nest, addrs, v), u) == SetWaiting(nest, addrs, u)
    ensures Waiting(nest, SetWaiting(nest, addrs, v)) == if InLoop(nest) then v else 0
    decreases nest
  {
    if nest.Push? && nest.top != WhileL {
      match Height(nest.top)
      case 0 => SetTwice(nest.below, addrs, v, u);
      case 1 => SetTwice(nest.below, addrs.below, v, u);
      case _ => SetTwice(nest.below, addrs.below.below, v, u);
    }
  }

  lemma {:induction false} SetSame(nest: Stack<Level>, addrs: Stack<int>)
    requires Older(nest, addrs).Some?
    ensures SetWaiting(nest, addrs, Waiting(nest, addrs)) == addrs
    ensures !InLoop(nest) ==> Waiting(nest, addrs) == 0
    decreases nest
  {
    if nest.Push? && nest.top != WhileL {
      match Height(nest.top)
      case 0 => SetSame(nest.below, addrs);
      case 1 => SetSame(nest.below, addrs.below);
      case _ => SetSame(nest.below, addrs.below.below);
    }
  }

  lemma {:induction false} FeedBlock(b: Block, out: seq<Instr>, addrs: Stack<int>, nest: Stack<Level>, fcn: bool)
    requires Sane(addrs, nest) && IfsB(b)
    ensures Predicted(Feed(Comp(out, addrs, nest), LinesB(b), fcn), FitsB(b, Len(nest), Len(addrs), fcn, InLoop(nest)),
                      GenB(b, out, Waiting(nest, addrs)), addrs, nest)
    decreases b, 0
  {
    if b.Then? {
      FeedAppend(Comp(out, addrs, nest), LinesS(b.s), LinesB(b.rest), fcn);
      FeedStmt(b.s, out, addrs, nest, fcn);
      var e := GenS(b.s, out, Waiting(nest, addrs));
      if FitsS(b.s, Len(nest), Len(addrs), fcn, InLoop(nest)) {
        SetTwice(nest, addrs, e.w, GenB(b.rest, e.out, e.w).w);
        FeedBlock(b.rest, e.out, SetWaiting(nest, addrs, e.w), nest, fcn);
      }
    } else {
      SetSame(nest, addrs);
    }
  }

  lemma {:induction false} FeedStmt(s: Stmt, out: seq<Instr>, addrs: Stack<int>, nest: Stack<Level>, fcn: bool)
    requires Sane(addrs, nest) && IfsS(s)
    ensures Predicted(Feed(Comp(out, addrs, nest), LinesS(s), fcn), FitsS(s, Len(nest), Len(addrs), fcn, InLoop(nest)),
                      GenS(s, out, Waiting(nest, addrs)), addrs, nest)
    decreases s, 1
  {
    match s
    case While(_, _) => FeedWhile(s, out, addrs, nest, fcn);
    case Choose(true, _, _) => FeedCase(s, out, addrs, nest, fcn);
    case Choose(false, _, _) => FeedIf(s, out, addrs, nest, fcn);
    case _ => FeedSimple(s, out, addrs, nest, fcn);
  }

  lemma FeedSimple(s: Stmt, out: seq<Instr>, addrs: Stack<int>, nest: Stack<Level>, fcn: bool)
    requires Sane(addrs, nest) && !s.While? && !s.Choose?
    ensures Predicted(Feed(Comp(out, addrs, nest), LinesS(s), fcn), FitsS(s, Len(nest), Len(addrs), fcn, InLoop(nest)),
                      GenS(s, out, Waiting(nest, addrs)), addrs, nest)
  {
    SetSame(nest, addrs);
    FeedOne(Comp(out, addrs, nest), LinesS(s)[0], fcn);
  }

  lemma {:induction false} FeedWhile(s: Stmt, out: seq<Instr>, addrs: Stack<int>, nest: Stack<Level>, fcn: bool)
    requires Sane(addrs, nest) && IfsS(s) && s.While?
    ensures Predicted(Feed(Comp(out, addrs, nest), LinesS(s), fcn), FitsS(s, Len(nest), Len(addrs), fcn, InLoop(nest)),
                      GenS(s, out, Waiting(nest, addrs)), addrs, nest)
    decreases s, 0
  {
    WhileStep(s.c, out, addrs, nest, fcn);
    FeedCons(Comp(out, addrs, nest), DoWhile(s.c), LinesB(s.body) + [EndDo], fcn);
    SetSame(nest, addrs);
    if Len(nest) + 1 < MAXLEVEL && Len(addrs) + 2 < MAXLEVEL {
      FeedLoop(s.body, Test(out, s.c), addrs, |out|, |out| + 1, nest, fcn);
    }
  }

  /** The line that starts a loop. */
  lemma WhileStep(c: Blk, out: seq<Instr>, addrs: Stack<int>, nest: Stack<Level>, fcn: bool)
    requires Len(nest) < MAXLEVEL && Len(addrs) < MAXLEVEL
    ensures var r := Step(Comp(out, addrs, nest), DoWhile(c), fcn);
      if Len(nest) + 1 < MAXLEVEL && Len(addrs) + 2 < MAXLEVEL
      then r == Ok(Comp(Test(out, c), Push(|out| + 1, Push(|out|, addrs)), Push(WhileL, nest))) else r.Err?
  {
    var c0 := Comp(out, addrs, nest);
    if Len(nest) + 1 < MAXLEVEL {
      var c1 := c0.(nest := Push(WhileL, nest));
      assert PushLevel(c0, WhileL) == Ok(c1);
      if Len(addrs) + 1 < MAXLEVEL {
        var c2 := c1.(addrs := Push(|out|, addrs));
        assert PushAddr(c1, |out|) == Ok(c2);
        assert Step(c0, DoWhile(c), fcn) == CondCodegen(c2, c);
        assert Len(c2.addrs) == Len(addrs) + 1;
      } else {
        assert PushAddr(c1, |out|).Err?;
      }
    }
  }

  /** The body of a WHILE and its ENDDO: `p` is the start of the loop, `f` its failing test. */
  lemma {:induction false} FeedLoop(body: Block, out: seq<Instr>, addrs: Stack<int>, p: int, f: int,
                                    nest: Stack<Level>, fcn: bool)
    requires IfsB(body) && Older(nest, addrs).Some? && Len(nest) + 1 < MAXLEVEL && Len(addrs) + 2 < MAXLEVEL
    ensures var e := GenB(body, out, f);
      var r := Feed(Comp(out, Push(f, Push(p, addrs)), Push(WhileL, nest)), LinesB(body) + [EndDo], fcn);
      if FitsB(body, Len(nest) + 1, Len(addrs) + 2, fcn, true)
      then r == Ok(Comp(Patch(e.out + [Jmp(JUMP, p)], e.w, |e.out| + 1), addrs, nest))
      else r.Err?
    decreases body, 1
  {
    var e, addrs1, nest1 := GenB(body, out, f), Push(f, Push(p, addrs)), Push(WhileL, nest);
    var c1 := Comp(e.out, Push(e.w, Push(p, addrs)), nest1);
    InWhile(addrs, nest, p, f, e.w);
    FeedAppend(Comp(out, addrs1, nest1), LinesB(body), [EndDo], fcn);
    FeedBlock(body, out, addrs1, nest1, fcn);
    FeedOne(c1, EndDo, fcn);
    EndDoStep(e.out, addrs, p, e.w, nest, fcn);
  }

  /** The level of a loop, on top of the others. */
  lemma InWhile(addrs: Stack<int>, nest: Stack<Level>, p: int, f: int, v: int)
    requires Older(nest, addrs).Some? && Len(nest) + 1 < MAXLEVEL && Len(addrs) + 2 < MAXLEVEL
    ensures var addrs1, nest1 := Push(f, Push(p, addrs)), Push(WhileL, nest);
      && Sane(addrs1, nest1) && InLoop(nest1) && Waiting(nest1, addrs1) == f
      && Len(nest1) == Len(nest) + 1 && Len(addrs1) == Len(addrs) + 2
      && SetWaiting(nest1, addrs1, v) == Push(v, Push(p, addrs))
  {
  }

  /** The line that ends a loop. */
  lemma EndDoStep(out: seq<Instr>, addrs: Stack<int>, p: int, f: int, nest: Stack<Level>, fcn: bool)
    ensures Step(Comp(out, Push(f, Push(p, addrs)), Push(WhileL, nest)), EndDo, fcn)
      == Ok(Comp(Patch(out + [Jmp(JUMP, p)], f, |out| + 1), addrs, nest))
  {
  }

  lemma {:induction false} FeedCase(s: Stmt, out: seq<Instr>, addrs: Stack<int>, nest: Stack<Level>, fcn: bool)
    requires Sane(addrs, nest) && IfsS(s) && s.Choose? && s.isCase
    ensures Predicted(Feed(Comp(out, addrs, nest), LinesS(s), fcn), FitsS(s, Len(nest), Len(addrs), fcn, InLoop(nest)),
                      GenS(s, out, Waiting(nest, addrs)), addrs, nest)
    decreases s, 0, 1
  {
    FeedCons(Comp(out, addrs, nest), DoCase, LinesB(s.pre) + LinesA(true, s.arms), fcn);
    if Len(nest) + 1 < MAXLEVEL {
      FeedCases(s, out, addrs, nest, fcn);
    }
  }

  /** What follows the line DO CASE. */
  lemma {:induction false} FeedCases(s: Stmt, out: seq<Instr>, addrs: Stack<int>, nest: Stack<Level>, fcn: bool)
    requires s.Choose? && IfsB(s.pre) && IfsA(s.arms) && Older(nest, addrs).Some? && Len(addrs) < MAXLEVEL
      && Len(nest) + 1 < MAXLEVEL
    ensures Predicted(Feed(Comp(out, addrs, Push(CaseL(false, false), nest)), LinesB(s.pre) + LinesA(true, s.arms),
      fcn),
                      FitsS(s, Len(nest), Len(addrs), fcn, InLoop(nest)), GenS(s, out, Waiting(nest, addrs)), addrs,
                          nest)
    decreases s, 0, 0
  {
    var nest1 := Push(CaseL(false, false), nest);
    Keeping(addrs, nest, CaseL(false, false), 0, 0, GenB(s.pre, out, Waiting(nest, addrs)).w);
    FeedAppend(Comp(out, addrs, nest1), LinesB(s.pre), LinesA(true, s.arms), fcn);
    FeedBlock(s.pre, out, addrs, nest1, fcn);
    if FitsB(s.pre, Len(nest1), Len(addrs), fcn, InLoop(nest)) {
      var e := GenB(s.pre, out, Waiting(nest, addrs));
      SetTwice(nest, addrs, e.w, GenFirst(s.arms, e.out, e.w).w);
      FeedFirst(s.arms, e.out, SetWaiting(nest, addrs, e.w), nest, fcn);
    }
  }

  lemma {:induction false} FeedIf(s: Stmt, out: seq<Instr>, addrs: Stack<int>, nest: Stack<Level>, fcn: bool)
    requires Sane(addrs, nest) && IfsS(s) && s.Choose? && !s.isCase
    ensures Predicted(Feed(Comp(out, addrs, nest), LinesS(s), fcn), FitsS(s, Len(nest), Len(addrs), fcn, InLoop(nest)),
                      GenS(s, out, Waiting(nest, addrs)), addrs, nest)
    decreases s, 0
  {
    var a := s.arms;
    FeedCons(Comp(out, addrs, nest), IfLn(a.c), LinesB(a.body) + LinesA(false, a.rest), fcn);
    IfIsChain(s, out, Len(nest), Len(addrs), fcn, InLoop(nest), Waiting(nest, addrs));
    IfStep(a.c, out, addrs, nest, fcn);
    if Len(nest) + 1 < MAXLEVEL && Len(addrs) + 1 < MAXLEVEL {
      FeedChain(false, a, out, addrs, nest, fcn);
    }
  }

  /** What follows the first test of a chain. */
  lemma {:induction false} FeedChain(isCase: bool, a: Arms, out: seq<Instr>, addrs: Stack<int>, nest: Stack<Level>,
                                     fcn: bool)
    requires a.Arm? && IfsA(a) && Older(nest, addrs).Some? && Len(nest) + 1 < MAXLEVEL && Len(addrs) + 1 < MAXLEVEL
    ensures Predicted(Feed(Chain(isCase, true, Test(out, a.c), addrs, -1, |out| + 1, nest),
                           LinesB(a.body) + LinesA(isCase, a.rest), fcn),
                      FitsFirst(a, Len(nest) + 1, Len(addrs), fcn, InLoop(nest)),
                      GenFirst(a, out, Waiting(nest, addrs)), addrs, nest)
    decreases a, 0, 1
  {
    FeedArm(isCase, true, a, Test(out, a.c), addrs, -1, |out| + 1, nest, fcn);
  }

  /** The line that starts an IF. */
  lemma IfStep(b: Blk, out: seq<Instr>, addrs: Stack<int>, nest: Stack<Level>, fcn: bool)
    requires Len(nest) < MAXLEVEL && Len(addrs) < MAXLEVEL
    ensures var r := Step(Comp(out, addrs, nest), IfLn(b), fcn);
      if Len(nest) + 1 < MAXLEVEL && Len(addrs) + 1 < MAXLEVEL
      then r == Ok(Chain(false, true, Test(out, b), addrs, -1, |out| + 1, nest)) else r.Err?
  {
  }

  lemma IfIsChain(s: Stmt, out: seq<Instr>, n: nat, a: nat, fcn: bool, loop: bool, w: int)
    requires IfsS(s) && s.Choose? && !s.isCase
    ensures LinesS(s) == [IfLn(s.arms.c)] + (LinesB(s.arms.body) + LinesA(false, s.arms.rest))
    ensures GenS(s, out, w) == GenFirst(s.arms, out, w)
    ensures FitsS(s, n, a, fcn, loop) == (n + 1 < MAXLEVEL && FitsFirst(s.arms, n + 1, a, fcn, loop))
  {
    assert GenB(Nil, out, w) == Emit(out, w) && FitsB(Nil, n + 1, a, fcn, loop);
  }

  /** The open level inside a chain, and the addresses it keeps: the failing test `f`,
      and unless its first arm is being compiled the jump `j` out of the arms before. */
  function ChainLevel(isCase: bool, first: bool): Level {
    if isCase then CaseL(!first, true) else if first then IfL else ElseIfL
  }

  function Kept(first: bool, j: int, f: int, addrs: Stack<int>): Stack<int> {
    if first then Push(f, addrs) else Push(f, Push(j, addrs))
  }

  function Chain(isCase: bool, first: bool, out: seq<Instr>, addrs: Stack<int>, j: int, f: int,
                 nest: Stack<Level>): Comp {
    Comp(out, Kept(first, j, f, addrs), Push(ChainLevel(isCase, first), nest))
  }

  /** A level other than WHILE, with its addresses, does not change which jump waits. */
  function Over(l: Level, j: int, f: int, addrs: Stack<int>): Stack<int> {
    match Height(l) case 0 => addrs case 1 => Push(f, addrs) case _ => Push(f, Push(j, addrs))
  }

  lemma Keeping(addrs: Stack<int>, nest: Stack<Level>, l: Level, j: int, f: int, v: int)
    requires l != WhileL && Older(nest, addrs).Some?
    ensures InLoop(Push(l, nest)) == InLoop(nest) && Older(Push(l, nest), Over(l, j, f, addrs)) == Older(nest, addrs)
    ensures Waiting(Push(l, nest), Over(l, j, f, addrs)) == Waiting(nest, addrs)
    ensures SetWaiting(Push(l, nest), Over(l, j, f, addrs), v) == Over(l, j, f, SetWaiting(nest, addrs, v))
  {
    if addrs.Empty? { NoAddrs(nest, v); }
  }

  lemma {:induction false} NoAddrs(nest: Stack<Level>, v: int)
    requires Older(nest, Empty).Some?
    ensures !InLoop(nest)
    decreases nest
  {
    if nest.Push? { NoAddrs(nest.below, v); }
  }

  /** An arm whose test has been compiled, and the rest of its chain. */
  lemma {:induction false} FeedArm(isCase: bool, first: bool, a: Arms, out: seq<Instr>, addrs: Stack<int>, j: int,
                                   f: int, nest: Stack<Level>, fcn: bool)
    requires a.Arm? && IfsA(a) && Older(nest, addrs).Some? && Len(nest) + 1 < MAXLEVEL
      && Len(Kept(first, j, f, addrs)) < MAXLEVEL
    requires first ==> j == -1
    ensures var w, k, e := Waiting(nest, addrs), InLoop(nest), GenB(a.body, out, Waiting(nest, addrs));
      Predicted(Feed(Chain(isCase, first, out, addrs, j, f, nest), LinesB(a.body) + LinesA(isCase, a.rest), fcn),
                FitsB(a.body, Len(nest) + 1, Len(addrs) + (if first then 1 else 2), fcn, k)
                    && FitsRest(a.rest, Len(nest) + 1, Len(addrs), fcn, k),
                GenRest(a.rest, e.out, f, j, e.w), addrs, nest)
    decreases a, 0, 0
  {
    var c, e := Chain(isCase, first, out, addrs, j, f, nest), GenB(a.body, out, Waiting(nest, addrs));
    FeedAppend(c, LinesB(a.body), LinesA(isCase, a.rest), fcn);
    Keeping(addrs, nest, ChainLevel(isCase, first), j, f, e.w);
    FeedBlock(a.body, out, c.addrs, c.nest, fcn);
    if FitsB(a.body, Len(c.nest), Len(c.addrs), fcn, InLoop(nest)) {
      SetTwice(nest, addrs, e.w, GenRest(a.rest, e.out, f, j, e.w).w);
      FeedRest(isCase, first, a.rest, e.out, SetWaiting(nest, addrs, e.w), j, f, nest, fcn);
    }
  }

  lemma {:induction false} FeedRest(isCase: bool, first: bool, arms: Arms, out: seq<Instr>, addrs: Stack<int>, j: int,
                                    f: int, nest: Stack<Level>, fcn: bool)
    requires IfsA(arms) && Older(nest, addrs).Some? && Len(nest) + 1 < MAXLEVEL
      && Len(Kept(first, j, f, addrs)) < MAXLEVEL
    requires first ==> j == -1
    ensures Predicted(Feed(Chain(isCase, first, out, addrs, j, f, nest), LinesA(isCase, arms), fcn),
                      FitsRest(arms, Len(nest) + 1, Len(addrs), fcn, InLoop(nest)),
                      GenRest(arms, out, f, j, Waiting(nest, addrs)), addrs, nest)
    decreases arms, 1
  {
    match arms
    case End =>
      SetSame(nest, addrs);
      EndStep(isCase, first, out, addrs, j, f, nest, fcn);
      FeedOne(Chain(isCase, first, out, addrs, j, f, nest), if isCase then EndCase else EndIf, fcn);
    case Otherwise(body) =>
      OtherStep(isCase, first, out, addrs, j, f, nest, fcn);
      FeedCons(Chain(isCase, first, out, addrs, j, f, nest), if isCase then OtherwiseLn else ElseLn,
               LinesB(body) + [if isCase then EndCase else EndIf], fcn);
      FeedTail(isCase, body, Link(out, f, j), addrs, |out|, nest, fcn);
    case Arm(_, _, _) => FeedMore(isCase, first, arms, out, addrs, j, f, nest, fcn);
  }

  lemma {:induction false} FeedMore(isCase: bool, first: bool, arms: Arms, out: seq<Instr>, addrs: Stack<int>, j: int,
                                    f: int, nest: Stack<Level>, fcn: bool)
    requires arms.Arm? && IfsA(arms) && Older(nest, addrs).Some? && Len(nest) + 1 < MAXLEVEL
      && Len(Kept(first, j, f, addrs)) < MAXLEVEL
    requires first ==> j == -1
    ensures Predicted(Feed(Chain(isCase, first, out, addrs, j, f, nest), LinesA(isCase, arms), fcn),
                      FitsRest(arms, Len(nest) + 1, Len(addrs), fcn, InLoop(nest)),
                      GenRest(arms, out, f, j, Waiting(nest, addrs)), addrs, nest)
    decreases arms, 0, 2
  {
    LinkStep(isCase, first, arms.c, out, addrs, j, f, nest, fcn);
    MoreLines(isCase, arms, Chain(isCase, first, out, addrs, j, f, nest), fcn);
    if Len(addrs) + 2 < MAXLEVEL { FeedLinked(isCase, arms, out, addrs, j, f, nest, fcn); }
  }

  /** The body of a further arm and what follows it. */
  lemma {:induction false} FeedLinked(isCase: bool, arms: Arms, out: seq<Instr>, addrs: Stack<int>, j: int, f: int,
                                      nest: Stack<Level>, fcn: bool)
    requires arms.Arm? && IfsA(arms) && Older(nest, addrs).Some? && Len(nest) + 1 < MAXLEVEL
      && Len(addrs) + 2 < MAXLEVEL
    ensures Predicted(Feed(Chain(isCase, false, Test(Link(out, f, j), arms.c), addrs, |out|, |out| + 2, nest),
      LinesB(arms.body) + LinesA(isCase, arms.rest), fcn),
                      FitsRest(arms, Len(nest) + 1, Len(addrs), fcn, InLoop(nest)),
                      GenRest(arms, out, f, j, Waiting(nest, addrs)), addrs, nest)
    decreases arms, 0, 1
  {
    FeedArm(isCase, false, arms, Test(Link(out, f, j), arms.c), addrs, |out|, |out| + 2, nest, fcn);
  }

  lemma MoreLines(isCase: bool, arms: Arms, c: Comp, fcn: bool)
    requires arms.Arm?
    ensures Feed(c, LinesA(isCase, arms), fcn) ==
      var r := Step(c, if isCase then CaseLn(arms.c) else ElseIf(arms.c), fcn);
      if r.Err? then r else Feed(r.c, LinesB(arms.body) + LinesA(isCase, arms.rest), fcn)
  {
    FeedCons(c, if isCase then CaseLn(arms.c) else ElseIf(arms.c), LinesB(arms.body) + LinesA(isCase, arms.rest), fcn);
  }

  /** The line that starts a further arm. */
  lemma LinkStep(isCase: bool, first: bool, b: Blk, out: seq<Instr>, addrs: Stack<int>, j: int, f: int,
                 nest: Stack<Level>, fcn: bool)
    requires Len(Kept(first, j, f, addrs)) < MAXLEVEL && (first ==> j == -1)
    ensures Step(Chain(isCase, first, out, addrs, j, f, nest), if isCase then CaseLn(b) else ElseIf(b), fcn)
      == if Len(addrs) + 2 < MAXLEVEL
         then Ok(Chain(isCase, false, Test(Link(out, f, j), b), addrs, |out|, |out| + 2, nest)) else Err(STACK_FAULT)
  {
  }

  lemma EndStep(isCase: bool, first: bool, out: seq<Instr>, addrs: Stack<int>, j: int, f: int, nest: Stack<Level>,
                fcn: bool)
    requires Len(Kept(first, j, f, addrs)) < MAXLEVEL && (first ==> j == -1)
    ensures Step(Chain(isCase, first, out, addrs, j, f, nest), if isCase then EndCase else EndIf, fcn)
      == Ok(Comp(Patch(Patch(out, j, |out|), f, |out|), addrs, nest))
  {
  }

  /** The line that starts the last, untested part of a chain. */
  lemma OtherStep(isCase: bool, first: bool, out: seq<Instr>, addrs: Stack<int>, j: int, f: int, nest: Stack<Level>,
                  fcn: bool)
    requires Len(Kept(first, j, f, addrs)) < MAXLEVEL && (first ==> j == -1)
    ensures Step(Chain(isCase, first, out, addrs, j, f, nest), if isCase then OtherwiseLn else ElseLn, fcn)
      == Ok(Comp(Link(out, f, j), Push(|out|, addrs), Push(if isCase then OtherL(true) else ElseL, nest)))
  {
  }

  /** The untested part, skipped by the one jump `j` that its level keeps. */
  lemma {:induction false} FeedTail(isCase: bool, body: Block, out: seq<Instr>, addrs: Stack<int>, j: int,
                                    nest: Stack<Level>, fcn: bool)
    requires IfsB(body) && Older(nest, addrs).Some? && Len(nest) + 1 < MAXLEVEL && Len(addrs) + 1 < MAXLEVEL
    ensures var e := GenB(body, out, Waiting(nest, addrs));
      Predicted(Feed(Comp(out, Push(j, addrs), Push(if isCase then OtherL(true) else ElseL, nest)),
          LinesB(body) + [if isCase then EndCase else EndIf], fcn),
                FitsB(body, Len(nest) + 1, Len(addrs) + 1, fcn, InLoop(nest)), Emit(Patch(e.out, j, |e.out|), e.w),
                    addrs, nest)
    decreases body, 1
  {
    var l, top := if isCase then EndCase else EndIf, if isCase then OtherL(true) else ElseL;
    var e := GenB(body, out, Waiting(nest, addrs));
    FeedAppend(Comp(out, Push(j, addrs), Push(top, nest)), LinesB(body), [l], fcn);
    Keeping(addrs, nest, top, j, j, e.w);
    FeedBlock(body, out, Push(j, addrs), Push(top, nest), fcn);
    FeedOne(Comp(e.out, Push(j, SetWaiting(nest, addrs, e.w)), Push(top, nest)), l, fcn);
    TailStep(isCase, e.out, SetWaiting(nest, addrs, e.w), j, nest, fcn);
  }

  /** The line that ends such a chain. */
  lemma TailStep(isCase: bool, out: seq<Instr>, addrs: Stack<int>, j: int, nest: Stack<Level>, fcn: bool)
    ensures Step(Comp(out, Push(j, addrs), Push(if isCase then OtherL(true) else ElseL, nest)),
                 if isCase then EndCase else EndIf, fcn) == Ok(Comp(Patch(out, j, |out|), addrs, nest))
  {
  }

  /** The arms of a DO CASE, from its first one on. */
  lemma {:induction false} FeedFirst(arms: Arms, out: seq<Instr>, addrs: Stack<int>, nest: Stack<Level>, fcn: bool)
    requires IfsA(arms) && Older(nest, addrs).Some? && Len(addrs) < MAXLEVEL && Len(nest) + 1 < MAXLEVEL
    ensures Predicted(Feed(Comp(out, addrs, Push(CaseL(false, false), nest)), LinesA(true, arms), fcn),
                      FitsFirst(arms, Len(nest) + 1, Len(addrs), fcn, InLoop(nest)),
                      GenFirst(arms, out, Waiting(nest, addrs)), addrs, nest)
    decreases arms, 1
  {
    var c := Comp(out, addrs, Push(CaseL(false, false), nest));
    match arms
    case End =>
      SetSame(nest, addrs);
      FeedOne(c, EndCase, fcn);
    case Otherwise(body) => FeedOnlyOther(body, out, addrs, nest, fcn);
    case Arm(b, body, rest) =>
      var tail := LinesB(body) + LinesA(true, rest);
      FeedCons(c, CaseLn(b), tail, fcn);
      CaseStep(b, out, addrs, nest, fcn);
      assert LinesA(true, arms) == [CaseLn(b)] + tail;
      if Len(addrs) + 1 < MAXLEVEL {
        FeedChain(true, arms, out, addrs, nest, fcn);
      }
  }

  /** The first CASE. */
  lemma CaseStep(b: Blk, out: seq<Instr>, addrs: Stack<int>, nest: Stack<Level>, fcn: bool)
    requires Len(addrs) < MAXLEVEL
    ensures var r := Step(Comp(out, addrs, Push(CaseL(false, false), nest)), CaseLn(b), fcn);
      if Len(addrs) + 1 < MAXLEVEL
      then r == Ok(Chain(true, true, Test(out, b), addrs, -1, |out| + 1, nest)) else r.Err?
  {
  }

  /** OTHERWISE without any CASE before it. */
  lemma {:induction false} FeedOnlyOther(body: Block, out: seq<Instr>, addrs: Stack<int>, nest: Stack<Level>, fcn: bool)
    requires IfsB(body) && Older(nest, addrs).Some? && Len(addrs) < MAXLEVEL && Len(nest) + 1 < MAXLEVEL
    ensures Predicted(Feed(Comp(out, addrs, Push(CaseL(false, false), nest)), LinesA(true, Otherwise(body)), fcn),
                      FitsB(body, Len(nest) + 1, Len(addrs), fcn, InLoop(nest)),
                      GenB(body, out, Waiting(nest, addrs)), addrs, nest)
    decreases body, 2
  {
    var c, ls := Comp(out, addrs, Push(CaseL(false, false), nest)), LinesB(body) + [EndCase];
    FeedCons(c, OtherwiseLn, ls, fcn);
    assert Step(c, OtherwiseLn, fcn) == Ok(Comp(out, addrs, Push(OtherL(false), nest)));
    assert LinesA(true, Otherwise(body)) == [OtherwiseLn] + ls;
    FeedOther(body, out, addrs, nest, fcn);
  }

  /** What follows that line. */
  lemma {:induction false} FeedOther(body: Block, out: seq<Instr>, addrs: Stack<int>, nest: Stack<Level>, fcn: bool)
    requires IfsB(body) && Older(nest, addrs).Some? && Len(addrs) < MAXLEVEL && Len(nest) + 1 < MAXLEVEL
    ensures Predicted(Feed(Comp(out, addrs, Push(OtherL(false), nest)), LinesB(body) + [EndCase], fcn),
                      FitsB(body, Len(nest) + 1, Len(addrs), fcn, InLoop(nest)),
                      GenB(body, out, Waiting(nest, addrs)), addrs, nest)
    decreases body, 1
  {
    var c1, e := Comp(out, addrs, Push(OtherL(false), nest)), GenB(body, out, Waiting(nest, addrs));
    Keeping(addrs, nest, OtherL(false), 0, 0, e.w);
    FeedAppend(c1, LinesB(body), [EndCase], fcn);
    FeedBlock(body, out, addrs, c1.nest, fcn);
    FeedOne(Comp(e.out, SetWaiting(nest, addrs, e.w), c1.nest), EndCase, fcn);
  }
}
