/** Which jumps are still open while lines are compiled, for any sequence of
    lines, nested well or not. */
module Holes {
  import opened Options
  import opened Control
  import opened CodeGen
  import opened Lines
  import opened Library

  /** A jump still carrying its place holder. */
  predicate Pending(out: seq<Instr>, i: int) {
    0 <= i < |out| && out[i].Jmp? && out[i].addr == PLACE_HOLDER
  }

  /** The jumps that the open levels keep for patching, innermost first: of a WHILE
      only its exit, since the address below it is the start of the loop. */
  function HolesOf(nest: Stack<Level>, addrs: Stack<int>): (hs: seq<int>)
    requires Older(nest, addrs).Some?
    decreases nest
  {
    if nest.Empty? then []
    else match Height(nest.top)
      case 0 => HolesOf(nest.below, addrs)
      case 1 => [addrs.top] + HolesOf(nest.below, addrs.below)
      case _ => (if nest.top == WhileL then [addrs.top]
          else [addrs.top, addrs.below.top]) + HolesOf(nest.below, addrs.below.below)
  }

  /** The flags of CASE are set in order, and the start of every loop is a position. */
  predicate Shaped(nest: Stack<Level>, addrs: Stack<int>)
    requires Older(nest, addrs).Some?
    decreases nest
  {
    nest.Empty?
    || (nest.top != CaseL(true, false)
        && match Height(nest.top)
           case 0 => Shaped(nest.below, addrs)
           case 1 => Shaped(nest.below, addrs.below)
           case _ => (nest.top == WhileL ==> addrs.below.top >= 0) && Shaped(nest.below, addrs.below.below))
  }

  predicate NoDup(hs: seq<int>) {
    forall j, k {:trigger hs[j], hs[k]} :: 0 <= j < k < |hs| ==> hs[j] != hs[k]
  }

  /** From item `lo` on, the pending jumps of `out` are exactly those listed, each once. */
  ghost predicate Exact(out: seq<Instr>, hs: seq<int>, lo: nat) {
    && lo <= |out| && NoDup(hs)
    && (forall k {:trigger hs[k]} :: 0 <= k < |hs| ==> lo <= hs[k] && Pending(out, hs[k]))
    && (forall i {:trigger Pending(out, i)} :: lo <= i && Pending(out, i) ==> i in hs)
  }

  /** The stack holds what the open levels keep, on top of `base`, and the pending jumps
      from item `lo` on are exactly those kept. */
  ghost predicate Balanced(c: Comp, base: Stack<int>, lo: nat) {
    Older(c.nest, c.addrs) == Some(base) && Shaped(c.nest, c.addrs) && Exact(c.out, HolesOf(c.nest, c.addrs), lo)
  }

  /** `out'` grows out of `out`: the jumps `shut` are closed, the jumps `born` are opened. */
  ghost predicate Moves(out: seq<Instr>, out': seq<Instr>, shut: seq<int>, born: seq<int>) {
    && |out| <= |out'| && NoDup(born)
    && (forall i {:trigger Pending(out', i)} :: 0 <= i < |out| ==> Pending(out', i) == (Pending(out, i) && i !in shut))
    && (forall i {:trigger Pending(out', i)} :: |out| <= i < |out'| ==> Pending(out', i) == (i in born))
    && (forall k {:trigger born[k]} :: 0 <= k < |born| ==> |out| <= born[k] < |out'|)
  }

  lemma Move(out: seq<Instr>, out': seq<Instr>, hs: seq<int>, shut: seq<int>, born: seq<int>, lo: nat)
    requires Exact(out, shut + hs, lo) && Moves(out, out', shut, born)
    ensures Exact(out', born + hs, lo)
  {
    var was, now := shut + hs, born + hs;
    forall k {:trigger hs[k]} | 0 <= k < |hs| ensures hs[k] !in shut && lo <= hs[k] && Pending(out, hs[k]) {
      assert was[|shut| + k] == hs[k];
      forall j | 0 <= j < |shut| ensures shut[j] != hs[k] { assert was[j] == shut[j]; }
    }
    forall k {:trigger now[k]} | 0 <= k < |now| ensures lo <= now[k] && Pending(out', now[k]) {
      assert now[k] == if k < |born| then born[k] else hs[k - |born|];
    }
    forall i {:trigger Pending(out', i)} | lo <= i && Pending(out', i) ensures i in now {
      if i < |out| { assert Pending(out, i) && i in was && i !in shut; assert i in hs; }
    }
    forall j, k {:trigger now[j], now[k]} | 0 <= j < k < |now| ensures now[j] != now[k] {
      if k < |born| { assert born[j] != born[k]; }
      else if j < |born| { assert now[j] == born[j] && now[k] == hs[k - |born|]; }
      else { assert was[|shut| + j - |born|] != was[|shut| + k - |born|]; }
    }
  }

  lemma MoveNone(out: seq<Instr>, out': seq<Instr>, hs: seq<int>, shut: seq<int>, lo: nat)
    requires Exact(out, shut + hs, lo) && Moves(out, out', shut, [])
    ensures Exact(out', hs, lo)
  {
    Move(out, out', hs, shut, [], lo);
    assert [] + hs == hs;
  }

  lemma MoveFrom(out: seq<Instr>, out': seq<Instr>, hs: seq<int>, born: seq<int>, lo: nat)
    requires Exact(out, hs, lo) && Moves(out, out', [], born)
    ensures Exact(out', born + hs, lo)
  {
    assert [] + hs == hs;
    Move(out, out', hs, [], born, lo);
  }

  // -------------------------------------------------------- what the output does

  lemma TestMoves(out: seq<Instr>, b: Blk)
    ensures Moves(out, Test(out, b), [], [|out| + 1])
  {
    var t := Test(out, b);
    assert forall i {:trigger Pending(t, i)} :: 0 <= i < |out| ==> t[i] == out[i];
  }

  lemma AddMoves(out: seq<Instr>, items: seq<Instr>)
    requires forall k {:trigger items[k]} :: 0 <= k < |items| ==> !(items[k].Jmp? && items[k].addr == PLACE_HOLDER)
    ensures Moves(out, out + items, [], [])
  {
    var t := out + items;
    assert forall i {:trigger Pending(t, i)} :: 0 <= i < |out| ==> t[i] == out[i];
    assert forall i {:trigger Pending(t, i)} :: |out| <= i < |t| ==> t[i] == items[i - |out|];
  }

  function Both(j: int, f: int): seq<int> {
    if j == -1 then [f] else [f, j]
  }

  lemma LinkMoves(out: seq<Instr>, j: int, f: int)
    requires Hole(out, f) && (j == -1 || Hole(out, j)) && f != j
    ensures Moves(out, Link(out, f, j), Both(j, f), [|out|])
    ensures Moves(out, Patch(Patch(out, j, |out|), f, |out|), Both(j, f), [])
  {
    var t := Link(out, f, j);
    assert forall i {:trigger Pending(t, i)} :: 0 <= i < |out| && i != f && i != j ==> t[i] == out[i];
    assert t[|out|] == Jmp(JUMP, PLACE_HOLDER);
    var u := Patch(Patch(out, j, |out|), f, |out|);
    assert forall i {:trigger Pending(u, i)} :: 0 <= i < |out| && i != f && i != j ==> u[i] == out[i];
  }

  lemma LinkTestMoves(out: seq<Instr>, j: int, f: int, b: Blk)
    requires Hole(out, f) && (j == -1 || Hole(out, j)) && f != j
    ensures Moves(out, Test(Link(out, f, j), b), Both(j, f), [|out| + 2, |out|])
  {
    LinkMoves(out, j, f);
    TestMoves(Link(out, f, j), b);
    var t, u := Link(out, f, j), Test(Link(out, f, j), b);
    assert forall i {:trigger Pending(u, i)} :: 0 <= i <= |out| ==> Pending(u, i) == Pending(t, i);
    assert Pending(t, |out|);
  }

  lemma PatchMoves(out: seq<Instr>, p: int, a: nat)
    requires Hole(out, p)
    ensures Moves(out, Patch(out, p, a), [p], [])
  {
    var u := Patch(out, p, a);
    assert forall i {:trigger Pending(u, i)} :: 0 <= i < |out| && i != p ==> u[i] == out[i];
  }

  lemma LoopMoves(out: seq<Instr>, p: nat, f: int)
    requires Hole(out, f)
    ensures Moves(out, Patch(out + [Jmp(JUMP, p)], f, |out| + 1), [f], [])
  {
    var u := Patch(out + [Jmp(JUMP, p)], f, |out| + 1);
    assert forall i {:trigger Pending(u, i)} :: 0 <= i < |out| && i != f ==> u[i] == out[i];
    assert u[|out|] == Jmp(JUMP, p);
  }

  // ------------------------------------------------------------ line by line

  lemma PlainKeeps(c: Comp, l: Line, fcn: bool, base: Stack<int>, lo: nat)
    requires Balanced(c, base, lo) && (l.Plain? || l.ReturnLn? || l.ReturnValLn? || l.CallLn?)
    ensures var r := Step(c, l, fcn); r.Ok? ==> Balanced(r.c, base, lo)
  {
    var items := match l
      case Plain(b) => [Code(b)]
      case ReturnLn => [Jmp(RETURN, 0)]
      case ReturnValLn(e) => [Code(e), Jmp(FCNRTN, 0)]
      case CallLn(args, name) => [Code(args), Ask(name)];
    AddMoves(c.out, items);
    var hs := HolesOf(c.nest, c.addrs);
    MoveFrom(c.out, c.out + items, hs, [], lo);
    assert [] + hs == hs;
  }

  lemma DoWhileKeeps(c: Comp, b: Blk, fcn: bool, base: Stack<int>, lo: nat)
    requires Balanced(c, base, lo)
    ensures var r := Step(c, DoWhile(b), fcn); r.Ok? ==> Balanced(r.c, base, lo)
  {
    OpenTest(c, b, base, lo);
    var addrs := Push(|c.out| + 1, Push(|c.out|, c.addrs));
    assert HolesOf(Push(WhileL, c.nest), addrs) == [|c.out| + 1] + HolesOf(c.nest, c.addrs);
  }

  lemma IfKeeps(c: Comp, b: Blk, fcn: bool, base: Stack<int>, lo: nat)
    requires Balanced(c, base, lo)
    ensures var r := Step(c, IfLn(b), fcn); r.Ok? ==> Balanced(r.c, base, lo)
  {
    OpenTest(c, b, base, lo);
    OnTop(Test(c.out, b), c.addrs, c.nest, base, lo, IfL, 0, |c.out| + 1);
  }

  lemma DoCaseKeeps(c: Comp, fcn: bool, base: Stack<int>, lo: nat)
    requires Balanced(c, base, lo)
    ensures var r := Step(c, DoCase, fcn); r.Ok? ==> Balanced(r.c, base, lo)
  {
  }

  lemma OpenTest(c: Comp, b: Blk, base: Stack<int>, lo: nat)
    requires Balanced(c, base, lo)
    ensures Exact(Test(c.out, b), [|c.out| + 1] + HolesOf(c.nest, c.addrs), lo)
  {
    TestMoves(c.out, b);
    MoveFrom(c.out, Test(c.out, b), HolesOf(c.nest, c.addrs), [|c.out| + 1], lo);
  }

  predicate TopTested(c: Comp, isCase: bool) {
    if isCase then Top(c, CaseL(false, true)) || Top(c, CaseL(true, true)) else Top(c, IfL) || Top(c, ElseIfL)
  }

  /** Behind a tested arm, taken apart: the jumps `f` and `j` of its level, and the rest. */
  ghost predicate Tested(c: Comp, isCase: bool, first: bool, addrs: Stack<int>, j: int, f: int, nest: Stack<Level>,
                         base: Stack<int>, lo: nat) {
    && c == Chain(isCase, first, c.out, addrs, j, f, nest)
    && (j == -1 <==> first) && Hole(c.out, f) && (j == -1 || Hole(c.out, j)) && f != j
    && Older(nest, addrs) == Some(base) && Shaped(nest, addrs) && Exact(c.out, Both(j, f) + HolesOf(nest, addrs), lo)
  }

  lemma InChain(c: Comp, isCase: bool, base: Stack<int>, lo: nat)
    returns (first: bool, addrs: Stack<int>, j: int, f: int, nest: Stack<Level>)
    requires Balanced(c, base, lo) && TopTested(c, isCase)
    ensures Tested(c, isCase, first, addrs, j, f, nest, base, lo)
  {
    nest, f := c.nest.below, c.addrs.top;
    first := Height(c.nest.top) == 1;
    var hs := HolesOf(c.nest, c.addrs);
    assert hs[0] == f;
    if first {
      addrs, j := c.addrs.below, -1;
    } else {
      addrs, j := c.addrs.below.below, c.addrs.below.top;
      assert hs[1] == j && hs[0] != hs[1];
    }
  }

  /** The level `l` keeping `born` on top of a taken-apart state. */
  lemma OnTop(out: seq<Instr>, addrs: Stack<int>, nest: Stack<Level>, base: Stack<int>, lo: nat, l: Level, j: int,
              f: int)
    requires Older(nest, addrs) == Some(base) && Shaped(nest, addrs) && l != WhileL && l != CaseL(true, false)
    requires Exact(out, (match Height(l) case 0 => [] case 1 => [f] case _ => [f, j]) + HolesOf(nest, addrs), lo)
    ensures Balanced(Comp(out, Over(l, j, f, addrs), Push(l, nest)), base, lo)
  {
    if Height(l) == 0 { assert [] + HolesOf(nest, addrs) == HolesOf(nest, addrs); }
  }

  /** ELSEIF, and CASE after another CASE. */
  lemma FurtherKeeps(c: Comp, isCase: bool, b: Blk, fcn: bool, base: Stack<int>, lo: nat)
    requires Balanced(c, base, lo) && Small(c) && TopTested(c, isCase)
    ensures var r := Step(c, if isCase then CaseLn(b) else ElseIf(b), fcn); r.Ok? ==> Balanced(r.c, base, lo)
  {
    var first, addrs, j, f, nest := InChain(c, isCase, base, lo);
    LinkStep(isCase, first, b, c.out, addrs, j, f, nest, fcn);
    FurtherFrom(c, isCase, first, b, addrs, j, f, nest, base, lo);
  }

  lemma FurtherFrom(c: Comp, isCase: bool, first: bool, b: Blk, addrs: Stack<int>, j: int, f: int, nest: Stack<Level>,
                    base: Stack<int>, lo: nat)
    requires Tested(c, isCase, first, addrs, j, f, nest, base, lo)
    ensures Balanced(Chain(isCase, false, Test(Link(c.out, f, j), b), addrs, |c.out|, |c.out| + 2, nest), base, lo)
  {
    var n := |c.out|;
    LinkTestMoves(c.out, j, f, b);
    Move(c.out, Test(Link(c.out, f, j), b), HolesOf(nest, addrs), Both(j, f), [n + 2, n], lo);
    OnTop(Test(Link(c.out, f, j), b), addrs, nest, base, lo, ChainLevel(isCase, false), n, n + 2);
  }

  /** ELSE and OTHERWISE after a tested arm. */
  lemma ElseKeeps(c: Comp, isCase: bool, fcn: bool, base: Stack<int>, lo: nat)
    requires Balanced(c, base, lo) && Small(c) && TopTested(c, isCase)
    ensures var r := Step(c, if isCase then OtherwiseLn else ElseLn, fcn); r.Ok? ==> Balanced(r.c, base, lo)
  {
    var first, addrs, j, f, nest := InChain(c, isCase, base, lo);
    OtherStep(isCase, first, c.out, addrs, j, f, nest, fcn);
    LinkMoves(c.out, j, f);
    Move(c.out, Link(c.out, f, j), HolesOf(nest, addrs), Both(j, f), [|c.out|], lo);
    OnTop(Link(c.out, f, j), addrs, nest, base, lo, if isCase then OtherL(true) else ElseL, 0, |c.out|);
  }

  /** ENDIF and ENDCASE after a tested arm. */
  lemma EndKeeps(c: Comp, isCase: bool, fcn: bool, base: Stack<int>, lo: nat)
    requires Balanced(c, base, lo) && Small(c) && TopTested(c, isCase)
    ensures var r := Step(c, if isCase then EndCase else EndIf, fcn); r.Ok? ==> Balanced(r.c, base, lo)
  {
    var first, addrs, j, f, nest := InChain(c, isCase, base, lo);
    EndStep(isCase, first, c.out, addrs, j, f, nest, fcn);
    LinkMoves(c.out, j, f);
    MoveNone(c.out, Patch(Patch(c.out, j, |c.out|), f, |c.out|), HolesOf(nest, addrs), Both(j, f), lo);
  }

  /** ENDIF after ELSE, ENDCASE after an OTHERWISE that follows a CASE. */
  lemma TailKeeps(c: Comp, isCase: bool, fcn: bool, base: Stack<int>, lo: nat)
    requires Balanced(c, base, lo) && Top(c, if isCase then OtherL(true) else ElseL)
    ensures var r := Step(c, if isCase then EndCase else EndIf, fcn); r.Ok? ==> Balanced(r.c, base, lo)
  {
    var f := c.addrs.top;
    assert HolesOf(c.nest, c.addrs)[0] == f;
    PatchMoves(c.out, f, |c.out|);
    MoveNone(c.out, Patch(c.out, f, |c.out|), HolesOf(c.nest.below, c.addrs.below), [f], lo);
  }

  lemma EndDoKeeps(c: Comp, fcn: bool, base: Stack<int>, lo: nat)
    requires Balanced(c, base, lo) && Top(c, WhileL)
    ensures var r := Step(c, EndDo, fcn); r.Ok? ==> Balanced(r.c, base, lo)
  {
    assert HolesOf(c.nest, c.addrs)[0] == c.addrs.top;
    EndDoMoves(c.out, c.addrs.below.top, c.addrs.top, HolesOf(c.nest.below, c.addrs.below.below), lo);
  }

  lemma EndDoMoves(out: seq<Instr>, p: nat, f: int, hs: seq<int>, lo: nat)
    requires Exact(out, [f] + hs, lo) && Hole(out, f)
    ensures Exact(Patch(out + [Jmp(JUMP, p)], f, |out| + 1), hs, lo)
  {
    LoopMoves(out, p, f);
    MoveNone(out, Patch(out + [Jmp(JUMP, p)], f, |out| + 1), hs, [f], lo);
  }

  lemma CaseKeeps(c: Comp, l: Line, fcn: bool, base: Stack<int>, lo: nat)
    requires Balanced(c, base, lo) && Small(c) && (l.CaseLn? || l.OtherwiseLn? || l.EndCase?)
    ensures var r := Step(c, l, fcn); r.Ok? ==> Balanced(r.c, base, lo)
  {
    if TopCase(c) && c.nest.top.nf {
      match l
      case CaseLn(b) => FurtherKeeps(c, true, b, fcn, base, lo);
      case OtherwiseLn => ElseKeeps(c, true, fcn, base, lo);
      case EndCase => EndKeeps(c, true, fcn, base, lo);
    } else if Top(c, OtherL(true)) {
      if l.EndCase? { TailKeeps(c, true, fcn, base, lo); }
    } else {
      BareKeeps(c, l, fcn, base, lo);
    }
  }

  /** The first CASE, and OTHERWISE and ENDCASE without one. */
  lemma BareKeeps(c: Comp, l: Line, fcn: bool, base: Stack<int>, lo: nat)
    requires Balanced(c, base, lo) && (l.CaseLn? || l.OtherwiseLn? || l.EndCase?)
    requires !Top(c, OtherL(true)) && !(TopCase(c) && c.nest.top.nf)
    ensures var r := Step(c, l, fcn); r.Ok? ==> Balanced(r.c, base, lo)
  {
    if l.CaseLn? && TopCase(c) {
      TestMoves(c.out, l.c);
      MoveFrom(c.out, Test(c.out, l.c), HolesOf(c.nest.below, c.addrs), [|c.out| + 1], lo);
    }
  }

  // ------------------------------------------------------------ EXIT

  /** Where, among the jumps kept, the one is that EXIT patches. */
  lemma {:induction false} ExitSlot(nest: Stack<Level>, addrs: Stack<int>, v: int) returns (k: nat)
    requires Older(nest, addrs).Some? && InLoop(nest)
    ensures Older(nest, SetWaiting(nest, addrs, v)) == Older(nest, addrs)
    ensures Shaped(nest, addrs) ==> Shaped(nest, SetWaiting(nest, addrs, v))
    ensures var hs := HolesOf(nest, addrs);
      k < |hs| && hs[k] == Waiting(nest, addrs) && HolesOf(nest, SetWaiting(nest, addrs, v)) == hs[k := v]
    decreases nest
  {
    if nest.top == WhileL {
      k := 0;
      assert HolesOf(nest, Push(v, addrs.below)) == HolesOf(nest, addrs)[0 := v];
    } else {
      var h := Height(nest.top);
      var below := if h == 0 then addrs else if h == 1 then addrs.below else addrs.below.below;
      var own := if h == 0 then [] else if h == 1 then [addrs.top] else [addrs.top, addrs.below.top];
      var hs := HolesOf(nest.below, below);
      k := ExitSlot(nest.below, below, v);
      assert own + hs[k := v] == (own + hs)[h + k := v];
      k := h + k;
    }
  }

  lemma ExitKeeps(c: Comp, fcn: bool, base: Stack<int>, lo: nat)
    requires Balanced(c, base, lo)
    ensures var r := Step(c, ExitLn, fcn); r.Ok? ==> Balanced(r.c, base, lo)
  {
    if InLoop(c.nest) {
      var k := ExitSlot(c.nest, c.addrs, |c.out|);
      ExitMoves(c.out, HolesOf(c.nest, c.addrs), k, lo);
    }
  }

  lemma ExitMoves(out: seq<Instr>, hs: seq<int>, k: nat, lo: nat)
    requires Exact(out, hs, lo) && k < |hs|
    ensures Exact(Patch(out, hs[k], |out|) + [Jmp(JUMP, PLACE_HOLDER)], hs[k := |out|], lo)
  {
    var u, now := Patch(out, hs[k], |out|) + [Jmp(JUMP, PLACE_HOLDER)], hs[k := |out|];
    assert forall i {:trigger Pending(u, i)} :: 0 <= i < |out| && i != hs[k] ==> Pending(u, i) == Pending(out, i);
    forall i {:trigger Pending(u, i)} | lo <= i && Pending(u, i) ensures i in now {
      if i == |out| { assert now[k] == i; }
      else { assert Pending(out, i); var j :| 0 <= j < |hs| && hs[j] == i; assert now[j] == i; }
    }
    forall j {:trigger now[j]} | 0 <= j < |now| ensures lo <= now[j] && Pending(u, now[j]) {
      if j != k { assert now[j] == hs[j] && hs[j] != hs[k]; }
    }
    forall i, j {:trigger now[i], now[j]} | 0 <= i < j < |now| ensures now[i] != now[j] {
      assert hs[i] != hs[j];
    }
  }

  // ------------------------------------------------------------ any lines at all

  /** Every line keeps the stack at what the open levels keep, and the pending jumps at those kept. */
  lemma StepKeeps(c: Comp, l: Line, fcn: bool, base: Stack<int>, lo: nat)
    requires Balanced(c, base, lo) && Small(c)
    ensures var r := Step(c, l, fcn); r.Ok? ==> Balanced(r.c, base, lo)
  {
    match l
    case EndDo => if Top(c, WhileL) { EndDoKeeps(c, fcn, base, lo); }
    case ExitLn | LoopLn => ExitKeeps(c, fcn, base, lo);
    case ElseIf(b) => if TopTested(c, false) { FurtherKeeps(c, false, b, fcn, base, lo); }
    case ElseLn => if TopTested(c, false) { ElseKeeps(c, false, fcn, base, lo); }
    case EndIf =>
      if TopTested(c, false) { EndKeeps(c, false, fcn, base, lo); }
      else if Top(c, ElseL) { TailKeeps(c, false, fcn, base, lo); }
    case DoWhile(b) => DoWhileKeeps(c, b, fcn, base, lo);
    case IfLn(b) => IfKeeps(c, b, fcn, base, lo);
    case DoCase => DoCaseKeeps(c, fcn, base, lo);
    case CaseLn(_) => CaseKeeps(c, l, fcn, base, lo);
    case OtherwiseLn => CaseKeeps(c, l, fcn, base, lo);
    case EndCase => CaseKeeps(c, l, fcn, base, lo);
    case _ => PlainKeeps(c, l, fcn, base, lo);
  }

  /** Both stacks stay within their limit. */
  lemma StepLimits(c: Comp, l: Line, fcn: bool)
    requires Small(c)
    ensures var r := Step(c, l, fcn); r.Ok? ==> Small(r.c)
  {
    match l
    case ExitLn | LoopLn => SetLen(c.nest, c.addrs, |c.out|);
    case EndDo => if c.addrs.Push? && c.addrs.below.Push? { assert Len(c.addrs) == Len(c.addrs.below.below) + 2; }
    case ElseIf(_) => LeaveTwice(c);
    case ElseLn => LeaveTwice(c);
    case EndIf => LeaveTwice(c);
    case CaseLn(_) => CaseLimits(c, l, fcn);
    case OtherwiseLn => CaseLimits(c, l, fcn);
    case EndCase => CaseLimits(c, l, fcn);
    case _ =>
  }

  lemma LeaveLimits(c: Comp)
    requires Small(c)
    ensures ModJmp(c).Ok? ==> Small(ModJmp(c).c) && ModJmp(c).c.nest == c.nest
    ensures JmpCodegen(c).Ok? ==> Small(JmpCodegen(c).c) && JmpCodegen(c).c.nest == c.nest
  {
  }

  lemma CaseLimits(c: Comp, l: Line, fcn: bool)
    requires Small(c) && (l.CaseLn? || l.OtherwiseLn? || l.EndCase?)
    ensures var r := Step(c, l, fcn); r.Ok? ==> Small(r.c)
  {
    LeaveTwice(c);
  }

  lemma LeaveTwice(c: Comp)
    requires Small(c)
    ensures JmpCodegen(c).Ok? ==> Small(JmpCodegen(c).c) && JmpCodegen(c).c.nest == c.nest
    ensures var r := ModJmp(c); r.Ok? ==> Small(r.c) && r.c.nest == c.nest
    ensures var r := ModJmp(c);
      r.Ok? && JmpCodegen(r.c).Ok? ==> Small(JmpCodegen(r.c).c) && JmpCodegen(r.c).c.nest == c.nest
  {
    LeaveLimits(c);
    if ModJmp(c).Ok? { LeaveLimits(ModJmp(c).c); }
  }

  lemma {:induction false} SetLen(nest: Stack<Level>, addrs: Stack<int>, v: int)
    ensures Len(SetWaiting(nest, addrs, v)) == Len(addrs)
    decreases nest
  {
    if nest.Push? && addrs.Push? && nest.top != WhileL {
      match Height(nest.top)
      case 0 => SetLen(nest.below, addrs, v);
      case 1 => SetLen(nest.below, addrs.below, v);
      case _ => if addrs.below.Push? { SetLen(nest.below, addrs.below.below, v); }
    }
  }

  lemma {:induction false} FeedKeeps(c: Comp, ls: seq<Line>, fcn: bool, base: Stack<int>, lo: nat)
    requires Balanced(c, base, lo) && Small(c)
    ensures var r := Feed(c, ls, fcn); r.Ok? ==> Balanced(r.c, base, lo) && Small(r.c)
    decreases ls
  {
    if ls != [] {
      StepKeeps(c, ls[0], fcn, base, lo);
      StepLimits(c, ls[0], fcn);
      var r := Step(c, ls[0], fcn);
      if r.Ok? { FeedKeeps(r.c, ls[1..], fcn, base, lo); }
    }
  }

  /** After any accepted lines the older addresses are untouched, and a place holder is left
      in the new code exactly if an open level still keeps an address, that is, if the patch
      stack is higher than before. */
  lemma LeftOver(c: Comp, ls: seq<Line>, fcn: bool)
    requires c.nest == Empty && Small(c) && Feed(c, ls, fcn).Ok?
    ensures var c' := Feed(c, ls, fcn).c;
      && Older(c'.nest, c'.addrs) == Some(c.addrs)
      && ((exists i :: |c.out| <= i && Pending(c'.out, i)) <==> Len(c'.addrs) > Len(c.addrs))
  {
    FeedKeeps(c, ls, fcn, c.addrs, |c.out|);
    var c' := Feed(c, ls, fcn).c;
    var hs := HolesOf(c'.nest, c'.addrs);
    HolesCount(c'.nest, c'.addrs);
    if |hs| > 0 { assert Pending(c'.out, hs[0]); }
  }

  lemma {:induction false} HolesCount(nest: Stack<Level>, addrs: Stack<int>)
    requires Older(nest, addrs).Some?
    ensures Len(addrs) >= Len(Older(nest, addrs).v)
    ensures |HolesOf(nest, addrs)| == 0 <==> Len(addrs) == Len(Older(nest, addrs).v)
    decreases nest
  {
    if nest.Push? {
      match Height(nest.top)
      case 0 => HolesCount(nest.below, addrs);
      case 1 => HolesCount(nest.below, addrs.below);
      case _ => HolesCount(nest.below, addrs.below.below);
    }
  }

  // ------------------------------------------------------------ a whole module

  /** The levels that a line opens, changes or closes, by the lines alone. */
  function NestAfter(nest: Stack<Level>, l: Line): Stack<Level> {
    match l
    case DoWhile(_) => Push(WhileL, nest)
    case IfLn(_) => Push(IfL, nest)
    case DoCase => Push(CaseL(false, false), nest)
    case EndDo => Below(nest)
    case EndIf => Below(nest)
    case EndCase => Below(nest)
    case ElseIf(_) => Changed(nest, ElseIfL)
    case ElseLn => Changed(nest, ElseL)
    case CaseLn(_) => Changed(nest, CaseL(HasFirst(nest) || HasSecond(nest), true))
    case OtherwiseLn => Changed(nest, OtherL(HasFirst(nest)))
    case _ => nest
  }

  function Below(nest: Stack<Level>): Stack<Level> { if nest.Push? then nest.below else nest }
  function Changed(nest: Stack<Level>, l: Level): Stack<Level> { if nest.Push? then Push(l, nest.below) else nest }
  predicate HasFirst(nest: Stack<Level>) { nest.Push? && nest.top.CaseL? && nest.top.nf }
  predicate HasSecond(nest: Stack<Level>) { nest.Push? && nest.top.CaseL? && nest.top.s }

  function OpenAfter(nest: Stack<Level>, ls: seq<Line>): Stack<Level>
    decreases ls
  {
    if ls == [] then nest else OpenAfter(NestAfter(nest, ls[0]), ls[1..])
  }

  /** Some open level keeps an address: it is anything but a DO CASE without an arm. */
  predicate Keeping(nest: Stack<Level>) { nest.Push? && (Height(nest.top) > 0 || Keeping(nest.below)) }

  lemma NestStep(c: Comp, l: Line, fcn: bool)
    requires Step(c, l, fcn).Ok?
    ensures Step(c, l, fcn).c.nest == NestAfter(c.nest, l)
  {
  }

  lemma {:induction false} NestFeed(c: Comp, ls: seq<Line>, fcn: bool)
    requires Feed(c, ls, fcn).Ok?
    ensures Feed(c, ls, fcn).c.nest == OpenAfter(c.nest, ls)
    decreases ls
  {
    if ls != [] {
      NestStep(c, ls[0], fcn);
      NestFeed(Step(c, ls[0], fcn).c, ls[1..], fcn);
    }
  }

  lemma {:induction false} KeepingHoles(nest: Stack<Level>, addrs: Stack<int>)
    requires Older(nest, addrs).Some?
    ensures Keeping(nest) <==> Len(addrs) > Len(Older(nest, addrs).v)
    decreases nest
  {
    HolesCount(nest, addrs);
    if nest.Push? {
      match Height(nest.top)
      case 0 => KeepingHoles(nest.below, addrs);
      case 1 => HolesCount(nest.below, addrs.below);
      case _ => HolesCount(nest.below, addrs.below.below);
    }
  }

  /** A module that compiles leaves a place holder in its code exactly if its lines leave a level
      open that keeps an address: an IF, a WHILE, or a CASE; at the end of the source that cannot
      happen. */
  lemma ModuleLeftOver(lib: Lib, m: Module, last: bool)
    requires Len(lib.addrs) < MAXLEVEL && CompileOne(lib, m, last).Done?
    ensures var lib' := CompileOne(lib, m, last).lib;
      && ((exists i :: |lib.sym| <= i && Pending(lib'.sym, i)) <==> Keeping(OpenAfter(Empty, m.lines)))
      && (last ==> OpenAfter(Empty, m.lines) == Empty && lib'.addrs == lib.addrs)
  {
    var c := Comp(lib.sym, lib.addrs, Empty);
    LeftOver(c, m.lines, m.fcn);
    var c' := Feed(c, m.lines, m.fcn).c;
    NestFeed(c, m.lines, m.fcn);
    KeepingHoles(c'.nest, c'.addrs);
    var all := c'.out + [Jmp(RETURN, 0)];
    assert forall i :: 0 <= i < |c'.out| ==> all[i] == c'.out[i];
    if i :| |lib.sym| <= i && Pending(c'.out, i) { assert Pending(all, i); }
    if i :| |lib.sym| <= i && Pending(all, i) { assert all[|c'.out|] == Jmp(RETURN, 0); assert Pending(c'.out, i); }
  }

  /** And it does happen: an IF left open before the next PROCEDURE line is accepted, and its
      failing test jumps to item -1. */
  lemma UnclosedIf(c: Blk)
    ensures var ms := [Module("a", false, [IfLn(c)]), Module("b", false, [])];
      var r := CompileAll(START, ms);
      r.Done? && Pending(r.lib.sym, 2)
  {
    var ms := [Module("a", false, [IfLn(c)]), Module("b", false, [])];
    FeedOne(Comp(HEADER, Empty, Empty), IfLn(c), false);
    var r1 := CompileOne(START, ms[0], false);
    assert r1.Done? && r1.lib.sym == Test(HEADER, c) + [Jmp(RETURN, 0)];
    var r2 := CompileOne(r1.lib, ms[1], true);
    assert Feed(Comp(r1.lib.sym, r1.lib.addrs, Empty), [], false).Ok?;
    assert r2.Done? && r2.lib.sym == r1.lib.sym + [Jmp(RETURN, 0)];
    assert ms[1..] == [ms[1]] && ms[1..][1..] == [];
    assert CompileAll(r2.lib, []) == Done(r2.lib);
    assert CompileAll(r1.lib, [ms[1]]) == CompileAll(r2.lib, []);
  }
}
