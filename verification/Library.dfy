/** A whole procedure file: the bodies one behind another, each found by name. */
module Library {
  import opened Control
  import opened CodeGen
  import opened Lines

  /** A PROCEDURE or, with `fcn`, a FUNCTION line and the lines that follow it. */
  datatype Module = Module(name: string, fcn: bool, lines: seq<Line>)

  /** The object file with its calls still by name, and the entry addresses. */
  datatype Lib = Lib(sym: seq<Instr>, defs: map<string, int>, addrs: Stack<int>)
  datatype LibRes = Done(lib: Lib) | Failed(e: Error)

  predicate Called(sym: seq<Instr>, n: string) {
    exists i {:trigger sym[i]} :: 0 <= i < |sym| && sym[i] == Ask(n)
  }

  const HEADER: seq<Instr> := [Jmp(OBJ_LIB, 0)]
  const START: Lib := Lib(HEADER, map[], Empty)

  /** What the end of the source says about a level that is still open. */
  function Unbalanced(nest: Stack<Level>): Error requires nest.Push? {
    match nest.top
    case IfL => UNBAL_IF
    case WhileL => UNBAL_DOWHILE
    case CaseL(_, _) => UNBAL_CASE
    case _ => UNKNOWN_CONTROL
  }

  const MAXMCOUNT: nat := 32767

  /** A RETURN line was seen. */
  predicate Returns(ls: seq<Line>)
    decreases ls
  {
    ls != [] && (ls[0].ReturnLn? || ls[0].ReturnValLn? || Returns(ls[1..]))
  }

  /** One module; only the end of the source (`last`), not the next PROCEDURE line, asks whether all
      levels are closed, and only the next PROCEDURE line whether a function has a RETURN line. */
  function CompileOne(lib: Lib, m: Module, last: bool): LibRes {
    if |lib.defs| >= MAXMCOUNT then Failed(TOOMANYPROCS)
    else if m.name in lib.defs then Failed(MULTI_DEF)
    else if m.fcn && Called(lib.sym, m.name) then Failed(PROC_MISMATCH)
    else
      match Feed(Comp(lib.sym, lib.addrs, Empty), m.lines, m.fcn)
      case Err(e) => Failed(e)
      case Ok(c) =>
        if last && c.nest.Push? then Failed(Unbalanced(c.nest))
        else if !last && m.fcn && !Returns(m.lines) then Failed(MISSING_RETURN)
        else Done(Lib(c.out + [Jmp(RETURN, 0)], lib.defs[m.name := |lib.sym|], c.addrs))
  }

  function CompileAll(lib: Lib, ms: seq<Module>): LibRes
    decreases ms
  {
    if ms == [] then Done(lib)
    else match CompileOne(lib, ms[0], |ms| == 1)
      case Failed(e) => Failed(e)
      case Done(lib') => CompileAll(lib', ms[1..])
  }

  /** The finished code: its head says where the table starts that follows it. */
  function Sealed(sym: seq<Instr>): seq<Instr>
    requires |sym| > 0
  {
    sym[0 := Jmp(OBJ_LIB, |sym|)]
  }

  // -------------------------------------------- well-nested procedure files

  datatype Proc = Proc(name: string, fcn: bool, body: Block)

  function ModulesOf(ps: seq<Proc>): (ms: seq<Module>)
    ensures |ms| == |ps|
    decreases ps
  {
    if ps == [] then [] else [Module(ps[0].name, ps[0].fcn, LinesB(ps[0].body))] + ModulesOf(ps[1..])
  }

  function CallsB(b: Block): set<string>
    decreases b
  {
    match b case Nil => {} case Then(s, rest) => CallsS(s) + CallsB(rest)
  }
  function CallsS(s: Stmt): set<string>
    decreases s
  {
    match s
    case While(_, body) => CallsB(body)
    case Choose(_, pre, arms) => CallsB(pre) + CallsA(arms)
    case Call(_, name) => {name}
    case _ => {}
  }
  function CallsA(arms: Arms): set<string>
    decreases arms
  {
    match arms
    case End => {}
    case Otherwise(body) => CallsB(body)
    case Arm(_, body, rest) => CallsB(body) + CallsA(rest)
  }

  /** A RETURN stands somewhere in the body. */
  predicate ReturnsB(b: Block)
    decreases b
  {
    b.Then? && (ReturnsS(b.s) || ReturnsB(b.rest))
  }
  predicate ReturnsS(s: Stmt)
    decreases s
  {
    match s
    case Return => true
    case ReturnVal(_) => true
    case While(_, body) => ReturnsB(body)
    case Choose(_, pre, arms) => ReturnsB(pre) || ReturnsA(arms)
    case _ => false
  }
  predicate ReturnsA(arms: Arms)
    decreases arms
  {
    match arms
    case End => false
    case Otherwise(body) => ReturnsB(body)
    case Arm(_, body, rest) => ReturnsB(body) || ReturnsA(rest)
  }

  /** The file compiles: not too many modules, bodies within the limits, no name twice, no function
      called before it stands, and none but the last without a RETURN. */
  predicate Acceptable(ps: seq<Proc>, defined: set<string>, called: set<string>)
    decreases ps
  {
    ps == [] ||
    (|defined| < MAXMCOUNT && ps[0].name !in defined && !(ps[0].fcn && ps[0].name in called)
     && FitsB(ps[0].body, 0, 0, ps[0].fcn, false)
     && (ps[0].fcn && |ps| > 1 ==> ReturnsB(ps[0].body))
     && Acceptable(ps[1..], defined + {ps[0].name}, called + CallsB(ps[0].body)))
  }

  predicate AllIfs(ps: seq<Proc>) {
    forall k {:trigger ps[k]} :: 0 <= k < |ps| ==> IfsB(ps[k].body)
  }

  // --------------------------------------------------- which names are called

  ghost predicate Grown(out: seq<Instr>, out': seq<Instr>, names: set<string>) {
    forall n :: Called(out', n) <==> Called(out, n) || n in names
  }

  lemma PatchNames(out: seq<Instr>, p: int, a: int)
    ensures Grown(out, Patch(out, p, a), {})
  {
    var t := Patch(out, p, a);
    forall n ensures Called(t, n) <==> Called(out, n) || n in {} {
      if Called(out, n) { var i :| 0 <= i < |out| && out[i] == Ask(n); assert t[i] == Ask(n); }
      if Called(t, n) { var i :| 0 <= i < |t| && t[i] == Ask(n); assert out[i] == Ask(n); }
    }
  }

  lemma AddNames(out: seq<Instr>, items: seq<Instr>)
    ensures forall n :: Called(out + items, n) <==> Called(out, n) || Called(items, n)
  {
    var t := out + items;
    forall n ensures Called(t, n) <==> Called(out, n) || Called(items, n) {
      if Called(out, n) { var i :| 0 <= i < |out| && out[i] == Ask(n); assert t[i] == Ask(n); }
      if Called(items, n) { var i :| 0 <= i < |items| && items[i] == Ask(n); assert t[|out| + i] == Ask(n); }
      if Called(t, n) {
        var i :| 0 <= i < |t| && t[i] == Ask(n);
        if i < |out| { assert out[i] == Ask(n); } else { assert items[i - |out|] == Ask(n); }
      }
    }
  }

  lemma TestNames(out: seq<Instr>, c: Blk)
    ensures Grown(out, Test(out, c), {})
  {
    AddNames(out, [Code(c), Jmp(JMP_FALSE, PLACE_HOLDER)]);
  }

  lemma LinkNames(out: seq<Instr>, f: int, j: int)
    ensures Grown(out, Link(out, f, j), {})
  {
    PatchNames(out, j, |out|);
    var t := Patch(out, j, |out|);
    AddNames(t, [Jmp(JUMP, PLACE_HOLDER)]);
    PatchNames(t + [Jmp(JUMP, PLACE_HOLDER)], f, |out| + 1);
  }

  lemma {:induction false} NamesB(b: Block, out: seq<Instr>, w: int)
    ensures Grown(out, GenB(b, out, w).out, CallsB(b))
    decreases b
  {
    if b.Then? {
      var e := GenS(b.s, out, w);
      NamesS(b.s, out, w);
      NamesB(b.rest, e.out, e.w);
    }
  }

  lemma {:induction false} NamesS(s: Stmt, out: seq<Instr>, w: int)
    ensures Grown(out, GenS(s, out, w).out, CallsS(s))
    decreases s
  {
    match s
    case Do(c) => AddNames(out, [Code(c)]);
    case While(c, body) =>
      var e := GenB(body, Test(out, c), |out| + 1);
      TestNames(out, c);
      NamesB(body, Test(out, c), |out| + 1);
      AddNames(e.out, [Jmp(JUMP, |out|)]);
      PatchNames(e.out + [Jmp(JUMP, |out|)], e.w, |e.out| + 1);
    case Choose(_, pre, arms) =>
      var e := GenB(pre, out, w);
      NamesB(pre, out, w);
      NamesFirst(arms, e.out, e.w);
    case Exit | Loop =>
      PatchNames(out, w, |out|);
      AddNames(Patch(out, w, |out|), [Jmp(JUMP, PLACE_HOLDER)]);
    case Return => AddNames(out, [Jmp(RETURN, 0)]);
    case ReturnVal(e) => AddNames(out, [Code(e), Jmp(FCNRTN, 0)]);
    case Call(args, name) =>
      AddNames(out, [Code(args), Ask(name)]);
      assert [Code(args), Ask(name)][1] == Ask(name);
  }

  lemma {:induction false} NamesFirst(arms: Arms, out: seq<Instr>, w: int)
    ensures Grown(out, GenFirst(arms, out, w).out, CallsA(arms))
    decreases arms, 1
  {
    match arms
    case End =>
    case Otherwise(body) => NamesB(body, out, w);
    case Arm(c, body, rest) =>
      var e := GenB(body, Test(out, c), w);
      TestNames(out, c);
      NamesB(body, Test(out, c), w);
      NamesRest(rest, e.out, |out| + 1, -1, e.w);
  }

  lemma {:induction false} NamesRest(arms: Arms, out: seq<Instr>, f: int, j: int, w: int)
    ensures Grown(out, GenRest(arms, out, f, j, w).out, CallsA(arms))
    decreases arms, 1
  {
    match arms
    case End =>
      PatchNames(out, j, |out|);
      PatchNames(Patch(out, j, |out|), f, |out|);
    case Otherwise(body) =>
      var e := GenB(body, Link(out, f, j), w);
      LinkNames(out, f, j);
      NamesB(body, Link(out, f, j), w);
      PatchNames(e.out, |out|, |e.out|);
    case Arm(c, body, rest) =>
      var t := Test(Link(out, f, j), c);
      var e := GenB(body, t, w);
      LinkNames(out, f, j);
      TestNames(Link(out, f, j), c);
      NamesB(body, t, w);
      NamesRest(rest, e.out, |out| + 2, |out|, e.w);
  }

  // ------------------------------------------------- compiling and then running

  /** In `f`, the code of `ps` starts at item `lo`, each entry where `defs` says. */
  ghost predicate Stands(f: seq<Instr>, defs: map<string, int>, ps: seq<Proc>, lo: nat)
    decreases ps
  {
    ps == [] ||
    (ps[0].name in defs && defs[ps[0].name] == lo && Proper(ps[0].body, false)
     && CodeB(f, ps[0].body, lo, |f|) && HasAt(f, lo + LenB(ps[0].body), Jmp(RETURN, 0))
     && Stands(f, defs, ps[1..], lo + LenB(ps[0].body) + 1))
  }

  lemma {:induction false} ReturnsAppend(l1: seq<Line>, l2: seq<Line>)
    ensures Returns(l1 + l2) <==> Returns(l1) || Returns(l2)
    decreases l1
  {
    if l1 == [] {
      assert l1 + l2 == l2;
    } else {
      assert (l1 + l2)[1..] == l1[1..] + l2;
      ReturnsAppend(l1[1..], l2);
    }
  }

  lemma ReturnsCons(l: Line, ls: seq<Line>)
    ensures Returns([l] + ls) <==> l.ReturnLn? || l.ReturnValLn? || Returns(ls)
  {
    assert ([l] + ls)[1..] == ls;
  }

  lemma {:induction false} ReturnsLines(b: Block)
    requires IfsB(b)
    ensures Returns(LinesB(b)) <==> ReturnsB(b)
    decreases b
  {
    if b.Then? {
      ReturnsAppend(LinesS(b.s), LinesB(b.rest));
      ReturnsStmt(b.s);
      ReturnsLines(b.rest);
    }
  }

  lemma {:induction false} ReturnsStmt(s: Stmt)
    requires IfsS(s)
    ensures Returns(LinesS(s)) <==> ReturnsS(s)
    decreases s
  {
    match s
    case While(c, body) =>
      ReturnsLines(body);
      ReturnsCons(EndDo, []);
      ReturnsAppend(LinesB(body), [EndDo]);
      ReturnsCons(DoWhile(c), LinesB(body) + [EndDo]);
    case Choose(true, pre, arms) =>
      ReturnsLines(pre);
      ReturnsArms(true, arms);
      ReturnsAppend(LinesB(pre), LinesA(true, arms));
      ReturnsCons(DoCase, LinesB(pre) + LinesA(true, arms));
    case Choose(false, pre, Arm(c, body, rest)) =>
      ReturnsLines(body);
      ReturnsArms(false, rest);
      ReturnsAppend(LinesB(body), LinesA(false, rest));
      ReturnsCons(IfLn(c), LinesB(body) + LinesA(false, rest));
    case Do(c) => ReturnsCons(Plain(c), []);
    case Exit => ReturnsCons(ExitLn, []);
    case Loop => ReturnsCons(LoopLn, []);
    case Return => ReturnsCons(ReturnLn, []);
    case ReturnVal(e) => ReturnsCons(ReturnValLn(e), []);
    case Call(args, name) => ReturnsCons(CallLn(args, name), []);
  }

  lemma {:induction false} ReturnsArms(isCase: bool, arms: Arms)
    requires IfsA(arms)
    ensures Returns(LinesA(isCase, arms)) <==> ReturnsA(arms)
    decreases arms
  {
    var end := if isCase then EndCase else EndIf;
    ReturnsCons(end, []);
    match arms
    case End =>
    case Otherwise(body) =>
      ReturnsLines(body);
      ReturnsAppend(LinesB(body), [end]);
      ReturnsCons(if isCase then OtherwiseLn else ElseLn, LinesB(body) + [end]);
    case Arm(c, body, rest) =>
      ReturnsLines(body);
      ReturnsArms(isCase, rest);
      ReturnsAppend(LinesB(body), LinesA(isCase, rest));
      ReturnsCons(if isCase then CaseLn(c) else ElseIf(c), LinesB(body) + LinesA(isCase, rest));
  }

  /** Compiling a well-nested file fails exactly if it is not acceptable. */
  lemma {:induction false} CompilesIff(lib: Lib, ps: seq<Proc>, called: set<string>)
    requires AllIfs(ps) && lib.addrs == Empty && |lib.sym| > 0
    requires forall n :: Called(lib.sym, n) <==> n in called
    ensures CompileAll(lib, ModulesOf(ps)).Done? <==> Acceptable(ps, lib.defs.Keys, called)
    decreases ps
  {
    if ps != [] {
      var p, ms := ps[0], ModulesOf(ps);
      assert ms[0] == Module(p.name, p.fcn, LinesB(p.body)) && ms[1..] == ModulesOf(ps[1..]);
      FeedBlock(p.body, lib.sym, Empty, Empty, p.fcn);
      NamesB(p.body, lib.sym, 0);
      ReturnsLines(p.body);
      assert |lib.defs.Keys| == |lib.defs|;
      var r := CompileOne(lib, ms[0], |ms| == 1);
      if r.Done? {
        var e := GenB(p.body, lib.sym, 0);
        AddNames(e.out, [Jmp(RETURN, 0)]);
        CompilesIff(r.lib, ps[1..], called + CallsB(p.body));
        assert r.lib.defs.Keys == lib.defs.Keys + {p.name};
      }
    }
  }

  lemma {:induction false} FitsProper(b: Block, n: nat, a: nat, fcn: bool, loop: bool)
    requires FitsB(b, n, a, fcn, loop) && IfsB(b)
    ensures Proper(b, loop)
    decreases b
  {
    if b.Then? {
      FitsProper(b.rest, n, a, fcn, loop);
      match b.s
      case While(_, body) => FitsProper(body, n + 1, a + 2, fcn, true);
      case Choose(_, pre, arms) =>
        FitsProper(pre, n + 1, a, fcn, loop);
        FitsProperFirst(arms, n + 1, a, fcn, loop);
      case _ =>
    }
  }

  lemma {:induction false} FitsProperFirst(arms: Arms, n: nat, a: nat, fcn: bool, loop: bool)
    requires FitsFirst(arms, n, a, fcn, loop) && IfsA(arms)
    ensures ProperA(arms, loop)
    decreases arms
  {
    match arms
    case End =>
    case Otherwise(body) => FitsProper(body, n, a, fcn, loop);
    case Arm(_, body, rest) =>
      FitsProper(body, n, a + 1, fcn, loop);
      FitsProperRest(rest, n, a, fcn, loop);
  }

  lemma {:induction false} FitsProperRest(arms: Arms, n: nat, a: nat, fcn: bool, loop: bool)
    requires FitsRest(arms, n, a, fcn, loop) && IfsA(arms)
    ensures ProperA(arms, loop)
    decreases arms
  {
    match arms
    case End =>
    case Otherwise(body) => FitsProper(body, n, a + 1, fcn, loop);
    case Arm(_, body, rest) =>
      FitsProper(body, n, a + 2, fcn, loop);
      FitsProperRest(rest, n, a, fcn, loop);
  }

  /** `g` is the finished file that starts with `sym`. */
  ghost predicate Finishes(g: seq<Instr>, sym: seq<Instr>) {
    && 0 < |sym| <= |g| && g[0] == Jmp(OBJ_LIB, |g|) && Hole(sym, 0) && sym[0].jc == OBJ_LIB
    && forall i {:trigger sym[i]} :: 0 < i < |sym| ==> g[i] == sym[i]
  }

  /** One module leaves its code in every file that starts with what has been written so far. */
  lemma OneStands(lib: Lib, p: Proc, last: bool, g: seq<Instr>)
    requires lib.addrs == Empty && Hole(lib.sym, 0) && IfsB(p.body)
    requires var r := CompileOne(lib, Module(p.name, p.fcn, LinesB(p.body)), last); r.Done? && Finishes(g, r.lib.sym)
    ensures var lib', n := CompileOne(lib, Module(p.name, p.fcn, LinesB(p.body)), last).lib, |lib.sym|;
      && |lib'.sym| == n + LenB(p.body) + 1 && lib'.sym[..n] == lib.sym && lib'.addrs == Empty
      && Proper(p.body, false) && CodeB(g, p.body, n, |g|) && HasAt(g, n + LenB(p.body), Jmp(RETURN, 0))
      && Finishes(g, lib.sym)
  {
    var lib' := CompileOne(lib, Module(p.name, p.fcn, LinesB(p.body)), last).lib;
    OneGen(lib, p, last);
    FitsProper(p.body, 0, 0, p.fcn, false);
    StandsIn(p.body, lib.sym, lib'.sym, g);
  }

  /** What compiling a module adds is the code of its body and a RETURN. */
  lemma OneGen(lib: Lib, p: Proc, last: bool)
    requires lib.addrs == Empty && IfsB(p.body) && CompileOne(lib, Module(p.name, p.fcn, LinesB(p.body)), last).Done?
    ensures var lib', e := CompileOne(lib, Module(p.name, p.fcn, LinesB(p.body)), last).lib, GenB(p.body, lib.sym, 0);
      FitsB(p.body, 0, 0, p.fcn, false) && e.w == 0 && lib'.sym == e.out + [Jmp(RETURN, 0)] && lib'.addrs == Empty
  {
    OneIs(lib, Module(p.name, p.fcn, LinesB(p.body)), last);
    FeedBlock(p.body, lib.sym, Empty, Empty, p.fcn);
  }

  /** The code of a body and a RETURN, in a file that starts with them. */
  lemma StandsIn(b: Block, sym: seq<Instr>, sym': seq<Instr>, g: seq<Instr>)
    requires Hole(sym, 0) && IfsB(b) && Proper(b, false) && GenB(b, sym, 0).w == 0
    requires sym' == GenB(b, sym, 0).out + [Jmp(RETURN, 0)] && Finishes(g, sym')
    ensures |sym'| == |sym| + LenB(b) + 1 && sym'[..|sym|] == sym
    ensures CodeB(g, b, |sym|, |g|) && HasAt(g, |sym| + LenB(b), Jmp(RETURN, 0)) && Finishes(g, sym)
  {
    var e := GenB(b, sym, 0);
    FrameB(b, sym, 0);
    assert forall i {:trigger e.out[i]} :: 0 <= i < |e.out| ==> sym'[i] == e.out[i];
    assert sym'[|e.out|] == Jmp(RETURN, 0);
    assert forall i {:trigger sym[i]} :: 0 <= i < |sym| ==> e.out[i] == sym[i];
    RightB(b, sym, 0, g, |g|);
  }

  /** What compiling `ps` after `lib` leaves in the finished file. */
  ghost predicate Placed(lib: Lib, ps: seq<Proc>, g: seq<Instr>, lib': Lib) {
    && Finishes(g, lib.sym)
    && Stands(g, lib'.defs, ps, |lib.sym|)
    && (forall n :: n in lib.defs ==> n in lib'.defs && lib'.defs[n] == lib.defs[n])
    && lib'.defs.Keys == lib.defs.Keys + ProcMap(ps).Keys
  }

  /** The first module of a file, compiled. */
  function FirstLib(lib: Lib, ps: seq<Proc>): LibRes
    requires ps != []
  {
    CompileOne(lib, Module(ps[0].name, ps[0].fcn, LinesB(ps[0].body)), |ps| == 1)
  }

  lemma AllIs(lib: Lib, ps: seq<Proc>)
    requires ps != []
    ensures CompileAll(lib, ModulesOf(ps)) ==
      match FirstLib(lib, ps) case Failed(e) => Failed(e) case Done(lib1) => CompileAll(lib1, ModulesOf(ps[1..]))
  {
    var ms := ModulesOf(ps);
    assert ms[0] == Module(ps[0].name, ps[0].fcn, LinesB(ps[0].body)) && ms[1..] == ModulesOf(ps[1..]);
  }

  lemma {:induction false} AllStand(lib: Lib, ps: seq<Proc>, g: seq<Instr>)
    requires AllIfs(ps) && lib.addrs == Empty && Hole(lib.sym, 0)
    requires var r := CompileAll(lib, ModulesOf(ps)); r.Done? && Finishes(g, r.lib.sym)
    ensures Placed(lib, ps, g, CompileAll(lib, ModulesOf(ps)).lib)
    decreases ps
  {
    if ps != [] {
      var lib1 := FirstLib(lib, ps).lib;
      AllIs(lib, ps);
      GrowsOne(lib, ps[0], |ps| == 1);
      AllStand(lib1, ps[1..], g);
      FirstSits(lib, ps, g);
      PlacedStep(lib, ps, g, lib1, CompileAll(lib1, ModulesOf(ps[1..])).lib);
    }
  }

  /** The code of one procedure as it stands in the finished file. */
  ghost predicate Sits(lib: Lib, p: Proc, g: seq<Instr>, lib1: Lib) {
    var n := |lib.sym|;
    p.name !in lib.defs && lib1.defs == lib.defs[p.name := n] && |lib1.sym| == n + LenB(p.body) + 1
    && Proper(p.body, false) && CodeB(g, p.body, n, |g|) && HasAt(g, n + LenB(p.body), Jmp(RETURN, 0))
        && Finishes(g, lib.sym)
  }

  lemma FirstSits(lib: Lib, ps: seq<Proc>, g: seq<Instr>)
    requires ps != [] && IfsB(ps[0].body) && lib.addrs == Empty && Hole(lib.sym, 0)
    requires FirstLib(lib, ps).Done? && Finishes(g, FirstLib(lib, ps).lib.sym)
    ensures Sits(lib, ps[0], g, FirstLib(lib, ps).lib)
  {
    var p := ps[0];
    OneIs(lib, Module(p.name, p.fcn, LinesB(p.body)), |ps| == 1);
    OneStands(lib, p, |ps| == 1, g);
  }

  lemma PlacedStep(lib: Lib, ps: seq<Proc>, g: seq<Instr>, lib1: Lib, lib': Lib)
    requires ps != [] && Sits(lib, ps[0], g, lib1) && Placed(lib1, ps[1..], g, lib')
    ensures Placed(lib, ps, g, lib')
  {
    KeysOne(lib, lib1, ps[0], ps, lib');
  }

  /** What a module that compiles adds. */
  lemma OneIs(lib: Lib, m: Module, last: bool)
    requires CompileOne(lib, m, last).Done?
    ensures var r := Feed(Comp(lib.sym, lib.addrs, Empty), m.lines, m.fcn);
      r.Ok? && CompileOne(lib, m, last).lib == Lib(r.c.out + [Jmp(RETURN, 0)], lib.defs[m.name := |lib.sym|], r.c.addrs)
    ensures m.name !in lib.defs
  {
  }

  lemma KeysOne(lib: Lib, lib1: Lib, p: Proc, ps: seq<Proc>, lib': Lib)
    requires ps != [] && ps[0] == p && p.name !in lib.defs && lib1.defs == lib.defs[p.name := |lib.sym|]
    requires forall n :: n in lib1.defs ==> n in lib'.defs && lib'.defs[n] == lib1.defs[n]
    requires lib'.defs.Keys == lib1.defs.Keys + ProcMap(ps[1..]).Keys
    ensures p.name in lib'.defs && lib'.defs[p.name] == |lib.sym|
    ensures forall n :: n in lib.defs ==> n in lib'.defs && lib'.defs[n] == lib.defs[n]
    ensures lib'.defs.Keys == lib.defs.Keys + ProcMap(ps).Keys
  {
    assert lib1.defs.Keys == lib.defs.Keys + {p.name};
    assert ProcMap(ps).Keys == ProcMap(ps[1..]).Keys + {p.name};
    forall n | n in lib.defs ensures n in lib'.defs
        && lib'.defs[n] == lib.defs[n] { assert lib1.defs[n] == lib.defs[n]; }
  }

  lemma GrowsOne(lib: Lib, p: Proc, last: bool)
    requires lib.addrs == Empty && Hole(lib.sym, 0) && IfsB(p.body)
    requires CompileOne(lib, Module(p.name, p.fcn, LinesB(p.body)), last).Done?
    ensures var lib' := CompileOne(lib, Module(p.name, p.fcn, LinesB(p.body)), last).lib;
      lib'.addrs == Empty && Hole(lib'.sym, 0) && lib'.sym[0].jc == lib.sym[0].jc
  {
    FeedBlock(p.body, lib.sym, Empty, Empty, p.fcn);
    FrameB(p.body, lib.sym, 0);
  }

  function ProcMap(ps: seq<Proc>): map<string, Block>
    decreases ps
  {
    if ps == [] then map[] else ProcMap(ps[1..])[ps[0].name := ps[0].body]
  }

  /** No two procedures stand at the same name. */
  lemma {:induction false} StandsLoaded(f: seq<Instr>, defs: map<string, int>, ps: seq<Proc>, lo: nat, n: string)
    requires Stands(f, defs, ps, lo) && n in ProcMap(ps)
    ensures n in defs && lo <= defs[n]
    ensures Proper(ProcMap(ps)[n], false) && CodeB(f, ProcMap(ps)[n], defs[n], |f|)
      && HasAt(f, defs[n] + LenB(ProcMap(ps)[n]), Jmp(RETURN, 0))
    decreases ps
  {
    if n != ps[0].name { StandsLoaded(f, defs, ps[1..], lo + LenB(ps[0].body) + 1, n); }
  }

  /** The compiled file is fit to run. */
  lemma CompiledIsLoaded(ps: seq<Proc>, lib: Lib, w: World)
    requires AllIfs(ps) && CompileAll(START, ModulesOf(ps)) == Done(lib) && w.procs == ProcMap(ps)
    ensures |lib.sym| > 0 && Loaded(Sealed(lib.sym), lib.defs, w)
  {
    HeadStays(START, ps);
    var g := Sealed(lib.sym);
    assert Finishes(g, lib.sym);
    AllStand(START, ps, g);
    PlacedLoaded(ps, g, lib, w);
  }

  lemma PlacedLoaded(ps: seq<Proc>, g: seq<Instr>, lib: Lib, w: World)
    requires |g| > 0 && Placed(START, ps, g, lib) && w.procs == ProcMap(ps) && g[0].Jmp?
    ensures Loaded(g, lib.defs, w)
  {
    forall n | n in lib.defs
      ensures n in w.procs && lib.defs[n] >= 0 && Proper(w.procs[n], false) && CodeB(g, w.procs[n], lib.defs[n], |g|)
        && HasAt(g, lib.defs[n] + LenB(w.procs[n]), Jmp(RETURN, 0))
    {
      StandsLoaded(g, lib.defs, ps, 1, n);
    }
  }

  lemma {:induction false} HeadStays(lib: Lib, ps: seq<Proc>)
    requires AllIfs(ps) && lib.addrs == Empty && Hole(lib.sym, 0) && lib.sym[0].jc == OBJ_LIB
      && CompileAll(lib, ModulesOf(ps)).Done?
    ensures var sym := CompileAll(lib, ModulesOf(ps)).lib.sym; Hole(sym, 0) && sym[0].jc == OBJ_LIB
    decreases ps
  {
    if ps != [] {
      var p, ms := ps[0], ModulesOf(ps);
      assert ms[0] == Module(p.name, p.fcn, LinesB(p.body)) && ms[1..] == ModulesOf(ps[1..]);
      GrowsOne(lib, p, |ms| == 1);
      HeadStays(CompileOne(lib, ms[0], |ms| == 1).lib, ps[1..]);
    }
  }

  /** The whole way: a file of well-nested procedures that compiles, with every called name
      defined, is run by the jump machine exactly as it is written. */
  lemma {:induction false} RunsAsCompiled(ps: seq<Proc>, lib: Lib, w: World, name: string) returns (k: nat)
    requires AllIfs(ps) && CompileAll(START, ModulesOf(ps)) == Done(lib)
    requires w.procs == ProcMap(ps) && w.loop == AS_EXIT && name in ProcMap(ps) && forall n :: Called(lib.sym, n) ==>
      n in ProcMap(ps)
    ensures |lib.sym| > 0
    ensures name in lib.defs
    ensures var r, m := Left(RunBlock(w, ProcMap(ps)[name], 0, [])),
        Steps(Resolve(Sealed(lib.sym), lib.defs), w.truth, w.room, At(lib.defs[name], [-1], []), k);
      && m.h == r.h
      && (r.o == Cut || (r.o == Normal && m == Halt(r.h)) || (r.o == Fault && m == Overflow(r.h)))
  {
    CompiledIsLoaded(ps, lib, w);
    var f := Sealed(lib.sym);
    forall i {:trigger f[i]} | 0 <= i < |f| && f[i].Ask? ensures f[i].name in w.procs {
      assert lib.sym[i] == Ask(f[i].name);
      assert Called(lib.sym, f[i].name);
    }
    k := RunsAsWritten(f, lib.defs, w, name);
  }
}
