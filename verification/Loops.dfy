/** The LOOP command (server/hb/proc.c:497-537), which is compiled as EXIT is. */
module Loops {
  import opened Control
  import opened CodeGen
  import opened Lines
  import opened Library

  /** The lines with EXIT in place of every LOOP. */
  function AsExit(ls: seq<Line>): (r: seq<Line>)
    ensures |r| == |ls|
    decreases ls
  {
    if ls == [] then [] else [if ls[0].LoopLn? then ExitLn else ls[0]] + AsExit(ls[1..])
  }

  function ExitsFor(ms: seq<Module>): (r: seq<Module>)
    ensures |r| == |ms|
    decreases ms
  {
    if ms == [] then [] else [ms[0].(lines := AsExit(ms[0].lines))] + ExitsFor(ms[1..])
  }

  lemma {:induction false} FeedsAlike(c: Comp, ls: seq<Line>, fcn: bool)
    ensures Feed(c, ls, fcn) == Feed(c, AsExit(ls), fcn) && Returns(ls) == Returns(AsExit(ls))
    decreases ls
  {
    if ls != [] {
      var l := if ls[0].LoopLn? then ExitLn else ls[0];
      var es := AsExit(ls);
      assert es[0] == l && es[1..] == AsExit(ls[1..]);
      var r := Step(c, l, fcn);
      assert r == Step(c, ls[0], fcn);
      FeedsAlike(if r.Ok? then r.c else c, ls[1..], fcn);
    }
  }

  /** A file with LOOP lines compiles exactly as it does with EXIT in their place. */
  lemma {:induction false} LoopIsExit(lib: Lib, ms: seq<Module>)
    ensures CompileAll(lib, ms) == CompileAll(lib, ExitsFor(ms))
    decreases ms
  {
    if ms != [] {
      var m, es := ms[0], ExitsFor(ms);
      assert es[0] == m.(lines := AsExit(m.lines)) && es[1..] == ExitsFor(ms[1..]);
      FeedsAlike(Comp(lib.sym, lib.addrs, Empty), m.lines, m.fcn);
      var r := CompileOne(lib, m, |ms| == 1);
      assert r == CompileOne(lib, es[0], |es| == 1);
      if r.Done? { LoopIsExit(r.lib, ms[1..]); }
    }
  }

  // ---- how far a run is as it was meant ----

  function Meant(w: World): World { w.(loop := AGAIN) }
  function Compiled(w: World): World { w.(loop := AS_EXIT) }
  function Watched(w: World): World { w.(loop := STOP) }

  /** What a run that stops at the first LOOP says of the run as it was meant and as it is compiled:
      without a LOOP all three are the same, and otherwise the first is how both of them begin. */
  predicate Alike(s: Run, m: Run, c: Run) {
    match s.o
    case Looped => m == s && c == Run(s.h, Exited)
    case Stopped => s.h <= m.h && s.h <= c.h
    case _ => m == s && c == s
  }

  lemma {:induction false} AgreeB(w: World, b: Block, d: nat, h: seq<Blk>)
    ensures Alike(RunBlock(Watched(w), b, d, h), RunBlock(Meant(w), b, d, h), RunBlock(Compiled(w), b, d, h))
    decreases if |h| <= w.limit then w.limit - |h| else 0, b
  {
    if b.Then? {
      AgreeS(w, b.s, d, h);
      AgreeB(w, b.rest, d, RunStmt(Watched(w), b.s, d, h).h);
    }
  }

  lemma {:induction false} AgreeS(w: World, s: Stmt, d: nat, h: seq<Blk>)
    ensures Alike(RunStmt(Watched(w), s, d, h), RunStmt(Meant(w), s, d, h), RunStmt(Compiled(w), s, d, h))
    decreases if |h| <= w.limit then w.limit - |h| else 0, s
  {
    match s
    case While(c, body) => AgreeWhile(w, c, body, d, h);
    case Choose(_, pre, arms) =>
      AgreeB(w, pre, d, h);
      AgreeA(w, arms, d, RunBlock(Watched(w), pre, d, h).h);
    case Call(args, name) =>
      var r1 := Exec(w, args, h);
      if r1.o == Normal && name in w.procs { AgreeB(w, w.procs[name], d + 1, r1.h); }
    case _ =>
  }

  lemma {:induction false} AgreeWhile(w: World, c: Blk, body: Block, d: nat, h: seq<Blk>)
    ensures var s := While(c, body);
      Alike(RunStmt(Watched(w), s, d, h), RunStmt(Meant(w), s, d, h), RunStmt(Compiled(w), s, d, h))
    decreases if |h| <= w.limit then w.limit - |h| else 0, body, 1
  {
    var r1 := Exec(w, c, h);
    if r1.o == Normal && w.truth(r1.h) {
      AgreeB(w, body, d, r1.h);
      var r2 := RunBlock(Watched(w), body, d, r1.h);
      if r2.o == Normal { AgreeWhile(w, c, body, d, r2.h); }
    }
  }

  lemma {:induction false} AgreeA(w: World, arms: Arms, d: nat, h: seq<Blk>)
    ensures Alike(RunArms(Watched(w), arms, d, h), RunArms(Meant(w), arms, d, h), RunArms(Compiled(w), arms, d, h))
    decreases if |h| <= w.limit then w.limit - |h| else 0, arms
  {
    match arms
    case End =>
    case Otherwise(body) => AgreeB(w, body, d, h);
    case Arm(c, body, rest) =>
      var r1 := Exec(w, c, h);
      if r1.o == Normal {
        AgreeB(w, body, d, r1.h);
        AgreeA(w, rest, d, r1.h);
      }
  }

  /** And where they part: the run as it was meant tests the condition of the loop again, the
      compiled one goes on behind its ENDDO. */
  lemma PartAtLoop(w: World, c: Blk, body: Block, d: nat, h: seq<Blk>)
    requires var r1 := Exec(w, c, h); r1.o == Normal && w.truth(r1.h) && RunBlock(Watched(w), body, d, r1.h).o == Looped
    ensures var s := While(c, body); var r2 := RunBlock(Watched(w), body, d, Exec(w, c, h).h);
      && RunStmt(Watched(w), s, d, h) == Run(r2.h, Stopped)
      && RunStmt(Meant(w), s, d, h) == RunStmt(Meant(w), s, d, r2.h)
      && RunStmt(Compiled(w), s, d, h) == Run(r2.h, Normal)
  {
    AgreeB(w, body, d, Exec(w, c, h).h);
  }

  /**
   * A procedure of a compiled file, on the machine: as long as no LOOP is executed it runs as it was
   * meant to, and up to the first one it does in any case.
   */
  lemma RunsAsMeant(ps: seq<Proc>, lib: Lib, w: World, name: string) returns (k: nat)
    requires AllIfs(ps) && CompileAll(START, ModulesOf(ps)) == Done(lib) && w.procs == ProcMap(ps)
      && name in ProcMap(ps)
    requires forall n :: Called(lib.sym, n) ==> n in ProcMap(ps)
    ensures |lib.sym| > 0
    ensures name in lib.defs
    ensures var s, m := Left(RunBlock(Watched(w), ProcMap(ps)[name], 0, [])),
      Left(RunBlock(Meant(w), ProcMap(ps)[name], 0, []));
      var e := Steps(Resolve(Sealed(lib.sym), lib.defs), w.truth, w.room, At(lib.defs[name], [-1], []), k);
      if s.o == Stopped then s.h <= e.h && s.h <= m.h
      else e.h == m.h && (m.o == Cut || (m.o == Normal && e == Halt(m.h)) || (m.o == Fault && e == Overflow(m.h)))
  {
    var body := ProcMap(ps)[name];
    k := RunsAsCompiled(ps, lib, Compiled(w), name);
    CompiledIsLoaded(ps, lib, Watched(w));
    NeverExits(Watched(w), body, 0, []);
    AgreeB(w, body, 0, []);
  }

  // ---- a LOOP at the end of its loop, where it should make no difference ----

  /** DO WHILE c, a, LOOP, ENDDO. */
  function WithLoop(c: Blk, a: Blk): Block { Then(While(c, Then(Do(a), Then(Loop, Nil))), Nil) }

  /** As long as c holds, the loop is meant to go on. */
  lemma {:induction false} GoesOn(w: World, c: Blk, a: Blk, h: seq<Blk>)
    requires |h| <= w.limit && (forall g :: w.truth(g)) && w.loop == AGAIN
    ensures RunStmt(w, WithLoop(c, a).s, 0, h).o == Cut
    decreases w.limit - |h|
  {
    var s := WithLoop(c, a).s;
    var r1 := Exec(w, c, h);
    if r1.o == Normal {
      var r2 := RunBlock(w, s.body, 0, r1.h);
      var r := Exec(w, a, r1.h);
      assert RunStmt(w, Do(a), 0, r1.h) == r && RunStmt(w, Loop, 0, r.h) == Run(r.h, Looped);
      assert RunBlock(w, Then(Loop, Nil), 0, r.h) == Run(r.h, Looped);
      assert r2 == if r.o == Normal then Run(r.h, Looped) else r;
      if r2.o == Looped {
        GoesOn(w, c, a, r2.h);
        assert RunStmt(w, s, 0, h) == RunStmt(w, s, 0, r2.h);
      }
    }
  }

  /** Compiled, it is left after one round. */
  lemma RunsOnce(w: World, c: Blk, a: Blk)
    requires w.limit >= 2 && (forall g :: w.truth(g)) && w.loop == AS_EXIT
    ensures RunBlock(w, WithLoop(c, a), 0, []) == Run([c, a], Normal)
  {
    var s := WithLoop(c, a).s;
    assert RunStmt(w, Do(a), 0, [c]) == Run([c, a], Normal);
    assert RunStmt(w, Loop, 0, [c, a]) == Run([c, a], Exited);
    assert RunBlock(w, Then(Loop, Nil), 0, [c, a]) == Run([c, a], Exited);
    assert RunBlock(w, s.body, 0, [c]) == Run([c, a], Exited);
    assert Exec(w, c, []) == Run([c], Normal);
    assert RunStmt(w, s, 0, []) == Run([c, a], Normal);
    assert RunBlock(w, Nil, 0, [c, a]) == Run([c, a], Normal);
  }

  /** The file compiles. */
  lemma Accepted(c: Blk, a: Blk)
    ensures CompileAll(START, ModulesOf([Proc("p", false, WithLoop(c, a))])).Done?
  {
    var ps, s := [Proc("p", false, WithLoop(c, a))], WithLoop(c, a).s;
    assert IfsB(Then(Loop, Nil)) && IfsB(s.body);
    assert IfsS(s);
    assert FitsB(Then(Loop, Nil), 1, 2, false, true) && FitsB(s.body, 1, 2, false, true);
    assert FitsS(s, 0, 0, false, false) && FitsB(Nil, 0, 0, false, false);
    assert Acceptable(ps, {}, {});
    CompilesIff(START, ps, {});
  }

  /**
   * A loop over a condition that always holds, whose last line is LOOP: it is meant to go on as long
   * as it is watched, and compiled it runs its body once.
   */
  lemma LoopEnds(w: World, c: Blk, a: Blk)
    requires w.limit >= 2 && forall g :: w.truth(g)
    ensures CompileAll(START, ModulesOf([Proc("p", false, WithLoop(c, a))])).Done?
    ensures RunBlock(Compiled(w), WithLoop(c, a), 0, []) == Run([c, a], Normal)
    ensures var r := RunBlock(Meant(w), WithLoop(c, a), 0, []); r.o == Cut && |r.h| == w.limit
  {
    Accepted(c, a);
    RunsOnce(Compiled(w), c, a);
    GoesOn(Meant(w), c, a, []);
  }
}
