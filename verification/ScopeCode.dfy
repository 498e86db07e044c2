/**
 * The loop of a command with scope clauses as it stands in the code (server/hb/proc2.c:44-56
 * after patching), and that it leads where ScopeRun says.
 */
module ScopeCode {
  import opened Pcode
  import opened ScopeRun

  /** The bodies of the conditions and of the action. */
  datatype Bodies = Bodies(w: seq<Pcode>, f: seq<Pcode>, act: seq<Pcode>)

  ghost predicate CondAt(code: seq<Pcode>, p: int, body: seq<Pcode>) {
    0 <= p < |code| && code[p].opcode.CALL? && SubAt(code, code[p].opnd, body) && Straight(body)
  }

  /** At p stands an operation of its own or a call of the body. */
  ghost predicate ActAt(code: seq<Pcode>, p: int, body: seq<Pcode>) {
    0 <= p < |code| && Straight(body)
        && (if code[p].opcode.CALL? then SubAt(code, code[p].opnd, body) else body == [code[p]])
  }

  function SkipOpnd(dir: Dir): int { if dir == 1 then 1 else 0x81 }

  ghost predicate LoopAt(code: seq<Pcode>, o: int, end: int, dir: Dir, b: Bodies) {
    0 <= o && o + 10 <= |code|
    && CondAt(code, o + 2, b.w)
    && code[o + 3] == Pcode(JMP_FALSE, end)
    && code[o + 4] == Pcode(JMP_EOF_0, end)
    && CondAt(code, o + 5, b.f)
    && code[o + 6] == Pcode(JMP_FALSE, o + 8)
    && ActAt(code, o + 7, b.act)
    && code[o + 8] == Pcode(SKIP_, SkipOpnd(dir))
    && code[o + 9] == Pcode(JUMP, o + 2)
  }

  /** A condition leaves its value on the stack and changes nothing else. */
  ghost predicate CondIs<D(!new)>(env: Env<D>, body: seq<Pcode>, value: (int, D) -> int)
    requires Straight(body)
  {
    forall c: Ctx<D> :: Asks(env, body, value, c)
  }

  predicate Asks<D(==)>(env: Env<D>, body: seq<Pcode>, value: (int, D) -> int, c: Ctx<D>)
    requires Straight(body)
  {
    var r := DoAll(env, c, body);
    r == c.(d := r.d) && env.pop(r.d) == (value(c.pos, c.d), c.d)
  }

  ghost predicate ActIs<D(!new)>(j: Job<D>, body: seq<Pcode>)
    requires Straight(body)
  {
    forall c: Ctx<D> :: Acts(j, body, c)
  }

  ghost predicate Acts<D>(j: Job<D>, body: seq<Pcode>, c: Ctx<D>)
    requires Straight(body)
  {
    DoAll(j.env, c, body) == Acted(j, c)
  }

  lemma CondRuns<D>(env: Env<D>, code: seq<Pcode>, p: int, body: seq<Pcode>, value: (int, D) -> int, calls: Calls,
                    c: Ctx<D>)
    requires CondAt(code, p, body) && Asks(env, body, value, c) && p + 1 < |code| && code[p + 1].opcode.JMP_FALSE?
    ensures Reaches(env, code, Run(p, calls, c),
      Run(if value(c.pos, c.d) != 0 then p + 2 else code[p + 1].opnd, calls, c))
  {
    var r := DoAll(env, c, body);
    CallRuns(env, code, p, body, calls, c);
    JmpFalse(env, code, p + 1, calls, r, c.d, value(c.pos, c.d));
    Last(env, code, Run(p, calls, c), Run(p + 1, calls, r),
         Run(if value(c.pos, c.d) != 0 then p + 2 else code[p + 1].opnd, calls, c));
  }

  lemma ActRuns<D>(j: Job<D>, code: seq<Pcode>, p: int, body: seq<Pcode>, calls: Calls, c: Ctx<D>)
    requires ActAt(code, p, body) && Acts(j, body, c)
    ensures Reaches(j.env, code, Run(p, calls, c), Run(p + 1, calls, Acted(j, c)))
  {
    if code[p].opcode.CALL? {
      CallRuns(j.env, code, p, body, calls, c);
    } else {
      assert code[p..p + |body|] == body;
      StraightRuns(j.env, code, p, body, calls, c);
    }
  }

  lemma EofRuns<D>(env: Env<D>, code: seq<Pcode>, p: int, end: int, calls: Calls, c: Ctx<D>)
    requires 0 <= p < |code| && code[p] == Pcode(JMP_EOF_0, end)
    ensures Reaches(env, code, Run(p, calls, c),
                    if Off(env, c.pos)
                        || c.count >= c.total then Run(end, calls, c.(total := 0)) else Run(p + 1, calls, c))
  {
    Once(env, code, Run(p, calls, c));
  }

  lemma SkipStep<D>(env: Env<D>, code: seq<Pcode>, p: int, dir: Dir, calls: Calls, c: Ctx<D>)
    requires 0 <= p < |code| && code[p] == Pcode(SKIP_, SkipOpnd(dir))
    ensures Reaches(env, code, Run(p, calls, c), Skip(env, p, calls, c, dir))
  {
    Once(env, code, Run(p, calls, c));
  }

  lemma JumpRuns<D>(env: Env<D>, code: seq<Pcode>, p: int, a: int, calls: Calls, c: Ctx<D>)
    requires 0 <= p < |code| && code[p] == Pcode(JUMP, a)
    ensures Reaches(env, code, Run(p, calls, c), Run(a, calls, c))
  {
    Once(env, code, Run(p, calls, c));
  }

  /** The run of this code, as a relation between states. */
  ghost function Runs<D(!new)>(env: Env<D>, code: seq<Pcode>): Goes<D> {
    (a, b) => Reaches(env, code, a, b)
  }

  ghost predicate Fits<D(!new)>(j: Job<D>, code: seq<Pcode>, b: Bodies) {
    LoopAt(code, j.o, j.end, j.dir, b) && CondIs(j.env, b.w, j.While) && CondIs(j.env, b.f, j.For) && ActIs(j, b.act)
  }

  lemma RunsTransitive<D(!new)>(env: Env<D>, code: seq<Pcode>)
    ensures Transitive(Runs(env, code))
  {
    forall a, b, c | Runs(env, code)(a, b) && Runs(env, code)(b, c) ensures Runs(env, code)(a, c) {
      Then(env, code, a, b, c);
    }
  }

  /** The code leads where the loop of ScopeRun does. */
  lemma EdgesHold<D(!new)>(j: Job<D>, code: seq<Pcode>, b: Bodies)
    requires Fits(j, code, b)
    ensures Edges(j, Runs(j.env, code))
  {
    var env, goes, o := j.env, Runs(j.env, code), j.o;
    forall calls, c: Ctx<D> ensures goes(Run(o + 2, calls, c), AfterWhile(j, calls, c)) {
      assert Asks(env, b.w, j.While, c);
      CondRuns(env, code, o + 2, b.w, j.While, calls, c);
    }
    forall calls,
        c: Ctx<D> ensures goes(Run(o + 4, calls, c),
        AfterEof(j, calls, c)) { EofRuns(env, code, o + 4, j.end, calls, c); }
    forall calls, c: Ctx<D> ensures goes(Run(o + 5, calls, c), AfterFor(j, calls, c)) {
      assert Asks(env, b.f, j.For, c);
      CondRuns(env, code, o + 5, b.f, j.For, calls, c);
    }
    forall calls, c: Ctx<D> ensures goes(Run(o + 7, calls, c), AfterAct(j, calls, c)) {
      assert Acts(j, b.act, c);
      ActRuns(j, code, o + 7, b.act, calls, c);
    }
    forall calls,
        c: Ctx<D> ensures goes(Run(o + 8, calls, c),
        AfterSkip(j, calls, c)) { SkipStep(env, code, o + 8, j.dir, calls, c); }
    forall calls,
        c: Ctx<D> ensures goes(Run(o + 9, calls, c),
        AfterJump(j, calls, c)) { JumpRuns(env, code, o + 9, o + 2, calls, c); }
  }
}
