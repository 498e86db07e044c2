/**
 * The code of one command: an array of (opcode, operand) pairs, and the machine of _execute
 * (server/hb/code.c) that runs it over the current table.
 *
 * The table is seen in the order in which it is walked, by record number or by the active
 * index: positions 0 .. size - 1 are the records of that order, -1 is beyond its top and size
 * beyond its end. Everything else an operation can see or change, the stack included, is a
 * value of type D.
 */
module Pcode {
  datatype Opcode =
    | NOP | PUSH | UOP | BOP | NRETRV | DRETRV | FCN | USRFCN | PUSH_N | PUSH_TF | ARRAYCHK
    | GO_ | SKIP_ | SCOPE_F | SCOPE_B
    | CALL | RETURN | JUMP | JMP_FALSE | JMP_EOF_0 | FCNRTN
    | OTHER(id: nat)

  datatype Pcode = Pcode(opcode: Opcode, opnd: int)

  const CODE_LIMIT: nat := 128

  /** An order walked forward has dir 1, backward -1. */
  type Dir = d: int | d == 1 || d == -1 witness 1

  const NOREC: int := -1

  /** total, count, dir and next are the scope of the table; next is the position fetched ahead, or NOREC. */
  datatype Ctx<D> = Ctx(pos: int, total: nat, count: nat, dir: Dir, next: int, d: D)

  /**
   * What the machine runs on. A record is hidden when it is deleted and SET DELETED is on, or
   * the filter excludes it. constant(i) is the count held by constant i, negative when that is
   * not a whole number.
   */
  datatype Env<!D> = Env(
    size: nat,
    hidden: (int, D) -> bool,
    indexed: bool,
    maxrecs: nat,
    constant: int -> int,
    plain: (Pcode, int, D) -> D,
    pop: D -> (int, D),
    push: (bool, D) -> D)

  /** No record is current: the walk has left the table at either end. */
  predicate Off<D>(env: Env<D>, p: int) { p < 0 || env.size <= p }

  /** The place next to p, which stays off the table once it is off. */
  function Beside<D>(env: Env<D>, p: int, dir: Dir): int {
    if dir == 1 then (if p < env.size then p + 1 else p) else if p >= 0 then p - 1 else p
  }

  function Left<D>(env: Env<D>, p: int, dir: Dir): nat {
    if Off(env, p) then 0 else if dir == 1 then env.size - p else p + 1
  }

  /** The first place from p on that is not hidden. */
  function Settle<D>(env: Env<D>, d: D, p: int, dir: Dir): int
    decreases Left(env, p, dir)
  {
    if Off(env, p) || !env.hidden(p, d) then p else Settle(env, d, Beside(env, p, dir), dir)
  }

  /** Operations that neither jump, skip nor set the scope. */
  predicate Inline(i: Pcode) {
    !i.opcode.CALL? && !i.opcode.RETURN? && !i.opcode.JUMP? && !i.opcode.JMP_FALSE? && !i.opcode.JMP_EOF_0?
    && !i.opcode.FCNRTN? && !i.opcode.SKIP_? && !i.opcode.SCOPE_F? && !i.opcode.SCOPE_B?
  }

  /** GO_ 1 is gotop; GO_ 3 fetches the next index entry ahead of an update when a scope is set. */
  function Do<D>(env: Env<D>, c: Ctx<D>, i: Pcode): Ctx<D>
    requires Inline(i)
  {
    match i.opcode
    case GO_ =>
      if i.opnd == 1 then c.(pos := Settle(env, c.d, 0, 1))
      else if i.opnd == 3 && env.indexed && c.total > 0 then
        var q := Beside(env, c.pos, c.dir);
        c.(next := if Off(env, q) then NOREC else q)
      else c
    case PUSH_TF => c.(d := env.push(i.opnd != 0, c.d))
    case _ => c.(d := env.plain(i, c.pos, c.d))
  }

  datatype Calls = Top | Caller(ret: int, below: Calls)

  datatype Mach<D> = Run(pc: int, calls: Calls, c: Ctx<D>) | Done(c: Ctx<D>) | Error

  function Return<D>(calls: Calls, c: Ctx<D>): Mach<D> {
    match calls
    case Top => Done(c)
    case Caller(r, below) => Run(r, below, c)
  }

  /** SCOPE_F and SCOPE_B. */
  function Scoped<D>(env: Env<D>, c: Ctx<D>, n: int, dir: Dir): Ctx<D>
    requires n == 0xff || env.constant(n) >= 0
  {
    c.(total := if n == 0xff then env.maxrecs else env.constant(n), count := 0, dir := dir, next := NOREC)
  }

  /**
   * SKIP_ by one record. next() goes to the record fetched ahead if there is one; skip() calls
   * it again as long as it lands on a hidden record, which here is one more step at the same place.
   */
  function Skip<D>(env: Env<D>, pc: int, calls: Calls, c: Ctx<D>, dir: Dir): Mach<D> {
    var p := if env.indexed && c.total > 0 && c.next != NOREC then c.next else Beside(env, c.pos, dir);
    if !Off(env, p) && env.hidden(p, c.d) then Run(pc, calls, c.(pos := p))
    else Run(pc + 1, calls, c.(pos := p, count := if c.total > 0 then c.count + 1 else c.count))
  }

  /** One step. Code that runs off its end returns, as a recursive _execute does at its limit. */
  function Tick<D>(env: Env<D>, code: seq<Pcode>, m: Mach<D>): Mach<D> {
    if !m.Run? then m
    else if !(0 <= m.pc < |code|) then Return(m.calls, m.c)
    else
      var i := code[m.pc];
      var c := m.c;
      match i.opcode
      case CALL => Run(i.opnd, Caller(m.pc + 1, m.calls), c)
      case RETURN => Return(m.calls, c)
      case JUMP => Run(i.opnd, m.calls, c)
      case JMP_FALSE =>
        var (tf, d) := env.pop(c.d);
        Run(if tf != 0 then m.pc + 1 else i.opnd, m.calls, c.(d := d))
      case JMP_EOF_0 =>
        if Off(env, c.pos) || c.count >= c.total then Run(i.opnd, m.calls, c.(total := 0))
        else Run(m.pc + 1, m.calls, c)
      case FCNRTN => Error
      case SKIP_ =>
        if i.opnd == 1 then Skip(env, m.pc, m.calls, c, 1)
        else if i.opnd == 0x81 then Skip(env, m.pc, m.calls, c, -1)
        else Error
      case SCOPE_F =>
        if i.opnd != 0xff && env.constant(i.opnd) < 0 then Error
        else Run(m.pc + 1, m.calls, Scoped(env, c, i.opnd, 1))
      case SCOPE_B =>
        if i.opnd != 0xff && env.constant(i.opnd) < 0 then Error
        else Run(m.pc + 1, m.calls, Scoped(env, c, i.opnd, -1))
      case _ => Run(m.pc + 1, m.calls, Do(env, c, i))
  }

  function Steps<D>(env: Env<D>, code: seq<Pcode>, m: Mach<D>, n: nat): Mach<D>
    decreases n
  {
    if n == 0 then m else Steps(env, code, Tick(env, code, m), n - 1)
  }

  ghost predicate Reaches<D>(env: Env<D>, code: seq<Pcode>, m: Mach<D>, m': Mach<D>) {
    exists n: nat :: Steps(env, code, m, n) == m'
  }

  lemma {:induction false} StepsAdd<D>(env: Env<D>, code: seq<Pcode>, m: Mach<D>, a: nat, b: nat)
    ensures Steps(env, code, m, a + b) == Steps(env, code, Steps(env, code, m, a), b)
    decreases a
  {
    if a > 0 { StepsAdd(env, code, Tick(env, code, m), a - 1, b); }
  }

  lemma Then<D>(env: Env<D>, code: seq<Pcode>, m0: Mach<D>, m1: Mach<D>, m2: Mach<D>)
    requires Reaches(env, code, m0, m1) && Reaches(env, code, m1, m2)
    ensures Reaches(env, code, m0, m2)
  {
    var a: nat :| Steps(env, code, m0, a) == m1;
    var b: nat :| Steps(env, code, m1, b) == m2;
    StepsAdd(env, code, m0, a, b);
  }

  lemma Still<D>(env: Env<D>, code: seq<Pcode>, m: Mach<D>)
    ensures Reaches(env, code, m, m)
  {
    assert Steps(env, code, m, 0) == m;
  }

  lemma Once<D>(env: Env<D>, code: seq<Pcode>, m: Mach<D>)
    ensures Reaches(env, code, m, Tick(env, code, m))
  {
    assert Steps(env, code, m, 1) == Steps(env, code, Tick(env, code, m), 0);
  }

  /** One step, and then the rest. */
  lemma First<D>(env: Env<D>, code: seq<Pcode>, m: Mach<D>, m': Mach<D>)
    requires Reaches(env, code, Tick(env, code, m), m')
    ensures Reaches(env, code, m, m')
  {
    Once(env, code, m);
    Then(env, code, m, Tick(env, code, m), m');
  }

  // ---- stretches of code without jumps ----

  ghost predicate Straight(body: seq<Pcode>) { forall i :: 0 <= i < |body| ==> Inline(body[i]) }

  function DoAll<D>(env: Env<D>, c: Ctx<D>, body: seq<Pcode>): Ctx<D>
    requires Straight(body)
    decreases |body|
  {
    if body == [] then c else DoAll(env, Do(env, c, body[0]), body[1..])
  }

  /** The subroutine at a is this body. */
  ghost predicate SubAt(code: seq<Pcode>, a: int, body: seq<Pcode>) {
    0 <= a && a + |body| < |code| && code[a..a + |body|] == body && code[a + |body|].opcode.RETURN?
  }

  lemma {:induction false} StraightRuns<D>(env: Env<D>, code: seq<Pcode>, a: int, body: seq<Pcode>, calls: Calls,
                                           c: Ctx<D>)
    requires 0 <= a && a + |body| <= |code| && code[a..a + |body|] == body && Straight(body)
    ensures Reaches(env, code, Run(a, calls, c), Run(a + |body|, calls, DoAll(env, c, body)))
    decreases |body|
  {
    if body == [] {
      Still(env, code, Run(a, calls, c));
    } else {
      assert code[a] == body[0];
      assert code[a + 1..a + 1 + |body[1..]|] == body[1..];
      StraightRuns(env, code, a + 1, body[1..], calls, Do(env, c, body[0]));
      First(env, code, Run(a, calls, c), Run(a + |body|, calls, DoAll(env, c, body)));
    }
  }

  /** A call of a straight subroutine does what its body does, and comes back. */
  lemma CallRuns<D>(env: Env<D>, code: seq<Pcode>, p: int, body: seq<Pcode>, calls: Calls, c: Ctx<D>)
    requires 0 <= p < |code| && code[p].opcode.CALL? && SubAt(code, code[p].opnd, body) && Straight(body)
    ensures Reaches(env, code, Run(p, calls, c), Run(p + 1, calls, DoAll(env, c, body)))
  {
    var a := code[p].opnd;
    var inner := Caller(p + 1, calls);
    var end := Run(a + |body|, inner, DoAll(env, c, body));
    StraightRuns(env, code, a, body, inner, c);
    Once(env, code, end);
    Then(env, code, Run(a, inner, c), end, Tick(env, code, end));
    First(env, code, Run(p, calls, c), Run(p + 1, calls, DoAll(env, c, body)));
  }

  /** A run, and then one step. */
  lemma Last<D>(env: Env<D>, code: seq<Pcode>, m0: Mach<D>, m1: Mach<D>, m2: Mach<D>)
    requires Reaches(env, code, m0, m1) && Tick(env, code, m1) == m2
    ensures Reaches(env, code, m0, m2)
  {
    Once(env, code, m1);
    Then(env, code, m0, m1, m2);
  }

  /** A condition pops to its value, and the jump is taken when that is false. */
  lemma JmpFalse<D>(env: Env<D>, code: seq<Pcode>, p: int, calls: Calls, c: Ctx<D>, d: D, tf: int)
    requires 0 <= p < |code| && code[p].opcode.JMP_FALSE? && env.pop(c.d) == (tf, d)
    ensures Tick(env, code, Run(p, calls, c)) == Run(if tf != 0 then p + 1 else code[p].opnd, calls, c.(d := d))
  {
  }

  // ---- _execute ----

  lemma StepsLast<D>(env: Env<D>, code: seq<Pcode>, m: Mach<D>, n: nat)
    ensures Steps(env, code, m, n + 1) == Tick(env, code, Steps(env, code, m, n))
  {
    StepsAdd(env, code, m, n, 1);
    assert Steps(env, code, Steps(env, code, m, n), 1) == Steps(env, code, Tick(env, code, Steps(env, code, m, n)), 0);
  }

  datatype Exit = RETURNED | CUT | ILL_OPCODE

  /**
   * _execute, which calls itself for a CALL, cut off after `fuel` operations. It does what the
   * machine does, whatever calls are open below it, and returns where the machine takes up its caller.
   */
  method Execute<D>(env: Env<D>, code: seq<Pcode>, start: int, c: Ctx<D>, fuel: nat, ghost calls: Calls)
    returns (how: Exit, e: Ctx<D>, left: nat)
    ensures left <= fuel
    ensures how.RETURNED? ==> Steps(env, code, Run(start, calls, c), fuel - left) == Return(calls, e)
    ensures how.ILL_OPCODE? ==> Steps(env, code, Run(start, calls, c), fuel - left) == Error
    ensures how.CUT? ==> left == 0
    decreases fuel
  {
    var pc := start;
    e, left := c, fuel;
    while left > 0
      invariant left <= fuel && Steps(env, code, Run(start, calls, c), fuel - left) == Run(pc, calls, e)
    {
      ghost var first, now, n := Run(start, calls, c), Run(pc, calls, e), fuel - left;
      StepsLast(env, code, first, n);
      left := left - 1;
      assert Steps(env, code, first, fuel - left) == Tick(env, code, now);
      if !(0 <= pc < |code|) || code[pc].opcode.RETURN? { return RETURNED, e, left; }
      if code[pc].opcode.CALL? {
        ghost var into := left;
        how, e, left := Execute(env, code, code[pc].opnd, e, left, Caller(pc + 1, calls));
        StepsAdd(env, code, first, n + 1, into - left);
        assert n + 1 + (into - left) == fuel - left;
        if !how.RETURNED? { return; }
        pc := pc + 1;
      } else {
        var next := Step(env, code, pc, e);
        if next.Fault? { return ILL_OPCODE, e, left; }
        assert Tick(env, code, now) == Run(next.pc, calls, next.c);
        pc, e := next.pc, next.c;
      }
    }
    how := CUT;
  }

  datatype Next<D> = Fault | At(pc: int, c: Ctx<D>)

  /** An operation that neither calls nor returns. */
  method Step<D>(env: Env<D>, code: seq<Pcode>, pc: int, c: Ctx<D>) returns (r: Next<D>)
    requires 0 <= pc < |code| && !code[pc].opcode.CALL? && !code[pc].opcode.RETURN?
    ensures forall calls {:trigger Run(pc, calls, c)} ::
      Tick(env, code, Run(pc, calls, c)) == if r.At? then Run(r.pc, calls, r.c) else Error
  {
    if Inline(code[pc]) { return At(pc + 1, Do(env, c, code[pc])); }
    var opnd := code[pc].opnd;
    match code[pc].opcode
    case JUMP => r := At(opnd, c);
    case JMP_FALSE =>
      var (tf, d) := env.pop(c.d);
      r := At(if tf != 0 then pc + 1 else opnd, c.(d := d));
    case JMP_EOF_0 =>
      if Off(env, c.pos) || c.count >= c.total { r := At(opnd, c.(total := 0)); } else { r := At(pc + 1, c); }
    case FCNRTN => r := Fault;
    case SKIP_ =>
      if opnd != 1 && opnd != 0x81 { return Fault; }
      var m := Skip(env, pc, Top, c, if opnd == 1 then 1 else -1);
      r := At(m.pc, m.c);
    case SCOPE_F =>
      if opnd != 0xff && env.constant(opnd) < 0 { return Fault; }
      r := At(pc + 1, Scoped(env, c, opnd, 1));
    case SCOPE_B =>
      if opnd != 0xff && env.constant(opnd) < 0 { return Fault; }
      r := At(pc + 1, Scoped(env, c, opnd, -1));
  }
}
