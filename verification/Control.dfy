/** Structured procedure bodies, what running them means, and the code that
    proc.c leaves in the object file for them.

    A position is the index of an object-file item, so that an item is one code
    block or one long jump; item 0 is the OBJ_LIB block that heads the file. */
module Control {
  /** A compiled code block: a simple command, a condition, or the arguments of a call. */
  type Blk = string

  datatype JmpCode = JMP_FALSE | JUMP | CALL | RETURN | FCNRTN | OBJ_LIB

  /** `Ask(name)` stands for a CALL whose address is still given by name. */
  datatype Instr = Code(b: Blk) | Jmp(jc: JmpCode, addr: int) | Ask(name: string)

  const PLACE_HOLDER: int := -1

  datatype Block = Nil | Then(s: Stmt, rest: Block)
  datatype Stmt =
    | Do(c: Blk)
    | While(c: Blk, body: Block)
    | Choose(isCase: bool, pre: Block, arms: Arms)
    | Exit
    | Loop
    | Return
    | ReturnVal(e: Blk)
    | Call(args: Blk, name: string)
  /** The arms of IF or DO CASE, then ELSE/OTHERWISE or nothing. Statements may
      stand between DO CASE and its first CASE; IF always starts with an arm. */
  datatype Arms = Arm(c: Blk, body: Block, rest: Arms) | Otherwise(body: Block) | End

  // ---------------------------------------------------------------- meaning

  /** What is fixed during a run: the procedures by name, whether the condition
      evaluated last is true (given everything executed so far), how many return
      addresses the call stack has room for, how many blocks to watch, and what LOOP does. */
  datatype World =
    World(procs: map<string, Block>, truth: seq<Blk> -> bool, room: nat, limit: nat, loop: LoopAs)

  /** LOOP means to go on with the condition of its loop. It is compiled as if it were EXIT. And a
      run can be stopped at the first LOOP, to see how far it gets without one. */
  datatype LoopAs = AGAIN | AS_EXIT | STOP

  /** Looped: a LOOP was executed, and its loop has not been left yet. Stopped: that loop has. */
  datatype Outcome = Normal | Exited | Looped | Returned | Cut | Fault | Stopped
  datatype Run = Run(h: seq<Blk>, o: Outcome)

  function Exec(w: World, c: Blk, h: seq<Blk>): (r: Run)
  {
    if |h| >= w.limit then Run(h, Cut) else Run(h + [c], Normal)
  }

  /** A procedure that has been left, by RETURN or at its end, lets its caller go on. */
  function Left(r: Run): Run {
    if r.o == Returned then r.(o := Normal) else r
  }

  function RunBlock(w: World, b: Block, d: nat, h: seq<Blk>): (r: Run)
    ensures |h| <= |r.h| && h <= r.h
    ensures r.o == Cut ==> |r.h| >= w.limit
    ensures w.loop == AS_EXIT ==> r.o != Looped && r.o != Stopped
    ensures w.loop == AGAIN ==> r.o != Stopped
    ensures |h| <= w.limit ==> |r.h| <= w.limit
    decreases if |h| <= w.limit then w.limit - |h| else 0, b
  {
    match b
    case Nil => Run(h, Normal)
    case Then(s, rest) =>
      var r1 := RunStmt(w, s, d, h);
      if r1.o == Normal then RunBlock(w, rest, d, r1.h) else r1
  }

  function RunStmt(w: World, s: Stmt, d: nat, h: seq<Blk>): (r: Run)
    ensures |h| <= |r.h| && h <= r.h
    ensures r.o == Cut ==> |r.h| >= w.limit
    ensures w.loop == AS_EXIT ==> r.o != Looped && r.o != Stopped
    ensures w.loop == AGAIN ==> r.o != Stopped
    ensures |h| <= w.limit ==> |r.h| <= w.limit
    decreases if |h| <= w.limit then w.limit - |h| else 0, s
  {
    match s
    case Do(c) => Exec(w, c, h)
    case While(c, body) =>
      var r1 := Exec(w, c, h);
      if r1.o != Normal || !w.truth(r1.h) then r1 else
      var r2 := RunBlock(w, body, d, r1.h);
      if r2.o == Normal then RunStmt(w, s, d, r2.h)
      else if r2.o == Exited then r2.(o := Normal)
      else if r2.o == Looped then (if w.loop == AGAIN then RunStmt(w, s, d, r2.h) else r2.(o := Stopped))
      else r2
    case Choose(_, pre, arms) =>
      var r1 := RunBlock(w, pre, d, h);
      if r1.o == Normal then RunArms(w, arms, d, r1.h) else r1
    case Exit => Run(h, Exited)
    case Loop => Run(h, if w.loop == AS_EXIT then Exited else Looped)
    case Return => Run(h, Returned)
    case ReturnVal(e) =>
      var r1 := Exec(w, e, h);
      if r1.o == Normal then r1.(o := Returned) else r1
    case Call(args, name) =>
      var r1 := Exec(w, args, h);
      if r1.o != Normal then r1
      else if d >= w.room || name !in w.procs then r1.(o := Fault)
      else Left(RunBlock(w, w.procs[name], d + 1, r1.h))
  }

  function RunArms(w: World, arms: Arms, d: nat, h: seq<Blk>): (r: Run)
    ensures |h| <= |r.h| && h <= r.h
    ensures r.o == Cut ==> |r.h| >= w.limit
    ensures w.loop == AS_EXIT ==> r.o != Looped && r.o != Stopped
    ensures w.loop == AGAIN ==> r.o != Stopped
    ensures |h| <= w.limit ==> |r.h| <= w.limit
    decreases if |h| <= w.limit then w.limit - |h| else 0, arms
  {
    match arms
    case End => Run(h, Normal)
    case Otherwise(body) => RunBlock(w, body, d, h)
    case Arm(c, body, rest) =>
      var r1 := Exec(w, c, h);
      if r1.o != Normal then r1
      else if w.truth(r1.h) then RunBlock(w, body, d, r1.h)
      else RunArms(w, rest, d, r1.h)
  }

  // ------------------------------------------------- what counts as its code

  /** How many items each construct takes. */
  function LenB(b: Block): nat {
    match b case Nil => 0 case Then(s, rest) => LenS(s) + LenB(rest)
  }

  function LenS(s: Stmt): nat {
    match s
    case Do(_) => 1
    case While(_, body) => 3 + LenB(body)
    case Choose(_, pre, arms) => LenB(pre) + if arms.End? then 0 else LenA(arms) - 1
    case Exit => 1
    case Loop => 1
    case Return => 1
    case ReturnVal(_) => 2
    case Call(_, _) => 2
  }

  /** Arms that follow another arm start with the jump that ends that arm. */
  function LenA(arms: Arms): nat {
    match arms
    case End => 0
    case Otherwise(body) => 1 + LenB(body)
    case Arm(_, body, rest) => 3 + LenB(body) + LenA(rest)
  }

  /** Unconditional jumps alone take `a` forward to `z`. */
  predicate Leads(f: seq<Instr>, a: int, z: int)
    decreases z - a
  {
    a == z || (0 <= a < |f| && a < z && f[a].Jmp? && f[a].jc == JUMP && a < f[a].addr <= z && Leads(f, f[a].addr, z))
  }

  predicate HasAt(f: seq<Instr>, p: int, i: Instr) {
    0 <= p < |f| && f[p] == i
  }

  /** A jump of kind `jc` at `p` that ends up, through unconditional jumps, at `z`. */
  predicate JumpsTo(f: seq<Instr>, p: int, jc: JmpCode, z: int) {
    0 <= p < |f| && f[p].Jmp? && f[p].jc == jc && Leads(f, f[p].addr, z)
  }

  /** `f` holds, from item `p` on, code for `b` whose EXITs and LOOPs end up at `x`. */
  predicate CodeB(f: seq<Instr>, b: Block, p: nat, x: int)
    decreases b
  {
    match b
    case Nil => true
    case Then(s, rest) => CodeS(f, s, p, x) && CodeB(f, rest, p + LenS(s), x)
  }

  predicate CodeS(f: seq<Instr>, s: Stmt, p: nat, x: int)
    decreases s
  {
    match s
    case Do(c) => HasAt(f, p, Code(c))
    case While(c, body) =>
      var z := p + 3 + LenB(body);
      HasAt(f, p, Code(c)) && JumpsTo(f, p + 1, JMP_FALSE, z)
      && CodeB(f, body, p + 2, z) && HasAt(f, z - 1, Jmp(JUMP, p))
    case Choose(_, pre, arms) =>
      CodeB(f, pre, p, x) && CodeFirst(f, arms, p + LenB(pre), x)
    case Exit => p < x && Leads(f, p, x)
    case Loop => p < x && Leads(f, p, x)
    case Return => HasAt(f, p, Jmp(RETURN, 0))
    case ReturnVal(e) => HasAt(f, p, Code(e)) && HasAt(f, p + 1, Jmp(FCNRTN, 0))
    case Call(args, name) => HasAt(f, p, Code(args)) && HasAt(f, p + 1, Ask(name))
  }

  /** A chain of arms at `p`; a failed test jumps to the next test or past the chain. */
  predicate CodeFirst(f: seq<Instr>, arms: Arms, p: nat, x: int)
    decreases arms, 1
  {
    match arms
    case End => true
    case Otherwise(body) => CodeB(f, body, p, x)
    case Arm(c, body, rest) =>
      var q := p + 2 + LenB(body);
      && HasAt(f, p, Code(c)) && CodeB(f, body, p + 2, x)
      && JumpsTo(f, p + 1, JMP_FALSE, if rest.End? then q else q + 1)
      && CodeA(f, rest, q, x)
  }

  /** The rest of a chain: an arm that was taken arrives at `q` and is led past the chain. */
  predicate CodeA(f: seq<Instr>, arms: Arms, q: nat, x: int)
    decreases arms, 2
  {
    Leads(f, q, q + LenA(arms)) && CodeFirst(f, arms, if arms.End? then q else q + 1, x)
  }

  // ------------------------------------------------------- the jump machine

  /** The state of exec_: running at `pc`, back at the interactive level, or
      stopped because the stack of return addresses is full. */
  datatype Mach =
    | At(pc: int, calls: seq<int>, h: seq<Blk>)
    | Halt(h: seq<Blk>)
    | Overflow(h: seq<Blk>)
    | Lost(h: seq<Blk>)                   // ran outside the file

  function Tick(f: seq<Instr>, truth: seq<Blk> -> bool, room: nat, m: Mach): Mach
  {
    if !m.At? then m
    else if !(0 <= m.pc < |f|) then Lost(m.h)
    else match f[m.pc]
      case Code(b) => m.(pc := m.pc + 1, h := m.h + [b])
      case Ask(_) => Lost(m.h)
      case Jmp(jc, a) =>
        match jc
        case JMP_FALSE => if truth(m.h) then m.(pc := m.pc + 1) else m.(pc := a)
        case JUMP => m.(pc := a)
        case CALL => if |m.calls| > room then Overflow(m.h) else m.(pc := a, calls := m.calls + [m.pc + 1])
        case RETURN => Popped(m.calls, m.h)
        case FCNRTN => Popped(m.calls, m.h)
        case OBJ_LIB => m
  }

  /** Return to the address on top of the stack; -1 is the interactive level. */
  function Popped(calls: seq<int>, h: seq<Blk>): Mach {
    if |calls| == 0 then Overflow(h)
    else if calls[|calls| - 1] == -1 then Halt(h)
    else At(calls[|calls| - 1], calls[..|calls| - 1], h)
  }

  function Steps(f: seq<Instr>, truth: seq<Blk> -> bool, room: nat, m: Mach, k: nat): Mach
    decreases k
  {
    if k == 0 then m else Steps(f, truth, room, Tick(f, truth, room, m), k - 1)
  }

  /** The file once every named CALL holds the entry address of its procedure. */
  function Resolve(f: seq<Instr>, defs: map<string, int>): (r: seq<Instr>)
    ensures |r| == |f|
    ensures forall i {:trigger r[i]} :: 0 <= i < |f| ==>
      r[i] == if f[i].Ask? && f[i].name in defs then Jmp(CALL, defs[f[i].name]) else f[i]
  {
    seq(|f|, i requires 0 <= i < |f| => if f[i].Ask? && f[i].name in defs then Jmp(CALL, defs[f[i].name]) else f[i])
  }

  /** Every procedure has its code at its entry, followed by the closing RETURN. */
  ghost predicate Loaded(f: seq<Instr>, defs: map<string, int>, w: World)
  {
    && defs.Keys == w.procs.Keys
    && forall n :: n in defs ==>
        && defs[n] >= 0
        && Proper(w.procs[n], false)
        && CodeB(f, w.procs[n], defs[n], |f|)
        && HasAt(f, defs[n] + LenB(w.procs[n]), Jmp(RETURN, 0))
  }

  /** No EXIT or LOOP stands outside a WHILE (unless `loop`), and every IF starts with an arm. */
  predicate Proper(b: Block, loop: bool) {
    match b case Nil => true case Then(s, rest) => ProperS(s, loop) && Proper(rest, loop)
  }
  predicate ProperS(s: Stmt, loop: bool) {
    match s
    case Exit => loop
    case Loop => loop
    case While(_, body) => Proper(body, true)
    case Choose(isCase, pre, arms) => (isCase || (pre.Nil? && arms.Arm?)) && Proper(pre, loop) && ProperA(arms, loop)
    case _ => true
  }
  predicate ProperA(arms: Arms, loop: bool) {
    match arms
    case End => true
    case Otherwise(body) => Proper(body, loop)
    case Arm(_, body, rest) => Proper(body, loop) && ProperA(rest, loop)
  }

  // ------------------------------------------------ the machine does the same

  lemma {:induction false} StepsAdd(f: seq<Instr>, truth: seq<Blk> -> bool, room: nat, m: Mach, j: nat, k: nat)
    ensures Steps(f, truth, room, m, j + k) == Steps(f, truth, room, Steps(f, truth, room, m, j), k)
    decreases j
  {
    if j > 0 { StepsAdd(f, truth, room, Tick(f, truth, room, m), j - 1, k); }
  }

  /** Following unconditional jumps executes no block. */
  lemma {:induction false} Follow(f: seq<Instr>, defs: map<string, int>, truth: seq<Blk> -> bool, room: nat,
                                  a: int, z: int, calls: seq<int>, h: seq<Blk>) returns (k: nat)
    requires Leads(f, a, z)
    ensures Steps(Resolve(f, defs), truth, room, At(a, calls, h), k) == At(z, calls, h)
    decreases z - a
  {
    if a == z { return 0; }
    k := Follow(f, defs, truth, room, f[a].addr, z, calls, h);
    k := k + 1;
  }

  /** Where the machine must be once a construct ending at `e`, with exit target `x`, is done. */
  function Goal(r: Run, e: int, x: int, calls: seq<int>): Mach {
    match r.o
    case Normal => At(e, calls, r.h)
    case Exited => At(x, calls, r.h)
    case Returned => Popped(calls, r.h)
    case _ => Overflow(r.h)
  }

  /** The machine `m` has executed what `r` tells, and unless the watch is over is where it should be. */
  predicate Meets(m: Mach, r: Run, e: int, x: int, calls: seq<int>) {
    m.h == r.h && (r.o != Cut ==> m == Goal(r, e, x, calls))
  }

  /** `w.procs` is there for every call, and the call stack holds `d + 1` return addresses. */
  ghost predicate Ready(f: seq<Instr>, defs: map<string, int>, w: World, d: nat, calls: seq<int>) {
    w.loop == AS_EXIT && Loaded(f, defs, w) && |calls| == d + 1 && d <= w.room && CallsBound(f, w)
  }

  /** Only procedures that exist are called: the table of the object file has no unresolved name. */
  predicate CallsBound(f: seq<Instr>, w: World) {
    forall i {:trigger f[i]} :: 0 <= i < |f| && f[i].Ask? ==> f[i].name in w.procs
  }

  lemma {:induction false} SimBlock(f: seq<Instr>, defs: map<string, int>, w: World, b: Block, p: nat, x: int,
                                    d: nat, calls: seq<int>, h: seq<Blk>) returns (k: nat)
    requires Ready(f, defs, w, d, calls) && CodeB(f, b, p, x) && |h| <= w.limit
    ensures Meets(Steps(Resolve(f, defs), w.truth, w.room, At(p, calls, h), k), RunBlock(w, b, d, h), p + LenB(b), x,
      calls)
    decreases w.limit - |h|, b, 0
  {
    match b
    case Nil => k := 0;
    case Then(s, rest) =>
      var r1 := RunStmt(w, s, d, h);
      k := SimStmt(f, defs, w, s, p, x, d, calls, h);
      if r1.o == Normal {
        var j := SimBlock(f, defs, w, rest, p + LenS(s), x, d, calls, r1.h);
        StepsAdd(Resolve(f, defs), w.truth, w.room, At(p, calls, h), k, j);
        k := k + j;
      }
  }

  /** One code block: unless the watch is over, the machine executes it and steps on. */
  lemma SimExec(f: seq<Instr>, defs: map<string, int>, w: World, c: Blk, p: nat, calls: seq<int>, h: seq<Blk>)
    returns (k: nat)
    requires HasAt(f, p, Code(c))
    ensures var r := Exec(w, c, h);
      Steps(Resolve(f, defs), w.truth, w.room, At(p, calls, h), k) == At(if r.o == Normal then p + 1 else p, calls, r.h)
  {
    if |h| >= w.limit { return 0; }
    assert Steps(Resolve(f, defs), w.truth, w.room, At(p + 1, calls, h + [c]), 0) == At(p + 1, calls, h + [c]);
    k := 1;
  }

  /** A test at `p`: the machine goes on behind it, or is led to the target `z` of its JMP_FALSE. */
  lemma SimTest(f: seq<Instr>, defs: map<string, int>, w: World, c: Blk, p: nat, z: int, calls: seq<int>, h: seq<Blk>)
    returns (k: nat)
    requires HasAt(f, p, Code(c)) && JumpsTo(f, p + 1, JMP_FALSE, z)
    ensures var r := Exec(w, c, h);
      Steps(Resolve(f, defs), w.truth, w.room, At(p, calls, h), k)
        == At(if r.o != Normal then p else if w.truth(r.h) then p + 2 else z, calls, r.h)
  {
    var r, t := Exec(w, c, h), Resolve(f, defs);
    k := SimExec(f, defs, w, c, p, calls, h);
    if r.o == Normal {
      var m := At(p + 1, calls, r.h);
      var j: nat := 1;
      assert Steps(t, w.truth, w.room, m, 1) == Steps(t, w.truth, w.room, Tick(t, w.truth, w.room, m), 0);
      if !w.truth(r.h) {
        var i := Follow(f, defs, w.truth, w.room, f[p + 1].addr, z, calls, r.h);
        StepsAdd(t, w.truth, w.room, m, 1, i);
        j := 1 + i;
      }
      StepsAdd(t, w.truth, w.room, At(p, calls, h), k, j);
      k := k + j;
    }
  }

  lemma {:induction false} SimStmt(f: seq<Instr>, defs: map<string, int>, w: World, s: Stmt, p: nat, x: int,
                                   d: nat, calls: seq<int>, h: seq<Blk>) returns (k: nat)
    requires Ready(f, defs, w, d, calls) && CodeS(f, s, p, x) && |h| <= w.limit
    ensures Meets(Steps(Resolve(f, defs), w.truth, w.room, At(p, calls, h), k), RunStmt(w, s, d, h), p + LenS(s), x,
      calls)
    decreases w.limit - |h|, s, 1
  {
    var t := Resolve(f, defs);
    match s
    case Do(c) => k := SimExec(f, defs, w, c, p, calls, h);
    case While(c, body) => k := SimWhile(f, defs, w, s, p, x, d, calls, h);
    case Choose(_, _, _) => k := SimChoose(f, defs, w, s, p, x, d, calls, h);
    case Exit | Loop => k := Follow(f, defs, w.truth, w.room, p, x, calls, h);
    case Return => k := SimReturn(f, defs, w, p, calls, h);
    case ReturnVal(e) =>
      k := SimExec(f, defs, w, e, p, calls, h);
      var r1 := Exec(w, e, h);
      if r1.o == Normal {
        var j := SimReturn(f, defs, w, p + 1, calls, r1.h);
        StepsAdd(t, w.truth, w.room, At(p, calls, h), k, j);
        k := k + j;
      }
    case Call(args, name) =>
      k := SimExec(f, defs, w, args, p, calls, h);
      var r1 := Exec(w, args, h);
      if r1.o == Normal {
        assert f[p + 1].name in w.procs;
        var j := SimCall(f, defs, w, name, p + 1, x, d, calls, r1.h);
        StepsAdd(t, w.truth, w.room, At(p, calls, h), k, j);
        k := k + j;
      }
  }

  lemma SimReturn(f: seq<Instr>, defs: map<string, int>, w: World, p: nat, calls: seq<int>, h: seq<Blk>)
    returns (k: nat)
    requires HasAt(f, p, Jmp(RETURN, 0)) || HasAt(f, p, Jmp(FCNRTN, 0))
    ensures Steps(Resolve(f, defs), w.truth, w.room, At(p, calls, h), k) == Popped(calls, h)
  {
    var t := Resolve(f, defs);
    assert Steps(t, w.truth, w.room, At(p, calls, h), 1) ==
        Steps(t, w.truth, w.room, Tick(t, w.truth, w.room, At(p, calls, h)), 0);
    k := 1;
  }

  lemma {:induction false} SimChoose(f: seq<Instr>, defs: map<string, int>, w: World, s: Stmt, p: nat, x: int,
                                     d: nat, calls: seq<int>, h: seq<Blk>) returns (k: nat)
    requires s.Choose? && Ready(f, defs, w, d, calls) && CodeS(f, s, p, x) && |h| <= w.limit
    ensures Meets(Steps(Resolve(f, defs), w.truth, w.room, At(p, calls, h), k), RunStmt(w, s, d, h), p + LenS(s), x,
      calls)
    decreases w.limit - |h|, s, 0
  {
    var r1 := RunBlock(w, s.pre, d, h);
    k := SimBlock(f, defs, w, s.pre, p, x, d, calls, h);
    if r1.o == Normal {
      var j := SimArms(f, defs, w, s.arms, p + LenB(s.pre), x, d, calls, r1.h);
      StepsAdd(Resolve(f, defs), w.truth, w.room, At(p, calls, h), k, j);
      k := k + j;
    }
  }

  lemma {:induction false} SimWhile(f: seq<Instr>, defs: map<string, int>, w: World, s: Stmt, p: nat, x: int,
                                    d: nat, calls: seq<int>, h: seq<Blk>) returns (k: nat)
    requires s.While? && Ready(f, defs, w, d, calls) && CodeS(f, s, p, x) && |h| <= w.limit
    ensures Meets(Steps(Resolve(f, defs), w.truth, w.room, At(p, calls, h), k), RunStmt(w, s, d, h), p + LenS(s), x,
      calls)
    decreases w.limit - |h|, s, 0
  {
    var t, z := Resolve(f, defs), p + LenS(s);
    var m := At(p, calls, h);
    var r1 := Exec(w, s.c, h);
    k := SimTest(f, defs, w, s.c, p, z, calls, h);
    if r1.o == Normal && w.truth(r1.h) {
      var r2 := RunBlock(w, s.body, d, r1.h);
      var j := SimBlock(f, defs, w, s.body, p + 2, z, d, calls, r1.h);
      StepsAdd(t, w.truth, w.room, m, k, j);
      k := k + j;
      if r2.o == Normal {
        var i := SimStmt(f, defs, w, s, p, x, d, calls, r2.h);
        JumpBack(f, defs, w, p, z - 1, calls, r2.h, i);
        StepsAdd(t, w.truth, w.room, m, k, 1 + i);
        k := k + (1 + i);
      }
    }
  }

  /** The jump at the end of a loop, and i steps from its start. */
  lemma JumpBack(f: seq<Instr>, defs: map<string, int>, w: World, p: nat, z: nat, calls: seq<int>, h: seq<Blk>, i: nat)
    requires HasAt(f, z, Jmp(JUMP, p))
    ensures var t := Resolve(f, defs);
      Steps(t, w.truth, w.room, At(z, calls, h), 1 + i) == Steps(t, w.truth, w.room, At(p, calls, h), i)
  {
    var t, back := Resolve(f, defs), At(z, calls, h);
    assert Steps(t, w.truth, w.room, back, 1) == Steps(t, w.truth, w.room, Tick(t, w.truth, w.room, back), 0);
    StepsAdd(t, w.truth, w.room, back, 1, i);
  }

  lemma {:induction false} SimArms(f: seq<Instr>, defs: map<string, int>, w: World, arms: Arms, p: nat, x: int,
                                   d: nat, calls: seq<int>, h: seq<Blk>) returns (k: nat)
    requires Ready(f, defs, w, d, calls) && CodeFirst(f, arms, p, x) && |h| <= w.limit
    ensures Meets(Steps(Resolve(f, defs), w.truth, w.room, At(p, calls, h), k), RunArms(w, arms, d, h),
                  p + (if arms.End? then 0 else LenA(arms) - 1), x, calls)
    decreases w.limit - |h|, arms, 1
  {
    match arms
    case End => k := 0;
    case Otherwise(body) => k := SimBlock(f, defs, w, body, p, x, d, calls, h);
    case Arm(_, _, _) => k := SimArm(f, defs, w, arms, p, x, d, calls, h);
  }

  lemma {:induction false} SimArm(f: seq<Instr>, defs: map<string, int>, w: World, arms: Arms, p: nat, x: int,
                                  d: nat, calls: seq<int>, h: seq<Blk>) returns (k: nat)
    requires arms.Arm? && Ready(f, defs, w, d, calls) && CodeFirst(f, arms, p, x) && |h| <= w.limit
    ensures Meets(Steps(Resolve(f, defs), w.truth, w.room, At(p, calls, h), k), RunArms(w, arms, d, h),
      p + LenA(arms) - 1, x, calls)
    decreases w.limit - |h|, arms, 0
  {
    var t, m, q := Resolve(f, defs), At(p, calls, h), p + 2 + LenB(arms.body);
    var r1 := Exec(w, arms.c, h);
    var p' := if arms.rest.End? then q else q + 1;
    k := SimTest(f, defs, w, arms.c, p, p', calls, h);
    if r1.o == Normal {
      var j: nat;
      if w.truth(r1.h) {
        j := SimTaken(f, defs, w, arms.body, p + 2, q + LenA(arms.rest), x, d, calls, r1.h);
      } else {
        j := SimArms(f, defs, w, arms.rest, p', x, d, calls, r1.h);
      }
      StepsAdd(t, w.truth, w.room, m, k, j);
      k := k + j;
    }
  }

  /** The body of an arm that was taken, and the way out of its chain. */
  lemma {:induction false} SimTaken(f: seq<Instr>, defs: map<string, int>, w: World, body: Block, p: nat, e: int,
                                    x: int,
                                    d: nat, calls: seq<int>, h: seq<Blk>) returns (k: nat)
    requires Ready(f, defs, w, d, calls) && CodeB(f, body, p, x) && Leads(f, p + LenB(body), e) && |h| <= w.limit
    ensures Meets(Steps(Resolve(f, defs), w.truth, w.room, At(p, calls, h), k), RunBlock(w, body, d, h), e, x, calls)
    decreases w.limit - |h|, body, 1
  {
    var r := RunBlock(w, body, d, h);
    k := SimBlock(f, defs, w, body, p, x, d, calls, h);
    if r.o == Normal {
      var i := Follow(f, defs, w.truth, w.room, p + LenB(body), e, calls, r.h);
      StepsAdd(Resolve(f, defs), w.truth, w.room, At(p, calls, h), k, i);
      k := k + i;
    }
  }

  lemma {:induction false} SimCall(f: seq<Instr>, defs: map<string, int>, w: World, name: string, p: nat, x: int,
                                   d: nat, calls: seq<int>, h: seq<Blk>) returns (k: nat)
    requires Ready(f, defs, w, d, calls) && HasAt(f, p, Ask(name)) && |h| <= w.limit
    ensures Meets(Steps(Resolve(f, defs), w.truth, w.room, At(p, calls, h), k),
                  if d >= w.room then Run(h, Fault) else Left(RunBlock(w, w.procs[name], d + 1, h)), p + 1, x, calls)
    decreases w.limit - |h|
  {
    var t, m := Resolve(f, defs), At(p, calls, h);
    assert name in w.procs;
    CallStep(f, defs, w, name, p, calls, h);
    k := 1;
    if d < w.room {
      var e, body := defs[name], w.procs[name];
      var cs := calls + [p + 1];
      var r := RunBlock(w, body, d + 1, h);
      var j := SimBlock(f, defs, w, body, e, |f|, d + 1, cs, h);
      StepsAdd(t, w.truth, w.room, m, 1, j);
      k := 1 + j;
      NeverExits(w, body, d + 1, h);
      if r.o == Normal {
        var i := SimReturn(f, defs, w, e + LenB(body), cs, r.h);
        StepsAdd(t, w.truth, w.room, m, k, i);
        k := k + i;
      }
    }
  }

  /** The CALL itself, and where its return address leads. */
  lemma CallStep(f: seq<Instr>, defs: map<string, int>, w: World, name: string, p: nat, calls: seq<int>, h: seq<Blk>)
    requires HasAt(f, p, Ask(name)) && name in defs
    ensures Steps(Resolve(f, defs), w.truth, w.room, At(p, calls, h), 1)
      == if |calls| > w.room then Overflow(h) else At(defs[name], calls + [p + 1], h)
    ensures forall g {:trigger Popped(calls + [p + 1], g)} :: Popped(calls + [p + 1], g) == At(p + 1, calls, g)
  {
    var t, m := Resolve(f, defs), At(p, calls, h);
    assert t[p] == Jmp(CALL, defs[name]);
    assert Steps(t, w.truth, w.room, m, 1) == Steps(t, w.truth, w.room, Tick(t, w.truth, w.room, m), 0);
    assert (calls + [p + 1])[..|calls|] == calls;
  }

  ghost predicate AllProper(w: World) {
    forall n :: n in w.procs ==> Proper(w.procs[n], false)
  }

  /** A proper body never leaves by EXIT or LOOP. */
  lemma {:induction false} NeverExits(w: World, b: Block, d: nat, h: seq<Blk>)
    requires Proper(b, false) && AllProper(w)
    ensures RunBlock(w, b, d, h).o != Exited && RunBlock(w, b, d, h).o != Looped
    decreases if |h| <= w.limit then w.limit - |h| else 0, b
  {
    if b.Then? {
      NeverExitsS(w, b.s, d, h);
      NeverExits(w, b.rest, d, RunStmt(w, b.s, d, h).h);
    }
  }

  lemma {:induction false} NeverExitsS(w: World, s: Stmt, d: nat, h: seq<Blk>)
    requires ProperS(s, false) && AllProper(w)
    ensures RunStmt(w, s, d, h).o != Exited && RunStmt(w, s, d, h).o != Looped
    decreases if |h| <= w.limit then w.limit - |h| else 0, s
  {
    match s
    case While(c, body) =>
      var r1 := Exec(w, c, h);
      if r1.o == Normal && w.truth(r1.h) {
        var r2 := RunBlock(w, body, d, r1.h);
        if r2.o == Normal || r2.o == Looped { NeverExitsS(w, s, d, r2.h); }
      }
    case Choose(_, pre, arms) =>
      NeverExits(w, pre, d, h);
      NeverExitsA(w, arms, d, RunBlock(w, pre, d, h).h);
    case Call(args, name) =>
      var r1 := Exec(w, args, h);
      if r1.o == Normal && name in w.procs { NeverExits(w, w.procs[name], d + 1, r1.h); }
    case _ =>
  }

  lemma {:induction false} NeverExitsA(w: World, arms: Arms, d: nat, h: seq<Blk>)
    requires ProperA(arms, false) && AllProper(w)
    ensures RunArms(w, arms, d, h).o != Exited && RunArms(w, arms, d, h).o != Looped
    decreases if |h| <= w.limit then w.limit - |h| else 0, arms
  {
    match arms
    case End =>
    case Otherwise(body) => NeverExits(w, body, d, h);
    case Arm(c, body, rest) =>
      var r1 := Exec(w, c, h);
      NeverExits(w, body, d, r1.h);
      NeverExitsA(w, rest, d, r1.h);
  }

  // --------------------------------------------------------- the main result

  /** Running a loaded procedure from the interactive level: the machine executes
      the blocks the structured body executes, and stops when and how it does. */
  lemma {:induction false} RunsAsWritten(f: seq<Instr>, defs: map<string, int>, w: World, name: string) returns (k: nat)
    requires w.loop == AS_EXIT && Loaded(f, defs, w) && CallsBound(f, w) && name in w.procs
    ensures var r, m := Left(RunBlock(w, w.procs[name], 0, [])),
      Steps(Resolve(f, defs), w.truth, w.room, At(defs[name], [-1], []), k);
      && m.h == r.h
      && (r.o == Cut || (r.o == Normal && m == Halt(r.h)) || (r.o == Fault && m == Overflow(r.h)))
  {
    var t, m, body := Resolve(f, defs), At(defs[name], [-1], []), w.procs[name];
    var r := RunBlock(w, body, 0, []);
    k := SimBlock(f, defs, w, body, defs[name], |f|, 0, [-1], []);
    NeverExits(w, body, 0, []);
    if r.o == Normal {
      var j := SimReturn(f, defs, w, defs[name] + LenB(body), [-1], r.h);
      StepsAdd(t, w.truth, w.room, m, k, j);
      k := k + j;
    }
  }

  lemma {:induction false} Grows(f: seq<Instr>, truth: seq<Blk> -> bool, room: nat, m: Mach, k: nat)
    ensures m.h <= Steps(f, truth, room, m, k).h
    ensures !m.At? ==> Steps(f, truth, room, m, k) == m
    decreases k
  {
    if k > 0 { Grows(f, truth, room, Tick(f, truth, room, m), k - 1); }
  }

  /** And nothing else: after any number of steps, the blocks executed are exactly
      the first ones of the structured run. */
  lemma {:induction false} RunsNothingElse(f: seq<Instr>, defs: map<string, int>, w: World, name: string, k: nat)
    requires w.loop == AS_EXIT && Loaded(f, defs, w) && CallsBound(f, w) && name in w.procs
    ensures var h := Steps(Resolve(f, defs), w.truth, w.room, At(defs[name], [-1], []), k).h;
      RunBlock(w.(limit := |h|), w.procs[name], 0, []).h == h
  {
    var t, m := Resolve(f, defs), At(defs[name], [-1], []);
    var h := Steps(t, w.truth, w.room, m, k).h;
    var w' := w.(limit := |h|);
    var j := RunsAsWritten(f, defs, w', name);
    if j <= k {
      StepsAdd(t, w.truth, w.room, m, j, k - j);
      Grows(t, w.truth, w.room, Steps(t, w.truth, w.room, m, j), k - j);
    } else {
      StepsAdd(t, w.truth, w.room, m, k, j - k);
      Grows(t, w.truth, w.room, Steps(t, w.truth, w.room, m, k), j - k);
    }
  }
}
