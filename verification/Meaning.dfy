/**
 * What the statements of a procedure mean, one by one, in the blocks that are executed: the readings of
 * the commands that Control.RunBlock puts together (server/hb/proc.c:384-628, 792-847).
 */
module Meaning {
  import opened Control

  /** A body of simple commands. */
  function Straight(cs: seq<Blk>): (b: Block)
    decreases |cs|
  {
    if cs == [] then Nil else Then(Do(cs[0]), Straight(cs[1..]))
  }

  /** They are executed in order, as far as the run is watched. */
  lemma {:induction false} InOrder(w: World, cs: seq<Blk>, d: nat, h: seq<Blk>)
    requires |h| + |cs| <= w.limit
    ensures RunBlock(w, Straight(cs), d, h) == Run(h + cs, Normal)
    decreases |cs|
  {
    if cs != [] {
      InOrder(w, cs[1..], d, h + [cs[0]]);
      assert h + [cs[0]] + cs[1..] == h + cs;
      assert RunStmt(w, Do(cs[0]), d, h) == Run(h + [cs[0]], Normal);
    } else {
      assert h + [] == h;
    }
  }

  /** IF c, ELSEIF c2, ELSE: the first part whose condition is true when it comes to it, else the last. */
  lemma IfMeans(w: World, c: Blk, a: seq<Blk>, c2: Blk, a2: seq<Blk>, b: seq<Blk>, d: nat, h: seq<Blk>)
    requires |h| + 2 + |a| + |a2| + |b| <= w.limit
    ensures RunStmt(w, Choose(false, Nil, Arm(c, Straight(a), Arm(c2, Straight(a2), Otherwise(Straight(b))))), d, h) ==
      if w.truth(h + [c]) then Run(h + [c] + a, Normal)
      else if w.truth(h + [c] + [c2]) then Run(h + [c] + [c2] + a2, Normal)
      else Run(h + [c] + [c2] + b, Normal)
  {
    InOrder(w, a, d, h + [c]);
    InOrder(w, a2, d, h + [c] + [c2]);
    InOrder(w, b, d, h + [c] + [c2]);
    assert RunBlock(w, Nil, d, h) == Run(h, Normal);
    assert Exec(w, c, h) == Run(h + [c], Normal) && Exec(w, c2, h + [c]) == Run(h + [c] + [c2], Normal);
    var last := Otherwise(Straight(b));
    assert RunArms(w, last, d, h + [c] + [c2]) == Run(h + [c] + [c2] + b, Normal);
    var second := Arm(c2, Straight(a2), last);
    assert RunArms(w, second, d, h + [c]) ==
      if w.truth(h + [c] + [c2]) then Run(h + [c] + [c2] + a2, Normal) else Run(h + [c] + [c2] + b, Normal);
  }

  /** Without ELSE nothing happens when no condition is true. */
  lemma IfOnly(w: World, c: Blk, a: seq<Blk>, d: nat, h: seq<Blk>)
    requires |h| + 1 + |a| <= w.limit
    ensures RunStmt(w, Choose(false, Nil, Arm(c, Straight(a), End)), d, h) ==
      Run(if w.truth(h + [c]) then h + [c] + a else h + [c], Normal)
  {
    InOrder(w, a, d, h + [c]);
    assert RunBlock(w, Nil, d, h) == Run(h, Normal);
    assert RunArms(w, End, d, h + [c]) == Run(h + [c], Normal);
  }

  /** DO CASE: what stands before the first CASE is executed, then one part as in IF. */
  lemma CaseMeans(w: World, p: seq<Blk>, c: Blk, a: seq<Blk>, b: seq<Blk>, d: nat, h: seq<Blk>)
    requires |h| + |p| + 1 + |a| + |b| <= w.limit
    ensures RunStmt(w, Choose(true, Straight(p), Arm(c, Straight(a), Otherwise(Straight(b)))), d, h) ==
      var g := h + p + [c]; Run(if w.truth(g) then g + a else g + b, Normal)
  {
    InOrder(w, p, d, h);
    InOrder(w, a, d, h + p + [c]);
    InOrder(w, b, d, h + p + [c]);
    assert RunArms(w, Otherwise(Straight(b)), d, h + p + [c]) == Run(h + p + [c] + b, Normal);
  }

  /** DO WHILE: the condition is asked before each round. */
  lemma WhileMeans(w: World, c: Blk, a: seq<Blk>, d: nat, h: seq<Blk>)
    requires |h| + 1 + |a| <= w.limit
    ensures var s := While(c, Straight(a));
      RunStmt(w, s, d, h) == if w.truth(h + [c]) then RunStmt(w, s, d, h + [c] + a) else Run(h + [c], Normal)
  {
    InOrder(w, a, d, h + [c]);
  }

  /** EXIT leaves the innermost loop, also from within an IF. */
  lemma ExitMeans(w: World, c: Blk, a: Blk, q: Blk, b: Blk, d: nat, h: seq<Blk>)
    requires |h| + 3 <= w.limit && w.truth(h + [c]) && w.truth(h + [c] + [a] + [q])
    ensures var leave := Choose(false, Nil, Arm(q, Then(Exit, Nil), End));
      RunStmt(w, While(c, Then(Do(a), Then(leave, Then(Do(b), Nil)))), d, h) == Run(h + [c] + [a] + [q], Normal)
  {
    var leave := Choose(false, Nil, Arm(q, Then(Exit, Nil), End));
    var g := h + [c] + [a];
    assert RunBlock(w, Nil, d, g) == Run(g, Normal);
    assert RunStmt(w, Exit, d, g + [q]) == Run(g + [q], Exited);
    assert RunBlock(w, Then(Exit, Nil), d, g + [q]) == Run(g + [q], Exited);
    assert RunStmt(w, leave, d, g) == Run(g + [q], Exited);
    assert RunStmt(w, Do(a), d, h + [c]) == Run(g, Normal);
    assert RunBlock(w, Then(leave, Then(Do(b), Nil)), d, g) == Run(g + [q], Exited);
    assert RunBlock(w, Then(Do(a), Then(leave, Then(Do(b), Nil))), d, h + [c]) == Run(g + [q], Exited);
  }

  /** RETURN ends the procedure, from within a loop as well; a function gives its value first. */
  lemma ReturnMeans(w: World, c: Blk, e: Blk, b: Blk, d: nat, h: seq<Blk>)
    requires |h| + 2 <= w.limit && w.truth(h + [c])
    ensures RunBlock(w, Then(While(c, Then(Return, Nil)), Then(Do(b), Nil)), d, h) == Run(h + [c], Returned)
    ensures RunBlock(w, Then(While(c, Then(ReturnVal(e), Nil)), Then(Do(b), Nil)), d, h) == Run(h + [c] + [e], Returned)
  {
    assert RunStmt(w, Return, d, h + [c]) == Run(h + [c], Returned);
    assert RunBlock(w, Then(Return, Nil), d, h + [c]) == Run(h + [c], Returned);
    assert RunStmt(w, While(c, Then(Return, Nil)), d, h) == Run(h + [c], Returned);
    assert RunStmt(w, ReturnVal(e), d, h + [c]) == Run(h + [c] + [e], Returned);
    assert RunBlock(w, Then(ReturnVal(e), Nil), d, h + [c]) == Run(h + [c] + [e], Returned);
    assert RunStmt(w, While(c, Then(ReturnVal(e), Nil)), d, h) == Run(h + [c] + [e], Returned);
  }

  /** A call: the arguments, the procedure of that name up to its RETURN, and what stands behind the call;
      unless the stack of return addresses is full, which is a fault. */
  lemma CallMeans(w: World, args: Blk, name: string, a: Blk, b: Blk, z: Blk, d: nat, h: seq<Blk>)
    requires |h| + 3 <= w.limit && name in w.procs && w.procs[name] == Then(Do(a), Then(Return, Then(Do(b), Nil)))
    ensures RunBlock(w, Then(Call(args, name), Then(Do(z), Nil)), d, h) ==
      if d < w.room then Run(h + [args] + [a] + [z], Normal) else Run(h + [args], Fault)
  {
    var g := h + [args];
    assert Exec(w, args, h) == Run(g, Normal);
    if d < w.room {
      assert RunStmt(w, Do(a), d + 1, g) == Run(g + [a], Normal);
      assert RunStmt(w, Return, d + 1, g + [a]) == Run(g + [a], Returned);
      assert RunBlock(w, Then(Return, Then(Do(b), Nil)), d + 1, g + [a]) == Run(g + [a], Returned);
      assert RunBlock(w, w.procs[name], d + 1, g) == Run(g + [a], Returned);
      assert RunStmt(w, Call(args, name), d, h) == Run(g + [a], Normal);
      assert RunStmt(w, Do(z), d, g + [a]) == Run(g + [a] + [z], Normal);
      assert RunBlock(w, Nil, d, g + [a] + [z]) == Run(g + [a] + [z], Normal);
      assert RunBlock(w, Then(Do(z), Nil), d, g + [a]) == Run(g + [a] + [z], Normal);
    } else {
      assert RunStmt(w, Call(args, name), d, h) == Run(g, Fault);
    }
  }
}
