/** The code a structured body compiles to, with the back-patching spelled out:
    every forward jump is first written with a place holder and overwritten when
    its target is reached. */
module CodeGen {
  import opened Control

  /** Overwrite the address of the long jump at `p` (mod_addr's seek and write). */
  function Patch(out: seq<Instr>, p: int, a: int): (r: seq<Instr>)
    ensures |r| == |out|
    ensures forall i {:trigger r[i]} :: 0 <= i < |out| && i != p ==> r[i] == out[i]
    ensures 0 <= p < |out| && out[p].Jmp? ==> r[p] == Jmp(out[p].jc, a)
  {
    if 0 <= p < |out| && out[p].Jmp? then out[p := Jmp(out[p].jc, a)] else out
  }

  /** The file so far and the jump that still waits for the end of the innermost WHILE. */
  datatype Emit = Emit(out: seq<Instr>, w: int)

  function Test(out: seq<Instr>, c: Blk): seq<Instr> {
    out + [Code(c), Jmp(JMP_FALSE, PLACE_HOLDER)]
  }

  /** Between two arms: an arm taken before (`j`, if any) jumps here, the arm just
      ended jumps on, and its failed test (`f`) continues behind that jump. */
  function Link(out: seq<Instr>, f: int, j: int): (r: seq<Instr>)
    ensures |r| == |out| + 1
  {
    Patch(Patch(out, j, |out|) + [Jmp(JUMP, PLACE_HOLDER)], f, |out| + 1)
  }

  function GenB(b: Block, out: seq<Instr>, w: int): Emit
    decreases b
  {
    match b
    case Nil => Emit(out, w)
    case Then(s, rest) => var e := GenS(s, out, w); GenB(rest, e.out, e.w)
  }

  function GenS(s: Stmt, out: seq<Instr>, w: int): Emit
    decreases s
  {
    match s
    case Do(c) => Emit(out + [Code(c)], w)
    case While(c, body) =>
      var e := GenB(body, Test(out, c), |out| + 1);
      Emit(Patch(e.out + [Jmp(JUMP, |out|)], e.w, |e.out| + 1), w)
    case Choose(_, pre, arms) =>
      var e := GenB(pre, out, w);
      GenFirst(arms, e.out, e.w)
    case Exit | Loop => Emit(Patch(out, w, |out|) + [Jmp(JUMP, PLACE_HOLDER)], |out|)
    case Return => Emit(out + [Jmp(RETURN, 0)], w)
    case ReturnVal(e) => Emit(out + [Code(e), Jmp(FCNRTN, 0)], w)
    case Call(args, name) => Emit(out + [Code(args), Ask(name)], w)
  }

  function GenFirst(arms: Arms, out: seq<Instr>, w: int): Emit
    decreases arms
  {
    match arms
    case End => Emit(out, w)
    case Otherwise(body) => GenB(body, out, w)
    case Arm(c, body, rest) =>
      var e := GenB(body, Test(out, c), w);
      GenRest(rest, e.out, |out| + 1, -1, e.w)
  }

  function GenRest(arms: Arms, out: seq<Instr>, f: int, j: int, w: int): Emit
    decreases arms
  {
    match arms
    case End => Emit(Patch(Patch(out, j, |out|), f, |out|), w)
    case Otherwise(body) =>
      var e := GenB(body, Link(out, f, j), w);
      Emit(Patch(e.out, |out|, |e.out|), e.w)
    case Arm(c, body, rest) =>
      var e := GenB(body, Test(Link(out, f, j), c), w);
      GenRest(rest, e.out, |out| + 2, |out|, e.w)
  }

  // ------------------------------------------------------- what Gen leaves alone

  predicate Hole(out: seq<Instr>, i: int) {
    0 <= i < |out| && out[i].Jmp?
  }

  /** `e` extends `out` by `n` items and changes nothing old but the jump at `w`
      (only when it hands over a new jump to wait) and the items in `others`. */
  ghost predicate Extends(out: seq<Instr>, w: int, others: set<int>, e: Emit, n: nat) {
    && |e.out| == |out| + n
    && (forall i {:trigger e.out[i]} :: 0 <= i < |out| && i != w && i !in others ==> e.out[i] == out[i])
    && Hole(out, w) && Hole(e.out, w) && e.out[w].jc == out[w].jc && (e.w == w ==> e.out[w] == out[w])
    && (e.w == w || (|out| <= e.w < |e.out| && e.out[e.w] == Jmp(JUMP, PLACE_HOLDER)))
  }

  lemma {:induction false} FrameB(b: Block, out: seq<Instr>, w: int)
    requires Hole(out, w)
    ensures Extends(out, w, {}, GenB(b, out, w), LenB(b))
    decreases b
  {
    if b.Then? {
      var e := GenS(b.s, out, w);
      FrameS(b.s, out, w);
      FrameB(b.rest, e.out, e.w);
    }
  }

  lemma {:induction false} FrameS(s: Stmt, out: seq<Instr>, w: int)
    requires Hole(out, w)
    ensures Extends(out, w, {}, GenS(s, out, w), LenS(s))
    decreases s
  {
    match s
    case While(c, body) =>
      FrameB(body, Test(out, c), |out| + 1);
    case Choose(_, pre, arms) =>
      var e := GenB(pre, out, w);
      FrameB(pre, out, w);
      FrameFirst(arms, e.out, e.w);
    case _ =>
  }

  lemma {:induction false} FrameFirst(arms: Arms, out: seq<Instr>, w: int)
    requires Hole(out, w)
    ensures Extends(out, w, {}, GenFirst(arms, out, w), if arms.End? then 0 else LenA(arms) - 1)
    decreases arms
  {
    match arms
    case End =>
    case Otherwise(body) => FrameB(body, out, w);
    case Arm(c, body, rest) =>
      var e := GenB(body, Test(out, c), w);
      FrameB(body, Test(out, c), w);
      FrameRest(rest, e.out, |out| + 1, -1, e.w);
  }

  /** The two jumps that the rest of a chain closes. */
  predicate Closing(out: seq<Instr>, f: int, j: int, w: int) {
    Hole(out, f) && Hole(out, w) && (j == -1 || Hole(out, j)) && f != w && j != w && f != j
  }

  lemma {:induction false} FrameRest(arms: Arms, out: seq<Instr>, f: int, j: int, w: int)
    requires Closing(out, f, j, w)
    ensures var e := GenRest(arms, out, f, j, w);
      && Extends(out, w, {f, j}, e, LenA(arms))
      && e.out[f] == Jmp(out[f].jc, if arms.End? then |out| else |out| + 1)
      && (j != -1 ==> e.out[j] == Jmp(out[j].jc, |out|))
    decreases arms, 1
  {
    match arms
    case End =>
    case Otherwise(body) => FrameB(body, Link(out, f, j), w);
    case Arm(c, _, _) =>
      LinkFacts(out, f, j, c);
      FrameArm(arms, out, Test(Link(out, f, j), c), f, j, w);
  }

  /** `t` is `out` linked to a further arm, with the test of that arm. */
  ghost predicate Linked(out: seq<Instr>, f: int, j: int, c: Blk, t: seq<Instr>) {
    && |t| == |out| + 3 && Hole(out, f) && (j == -1 || Hole(out, j))
    && (forall i {:trigger t[i]} :: 0 <= i < |out| && i != f && i != j ==> t[i] == out[i])
    && t[f] == Jmp(out[f].jc, |out| + 1) && (j != -1 ==> t[j] == Jmp(out[j].jc, |out|))
    && t[|out|] == Jmp(JUMP, PLACE_HOLDER) && t[|out| + 1] == Code(c) && t[|out| + 2] == Jmp(JMP_FALSE, PLACE_HOLDER)
  }

  lemma LinkFacts(out: seq<Instr>, f: int, j: int, c: Blk)
    requires Hole(out, f) && (j == -1 || Hole(out, j)) && f != j
    ensures Linked(out, f, j, c, Test(Link(out, f, j), c))
  {
  }

  lemma {:induction false} FrameArm(arms: Arms, out: seq<Instr>, t: seq<Instr>, f: int, j: int, w: int)
    requires arms.Arm? && Closing(out, f, j, w) && Linked(out, f, j, arms.c, t)
    ensures var e1 := GenB(arms.body, t, w);
      var e := GenRest(arms.rest, e1.out, |out| + 2, |out|, e1.w);
      && Extends(out, w, {f, j}, e, LenA(arms))
      && e.out[f] == t[f] && (j != -1 ==> e.out[j] == t[j])
    decreases arms, 0
  {
    var e := GenB(arms.body, t, w);
    FrameB(arms.body, t, w);
    assert e.out[|out|] == t[|out|] && e.out[|out| + 2] == t[|out| + 2];
    FrameRest(arms.rest, e.out, |out| + 2, |out|, e.w);
    ExtendsTwice(out, t, f, j, w, arms.c, e, LenB(arms.body), GenRest(arms.rest, e.out, |out| + 2, |out|, e.w),
        LenA(arms.rest));
  }

  lemma ExtendsTwice(out: seq<Instr>, t: seq<Instr>, f: int, j: int, w: int, c: Blk, e: Emit, k: nat, e2: Emit, l: nat)
    requires Closing(out, f, j, w) && Linked(out, f, j, c, t)
    requires Extends(t, w, {}, e, k) && Extends(e.out, e.w, {|out| + 2, |out|}, e2, l)
    ensures Extends(out, w, {f, j}, e2, 3 + k + l) && e2.out[f] == t[f] && (j != -1 ==> e2.out[j] == t[j])
  {
    forall i {:trigger e2.out[i]} | 0 <= i < |out| && i != w ensures e2.out[i] == t[i] {
      assert e.out[i] == t[i];
    }
    assert e.out[w].jc == t[w].jc && t[w] == out[w];
  }

  // --------------------------------------------------- Gen leaves the right code

  predicate Same(g: seq<Instr>, out: seq<Instr>, i: int) {
    0 <= i < |g| && i < |out| && g[i] == out[i]
  }

  /** `g` has the items of `out` from `lo` on, except the one at `w`. */
  ghost predicate Agree(g: seq<Instr>, out: seq<Instr>, lo: int, w: int) {
    |out| <= |g| && forall i {:trigger out[i]} :: 0 <= lo <= i < |out| && i != w ==> g[i] == out[i]
  }

  /** What `g` shares with the longer output it shares with the shorter one. */
  lemma Restrict(g: seq<Instr>, out: seq<Instr>, w: int, others: set<int>, e: Emit, n: nat, lo: int)
    requires Extends(out, w, others, e, n) && Agree(g, e.out, lo, e.w)
    requires 0 <= lo <= |out| && forall i :: i in others ==> i < lo
    ensures Agree(g, out, lo, w) && Agree(g, e.out, |out|, e.w)
    ensures lo <= w && w != e.w ==> Same(g, e.out, w)
  {
    forall i {:trigger out[i]} | lo <= i < |out| && i != w ensures g[i] == out[i] {
      assert e.out[i] == out[i];
    }
  }

  /** In `g`, the jump that waits at `w` leads past all of `out` to `x`. */
  predicate Waits(g: seq<Instr>, out: seq<Instr>, w: int, x: int) {
    && Hole(out, w) && Hole(g, w) && g[w].jc == out[w].jc
    && |out| <= g[w].addr && Leads(g, g[w].addr, x)
  }

  lemma {:induction false} RightB(b: Block, out: seq<Instr>, w: int, g: seq<Instr>, x: int)
    requires Hole(out, w)
    requires var e := GenB(b, out, w);
      Agree(g, e.out, |out|, e.w) && (w != e.w ==> Same(g, e.out, w)) && Waits(g, e.out, e.w, x)
    ensures CodeB(g, b, |out|, x) && Waits(g, out, w, x)
    decreases b
  {
    if b.Then? {
      var e := GenS(b.s, out, w);
      FrameS(b.s, out, w);
      FrameB(b.rest, e.out, e.w);
      Restrict(g, e.out, e.w, {}, GenB(b.rest, e.out, e.w), LenB(b.rest), |out|);
      RightB(b.rest, e.out, e.w, g, x);
      RightS(b.s, out, w, g, x);
    }
  }

  lemma {:induction false} RightS(s: Stmt, out: seq<Instr>, w: int, g: seq<Instr>, x: int)
    requires Hole(out, w)
    requires var e := GenS(s, out, w);
      Agree(g, e.out, |out|, e.w) && (w != e.w ==> Same(g, e.out, w)) && Waits(g, e.out, e.w, x)
    ensures CodeS(g, s, |out|, x) && Waits(g, out, w, x)
    decreases s
  {
    FrameS(s, out, w);
    match s
    case While(c, body) => RightWhile(s, out, w, g, x);
    case Choose(_, pre, arms) =>
      var e := GenB(pre, out, w);
      FrameB(pre, out, w);
      FrameFirst(arms, e.out, e.w);
      Restrict(g, e.out, e.w, {}, GenFirst(arms, e.out, e.w), if arms.End? then 0 else LenA(arms) - 1, |out|);
      RightFirst(arms, e.out, e.w, g, x);
      RightB(pre, out, w, g, x);
    case Exit | Loop => assert g[w] == GenS(s, out, w).out[w];
    case _ => RightSimple(s, out, w, g);
  }

  lemma RightSimple(s: Stmt, out: seq<Instr>, w: int, g: seq<Instr>)
    requires s.Do? || s.Return? || s.ReturnVal? || s.Call?
    requires Hole(out, w) && Agree(g, GenS(s, out, w).out, |out|, w)
    ensures CodeS(g, s, |out|, 0)
  {
    var all := GenS(s, out, w).out;
    assert all[|out|] == g[|out|];
    if s.ReturnVal? || s.Call? { assert all[|out| + 1] == g[|out| + 1]; }
  }

  lemma {:induction false} RightWhile(s: Stmt, out: seq<Instr>, w: int, g: seq<Instr>, x: int)
    requires s.While?
    requires Agree(g, GenS(s, out, w).out, |out|, w) && w < |out|
    ensures CodeS(g, s, |out|, x)
    decreases s, 0
  {
    var t, f := Test(out, s.c), |out| + 1;
    var e := GenB(s.body, t, f);
    FrameB(s.body, t, f);
    var z, all := |e.out| + 1, GenS(s, out, w).out;
    assert all[e.w] == Jmp(e.out[e.w].jc, z) && all[|e.out|] == Jmp(JUMP, |out|) && all[|out|] == Code(s.c);
    forall i {:trigger e.out[i]} | |out| <= i < |e.out| && i != e.w ensures g[i] == e.out[i] {
      assert all[i] == e.out[i];
    }
    RightB(s.body, t, f, g, z);
  }

  lemma {:induction false} RightFirst(arms: Arms, out: seq<Instr>, w: int, g: seq<Instr>, x: int)
    requires Hole(out, w)
    requires var e := GenFirst(arms, out, w);
      Agree(g, e.out, |out|, e.w) && (w != e.w ==> Same(g, e.out, w)) && Waits(g, e.out, e.w, x)
    ensures CodeFirst(g, arms, |out|, x) && Waits(g, out, w, x)
    decreases arms, 1
  {
    match arms
    case End =>
    case Otherwise(body) => RightB(body, out, w, g, x);
    case Arm(c, body, rest) =>
      assert Test(out, c)[|out|] == Code(c);
      RightTail(body, rest, Test(out, c), |out|, |out| + 1, -1, w, g, x);
      RightB(body, Test(out, c), w, g, x);
      ArmCode(g, c, body, rest, |out|, x);
  }

  /** What is asked of `g`, given that `e` completes an output of length `n` by the rest of a chain. */
  ghost predicate Rested(e: Emit, n: nat, f: int, j: int, w: int, g: seq<Instr>, x: int) {
    && Agree(g, e.out, n, e.w) && (w != e.w ==> Same(g, e.out, w)) && Waits(g, e.out, e.w, x)
    && Same(g, e.out, f) && (j != -1 ==> Same(g, e.out, j))
  }

  lemma {:induction false} RightRest(arms: Arms, out: seq<Instr>, f: int, j: int, w: int, g: seq<Instr>, x: int)
    requires Closing(out, f, j, w) && Rested(GenRest(arms, out, f, j, w), |out|, f, j, w, g, x)
    ensures CodeA(g, arms, |out|, x) && Waits(g, out, w, x)
    ensures g[f] == Jmp(out[f].jc, if arms.End? then |out| else |out| + 1)
    ensures j != -1 ==> g[j] == Jmp(out[j].jc, |out|)
    decreases arms, 2
  {
    FrameRest(arms, out, f, j, w);
    match arms
    case End =>
    case Otherwise(_) => RightOther(arms, out, f, j, w, g, x);
    case Arm(c, _, _) =>
      LinkFacts(out, f, j, c);
      RightArm(arms, out, Test(Link(out, f, j), c), f, j, w, g, x);
  }

  lemma {:induction false} RightOther(arms: Arms, out: seq<Instr>, f: int, j: int, w: int, g: seq<Instr>, x: int)
    requires arms.Otherwise? && Closing(out, f, j, w) && Rested(GenRest(arms, out, f, j, w), |out|, f, j, w, g, x)
    ensures CodeA(g, arms, |out|, x) && Waits(g, out, w, x)
    decreases arms, 0
  {
    var t := Link(out, f, j);
    var e, all := GenB(arms.body, t, w), GenRest(arms, out, f, j, w).out;
    FrameB(arms.body, t, w);
    assert all[|out|] == Jmp(JUMP, |e.out|) == g[|out|];
    forall i {:trigger e.out[i]} | |t| <= i < |e.out| && i != e.w ensures g[i] == e.out[i] {
      assert all[i] == e.out[i];
    }
    RightB(arms.body, t, w, g, x);
  }

  /** A further arm: `t` is the output up to its body. */
  lemma {:induction false} RightArm(arms: Arms, out: seq<Instr>, t: seq<Instr>, f: int, j: int, w: int, g: seq<Instr>,
                                    x: int)
    requires arms.Arm? && Closing(out, f, j, w) && Linked(out, f, j, arms.c, t)
    requires var e := GenB(arms.body, t, w);
      Rested(GenRest(arms.rest, e.out, |out| + 2, |out|, e.w), |out|, f, j, w, g, x)
    ensures CodeA(g, arms, |out|, x) && Waits(g, out, w, x)
    decreases arms, 1
  {
    RightTail(arms.body, arms.rest, t, |out|, |out| + 2, |out|, w, g, x);
    RightB(arms.body, t, w, g, x);
    ArmDone(arms, out, t, w, g, x);
  }

  lemma ArmDone(arms: Arms, out: seq<Instr>, t: seq<Instr>, w: int, g: seq<Instr>, x: int)
    requires arms.Arm? && |t| == |out| + 3 && Hole(out, w) && Hole(t, w) && t[w].jc == out[w].jc && Waits(g, t, w, x)
    requires var n := |out|;
      var q := n + 3 + LenB(arms.body);
      && HasAt(g, n, Jmp(JUMP, q)) && HasAt(g, n + 1, Code(arms.c)) && CodeB(g, arms.body, n + 3, x)
          && CodeA(g, arms.rest, q, x)
      && HasAt(g, n + 2, Jmp(JMP_FALSE, if arms.rest.End? then q else q + 1))
    ensures CodeA(g, arms, |out|, x) && Waits(g, out, w, x)
  {
    ArmCode(g, arms.c, arms.body, arms.rest, |out| + 1, x);
    assert Leads(g, |out|, |out| + LenA(arms));
  }

  /** An arm but for its body: `t` ends with the arm's test, whose jump is at `f`. */
  lemma {:induction false} RightTail(body: Block, rest: Arms, t: seq<Instr>, lo: nat, f: int, j: int, w: int,
                                     g: seq<Instr>, x: int)
    requires lo < f && |t| == f + 1 && Hole(t, f) && (j == -1 || (j == lo < f - 1 && Hole(t, j))) && Hole(t, w)
      && w < lo
    requires var e := GenB(body, t, w);
      var e2 := GenRest(rest, e.out, f, j, e.w);
      Agree(g, e2.out, lo, e2.w) && (w != e2.w ==> Same(g, e2.out, w)) && Waits(g, e2.out, e2.w, x)
    ensures var e, q := GenB(body, t, w), |t| + LenB(body);
      && HasAt(g, f - 1, t[f - 1]) && HasAt(g, f, Jmp(t[f].jc, if rest.End? then q else q + 1))
      && (j != -1 ==> HasAt(g, j, Jmp(t[j].jc, q)))
      && CodeA(g, rest, q, x)
      && Agree(g, e.out, |t|, e.w) && (w != e.w ==> Same(g, e.out, w)) && Waits(g, e.out, e.w, x)
    decreases rest, 3
  {
    var e := GenB(body, t, w);
    FrameB(body, t, w);
    FrameTail(rest, t, e, LenB(body), f, j, w);
    ArmParts(t, lo, f, j, e, GenRest(rest, e.out, f, j, e.w), LenB(body), LenA(rest), w, g, x);
    RightRest(rest, e.out, f, j, e.w, g, x);
  }

  lemma FrameTail(rest: Arms, t: seq<Instr>, e: Emit, k: nat, f: int, j: int, w: int)
    requires Hole(t, f) && (j == -1 || Hole(t, j)) && f != j && w != f && w != j && Extends(t, w, {}, e, k)
    ensures Extends(e.out, e.w, {f, j}, GenRest(rest, e.out, f, j, e.w), LenA(rest))
  {
    assert e.out[f] == t[f] && (j != -1 ==> e.out[j] == t[j]);
    FrameRest(rest, e.out, f, j, e.w);
  }

  lemma ArmCode(g: seq<Instr>, c: Blk, body: Block, rest: Arms, p: nat, x: int)
    requires var q := p + 2 + LenB(body);
      && HasAt(g, p, Code(c)) && CodeB(g, body, p + 2, x) && CodeA(g, rest, q, x)
      && HasAt(g, p + 1, Jmp(JMP_FALSE, if rest.End? then q else q + 1))
    ensures CodeFirst(g, Arm(c, body, rest), p, x)
  {
  }

  /** `t` ends with a test whose jump `f` waits, `e` adds its body and `e2` the rest of the
      chain: the items of the test, and what is left to ask of body and rest. */
  lemma ArmParts(t: seq<Instr>, lo: nat, f: int, j: int, e: Emit, e2: Emit, k: nat, l: nat, w: int, g: seq<Instr>,
                 x: int)
    requires lo < f && |t| == f + 1 && Hole(t, f) && (j == -1 || (j == lo < f - 1 && Hole(t, j)))
    requires Extends(t, w, {}, e, k) && w < lo && Extends(e.out, e.w, {f, j}, e2, l)
    requires Agree(g, e2.out, lo, e2.w) && (w != e2.w ==> Same(g, e2.out, w)) && Waits(g, e2.out, e2.w, x)
    ensures HasAt(g, f - 1, t[f - 1]) && Closing(e.out, f, j, e.w) && Rested(e2, |e.out|, f, j, e.w, g, x)
    ensures e.out[f] == t[f] && (j != -1 ==> e.out[j] == t[j])
    ensures Agree(g, e.out, |t|, e.w) && (w != e.w ==> Same(g, e.out, w))
  {
    assert e.out[f - 1] == t[f - 1] && e2.out[f - 1] == e.out[f - 1];
    assert w != e.w ==> e2.out[w] == e.out[w];
    assert e.out[f] == t[f] && g[f] == e2.out[f] && (j != -1 ==> e.out[j] == t[j] && g[j] == e2.out[j]);
    Restrict(g, e.out, e.w, {f, j}, e2, l, |t|);
  }
}
