/** Page templates: lines with IF, CASE and WHILE tags that are interpreted as they are
    read, with a nest stack of flags and a seek back to repeat a WHILE.

    A position is a line number. A template body is a `Block` without EXIT, RETURN and
    calls; its simple statements are the lines to be sent or the commands to be run. */
module Template {
  import opened Control
  import opened Lines

  const MAXNEST: nat := 16

  datatype Tag =
    | Text(t: Blk)
    | WhileT(c: Blk) | EndWhileT
    | IfT(c: Blk) | ElseT | EndIfT
    | BeginCaseT | CaseT(c: Blk) | OtherwiseT | EndCaseT

  datatype Kind = KIf | KElse | KWhile | KCase | KOther
  /** An open level: what it is, whether lines are ignored, whether a CASE arm was taken. */
  datatype Lv = Lv(kind: Kind, ign: bool, c: bool)

  datatype Status =
    | Fine | TOOMANY | STACKFAULT
    | UNBAL_ENDWHILE | MISSING_IF | UNBAL_ENDIF | MISSING_CASE | UNBAL_ENDCASE
    | UNBAL_IF | UNBAL_WHILE | UNBAL_CASE | UNKNOWN_CONTROL

  /** The interpreter at a line: open levels, addresses to seek back to, what was sent and
      evaluated. `starts` is the line each open level started at (it decides nothing). */
  datatype State = State(pos: int, nest: Stack<Lv>, addrs: Stack<int>, h: seq<Blk>, starts: Stack<int>, err: Status)

  predicate Ign(nest: Stack<Lv>) { nest.Push? && nest.top.ign }

  predicate Inside(m: State, k: Kind) { m.nest.Push? && m.nest.top.kind == k }

  /** Open a level; it is ignored where its surroundings are. */
  function Open(m: State, lv: Lv): State {
    m.(pos := m.pos + 1, nest := Push(lv, m.nest), starts := Push(m.pos, m.starts))
  }

  function Change(m: State, lv: Lv): State requires m.nest.Push? {
    m.(pos := m.pos + 1, nest := Push(lv, m.nest.below))
  }

  function Shut(m: State): State requires m.nest.Push? {
    m.(pos := m.pos + 1, nest := m.nest.below, starts := if m.starts.Push? then m.starts.below else Empty)
  }

  /** One line (process_line). */
  function Process(m: State, l: Tag, truth: seq<Blk> -> bool): State
  {
    var ig := Ign(m.nest);
    var full := Len(m.nest) + 1 == MAXNEST;
    match l
    case Text(t) => m.(pos := m.pos + 1, h := if ig then m.h else m.h + [t])
    case WhileT(c) =>
      if full then m.(err := TOOMANY)
      else if ig then Open(m, Lv(KWhile, true, false))
      else
        var h := m.h + [c];
        if truth(h) then Open(m.(addrs := Push(m.pos, m.addrs), h := h), Lv(KWhile, false, false))
        else Open(m.(h := h), Lv(KWhile, true, false))
    case EndWhileT =>
      if !Inside(m, KWhile) then m.(err := Status.UNBAL_ENDWHILE)
      else
        var n := Shut(m);
        if Ign(n.nest) || m.nest.top.ign then n
        else if m.addrs.Empty? then m.(err := STACKFAULT)
        else n.(pos := m.addrs.top, addrs := m.addrs.below)
    case IfT(c) =>
      if full then m.(err := TOOMANY)
      else if ig then Open(m, Lv(KIf, true, false))
      else
        var h := m.h + [c];
        Open(m.(h := h), Lv(KIf, !truth(h), false))
    case ElseT =>
      if !Inside(m, KIf) then m.(err := Status.MISSING_IF)
      else Change(m, Lv(KElse, if Ign(m.nest.below) then m.nest.top.ign else !m.nest.top.ign, m.nest.top.c))
    case EndIfT => if Inside(m, KIf) || Inside(m, KElse) then Shut(m) else m.(err := Status.UNBAL_ENDIF)
    case BeginCaseT => if full then m.(err := TOOMANY) else Open(m, Lv(KCase, ig, false))
    case CaseT(c) =>
      if !Inside(m, KCase) then m.(err := Status.MISSING_CASE)
      else if Ign(m.nest.below) then Change(m, m.nest.top)
      else if m.nest.top.c then Change(m, Lv(KCase, true, true))
      else
        var h := m.h + [c];
        Change(m.(h := h), Lv(KCase, !truth(h), truth(h)))
    case OtherwiseT =>
      if !Inside(m, KCase) then m.(err := Status.MISSING_CASE)
      else Change(m, Lv(KOther, if Ign(m.nest.below) then m.nest.top.ign else m.nest.top.c, m.nest.top.c))
    case EndCaseT => if Inside(m, KCase) || Inside(m, KOther) then Shut(m) else m.(err := Status.UNBAL_ENDCASE)
  }

  /** What the end of the file says about a level that is still open. */
  function AtEnd(nest: Stack<Lv>): Status {
    if nest.Empty? then Fine
    else match nest.top.kind
      case KIf => Status.UNBAL_IF
      case KWhile => UNBAL_WHILE
      case KCase => Status.UNBAL_CASE
      case _ => Status.UNKNOWN_CONTROL
  }

  function Next(ls: seq<Tag>, truth: seq<Blk> -> bool, m: State): State {
    if m.err == Fine && 0 <= m.pos < |ls| then Process(m, ls[m.pos], truth) else m
  }

  function Steps(ls: seq<Tag>, truth: seq<Blk> -> bool, m: State, k: nat): State
    decreases k
  {
    if k == 0 then m else Steps(ls, truth, Next(ls, truth, m), k - 1)
  }

  /** The lines, the conditions, and a relation between states that holds when the
      interpreter comes from the one to the other. */
  datatype Env = Env(ls: seq<Tag>, truth: seq<Blk> -> bool, goes: (State, State) -> bool)

  predicate Hop(a: State, b: State, c: State) { true }

  ghost predicate Driven(v: Env) {
    && (forall m {:trigger Next(v.ls, v.truth, m)} :: v.goes(m, Next(v.ls, v.truth, m)))
    && (forall m {:trigger Hop(m, m, m)} :: v.goes(m, m))
    && (forall a, b, c {:trigger Hop(a, b, c)} :: v.goes(a, b) && v.goes(b, c) ==> v.goes(a, c))
  }

  /** Taken as a type, so that the lemmas below need not prove it again at every call. */
  type Engine = v: Env | Driven(v) ghost witness Env([], _ => false, (_, _) => true)

  lemma Join(v: Engine, a: State, b: State, c: State)
    requires v.goes(a, b) && v.goes(b, c)
    ensures v.goes(a, c)
  {
    assert Hop(a, b, c);
  }

  lemma OneStep(v: Engine, m: State, n: State)
    requires Next(v.ls, v.truth, m) == n
    ensures v.goes(m, n)
  {
  }

  lemma NoStep(v: Engine, m: State)
    ensures v.goes(m, m)
  {
    assert Hop(m, m, m);
  }

  // ----------------------------------------------------------- a template body

  /** What templates have: text, WHILE, IF with at most an ELSE, CASE. */
  predicate Plain(b: Block) {
    match b case Nil => true case Then(s, rest) => PlainS(s) && Plain(rest)
  }
  predicate PlainS(s: Stmt) {
    match s
    case Do(_) => true
    case While(_, body) => Plain(body)
    case Choose(isCase, pre, arms) =>
      Plain(pre) && PlainA(arms) && (isCase || (pre.Nil? && arms.Arm? && !arms.rest.Arm?))
    case _ => false
  }
  predicate PlainA(arms: Arms) {
    match arms
    case End => true
    case Otherwise(body) => Plain(body)
    case Arm(_, body, rest) => Plain(body) && PlainA(rest)
  }

  function Max(a: nat, b: nat): nat { if a > b then a else b }

  /** How deep the levels nest. */
  function Depth(b: Block): nat {
    match b case Nil => 0 case Then(s, rest) => Max(DepthS(s), Depth(rest))
  }
  function DepthS(s: Stmt): nat {
    match s
    case While(_, body) => 1 + Depth(body)
    case Choose(_, pre, arms) => 1 + Max(Depth(pre), DepthA(arms))
    case _ => 0
  }
  function DepthA(arms: Arms): nat {
    match arms
    case End => 0
    case Otherwise(body) => Depth(body)
    case Arm(_, body, rest) => Max(Depth(body), DepthA(rest))
  }

  function Size(b: Block): nat {
    match b case Nil => 0 case Then(s, rest) => SizeS(s) + Size(rest)
  }
  function SizeS(s: Stmt): (n: nat)
    ensures n > 0
  {
    match s
    case While(_, body) => 2 + Size(body)
    case Choose(isCase, pre, arms) => (if isCase then 1 else 0) + Size(pre) + SizeA(arms)
    case _ => 1
  }
  function SizeA(arms: Arms): (n: nat)
    ensures n > 0
  {
    match arms
    case End => 1
    case Otherwise(body) => 2 + Size(body)
    case Arm(_, body, rest) => 1 + Size(body) + SizeA(rest)
  }

  predicate Is(ls: seq<Tag>, p: nat, l: Tag) { p < |ls| && ls[p] == l }

  /** The lines from `p` on are those of the body, which opens no more than `d` levels at a time. */
  predicate At(ls: seq<Tag>, b: Block, p: nat, d: nat)
    decreases b
  {
    match b case Nil => true case Then(s, rest) => AtS(ls, s, p, d) && At(ls, rest, p + SizeS(s), d)
  }

  predicate AtS(ls: seq<Tag>, s: Stmt, p: nat, d: nat)
    decreases s
  {
    match s
    case Do(t) => Is(ls, p, Text(t))
    case While(c, body) => d > 0 && Is(ls, p, WhileT(c)) && At(ls, body, p + 1, d - 1)
        && Is(ls, p + 1 + Size(body), EndWhileT)
    case Choose(true, pre, arms) =>
      d > 0 && Is(ls, p, BeginCaseT) && At(ls, pre, p + 1, d - 1) && AtA(ls, true, arms, p + 1 + Size(pre), d - 1)
    case Choose(false, Nil, Arm(c, body, rest)) =>
      d > 0 && Is(ls, p, IfT(c)) && At(ls, body, p + 1, d - 1) && AtA(ls, false, rest, p + 1 + Size(body), d - 1)
    case _ => false
  }

  /** Further arms and the end of a chain; an IF has at most an ELSE. */
  predicate AtA(ls: seq<Tag>, isCase: bool, arms: Arms, p: nat, d: nat)
    decreases arms
  {
    match arms
    case End => Is(ls, p, if isCase then EndCaseT else EndIfT)
    case Otherwise(body) =>
      Is(ls, p, if isCase then OtherwiseT else ElseT) && At(ls, body, p + 1, d)
          && Is(ls, p + 1 + Size(body), if isCase then EndCaseT else EndIfT)
    case Arm(c, body, rest) =>
      isCase && Is(ls, p, CaseT(c)) && At(ls, body, p + 1, d) && AtA(ls, true, rest, p + 1 + Size(body), d)
  }

  // ------------------------------------------------- ignored lines have no effect

  /** Inside an ignored level a body is passed over, line by line, up to where it ends. */
  lemma {:induction false} Skip(v: Engine, b: Block, m: State, p: nat, e: nat, d: nat)
    requires At(v.ls, b, p, d) && m.err == Fine && m.pos == p && Ign(m.nest) && Len(m.nest) + d < MAXNEST
    requires e == p + Size(b)
    ensures v.goes(m, m.(pos := e))
    decreases Size(b), 4
  {
    NoStep(v, m);
    if b.Then? {
      var q := p + SizeS(b.s);
      SkipS(v, b.s, m, p, q, d);
      Skip(v, b.rest, m.(pos := q), q, e, d);
      Join(v, m, m.(pos := q), m.(pos := e));
    }
  }

  lemma {:induction false} SkipS(v: Engine, s: Stmt, m: State, p: nat, e: nat, d: nat)
    requires AtS(v.ls, s, p, d) && m.err == Fine && m.pos == p && Ign(m.nest) && Len(m.nest) + d < MAXNEST
    requires e == p + SizeS(s)
    ensures v.goes(m, m.(pos := e))
    decreases SizeS(s), 3
  {
    match s
    case Do(_) => OneStep(v, m, m.(pos := e));
    case While(_, _) => SkipWhile(v, s, m, p, e, d);
    case Choose(true, _, _) => SkipCase(v, s, m, p, e, d);
    case Choose(false, _, _) => SkipIf(v, s, m, p, e, d);
  }

  lemma {:induction false} SkipWhile(v: Engine, s: Stmt, m: State, p: nat, e: nat, d: nat)
    requires s.While? && AtS(v.ls, s, p, d) && m.err == Fine && m.pos == p && Ign(m.nest) && Len(m.nest) + d < MAXNEST
    requires e == p + SizeS(s)
    ensures v.goes(m, m.(pos := e))
    decreases SizeS(s), 2
  {
    var lv, z := Lv(KWhile, true, false), e - 1;
    OneStep(v, m, Within(m, lv, p + 1));
    OneStep(v, Within(m, lv, z), m.(pos := e));
    SkipIn(v, s.body, m, m, lv, p + 1, z, d - 1);
    Join(v, m, Within(m, lv, z), m.(pos := e));
  }

  lemma {:induction false} SkipCase(v: Engine, s: Stmt, m: State, p: nat, e: nat, d: nat)
    requires s.Choose? && s.isCase && AtS(v.ls, s, p, d) && m.err == Fine && m.pos == p && Ign(m.nest)
      && Len(m.nest) + d < MAXNEST
    requires e == p + SizeS(s)
    ensures v.goes(m, m.(pos := e))
    decreases SizeS(s), 2
  {
    var lv := Lv(KCase, true, false);
    OneStep(v, m, Within(m, lv, p + 1));
    SkipChain(v, true, s.pre, s.arms, m, lv, p + 1, p + 1 + Size(s.pre), e, d - 1);
  }

  /** A line that leads to an ignored body, the body up to `z`, and the rest of its chain. */
  lemma {:induction false} SkipChain(v: Engine, isCase: bool, body: Block, rest: Arms, m: State, lv: Lv, q: nat,
                                     z: nat, e: nat, d: nat)
    requires At(v.ls, body, q, d) && z == q + Size(body) && AtA(v.ls, isCase, rest, z, d) && e == z + SizeA(rest)
    requires m.err == Fine && Len(m.nest) + 1 + d < MAXNEST && Ign(m.nest)
      && lv == Lv(if isCase then KCase else KIf, true, false)
    requires v.goes(m, Within(m, lv, q))
    ensures v.goes(m, m.(pos := e))
    decreases 1 + Size(body) + SizeA(rest), 1
  {
    SkipIn(v, body, m, m, lv, q, z, d);
    SkipA(v, isCase, rest, m, lv, z, e, d);
    Join(v, m, Within(m, lv, z), m.(pos := e));
  }

  lemma IfParts(s: Stmt)
    requires s.Choose? && !s.isCase && s.pre.Nil? && s.arms.Arm?
    ensures SizeS(s) == 1 + Size(s.arms.body) + SizeA(s.arms.rest)
  {
    assert Size(s.pre) == 0;
  }

  lemma IfPlain(s: Stmt)
    requires s.Choose? && !s.isCase && PlainS(s)
    ensures s.arms.Arm? && Plain(s.arms.body) && PlainA(s.arms.rest)
  {
    assert PlainA(s.arms);
  }

  lemma IfAt(ls: seq<Tag>, s: Stmt, p: nat, d: nat)
    requires s.Choose? && !s.isCase && AtS(ls, s, p, d)
    ensures s.pre.Nil? && s.arms.Arm? && d > 0 && Is(ls, p, IfT(s.arms.c))
    ensures At(ls, s.arms.body, p + 1, d - 1) && AtA(ls, false, s.arms.rest, p + 1 + Size(s.arms.body), d - 1)
  {
  }

  lemma {:induction false} SkipIf(v: Engine, s: Stmt, m: State, p: nat, e: nat, d: nat)
    requires s.Choose? && !s.isCase && AtS(v.ls, s, p, d) && m.err == Fine && m.pos == p && Ign(m.nest)
      && Len(m.nest) + d < MAXNEST
    requires e == p + SizeS(s)
    ensures v.goes(m, m.(pos := e))
    decreases SizeS(s), 2
  {
    var lv, a := Lv(KIf, true, false), s.arms;
    IfAt(v.ls, s, p, d);
    IfParts(s);
    OneStep(v, m, Within(m, lv, p + 1));
    SkipChain(v, false, a.body, a.rest, m, lv, p + 1, p + 1 + Size(a.body), e, d - 1);
  }

  /** Inside one more level: `m` is the state outside of it, where the level started. */
  function Within(m: State, lv: Lv, p: int): State {
    m.(pos := p, nest := Push(lv, m.nest), starts := Push(m.pos, m.starts))
  }

  /** The rest of a chain whose lines are all passed over: the surroundings are ignored,
      or an arm was taken already. */
  predicate Passing(m: State, lv: Lv, isCase: bool) {
    lv.kind == (if isCase then KCase else KIf) && if Ign(m.nest) then lv.ign else if isCase then lv.c else !lv.ign
  }

  lemma {:induction false} SkipA(v: Engine, isCase: bool, arms: Arms, m: State, lv: Lv, p: nat, e: nat, d: nat)
    requires AtA(v.ls, isCase, arms, p, d) && m.err == Fine && Len(m.nest) + 1 + d < MAXNEST
    requires Passing(m, lv, isCase) && e == p + SizeA(arms)
    ensures v.goes(Within(m, lv, p), m.(pos := e))
    decreases SizeA(arms), 6
  {
    match arms
    case End => EndFrom(v, isCase, m, lv, p, e);
    case Otherwise(body) => SkipLast(v, isCase, body, m, lv, p, e, d);
    case Arm(c, body, rest) =>
      var lv2, z := Lv(KCase, true, lv.c), p + 1 + Size(body);
      SkipA(v, true, rest, m, lv2, z, e, d);
      SkipArm(v, c, body, m, lv, p, z, d);
      Join(v, Within(m, lv, p), Within(m, lv2, z), m.(pos := e));
  }

  lemma {:induction false} SkipArm(v: Engine, c: Blk, body: Block, m: State, lv: Lv, p: nat, z: nat, d: nat)
    requires Is(v.ls, p, CaseT(c)) && At(v.ls, body, p + 1, d) && m.err == Fine && Len(m.nest) + 1 + d < MAXNEST
      && Passing(m, lv, true) && z == p + 1 + Size(body)
    ensures v.goes(Within(m, lv, p), Within(m, Lv(KCase, true, lv.c), z))
    decreases 1 + Size(body), 5
  {
    var lv2 := Lv(KCase, true, lv.c);
    OneStep(v, Within(m, lv, p), Within(m, lv2, p + 1));
    SkipIn(v, body, Within(m, lv, p), m, lv2, p + 1, z, d);
  }

  lemma {:induction false} SkipLast(v: Engine, isCase: bool, body: Block, m: State, lv: Lv, p: nat, e: nat, d: nat)
    requires At(v.ls, body, p + 1, d) && m.err == Fine && Len(m.nest) + 1 + d < MAXNEST && Passing(m, lv, isCase)
    requires Is(v.ls, p, if isCase then OtherwiseT else ElseT) && e == p + 2 + Size(body)
      && Is(v.ls, e - 1, if isCase then EndCaseT else EndIfT)
    ensures v.goes(Within(m, lv, p), m.(pos := e))
    decreases 2 + Size(body), 5
  {
    var lv2, z := Lv(if isCase then KOther else KElse, true, lv.c), e - 1;
    LastFrom(v, isCase, m, lv, p);
    SkipIn(v, body, Within(m, lv, p), m, lv2, p + 1, z, d);
    EndFrom(v, isCase, m, lv2, z, e);
    Join(v, Within(m, lv, p), Within(m, lv2, z), m.(pos := e));
  }

  /** A line that leads to an ignored body, and the body. */
  lemma {:induction false} SkipIn(v: Engine, body: Block, a: State, m: State, lv: Lv, q: nat, z: nat, d: nat)
    requires At(v.ls, body, q, d) && m.err == Fine && lv.ign && Len(m.nest) + 1 + d < MAXNEST
      && v.goes(a, Within(m, lv, q)) && z == q + Size(body)
    ensures v.goes(a, Within(m, lv, z))
    decreases Size(body), 5
  {
    Skip(v, body, Within(m, lv, q), q, z, d);
    Join(v, a, Within(m, lv, q), Within(m, lv, z));
  }

  /** ELSE and OTHERWISE where the level is passed over. */
  lemma LastFrom(v: Engine, isCase: bool, m: State, lv: Lv, p: nat)
    requires Is(v.ls, p, if isCase then OtherwiseT else ElseT) && m.err == Fine && Passing(m, lv, isCase)
    ensures v.goes(Within(m, lv, p), Within(m, Lv(if isCase then KOther else KElse, true, lv.c), p + 1))
  {
    OneStep(v, Within(m, lv, p), Within(m, Lv(if isCase then KOther else KElse, true, lv.c), p + 1));
  }

  /** ENDIF and ENDCASE. */
  lemma EndFrom(v: Engine, isCase: bool, m: State, lv: Lv, p: nat, e: nat)
    requires Is(v.ls, p, if isCase then EndCaseT else EndIfT) && m.err == Fine && e == p + 1
    requires if isCase then lv.kind == KCase || lv.kind == KOther else lv.kind == KIf || lv.kind == KElse
    ensures v.goes(Within(m, lv, p), m.(pos := e))
  {
    OneStep(v, Within(m, lv, p), m.(pos := e));
  }

  // ------------------------------------------------------ lines that are not ignored

  /** Without calls a body ends normally, unless the watch is over first. */
  predicate Ends(r: Run) { r.o == Normal || r.o == Cut }

  /** The interpreter has come from `m` to `n` by reading lines, sending and evaluating what the
      structured run `r` does, and unless the watch is over stands at line `q`. */
  ghost predicate Shown(v: Engine, m: State, n: State, r: Run, q: int) {
    Ends(r) && v.goes(m, n) && n.h == r.h && (r.o == Normal ==> n == m.(pos := q, h := r.h))
  }

  ghost predicate Visible(v: Engine, w: World, m: State, p: nat, depth: nat) {
    v.truth == w.truth && m.err == Fine && m.pos == p && !Ign(m.nest) && Len(m.nest) + depth < MAXNEST
        && |m.h| <= w.limit
  }

  lemma {:induction false} Show(v: Engine, w: World, b: Block, m: State, p: nat, e: nat, d: nat) returns (n: State)
    requires At(v.ls, b, p, d) && Visible(v, w, m, p, d) && e == p + Size(b)
    ensures Shown(v, m, n, RunBlock(w, b, 0, m.h), e)
    decreases w.limit - |m.h|, b, 0
  {
    if b.Nil? { NoStep(v, m); return m; }
    var q := p + SizeS(b.s);
    n := ShowS(v, w, b.s, m, p, q, d);
    var r1 := RunStmt(w, b.s, 0, m.h);
    if r1.o == Normal {
      var m1 := n;
      n := Show(v, w, b.rest, m1, q, e, d);
      Join(v, m, m1, n);
    }
  }

  lemma {:induction false} ShowS(v: Engine, w: World, s: Stmt, m: State, p: nat, e: nat, d: nat)
    returns (n: State)
    requires AtS(v.ls, s, p, d) && Visible(v, w, m, p, d) && e == p + SizeS(s)
    ensures Shown(v, m, n, RunStmt(w, s, 0, m.h), e)
    decreases w.limit - |m.h|, s, 1
  {
    match s
    case Do(t) =>
      if |m.h| >= w.limit { NoStep(v, m); return m; }
      n := m.(pos := e, h := m.h + [t]);
      OneStep(v, m, n);
    case While(_, _) => n := ShowWhile(v, w, s, m, p, e, d);
    case Choose(true, _, _) => n := ShowCase(v, w, s, m, p, e, d);
    case Choose(false, _, _) => n := ShowIf(v, w, s, m, p, e, d);
  }

  lemma {:induction false} ShowWhile(v: Engine, w: World, s: Stmt, m: State, p: nat, e: nat, d: nat)
    returns (n: State)
    requires s.While? && AtS(v.ls, s, p, d) && Visible(v, w, m, p, d) && e == p + SizeS(s)
    ensures Shown(v, m, n, RunStmt(w, s, 0, m.h), e)
    decreases w.limit - |m.h|, s, 0
  {
    if |m.h| >= w.limit { NoStep(v, m); return m; }
    var h1, z := m.h + [s.c], e - 1;
    var m' := m.(h := h1);
    if w.truth(h1) {
      var lv := Lv(KWhile, false, false);
      var mb := m'.(addrs := Push(p, m.addrs));
      var m1 := Within(mb, lv, p + 1);
      OneStep(v, m, m1);
      n := Show(v, w, s.body, m1, p + 1, z, d - 1);
      Join(v, m, m1, n);
      var r2 := RunBlock(w, s.body, 0, h1);
      if r2.o == Normal {
        var m2, back := n, m.(h := r2.h);
        OneStep(v, m2, back);
        Join(v, m, m2, back);
        n := ShowS(v, w, s, back, p, e, d);
        Join(v, m, back, n);
      }
    } else {
      var lv := Lv(KWhile, true, false);
      n := m'.(pos := e);
      OneStep(v, m, Within(m', lv, p + 1));
      OneStep(v, Within(m', lv, z), n);
      SkipIn(v, s.body, m, m', lv, p + 1, z, d - 1);
      Join(v, m, Within(m', lv, z), n);
    }
  }

  lemma {:induction false} ShowCase(v: Engine, w: World, s: Stmt, m: State, p: nat, e: nat, d: nat)
    returns (n: State)
    requires s.Choose? && s.isCase && AtS(v.ls, s, p, d) && Visible(v, w, m, p, d) && e == p + SizeS(s)
    ensures Shown(v, m, n, RunStmt(w, s, 0, m.h), e)
    decreases w.limit - |m.h|, s, 0
  {
    var lv := Lv(KCase, false, false);
    var m1, z := Within(m, lv, p + 1), p + 1 + Size(s.pre);
    OneStep(v, m, m1);
    n := Show(v, w, s.pre, m1, p + 1, z, d - 1);
    Join(v, m, m1, n);
    var r1 := RunBlock(w, s.pre, 0, m.h);
    if r1.o == Normal {
      var m2 := n;
      n := ShowA(v, w, true, s.arms, m.(h := r1.h), lv, z, e, d - 1);
      Join(v, m, m2, n);
    }
  }

  /** A chain of which no arm was taken yet. */
  predicate Untaken(m: State, lv: Lv, isCase: bool) {
    !Ign(m.nest) && if isCase then lv.kind == KCase && !lv.c else lv == Lv(KIf, true, false)
  }

  lemma {:induction false} ShowIf(v: Engine, w: World, s: Stmt, m: State, p: nat, e: nat, d: nat) returns (n: State)
    requires s.Choose? && !s.isCase && AtS(v.ls, s, p, d) && Visible(v, w, m, p, d) && e == p + SizeS(s)
    ensures Shown(v, m, n, RunStmt(w, s, 0, m.h), e)
    decreases w.limit - |m.h|, s, 0
  {
    IfAt(v.ls, s, p, d);
    IfParts(s);
    assert RunBlock(w, s.pre, 0, m.h) == Run(m.h, Normal);
    if |m.h| >= w.limit { NoStep(v, m); return m; }
    n := ShowTested(v, w, s, m, p, e, d);
  }

  /** An IF whose condition is asked. */
  lemma {:induction false} ShowTested(v: Engine, w: World, s: Stmt, m: State, p: nat, e: nat, d: nat)
    returns (n: State)
    requires s.Choose? && !s.isCase && s.arms.Arm? && AtS(v.ls, s, p, d) && Visible(v, w, m, p, d) && |m.h| < w.limit
    requires RunBlock(w, s.pre, 0, m.h) == Run(m.h, Normal) && e == p + SizeS(s)
    ensures Shown(v, m, n, RunStmt(w, s, 0, m.h), e)
    decreases w.limit - |m.h|, s.arms, 2
  {
    var a := s.arms;
    var h1, z := m.h + [a.c], p + 1 + Size(a.body);
    var m', lv := m.(h := h1), Lv(KIf, !w.truth(h1), false);
    IfAt(v.ls, s, p, d);
    IfParts(s);
    OneStep(v, m, Within(m', lv, p + 1));
    if w.truth(h1) {
      n := ShowTaken(v, w, false, a.body, a.rest, m, m', lv, p + 1, z, e, d - 1);
    } else {
      n := ShowNot(v, w, false, a.body, a.rest, m, m', lv, p + 1, z, e, d - 1);
    }
  }

  /** From `a` it has come to `n`, and unless the watch is over that is `m` at line `e`, after what `r` does. */
  ghost predicate Led(v: Engine, a: State, n: State, r: Run, m: State, e: int) {
    Ends(r) && v.goes(a, n) && n.h == r.h && (r.o == Normal ==> n == m.(pos := e, h := r.h))
  }

  /** The body of an arm that is taken, after one line `a`, and the rest of its chain passed over. */
  lemma {:induction false} ShowTaken(v: Engine, w: World, isCase: bool, body: Block, rest: Arms, a: State, m: State,
                                     lv: Lv, q: nat, z: nat, e: nat, d: nat) returns (n: State)
    requires At(v.ls, body, q, d) && z == q + Size(body) && AtA(v.ls, isCase, rest, z, d) && e == z + SizeA(rest)
    requires v.truth == w.truth && m.err == Fine && !Ign(m.nest) && |m.h| <= w.limit
    requires Len(m.nest) + 1 + d < MAXNEST
    requires Passing(m, lv, isCase) && !lv.ign && v.goes(a, Within(m, lv, q))
    ensures Led(v, a, n, RunBlock(w, body, 0, m.h), m, e)
    decreases w.limit - |m.h|, body, 2
  {
    var n1 := ShowInside(v, w, body, a, m, lv, q, z, d);
    n := ThenSkip(v, isCase, rest, a, n1, RunBlock(w, body, 0, m.h), m, lv, z, e, d);
  }

  /** One line `a` that leads into a level that is not ignored, and the body there. */
  lemma {:induction false} ShowInside(v: Engine, w: World, body: Block, a: State, m: State, lv: Lv, q: nat, z: nat,
                                      d: nat) returns (n: State)
    requires At(v.ls, body, q, d) && v.truth == w.truth && m.err == Fine && |m.h| <= w.limit
    requires !lv.ign && Len(m.nest) + 1 + d < MAXNEST && v.goes(a, Within(m, lv, q)) && z == q + Size(body)
    ensures Led(v, a, n, RunBlock(w, body, 0, m.h), Within(m, lv, q), z)
    decreases w.limit - |m.h|, body, 1
  {
    var m1 := Within(m, lv, q);
    n := Show(v, w, body, m1, q, z, d);
    Join(v, a, m1, n);
  }

  /** After a body that ran as `r` tells, the rest of its chain is passed over. */
  lemma ThenSkip(v: Engine, isCase: bool, rest: Arms, a: State, n1: State, r: Run, m: State, lv: Lv, z: nat, e: nat,
                 d: nat) returns (n: State)
    requires Led(v, a, n1, r, Within(m, lv, z), z) && e == z + SizeA(rest)
    requires AtA(v.ls, isCase, rest, z, d) && m.err == Fine && Len(m.nest) + 1 + d < MAXNEST && Passing(m, lv, isCase)
    ensures Led(v, a, n, r, m, e)
  {
    n := n1;
    if r.o == Normal {
      n := m.(pos := e, h := r.h);
      SkipA(v, isCase, rest, m.(h := r.h), lv, z, e, d);
      Join(v, a, n1, n);
    }
  }

  /** After a body that ran as `r` tells, the line that ends its chain. */
  lemma ThenEnd(v: Engine, isCase: bool, a: State, n1: State, r: Run, m: State, lv: Lv, z: nat, e: nat)
    returns (n: State)
    requires Led(v, a, n1, r, Within(m, lv, z), z) && e == z + 1
    requires Is(v.ls, z, if isCase then EndCaseT else EndIfT) && m.err == Fine
    requires lv.kind == if isCase then KOther else KElse
    ensures Led(v, a, n, r, m, e)
  {
    n := n1;
    if r.o == Normal {
      n := m.(pos := e, h := r.h);
      EndFrom(v, isCase, m.(h := r.h), lv, z, e);
      Join(v, a, n1, n);
    }
  }

  lemma {:induction false} ShowA(v: Engine, w: World, isCase: bool, arms: Arms, m: State, lv: Lv, p: nat, e: nat,
                                 d: nat) returns (n: State)
    requires AtA(v.ls, isCase, arms, p, d) && Untaken(m, lv, isCase) && e == p + SizeA(arms)
    requires v.truth == w.truth && m.err == Fine && Len(m.nest) + 1 + d < MAXNEST && |m.h| <= w.limit
    ensures Led(v, Within(m, lv, p), n, RunArms(w, arms, 0, m.h), m, e)
    decreases w.limit - |m.h|, arms, 1
  {
    match arms
    case End =>
      EndFrom(v, isCase, m, lv, p, e);
      n := m.(pos := e);
    case Otherwise(body) => n := ShowLast(v, w, isCase, body, m, lv, p, e, d);
    case Arm(_, _, _) => n := ShowArm(v, w, arms, m, lv, p, e, d);
  }

  lemma {:induction false} ShowLast(v: Engine, w: World, isCase: bool, body: Block, m: State, lv: Lv, p: nat, e: nat,
                                    d: nat) returns (n: State)
    requires At(v.ls, body, p + 1, d) && Untaken(m, lv, isCase)
    requires Is(v.ls, p, if isCase then OtherwiseT else ElseT) && e == p + 2 + Size(body)
      && Is(v.ls, e - 1, if isCase then EndCaseT else EndIfT)
    requires v.truth == w.truth && m.err == Fine && Len(m.nest) + 1 + d < MAXNEST && |m.h| <= w.limit
    ensures Led(v, Within(m, lv, p), n, RunBlock(w, body, 0, m.h), m, e)
    decreases w.limit - |m.h|, body, 3
  {
    var lv2, z := Lv(if isCase then KOther else KElse, false, lv.c), e - 1;
    ElseFrom(v, isCase, m, lv, p);
    var n1 := ShowInside(v, w, body, Within(m, lv, p), m, lv2, p + 1, z, d);
    n := ThenEnd(v, isCase, Within(m, lv, p), n1, RunBlock(w, body, 0, m.h), m, lv2, z, e);
  }

  /** ELSE and OTHERWISE where no arm was taken. */
  lemma ElseFrom(v: Engine, isCase: bool, m: State, lv: Lv, p: nat)
    requires Is(v.ls, p, if isCase then OtherwiseT else ElseT) && m.err == Fine && Untaken(m, lv, isCase)
    ensures v.goes(Within(m, lv, p), Within(m, Lv(if isCase then KOther else KElse, false, lv.c), p + 1))
  {
    OneStep(v, Within(m, lv, p), Within(m, Lv(if isCase then KOther else KElse, false, lv.c), p + 1));
  }

  lemma {:induction false} ShowArm(v: Engine, w: World, arms: Arms, m: State, lv: Lv, p: nat, e: nat, d: nat)
    returns (n: State)
    requires arms.Arm? && AtA(v.ls, true, arms, p, d) && Untaken(m, lv, true) && e == p + SizeA(arms)
    requires v.truth == w.truth && m.err == Fine && Len(m.nest) + 1 + d < MAXNEST && |m.h| <= w.limit
    ensures Led(v, Within(m, lv, p), n, RunArms(w, arms, 0, m.h), m, e)
    decreases w.limit - |m.h|, arms, 0
  {
    var a := Within(m, lv, p);
    if |m.h| >= w.limit { NoStep(v, a); return a; }
    var h1, z := m.h + [arms.c], p + 1 + Size(arms.body);
    var m', lv2 := m.(h := h1), Lv(KCase, !w.truth(h1), w.truth(h1));
    OneStep(v, a, Within(m', lv2, p + 1));
    if w.truth(h1) {
      n := ShowTaken(v, w, true, arms.body, arms.rest, a, m', lv2, p + 1, z, e, d);
    } else {
      n := ShowNot(v, w, true, arms.body, arms.rest, a, m', lv2, p + 1, z, e, d);
    }
  }

  /** An arm that is not taken, after one line `a`, and the rest of its chain. */
  lemma {:induction false} ShowNot(v: Engine, w: World, isCase: bool, body: Block, rest: Arms, a: State, m: State,
                                   lv: Lv, q: nat, z: nat, e: nat, d: nat) returns (n: State)
    requires At(v.ls, body, q, d) && z == q + Size(body) && AtA(v.ls, isCase, rest, z, d) && e == z + SizeA(rest)
    requires v.truth == w.truth && m.err == Fine && Len(m.nest) + 1 + d < MAXNEST && |m.h| <= w.limit
    requires Untaken(m, lv, isCase) && lv.ign && v.goes(a, Within(m, lv, q))
    ensures Led(v, a, n, RunArms(w, rest, 0, m.h), m, e)
    decreases w.limit - |m.h|, rest, 2
  {
    SkipIn(v, body, a, m, lv, q, z, d);
    n := ShowA(v, w, isCase, rest, m, lv, z, e, d);
    Join(v, a, Within(m, lv, z), n);
  }

  // ------------------------------------------------------------- whole templates

  /** The lines of a body. */
  function LinesT(b: Block): (ls: seq<Tag>)
    requires Plain(b)
    ensures |ls| == Size(b)
    decreases b
  {
    match b case Nil => [] case Then(s, rest) => LinesTS(s) + LinesT(rest)
  }

  function LinesTS(s: Stmt): (ls: seq<Tag>)
    requires PlainS(s)
    ensures |ls| == SizeS(s)
    decreases s
  {
    match s
    case Do(t) => [Text(t)]
    case While(c, body) => [WhileT(c)] + LinesT(body) + [EndWhileT]
    case Choose(true, pre, arms) => [BeginCaseT] + LinesT(pre) + LinesTA(true, arms)
    case Choose(false, pre, arms) =>
      IfParts(s);
      IfPlain(s);
      match arms case Arm(c, body, rest) => [IfT(c)] + LinesT(body) + LinesTA(false, rest)
  }

  function LinesTA(isCase: bool, arms: Arms): (ls: seq<Tag>)
    requires PlainA(arms) && (isCase || !arms.Arm?)
    ensures |ls| == SizeA(arms)
    decreases arms
  {
    match arms
    case End => [if isCase then EndCaseT else EndIfT]
    case Otherwise(body) => [if isCase then OtherwiseT else ElseT] + LinesT(body) + [if isCase then EndCaseT
        else EndIfT]
    case Arm(c, body, rest) => [CaseT(c)] + LinesT(body) + LinesTA(isCase, rest)
  }

  /** `part` stands in `ls` from line `p` on. */
  predicate Holds(ls: seq<Tag>, part: seq<Tag>, p: nat) {
    p + |part| <= |ls| && ls[p..p + |part|] == part
  }

  lemma HoldsParts(ls: seq<Tag>, a: seq<Tag>, b: seq<Tag>, p: nat)
    requires Holds(ls, a + b, p)
    ensures Holds(ls, a, p) && Holds(ls, b, p + |a|)
  {
    var all := ls[p..p + |a + b|];
    assert all[..|a|] == a && all[|a|..] == b;
    assert ls[p..p + |a|] == all[..|a|] && ls[p + |a|..p + |a| + |b|] == all[|a|..];
  }

  lemma HoldsThree(ls: seq<Tag>, x: Tag, a: seq<Tag>, b: seq<Tag>, p: nat, z: nat)
    requires Holds(ls, [x] + a + b, p) && z == p + 1 + |a|
    ensures Is(ls, p, x) && Holds(ls, a, p + 1) && Holds(ls, b, z)
  {
    HoldsParts(ls, [x] + a, b, p);
    HoldsParts(ls, [x], a, p);
    assert ls[p..p + 1][0] == ls[p];
  }

  lemma HoldsOne(ls: seq<Tag>, x: Tag, p: nat)
    requires Holds(ls, [x], p)
    ensures Is(ls, p, x)
  {
    assert ls[p..p + 1][0] == ls[p];
  }

  lemma {:induction false} LinesAt(ls: seq<Tag>, b: Block, p: nat, d: nat)
    requires Plain(b) && Depth(b) <= d && Holds(ls, LinesT(b), p)
    ensures At(ls, b, p, d)
    decreases b
  {
    if b.Then? {
      HoldsParts(ls, LinesTS(b.s), LinesT(b.rest), p);
      LinesAtS(ls, b.s, p, d);
      LinesAt(ls, b.rest, p + SizeS(b.s), d);
    }
  }

  lemma {:induction false} LinesAtS(ls: seq<Tag>, s: Stmt, p: nat, d: nat)
    requires PlainS(s) && DepthS(s) <= d && Holds(ls, LinesTS(s), p)
    ensures AtS(ls, s, p, d)
    decreases s, 1
  {
    match s
    case Do(t) => HoldsOne(ls, Text(t), p);
    case While(c, body) =>
      var z := p + 1 + Size(body);
      HoldsThree(ls, WhileT(c), LinesT(body), [EndWhileT], p, z);
      HoldsOne(ls, EndWhileT, z);
      LinesAt(ls, body, p + 1, d - 1);
    case Choose(true, _, _) => LinesAtCase(ls, s, p, d);
    case Choose(false, _, _) => LinesAtIf(ls, s, p, d);
  }

  lemma {:induction false} LinesAtCase(ls: seq<Tag>, s: Stmt, p: nat, d: nat)
    requires s.Choose? && s.isCase && PlainS(s) && DepthS(s) <= d && Holds(ls, LinesTS(s), p)
    ensures AtS(ls, s, p, d)
    decreases s, 0
  {
    var z := p + 1 + Size(s.pre);
    HoldsThree(ls, BeginCaseT, LinesT(s.pre), LinesTA(true, s.arms), p, z);
    LinesAt(ls, s.pre, p + 1, d - 1);
    LinesAtA(ls, true, s.arms, z, d - 1);
  }

  lemma {:induction false} LinesAtIf(ls: seq<Tag>, s: Stmt, p: nat, d: nat)
    requires s.Choose? && !s.isCase && PlainS(s) && DepthS(s) <= d && Holds(ls, LinesTS(s), p)
    ensures AtS(ls, s, p, d)
    decreases s, 0
  {
    var a, z := s.arms, p + 1 + Size(s.arms.body);
    IfParts(s);
    IfPlain(s);
    assert LinesTS(s) == [IfT(a.c)] + LinesT(a.body) + LinesTA(false, a.rest);
    HoldsThree(ls, IfT(a.c), LinesT(a.body), LinesTA(false, a.rest), p, z);
    LinesAt(ls, a.body, p + 1, d - 1);
    LinesAtA(ls, false, a.rest, z, d - 1);
  }

  lemma {:induction false} LinesAtA(ls: seq<Tag>, isCase: bool, arms: Arms, p: nat, d: nat)
    requires PlainA(arms) && (isCase || !arms.Arm?) && DepthA(arms) <= d && Holds(ls, LinesTA(isCase, arms), p)
    ensures AtA(ls, isCase, arms, p, d)
    decreases arms, 1
  {
    match arms
    case End => HoldsOne(ls, if isCase then EndCaseT else EndIfT, p);
    case Otherwise(body) =>
      var e, z := if isCase then EndCaseT else EndIfT, p + 1 + Size(body);
      HoldsThree(ls, if isCase then OtherwiseT else ElseT, LinesT(body), [e], p, z);
      HoldsOne(ls, e, z);
      LinesAt(ls, body, p + 1, d);
    case Arm(_, _, _) => LinesAtArm(ls, arms, p, d);
  }

  lemma {:induction false} LinesAtArm(ls: seq<Tag>, arms: Arms, p: nat, d: nat)
    requires arms.Arm? && PlainA(arms) && DepthA(arms) <= d && Holds(ls, LinesTA(true, arms), p)
    ensures AtA(ls, true, arms, p, d)
    decreases arms, 0
  {
    var z := p + 1 + Size(arms.body);
    HoldsThree(ls, CaseT(arms.c), LinesT(arms.body), LinesTA(true, arms.rest), p, z);
    LinesAt(ls, arms.body, p + 1, d);
    LinesAtA(ls, true, arms.rest, z, d);
  }

  const FRESH: State := State(0, Empty, Empty, [], Empty, Fine)

  ghost predicate Comes(ls: seq<Tag>, truth: seq<Blk> -> bool, a: State, b: State) {
    exists k: nat {:trigger Steps(ls, truth, a, k)} :: Steps(ls, truth, a, k) == b
  }

  lemma StepsDrive(ls: seq<Tag>, truth: seq<Blk> -> bool) returns (v: Engine)
    ensures v.ls == ls && v.truth == truth
    ensures forall a, b :: v.goes(a, b) ==> Comes(ls, truth, a, b)
  {
    var e := Env(ls, truth, (a, b) => Comes(ls, truth, a, b));
    forall m ensures e.goes(m, Next(e.ls, e.truth, m)) {
      assert Steps(ls, truth, m, 1) == Steps(ls, truth, Next(ls, truth, m), 0);
    }
    forall m ensures e.goes(m, m) { assert Steps(ls, truth, m, 0) == m; }
    forall a, b, c | e.goes(a, b) && e.goes(b, c) ensures e.goes(a, c) {
      var j: nat :| Steps(ls, truth, a, j) == b;
      var k: nat :| Steps(ls, truth, b, k) == c;
      StepsMore(ls, truth, a, j, k);
    }
    v := e;
  }

  lemma {:induction false} StepsMore(ls: seq<Tag>, truth: seq<Blk> -> bool, m: State, j: nat, k: nat)
    ensures Steps(ls, truth, m, j + k) == Steps(ls, truth, Steps(ls, truth, m, j), k)
    decreases j
  {
    if j > 0 { StepsMore(ls, truth, Next(ls, truth, m), j - 1, k); }
  }

  /** A template that nests less than 16 levels deep is sent as its structure says: the same
      lines and the same conditions in the same order, and when that ends the interpreter is
      at the end of the file with both stacks empty. */
  lemma {:induction false} ShownAsWritten(b: Block, w: World) returns (k: nat)
    requires Plain(b) && Depth(b) < MAXNEST
    ensures var r, n := RunBlock(w, b, 0, []), Steps(LinesT(b), w.truth, FRESH, k);
      && n.h == r.h && (r.o == Normal || r.o == Cut)
      && (r.o == Normal ==> n == FRESH.(pos := |LinesT(b)|, h := r.h))
  {
    var ls := LinesT(b);
    assert ls[0..0 + |ls|] == ls;
    LinesAt(ls, b, 0, MAXNEST - 1);
    var v := StepsDrive(ls, w.truth);
    var n := Show(v, w, b, FRESH, 0, Size(b), MAXNEST - 1);
    assert Comes(ls, w.truth, FRESH, n);
    k :| Steps(ls, w.truth, FRESH, k) == n;
  }

  lemma {:induction false} Sent(ls: seq<Tag>, truth: seq<Blk> -> bool, m: State, k: nat)
    ensures m.h <= Steps(ls, truth, m, k).h
    ensures !(m.err == Fine && 0 <= m.pos < |ls|) ==> Steps(ls, truth, m, k) == m
    decreases k
  {
    if k > 0 {
      if m.err == Fine && 0 <= m.pos < |ls| { ProcessSends(m, ls[m.pos], truth); }
      Sent(ls, truth, Next(ls, truth, m), k - 1);
    }
  }

  lemma ProcessSends(m: State, l: Tag, truth: seq<Blk> -> bool)
    ensures m.h <= Process(m, l, truth).h
  {
  }

  /** And nothing else is: what was sent and evaluated after any number of lines read is
      exactly the first part of the structured run. */
  lemma {:induction false} ShowsNothingElse(b: Block, w: World, k: nat)
    requires Plain(b) && Depth(b) < MAXNEST
    ensures var h := Steps(LinesT(b), w.truth, FRESH, k).h; RunBlock(w.(limit := |h|), b, 0, []).h == h
  {
    var ls := LinesT(b);
    var h := Steps(ls, w.truth, FRESH, k).h;
    var j := ShownAsWritten(b, w.(limit := |h|));
    if j <= k {
      StepsMore(ls, w.truth, FRESH, j, k - j);
      Sent(ls, w.truth, Steps(ls, w.truth, FRESH, j), k - j);
    } else {
      StepsMore(ls, w.truth, FRESH, k, j - k);
      Sent(ls, w.truth, Steps(ls, w.truth, FRESH, k), j - k);
    }
  }

  // ------------------------------------------------------- the address stack

  /** The starting lines of the open WHILE levels that are not ignored, innermost first. */
  function LoopStarts(nest: Stack<Lv>, starts: Stack<int>): Stack<int> {
    if nest.Empty? || starts.Empty? then Empty
    else if nest.top.kind == KWhile && !nest.top.ign then Push(starts.top, LoopStarts(nest.below, starts.below))
    else LoopStarts(nest.below, starts.below)
  }

  /** Whatever is open inside something ignored is ignored. */
  predicate Nested(nest: Stack<Lv>) {
    nest.Empty? || ((Ign(nest.below) ==> nest.top.ign) && Nested(nest.below))
  }

  predicate Tracked(m: State) {
    Nested(m.nest) && Len(m.starts) == Len(m.nest) && m.addrs == LoopStarts(m.nest, m.starts)
  }

  /** For any lines, nested well or not: the address stack holds exactly the starting lines of
      the open WHILE levels that are not ignored, so it is never found empty. */
  lemma {:induction false} AddressesAreLoops(ls: seq<Tag>, truth: seq<Blk> -> bool, m: State, k: nat)
    requires Tracked(m) && m.err != STACKFAULT
    ensures var n := Steps(ls, truth, m, k); Tracked(n) && n.err != STACKFAULT
    decreases k
  {
    if k > 0 {
      if m.err == Fine && 0 <= m.pos < |ls| { LineTracked(m, ls[m.pos], truth); }
      AddressesAreLoops(ls, truth, Next(ls, truth, m), k - 1);
    }
  }

  lemma LineTracked(m: State, l: Tag, truth: seq<Blk> -> bool)
    requires Tracked(m) && m.err == Fine
    ensures var n := Process(m, l, truth); Tracked(n) && n.err != STACKFAULT
  {
    match l
    case Text(_) =>
    case WhileT(_) => OpenTracked(m, l, truth);
    case IfT(_) => OpenTracked(m, l, truth);
    case BeginCaseT => OpenTracked(m, l, truth);
    case ElseT => ChangeTracked(m, l, truth);
    case CaseT(_) => ChangeTracked(m, l, truth);
    case OtherwiseT => ChangeTracked(m, l, truth);
    case EndWhileT => ShutTracked(m, l, truth);
    case EndIfT => ShutTracked(m, l, truth);
    case EndCaseT => ShutTracked(m, l, truth);
  }

  lemma OpenTracked(m: State, l: Tag, truth: seq<Blk> -> bool)
    requires Tracked(m) && m.err == Fine && (l.WhileT? || l.IfT? || l.BeginCaseT?)
    ensures var n := Process(m, l, truth); Tracked(n) && n.err != STACKFAULT
  {
  }

  lemma ChangeTracked(m: State, l: Tag, truth: seq<Blk> -> bool)
    requires Tracked(m) && m.err == Fine && (l.ElseT? || l.CaseT? || l.OtherwiseT?)
    ensures var n := Process(m, l, truth); Tracked(n) && n.err != STACKFAULT
  {
  }

  lemma ShutTracked(m: State, l: Tag, truth: seq<Blk> -> bool)
    requires Tracked(m) && m.err == Fine && (l.EndWhileT? || l.EndIfT? || l.EndCaseT?)
    ensures var n := Process(m, l, truth); Tracked(n) && n.err != STACKFAULT
  {
  }
}
