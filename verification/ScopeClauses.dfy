/**
 * Compiling a command with scope clauses (server/hb/proc2.c:38-113, 659-732): a loop of ten
 * operations is laid down first and patched as the clauses come, in whatever order; the bodies
 * of FOR and WHILE, and the list of an update, follow it as subroutines.
 */
module ScopeClauses {
  import opened Pcode
  import opened ScopeCode

  /** Clauses as they stand in the command, with their bodies compiled. Fields is the list of an update. */
  datatype Item =
    | All
    | Next(back: bool, isInt: bool, k: nat)
    | For(body: seq<Pcode>)
    | While(body: seq<Pcode>)
    | Fields(body: seq<Pcode>)
    | Junk

  datatype Err = EXCESS_SYNTAX | INVALID_VALUE | ILL_SYNTAX | EXP_TOOLONG | BAD_EXP

  datatype Outcome<T> = Ok(v: T) | Bad(e: Err)

  /** The parts of the loop that are patched. */
  datatype Head = Head(scope: Opcode, n: int, go: int, wAddr: int, fAddr: int, act: Pcode, skip: int, end: int)

  function Ten(o: int, h: Head): (s: seq<Pcode>)
    ensures |s| == 10
  {
    [Pcode(h.scope, h.n), Pcode(GO_, h.go), Pcode(CALL, h.wAddr), Pcode(JMP_FALSE, h.end), Pcode(JMP_EOF_0, h.end),
     Pcode(CALL, h.fAddr), Pcode(JMP_FALSE, o + 8), h.act, Pcode(SKIP_, h.skip), Pcode(JUMP, o + 2)]
  }

  /** syn_stat, and whether the list of fields has come. */
  datatype Stat = Stat(all: bool, next: bool, for_: bool, while_: bool, fields: bool)

  /** A command half compiled: what precedes the loop, the loop, and what follows it. */
  datatype Form = Form(pre: seq<Pcode>, h: Head, tail: seq<Pcode>, st: Stat, b: Bodies)

  function Code(f: Form): (s: seq<Pcode>)
    ensures |s| == |f.pre| + 10 + |f.tail|
  {
    f.pre + Ten(|f.pre|, f.h) + f.tail
  }

  const RET: Pcode := Pcode(RETURN, 0)

  function Begin(pre: seq<Pcode>, act: Pcode, b: Bodies, fields: bool): Form {
    Form(pre, Head(SCOPE_F, 0, 1, 0, 0, act, 1, 0), [], Stat(false, false, false, false, fields), b)
  }

  /** The form with one more subroutine, if there is room for it. */
  function WithSub(f: Form, body: seq<Pcode>): Outcome<Form> {
    var g := f.(tail := f.tail + body + [RET]);
    if |Code(g)| > CODE_LIMIT then Bad(EXP_TOOLONG) else Ok(g)
  }

  /** process_fcode, and the list of fields of process_replace. */
  function Add(f: Form, it: Item): Outcome<Form> {
    var here := |Code(f)|;
    match it
    case All => if f.st.all then Bad(EXCESS_SYNTAX) else Ok(f.(st := f.st.(all := true)))
    case Next(back, isInt, k) =>
      if f.st.next then Bad(EXCESS_SYNTAX)
      else if !isInt then Bad(INVALID_VALUE)
      else
        var h := f.h.(n := k);
        Ok(f.(h := if back then h.(scope := SCOPE_B, skip := 0x81) else h, st := f.st.(next := true)))
    case For(body) =>
      if f.st.for_ then Bad(EXCESS_SYNTAX)
      else WithSub(f.(h := f.h.(fAddr := here), st := f.st.(for_ := true), b := f.b.(f := body)), body)
    case While(body) =>
      if f.st.while_ then Bad(EXCESS_SYNTAX)
      else WithSub(f.(h := f.h.(wAddr := here), st := f.st.(while_ := true), b := f.b.(w := body)), body)
    case Fields(body) =>
      if f.st.fields then Bad(ILL_SYNTAX)
      else WithSub(f.(h := f.h.(act := f.h.act.(opnd := here)), st := f.st.(fields := true), b := f.b.(act := body)),
          body)
    case Junk => Bad(ILL_SYNTAX)
  }

  function AddAll(f: Form, items: seq<Item>): Outcome<Form>
    decreases |items|
  {
    if items == [] then Ok(f)
    else match Add(f, items[0])
      case Bad(e) => Bad(e)
      case Ok(g) => AddAll(g, items[1..])
  }

  /** A condition that is not given holds always. */
  const ALWAYS: seq<Pcode> := [Pcode(PUSH_TF, 1)]

  predicate Full(f: Form) { f.st.for_ && f.st.while_ }

  /** The patches of fmod_op: the conditions not given go to what is generated next. */
  function Patched(f: Form): Form {
    var here := |Code(f)|;
    var h := if f.st.next then f.h.(go := 5) else f.h.(n := 0xff);
    f.(h := h.(fAddr := if f.st.for_ then h.fAddr else here, wAddr := if f.st.while_ then h.wAddr else here,
               end := if Full(f) then here else here + 2),
       b := f.b.(f := if f.st.for_ then f.b.f else ALWAYS, w := if f.st.while_ then f.b.w else ALWAYS))
  }

  /** fmod_op. */
  function Close(f: Form): Outcome<Form> { if Full(f) then Ok(Patched(f)) else WithSub(Patched(f), ALWAYS) }

  /** fcodegen, the clauses, and fmod_op. */
  function Compile(f: Form, items: seq<Item>): Outcome<Form> {
    if |Code(f)| > CODE_LIMIT then Bad(EXP_TOOLONG)
    else match AddAll(f, items)
      case Bad(e) => Bad(e)
      case Ok(g) => Close(g)
  }

  // ---- the bodies stay where their calls go ----

  /** The subroutine at address a is this body, and is not part of the loop. */
  ghost predicate Sub(f: Form, a: int, body: seq<Pcode>) {
    SubAt(Code(f), a, body) && (a + |body| < |f.pre| || |f.pre| + 10 <= a)
  }

  lemma SubStays(f: Form, g: Form, a: int, body: seq<Pcode>)
    requires Sub(f, a, body) && g.pre == f.pre && |f.tail| <= |g.tail| && g.tail[..|f.tail|] == f.tail
    ensures Sub(g, a, body)
  {
    var x, y, n := Code(f), Code(g), a + |body|;
    forall i | a <= i <= n ensures y[i] == x[i] {
      if i >= |f.pre| + 10 { assert x[i] == f.tail[i - |f.pre| - 10] == g.tail[i - |f.pre| - 10]; }
    }
    assert y[a..n] == x[a..n];
  }

  lemma SubNew(f: Form, body: seq<Pcode>)
    requires WithSub(f, body).Ok?
    ensures Sub(WithSub(f, body).v, |Code(f)|, body)
  {
    var a, y := |Code(f)|, Code(WithSub(f, body).v);
    assert y == Code(f) + body + [RET];
    assert y[a..a + |body|] == body;
  }

  /** Compiled expressions and field lists have no jumps. */
  ghost predicate PlainItem(it: Item) {
    match it
    case For(b) => Straight(b)
    case While(b) => Straight(b)
    case Fields(b) => Straight(b)
    case _ => true
  }

  /** f with its subroutines, whatever else of the loop was patched. */
  lemma AllStay(f: Form, g: Form)
    requires Sound(f) && g.pre == f.pre && |f.tail| <= |g.tail| && g.tail[..|f.tail|] == f.tail
    ensures f.st.for_ ==> Sub(g, f.h.fAddr, f.b.f)
    ensures f.st.while_ ==> Sub(g, f.h.wAddr, f.b.w)
    ensures f.st.fields && f.h.act.opcode.CALL? ==> Sub(g, f.h.act.opnd, f.b.act)
  {
    if f.st.for_ { SubStays(f, g, f.h.fAddr, f.b.f); }
    if f.st.while_ { SubStays(f, g, f.h.wAddr, f.b.w); }
    if f.st.fields && f.h.act.opcode.CALL? { SubStays(f, g, f.h.act.opnd, f.b.act); }
  }

  ghost predicate ScopeSound(h: Head) {
    h.scope == (if h.skip == 1 then SCOPE_F else SCOPE_B) && (h.skip == 1 || h.skip == 0x81) && h.go == 1
  }

  ghost predicate ActSound(f: Form) {
    Straight(f.b.act) && (if f.h.act.opcode.CALL? then Sub(f, f.h.act.opnd, f.b.act) else f.b.act == [f.h.act])
  }

  /** What is known of a command half compiled. */
  ghost predicate Sound(f: Form) {
    ScopeSound(f.h)
    && (f.st.for_ ==> Sub(f, f.h.fAddr, f.b.f) && Straight(f.b.f))
    && (f.st.while_ ==> Sub(f, f.h.wAddr, f.b.w) && Straight(f.b.w))
    && (f.st.fields ==> ActSound(f))
    && (!f.st.fields ==> f.h.act.opcode.CALL?)
  }

  lemma AddFor(f: Form, body: seq<Pcode>)
    requires Sound(f) && Straight(body) && Add(f, For(body)).Ok?
    ensures Sound(Add(f, For(body)).v)
  {
    var g := Add(f, For(body)).v;
    AllStay(f, g);
    SubNew(f.(h := f.h.(fAddr := |Code(f)|), st := f.st.(for_ := true), b := f.b.(f := body)), body);
  }

  lemma AddWhile(f: Form, body: seq<Pcode>)
    requires Sound(f) && Straight(body) && Add(f, While(body)).Ok?
    ensures Sound(Add(f, While(body)).v)
  {
    var g := Add(f, While(body)).v;
    AllStay(f, g);
    SubNew(f.(h := f.h.(wAddr := |Code(f)|), st := f.st.(while_ := true), b := f.b.(w := body)), body);
  }

  lemma AddFields(f: Form, body: seq<Pcode>)
    requires Sound(f) && Straight(body) && Add(f, Fields(body)).Ok?
    ensures Sound(Add(f, Fields(body)).v)
  {
    var g := Add(f, Fields(body)).v;
    AllStay(f, g);
    SubNew(f.(h := f.h.(act := f.h.act.(opnd := |Code(f)|)), st := f.st.(fields := true), b := f.b.(act := body)),
        body);
  }

  lemma AddSound(f: Form, it: Item)
    requires Sound(f) && PlainItem(it) && Add(f, it).Ok?
    ensures Sound(Add(f, it).v) && Add(f, it).v.pre == f.pre
  {
    match it
    case For(body) => AddFor(f, body);
    case While(body) => AddWhile(f, body);
    case Fields(body) => AddFields(f, body);
    case All => AllStay(f, Add(f, it).v);
    case Next(_, _, _) => AllStay(f, Add(f, it).v);
    case Junk => assert false;
  }

  lemma {:induction false} AddAllSound(f: Form, items: seq<Item>)
    requires Sound(f) && (forall it :: it in items ==> PlainItem(it)) && AddAll(f, items).Ok?
    ensures Sound(AddAll(f, items).v) && AddAll(f, items).v.pre == f.pre
    decreases |items|
  {
    if items != [] {
      assert items[0] in items;
      AddSound(f, items[0]);
      AddAllSound(Add(f, items[0]).v, items[1..]);
    }
  }

  function DirOf(f: Form): Dir { if f.h.skip == 1 then 1 else -1 }

  /** The loop as it stands once the command is compiled. */
  ghost predicate Stands(f: Form) {
    var o, code := |f.pre|, Code(f);
    LoopAt(code, o, |code|, DirOf(f), f.b)
    && code[o] == Pcode(if DirOf(f) == 1 then SCOPE_F else SCOPE_B, f.h.n)
    && code[o + 1] == Pcode(GO_, f.h.go)
    && (f.h.go == 1 || f.h.go == 5)
  }

  lemma TenAt(f: Form, i: int)
    requires 0 <= i < 10
    ensures Code(f)[|f.pre| + i] == Ten(|f.pre|, f.h)[i]
  {
  }

  lemma LoopStands(f: Form)
    requires ScopeSound(f.h.(go := 1)) && (f.h.go == 1 || f.h.go == 5) && f.h.end == |Code(f)|
    requires Sub(f, f.h.fAddr, f.b.f) && Straight(f.b.f)
    requires Sub(f, f.h.wAddr, f.b.w) && Straight(f.b.w)
    requires ActSound(f)
    ensures Stands(f)
  {
    TenAt(f, 0); TenAt(f, 1); TenAt(f, 2); TenAt(f, 3); TenAt(f, 4);
    TenAt(f, 5); TenAt(f, 6); TenAt(f, 7); TenAt(f, 8); TenAt(f, 9);
  }

  lemma CloseStands(f: Form)
    requires Sound(f) && f.st.fields && Close(f).Ok?
    ensures Stands(Close(f).v) && Close(f).v.pre == f.pre
  {
    var g := Close(f).v;
    AllStay(f, g);
    CloseSubs(f);
    LoopStands(g);
  }

  lemma CloseSubs(f: Form)
    requires Sound(f) && f.st.fields && Close(f).Ok?
    ensures var g := Close(f).v; Sub(g, g.h.fAddr, g.b.f) && Straight(g.b.f)
    ensures var g := Close(f).v; Sub(g, g.h.wAddr, g.b.w) && Straight(g.b.w)
  {
    var g := Close(f).v;
    AllStay(f, g);
    if !Full(f) { CloseAlways(f); }
  }

  lemma CloseAlways(f: Form)
    requires !Full(f) && Close(f).Ok?
    ensures Sub(Close(f).v, |Code(f)|, ALWAYS) && Straight(ALWAYS)
  {
    SubNew(Patched(f), ALWAYS);
  }

  // ---- which bodies they are ----

  /** The clause of each kind, if there is one. */
  function ForOf(items: seq<Item>): seq<Pcode>
    decreases |items|
  {
    if items == [] then ALWAYS else match items[0] case For(b) => b case _ => ForOf(items[1..])
  }

  function WhileOf(items: seq<Item>): seq<Pcode>
    decreases |items|
  {
    if items == [] then ALWAYS else match items[0] case While(b) => b case _ => WhileOf(items[1..])
  }

  /** The constant of the NEXT or PREV clause, 0xff if there is none, and its direction. */
  function CountOf(items: seq<Item>): (int, Dir)
    decreases |items|
  {
    if items == [] then (0xff, 1)
        else match items[0] case Next(back, _, k) => (k, if back then -1 else 1) case _ => CountOf(items[1..])
  }

  function FieldsOf(items: seq<Item>, dflt: seq<Pcode>): seq<Pcode>
    decreases |items|
  {
    if items == [] then dflt else match items[0] case Fields(b) => b case _ => FieldsOf(items[1..], dflt)
  }

  function HasNext(items: seq<Item>): bool
    decreases |items|
  {
    items != [] && (items[0].Next? || HasNext(items[1..]))
  }

  /** The condition a half compiled command has so far. */
  function ForNow(f: Form): seq<Pcode> { if f.st.for_ then f.b.f else ALWAYS }

  function WhileNow(f: Form): seq<Pcode> { if f.st.while_ then f.b.w else ALWAYS }

  function CountNow(f: Form): (int, Dir) { if f.st.next then (f.h.n, DirOf(f)) else (0xff, 1) }

  lemma {:induction false} ForPlan(f: Form, items: seq<Item>)
    requires AddAll(f, items).Ok?
    ensures ForNow(AddAll(f, items).v) == if f.st.for_ then f.b.f else ForOf(items)
    decreases |items|
  {
    if items != [] { ForPlan(Add(f, items[0]).v, items[1..]); }
  }

  lemma {:induction false} WhilePlan(f: Form, items: seq<Item>)
    requires AddAll(f, items).Ok?
    ensures WhileNow(AddAll(f, items).v) == if f.st.while_ then f.b.w else WhileOf(items)
    decreases |items|
  {
    if items != [] { WhilePlan(Add(f, items[0]).v, items[1..]); }
  }

  lemma {:induction false} CountPlan(f: Form, items: seq<Item>)
    requires AddAll(f, items).Ok? && (f.st.next || f.h.skip == 1)
    ensures var g := AddAll(f, items).v;
      CountNow(g) == (if f.st.next then CountNow(f) else CountOf(items)) && g.st.next == (f.st.next || HasNext(items))
    ensures AddAll(f, items).v.st.next || AddAll(f, items).v.h.skip == 1
    decreases |items|
  {
    if items != [] { CountPlan(Add(f, items[0]).v, items[1..]); }
  }

  lemma {:induction false} FieldsPlan(f: Form, items: seq<Item>)
    requires AddAll(f, items).Ok?
    ensures AddAll(f, items).v.b.act == if f.st.fields then f.b.act else FieldsOf(items, f.b.act)
    decreases |items|
  {
    if items != [] { FieldsPlan(Add(f, items[0]).v, items[1..]); }
  }

  lemma CompilePlan(f: Form, items: seq<Item>)
    requires Compile(f, items).Ok? && f.h.go == 1 && f.h.skip == 1 && !f.st.next && !f.st.for_ && !f.st.while_
    ensures var g := Compile(f, items).v;
      g.b == Bodies(WhileOf(items), ForOf(items), if f.st.fields then f.b.act else FieldsOf(items, f.b.act))
      && (g.h.n, DirOf(g)) == CountOf(items) && (HasNext(items) ==> g.h.go == 5) && (!HasNext(items) ==> g.h.go == 1)
  {
    ForPlan(f, items);
    WhilePlan(f, items);
    CountPlan(f, items);
    FieldsPlan(f, items);
    GoKept(f, items);
  }

  lemma {:induction false} GoKept(f: Form, items: seq<Item>)
    requires AddAll(f, items).Ok?
    ensures AddAll(f, items).v.h.go == f.h.go
    decreases |items|
  {
    if items != [] { GoKept(Add(f, items[0]).v, items[1..]); }
  }

  // ---- which lists of clauses compile ----

  datatype Kind = ALL | NEXT | FOR | WHILE | FIELDS | JUNK

  function KindOf(it: Item): Kind {
    match it case All => ALL case Next(_, _,
        _) => NEXT case For(_) => FOR case While(_) => WHILE case Fields(_) => FIELDS case Junk => JUNK
  }

  function Size(it: Item): nat {
    match it case For(b) => |b| + 1 case While(b) => |b| + 1 case Fields(b) => |b| + 1 case _ => 0
  }

  function Sizes(items: seq<Item>): nat
    decreases |items|
  {
    if items == [] then 0 else Size(items[0]) + Sizes(items[1..])
  }

  function Tally(items: seq<Item>, k: Kind): nat
    decreases |items|
  {
    if items == [] then 0 else (if KindOf(items[0]) == k then 1 else 0) + Tally(items[1..], k)
  }

  function Given(f: Form, k: Kind): nat {
    match k
    case ALL => if f.st.all then 1 else 0
    case NEXT => if f.st.next then 1 else 0
    case FOR => if f.st.for_ then 1 else 0
    case WHILE => if f.st.while_ then 1 else 0
    case FIELDS => if f.st.fields then 1 else 0
    case JUNK => 1
  }

  /** Each clause at most once, every count a whole number, nothing else. */
  ghost predicate Proper(f: Form, items: seq<Item>) {
    (forall k :: Given(f, k) + Tally(items, k) <= 1) && (forall it :: it in items && it.Next? ==> it.isInt)
  }

  lemma {:induction false} AddAllIff(f: Form, items: seq<Item>)
    requires |Code(f)| <= CODE_LIMIT
    ensures AddAll(f, items).Ok? <==> Proper(f, items) && |Code(f)| + Sizes(items) <= CODE_LIMIT
    ensures AddAll(f, items).Ok? ==> var g := AddAll(f, items).v;
      |Code(g)| == |Code(f)| + Sizes(items) && forall k :: Given(g, k) == Given(f, k) + Tally(items, k)
    decreases |items|
  {
    if items == [] {
      assert forall k :: Tally(items, k) == 0;
      assert forall k :: Given(f, k) <= 1;
    } else {
      var it, rest := items[0], items[1..];
      forall k ensures Tally(items, k) == (if KindOf(it) == k then 1 else 0) + Tally(rest, k) { }
      AddIff(f, it);
      if Add(f, it).Ok? {
        AddAllIff(Add(f, it).v, rest);
        ProperNext(f, items);
      } else {
        assert Proper(f, items) ==> Given(f, KindOf(it)) + Tally(items, KindOf(it)) <= 1 && it in items;
      }
    }
  }

  lemma AddIff(f: Form, it: Item)
    requires |Code(f)| <= CODE_LIMIT
    ensures Add(f, it).Ok? <==>
      Given(f, KindOf(it)) == 0 && (it.Next? ==> it.isInt) && |Code(f)| + Size(it) <= CODE_LIMIT
    ensures Add(f, it).Ok? ==> var g := Add(f, it).v;
      |Code(g)| == |Code(f)| + Size(it) && forall k :: Given(g, k) == Given(f, k) + (if KindOf(it) == k then 1 else 0)
  {
  }

  lemma ProperNext(f: Form, items: seq<Item>)
    requires items != [] && Add(f, items[0]).Ok? && (items[0].Next? ==> items[0].isInt)
    requires forall k :: Given(Add(f, items[0]).v, k) == Given(f, k) + (if KindOf(items[0]) == k then 1 else 0)
    ensures Proper(f, items) <==> Proper(Add(f, items[0]).v, items[1..])
  {
    var g, rest := Add(f, items[0]).v, items[1..];
    forall k ensures Given(f, k) + Tally(items, k) == Given(g, k) + Tally(rest, k) { }
    assert forall it :: it in items <==> it == items[0] || it in rest;
  }

  /**
   * The clauses compile exactly if none is given twice, every count is a whole number, and the
   * loop with its subroutines fits in the code.
   */
  lemma CompilesIff(f: Form, items: seq<Item>)
    requires !f.st.for_ && !f.st.while_
    ensures Compile(f, items).Ok? <==>
      Proper(f, items)
      && |Code(f)| + Sizes(items) + (if Tally(items, FOR) == 1 && Tally(items, WHILE) == 1 then 0 else 2) <= CODE_LIMIT
  {
    if |Code(f)| <= CODE_LIMIT {
      AddAllIff(f, items);
      if AddAll(f, items).Ok? {
        var g := AddAll(f, items).v;
        assert Given(g, FOR) == Tally(items, FOR) && Given(g, WHILE) == Tally(items, WHILE);
      }
    }
  }

  // ---- the whole command ----

  /** An update starts with its list of fields, or with its clauses. */
  datatype Lead = NoFields | FieldsFirst(body: seq<Pcode>)

  const PUTREC: Opcode := OTHER(0x19)

  /** The first form of an update: the list of fields as a subroutine, jumped over. */
  function FieldsForm(body: seq<Pcode>): Form {
    Begin([Pcode(JUMP, |body| + 2)] + body + [RET], Pcode(CALL, 1), Bodies([], [], body), true)
  }

  function ClausesForm(): Form { Begin([], Pcode(CALL, 1), Bodies([], [], []), false) }

  /** A command with one operation: count, delete, recall. */
  function OneForm(pre: seq<Pcode>, act: Pcode): Form { Begin(pre, act, Bodies([], [], [act]), true) }

  /** process_replace. */
  function Replace(lead: Lead, items: seq<Item>): Outcome<seq<Pcode>> {
    match lead
    case FieldsFirst(body) =>
      if items == [] then Finish([Pcode(JUMP, 1)] + body) else Closing(Compile(FieldsForm(body), items))
    case NoFields => if items == [] then Bad(BAD_EXP) else Closing(Compile(ClausesForm(), items))
  }

  function Closing(o: Outcome<Form>): Outcome<seq<Pcode>> {
    match o
    case Bad(e) => Bad(e)
    case Ok(g) => if !g.st.fields then Bad(BAD_EXP) else Finish(Code(g))
  }

  function Finish(code: seq<Pcode>): Outcome<seq<Pcode>> {
    if |code| + 1 > CODE_LIMIT then Bad(EXP_TOOLONG) else Ok(code + [Pcode(PUTREC, 1)])
  }
}
