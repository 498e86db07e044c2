/**
 * The code of an expression, and its value (server/hb/parse.c:296-470); and that the code leaves the
 * value on the stack, whatever the stack is made of.
 */
module ExprValue {
  import opened Options
  import opened Values
  import opened Expr
  import opened Pcode

  /** The operators as operands: the token codes. */
  function BinCode(op: BinOp): int {
    match op
    case AndOp => 0x11
    case OrOp => 0x12
    case RelOp(code) => 0x21 + code
    case Plus => 0x31
    case Minus => 0x32
    case Mult => 0x41
    case Div => 0x42
    case Power => 0x50
  }

  function UnCode(op: UnOp): int {
    match op case NotOf => 0x13 case PlusOf => 0x31 case MinusOf => 0x32
  }

  /**
   * What the operations do to values, NULL standing for an error: a number for each known
   * function, its result and that of a user's own function, and the values of names.
   */
  datatype Lang = Lang(
    id: Name -> int,
    bop: (int, Value, Value) -> Option<Value>,
    uop: (int, Value) -> Option<Value>,
    size: Value -> nat,
    lookup: Name -> Option<Value>,
    field: (Name, Name) -> Option<Value>,
    fcn: (int, seq<Value>) -> Option<Value>,
    usr: (Name, seq<Value>) -> Option<Value>)

  // ---- the code ----

  /** The constants an expression loads, in order. */
  function Consts(g: Lang, e: Expr): seq<Value>
    decreases e
  {
    match e
    case Const(v) => [v]
    case Var(n) => [n]
    case Field(a, n) => [a, n]
    case Fcn(n, args) => (if g.id(n) == -1 then [n] else []) + ConstsArgs(g, args)
    case Group(x) => Consts(g, x)
    case Un(_, x) => Consts(g, x)
    case Bin(_, l, r) => Consts(g, l) + Consts(g, r)
  }

  function ConstsArgs(g: Lang, args: Args): seq<Value>
    decreases args
  {
    match args case NoArgs => [] case Arg(e, rest) => Consts(g, e) + ConstsArgs(g, rest)
  }

  /** How many they are. */
  function Loads(g: Lang, e: Expr): nat
    decreases e
  {
    match e
    case Const(_) => 1
    case Var(_) => 1
    case Field(_, _) => 2
    case Fcn(n, args) => (if g.id(n) == -1 then 1 else 0) + LoadsArgs(g, args)
    case Group(x) => Loads(g, x)
    case Un(_, x) => Loads(g, x)
    case Bin(_, l, r) => Loads(g, l) + Loads(g, r)
  }

  function LoadsArgs(g: Lang, args: Args): nat
    decreases args
  {
    match args case NoArgs => 0 case Arg(e, rest) => Loads(g, e) + LoadsArgs(g, rest)
  }

  lemma {:induction false} LoadsAll(g: Lang, e: Expr)
    ensures |Consts(g, e)| == Loads(g, e)
    decreases e
  {
    match e
    case Fcn(_, args) => LoadsAllArgs(g, args);
    case Group(x) => LoadsAll(g, x);
    case Un(_, x) => LoadsAll(g, x);
    case Bin(_, l, r) =>
      LoadsAll(g, l);
      LoadsAll(g, r);
    case _ =>
  }

  lemma {:induction false} LoadsAllArgs(g: Lang, args: Args)
    ensures |ConstsArgs(g, args)| == LoadsArgs(g, args)
    decreases args
  {
    if args.Arg? {
      LoadsAll(g, args.e);
      LoadsAllArgs(g, args.rest);
    }
  }

  const NOOPND: int := 0xff

  function FieldCode(i: nat): seq<Pcode> { [Pcode(PUSH, i + 1), Pcode(PUSH, i), Pcode(DRETRV, NOOPND)] }

  /** A call, behind its arguments. */
  function CallCode(g: Lang, n: Name, count: nat, i: nat): seq<Pcode> {
    [Pcode(PUSH_N, count), if g.id(n) == -1 then Pcode(USRFCN, i) else Pcode(FCN, g.id(n))]
  }

  /** The code, when the next constant to be loaded is the i-th. */
  function Code(g: Lang, e: Expr, i: nat): seq<Pcode>
    decreases e
  {
    match e
    case Const(_) => [Pcode(PUSH, i)]
    case Var(_) => [Pcode(NRETRV, i)]
    case Field(_, _) => FieldCode(i)
    case Fcn(n, args) =>
      var usr := g.id(n) == -1;
      CodeArgs(g, args, if usr then i + 1 else i) + CallCode(g, n, CountArgs(args), i)
    case Group(x) => Code(g, x, i)
    case Un(op, x) => Code(g, x, i) + [Pcode(UOP, UnCode(op))]
    case Bin(op, l, r) => Code(g, l, i) + Code(g, r, i + Loads(g, l)) + [Pcode(BOP, BinCode(op))]
  }

  function CodeArgs(g: Lang, args: Args, i: nat): seq<Pcode>
    decreases args
  {
    match args case NoArgs => [] case Arg(e, rest) => Code(g, e, i) + CodeArgs(g, rest, i + Loads(g, e))
  }

  /** Stated of options, so that the sequences are compared as wholes. */
  lemma ArgCode(g: Lang, e: Expr, rest: Args, i: nat)
    ensures Some(CodeArgs(g, Arg(e, rest), i)) == Some(Code(g, e, i) + CodeArgs(g, rest, i + Loads(g, e)))
  {
  }

  // ---- what an expression means ----

  /** A number as push_int makes it. */
  function Count(n: nat): Value { Num(Little(n, SZ_LONG), 0) }

  const SZ_LONG: nat := 8

  function Little(n: nat, k: nat): (s: seq<byte>)
    ensures |s| == k
    decreases k
  {
    if k == 0 then [] else [n % 256] + Little(n / 256, k - 1)
  }

  /** v, if there is room for it on the stack. */
  function Put(g: Lang, v: Option<Value>, room: int): Option<Value> {
    if v.Some? && g.size(v.v) <= room then v else None
  }

  /** A known function by its number, a user's own by its name. */
  datatype Callee = Numbered(id: int) | Named(name: Name)

  function CalleeOf(g: Lang, n: Name): Callee { if g.id(n) == -1 then Named(n) else Numbered(g.id(n)) }

  function Invoke(g: Lang, f: Callee, vs: seq<Value>): Option<Value> {
    match f case Numbered(id) => g.fcn(id, vs) case Named(n) => g.usr(n, vs)
  }

  /** What a call means, once its arguments have values. */
  function Apply(g: Lang, n: Name, vs: Option<seq<Value>>, room: int): Option<Value> {
    match vs
    case None => None
    case Some(vs) =>
      if Total(g, vs) + g.size(Count(|vs|)) > room then None
      else Put(g, Invoke(g, CalleeOf(g, n), vs), room)
  }

  /** The value of a name, which is on the stack before it. */
  function Looked(g: Lang, n: Name, room: int): Option<Value> {
    if Put(g, Some(n), room).None? then None else Put(g, g.lookup(n), room)
  }

  /** A field of another table: both names are on the stack before it. */
  function Fetched(g: Lang, a: Name, n: Name, room: int): Option<Value> {
    if g.size(n) + g.size(a) > room then None else Put(g, g.field(a, n), room)
  }

  /** The value of e with `room` bytes left on the stack; None when an operation fails. */
  function Eval(g: Lang, e: Expr, room: int): Option<Value>
    decreases e
  {
    match e
    case Const(v) => Put(g, Some(v), room)
    case Var(n) => Looked(g, n, room)
    case Field(a, n) => Fetched(g, a, n, room)
    case Fcn(n, args) =>
      Apply(g, n, EvalArgs(g, args, room), room)
    case Group(x) => Eval(g, x, room)
    case Un(op, x) => UnValue(g, UnCode(op), Eval(g, x, room), room)
    case Bin(op, l, r) => var a := Eval(g, l, room); BinValue(g, BinCode(op), a, Eval(g, r, Less(g, room, a)), room)
  }

  /** The room left when a value has been pushed. */
  function Less(g: Lang, room: int, v: Option<Value>): int { if v.None? then room else room - g.size(v.v) }

  function UnValue(g: Lang, t: int, v: Option<Value>, room: int): Option<Value> {
    if v.None? then None else Put(g, g.uop(t, v.v), room)
  }

  function BinValue(g: Lang, t: int, a: Option<Value>, b: Option<Value>, room: int): Option<Value> {
    if a.None? || b.None? then None else Put(g, g.bop(t, a.v, b.v), room)
  }

  function Before(v: Option<Value>, vs: Option<seq<Value>>): Option<seq<Value>> {
    if v.None? || vs.None? then None else Some([v.v] + vs.v)
  }

  /** The arguments, the first one first. */
  function EvalArgs(g: Lang, args: Args, room: int): Option<seq<Value>>
    decreases args
  {
    match args
    case NoArgs => Some([])
    case Arg(e, rest) => var v := Eval(g, e, room); Before(v, EvalArgs(g, rest, Less(g, room, v)))
  }

  function Total(g: Lang, vs: seq<Value>): nat
    decreases |vs|
  {
    if vs == [] then 0 else g.size(vs[0]) + Total(g, vs[1..])
  }

  // ---- the machine as the induction sees it: a stack is whatever a value can be put on ----

  /** over puts a value on a stack, room tells what is left then. */
  datatype Mem<!S> = Mem(over: (Value, S) -> S, room: S -> int, run: (seq<Pcode>, S) -> Option<S>)

  function Bound<S>(o: Option<S>, m: Mem<S>, code: seq<Pcode>): Option<S> {
    match o case None => None case Some(s) => m.run(code, s)
  }

  function Atop<S>(m: Mem<S>, v: Option<Value>, st: S): Option<S> { if v.None? then None else Some(m.over(v.v, st)) }

  function Piled<S>(m: Mem<S>, vs: seq<Value>, st: S): S
    decreases |vs|
  {
    if vs == [] then st else Piled(m, vs[1..], m.over(vs[0], st))
  }

  function AtopAll<S>(m: Mem<S>, vs: Option<seq<Value>>,
                      st: S): Option<S> { if vs.None? then None else Some(Piled(m, vs.v, st)) }

  /** The stack with a value on it if there is one. */
  function With<S>(m: Mem<S>, v: Option<Value>, st: S): S { if v.None? then st else m.over(v.v, st) }

  /** Where a stretch of code is cut in two; only a place to ask for the law below. */
  predicate Cut<S>(x: seq<Pcode>, y: seq<Pcode>, st: S) { true }

  ghost predicate Appends<S(!new)>(m: Mem<S>) {
    forall x, y, st: S {:trigger Cut(x, y, st)} :: Cut(x, y, st) ==> m.run(x + y, st) == Bound(m.run(x, st), m, y)
  }

  ghost predicate Loaded<S(!new)>(g: Lang, cs: seq<Value>, m: Mem<S>) {
    (forall i: nat, st: S {:trigger m.run([Pcode(PUSH, i)], st)} :: i < |cs| ==>
       m.run([Pcode(PUSH, i)], st) == Atop(m, Put(g, Some(cs[i]), m.room(st)), st))
    && (forall i: nat, st: S {:trigger m.run([Pcode(NRETRV, i)], st)} :: i < |cs| ==>
       m.run([Pcode(NRETRV, i)], st) == Atop(m, Looked(g, cs[i], m.room(st)), st))
    && (forall i: nat, st: S {:trigger m.run(FieldCode(i), st)} :: i + 1 < |cs| ==>
       m.run(FieldCode(i), st) == Atop(m, Fetched(g, cs[i], cs[i + 1], m.room(st)), st))
  }

  ghost predicate Operates<S(!new)>(g: Lang, m: Mem<S>) {
    (forall t, v, st: S {:trigger m.run([Pcode(UOP, t)], m.over(v, st))} ::
       m.run([Pcode(UOP, t)], m.over(v, st)) == Atop(m, Put(g, g.uop(t, v), m.room(st)), st))
    && (forall t, a, b, st: S {:trigger m.run([Pcode(BOP, t)], m.over(b, m.over(a, st)))} ::
       m.run([Pcode(BOP, t)], m.over(b, m.over(a, st))) == Atop(m, Put(g, g.bop(t, a, b), m.room(st)), st))
  }

  ghost predicate MakesCalls<S(!new)>(g: Lang, cs: seq<Value>, m: Mem<S>) {
    forall n: Name, vs, i: nat, st: S {:trigger m.run(CallCode(g, n, |vs|, i), Piled(m, vs, st))} ::
      |vs| < 256 && (g.id(n) == -1 ==> i < |cs| && cs[i] == n) ==>
      m.run(CallCode(g, n, |vs|, i), Piled(m, vs, st)) == Atop(m, Apply(g, n, Some(vs), m.room(st)), st)
  }

  ghost predicate Shrinks<S(!new)>(g: Lang, m: Mem<S>) {
    forall v, st: S {:trigger m.over(v, st)} :: m.room(m.over(v, st)) == m.room(st) - g.size(v)
  }

  ghost predicate Runs<S(!new)>(g: Lang, cs: seq<Value>, m: Mem<S>) {
    Appends(m) && Loaded(g, cs, m) && Operates(g, m) && MakesCalls(g, cs, m) && Shrinks(g, m)
    && forall s: S {:trigger m.run([], s)} :: m.run([], s) == Some(s)
  }

  // ---- the code of an expression leaves its value ----

  /** The constants of an expression are those from the i-th on. */
  ghost predicate From(cs: seq<Value>, i: nat, mine: seq<Value>) { i + |mine| <= |cs| && cs[i..i + |mine|] == mine }

  lemma FromParts(cs: seq<Value>, i: nat, a: seq<Value>, b: seq<Value>)
    requires From(cs, i, a + b)
    ensures From(cs, i, a) && From(cs, i + |a|, b)
  {
    var ab := a + b;
    assert cs[i..i + |a|] == ab[..|a|] == a;
    assert cs[i + |a|..i + |a| + |b|] == ab[|a|..] == b;
  }

  lemma FromAt(cs: seq<Value>, i: nat, mine: seq<Value>, k: nat)
    requires From(cs, i, mine) && k < |mine|
    ensures cs[i + k] == mine[k]
  {
    assert cs[i..i + |mine|][k] == mine[k];
  }

  /** Few enough arguments in every call for the operand that counts them. */
  predicate Small(e: Expr)
    decreases e
  {
    match e
    case Fcn(_, args) => CountArgs(args) < 256 && SmallArgs(args)
    case Group(x) => Small(x)
    case Un(_, x) => Small(x)
    case Bin(_, l, r) => Small(l) && Small(r)
    case _ => true
  }

  predicate SmallArgs(args: Args)
    decreases args
  {
    args.NoArgs? || (Small(args.e) && SmallArgs(args.rest))
  }

  lemma JoinUn<S(!new)>(g: Lang, m: Mem<S>, x: seq<Pcode>, t: int, st: S, v: Option<Value>)
    requires Appends(m) && Operates(g, m) && m.run(x, st) == Atop(m, v, st)
    ensures m.run(x + [Pcode(UOP, t)], st) == Atop(m, UnValue(g, t, v, m.room(st)), st)
  {
    assert Cut(x, [Pcode(UOP, t)], st);
  }

  lemma JoinBin<S(!new)>(g: Lang, m: Mem<S>, x: seq<Pcode>, y: seq<Pcode>, t: int, st: S, a: Option<Value>, s: S,
                  b: Option<Value>)
    requires Appends(m) && Operates(g, m)
    requires m.run(x, st) == Atop(m, a, st) && s == With(m, a, st) && m.run(y, s) == Atop(m, b, s)
    ensures m.run(x + y + [Pcode(BOP, t)], st) == Atop(m, BinValue(g, t, a, b, m.room(st)), st)
  {
    assert Cut(x + y, [Pcode(BOP, t)], st) && Cut(x, y, st);
  }

  lemma JoinCall<S(!new)>(g: Lang, cs: seq<Value>, m: Mem<S>, x: seq<Pcode>, n: Name, vs: Option<seq<Value>>,
                   count: nat, i: nat, st: S)
    requires Appends(m) && MakesCalls(g, cs, m) && count < 256 && (g.id(n) == -1 ==> i < |cs| && cs[i] == n)
    requires m.run(x, st) == AtopAll(m, vs, st) && (vs.Some? ==> |vs.v| == count)
    ensures m.run(x + CallCode(g, n, count, i), st) == Atop(m, Apply(g, n, vs, m.room(st)), st)
  {
    assert Cut(x, CallCode(g, n, count, i), st);
  }

  lemma JoinArgs<S(!new)>(m: Mem<S>, x: seq<Pcode>, y: seq<Pcode>, st: S, v: Option<Value>, s: S,
                   vs: Option<seq<Value>>)
    requires Appends(m) && m.run(x, st) == Atop(m, v, st) && s == With(m, v, st) && m.run(y, s) == AtopAll(m, vs, s)
    ensures m.run(x + y, st) == AtopAll(m, Before(v, vs), st)
  {
    assert Cut(x, y, st);
    if v.Some? && vs.Some? { assert ([v.v] + vs.v)[1..] == vs.v; }
  }

  lemma {:induction false} Leaves<S(!new)>(g: Lang, cs: seq<Value>, m: Mem<S>, e: Expr, i: nat, st: S)
    requires Runs(g, cs, m) && From(cs, i, Consts(g, e)) && Small(e)
    ensures m.run(Code(g, e, i), st) == Atop(m, Eval(g, e, m.room(st)), st)
    decreases e, 2
  {
    match e
    case Const(v) => FromAt(cs, i, [v], 0);
    case Var(n) => FromAt(cs, i, [n], 0);
    case Field(a, n) =>
      FromAt(cs, i, [a, n], 0);
      FromAt(cs, i, [a, n], 1);
    case Fcn(_, _) => FcnLeaves(g, cs, m, e, i, st);
    case Group(x) => Leaves(g, cs, m, x, i, st);
    case Un(op, x) =>
      Leaves(g, cs, m, x, i, st);
      JoinUn(g, m, Code(g, x, i), UnCode(op), st, Eval(g, x, m.room(st)));
    case Bin(_, _, _) => BinLeaves(g, cs, m, e, i, st);
  }

  lemma {:induction false} BinLeaves<S(!new)>(g: Lang, cs: seq<Value>, m: Mem<S>, e: Expr, i: nat, st: S)
    requires Runs(g, cs, m) && From(cs, i, Consts(g, e)) && Small(e) && e.Bin?
    ensures m.run(Code(g, e, i), st) == Atop(m, Eval(g, e, m.room(st)), st)
    decreases e, 1
  {
    var x, y, a, s, b := Sides(g, cs, m, e, i, st);
    JoinBin(g, m, x, y, BinCode(e.bop), st, a, s, b);
  }

  lemma BinParts(g: Lang, e: Expr, i: nat, room: int)
    requires e.Bin?
    ensures Some(Code(g, e.l, i) + Code(g, e.r, i + Loads(g, e.l)) + [Pcode(BOP, BinCode(e.bop))]) ==
      Some(Code(g, e, i))
    ensures var a := Eval(g, e.l, room);
            Eval(g, e, room) == BinValue(g, BinCode(e.bop), a, Eval(g, e.r, Less(g, room, a)), room)
  {
  }

  /** The first operand and, above it, the second. */
  lemma {:induction false} Sides<S(!new)>(g: Lang, cs: seq<Value>, m: Mem<S>, e: Expr, i: nat, st: S)
    returns (x: seq<Pcode>, y: seq<Pcode>, a: Option<Value>, s: S, b: Option<Value>)
    requires Runs(g, cs, m) && From(cs, i, Consts(g, e)) && Small(e) && e.Bin?
    ensures Some(x + y + [Pcode(BOP, BinCode(e.bop))]) == Some(Code(g, e, i))
      && BinValue(g, BinCode(e.bop), a, b, m.room(st)) == Eval(g, e, m.room(st))
    ensures s == With(m, a, st) && m.run(x, st) == Atop(m, a, st) && m.run(y, s) == Atop(m, b, s)
    decreases e, 0
  {
    x, y := Code(g, e.l, i), Code(g, e.r, i + Loads(g, e.l));
    BinParts(g, e, i, m.room(st));
    LoadsAll(g, e.l);
    FromParts(cs, i, Consts(g, e.l), Consts(g, e.r));
    a := Eval(g, e.l, m.room(st));
    s := With(m, a, st);
    assert m.room(s) == Less(g, m.room(st), a);
    b := Eval(g, e.r, m.room(s));
    Leaves(g, cs, m, e.l, i, st);
    Leaves(g, cs, m, e.r, i + Loads(g, e.l), s);
  }

  lemma {:induction false} FcnLeaves<S(!new)>(g: Lang, cs: seq<Value>, m: Mem<S>, e: Expr, i: nat, st: S)
    requires Runs(g, cs, m) && From(cs, i, Consts(g, e)) && Small(e) && e.Fcn?
    ensures m.run(Code(g, e, i), st) == Atop(m, Eval(g, e, m.room(st)), st)
    decreases e, 0
  {
    var own := g.id(e.name) == -1;
    var lead := if own then [e.name] else [];
    var j := i + |lead|;
    FromParts(cs, i, lead, ConstsArgs(g, e.args));
    if own { FromAt(cs, i, lead, 0); }
    ArgsLeave(g, cs, m, e.args, j, st);
    ArgsCount(g, e.args, m.room(st));
    JoinCall(g, cs, m, CodeArgs(g, e.args, j), e.name, EvalArgs(g, e.args, m.room(st)), CountArgs(e.args), i, st);
  }

  lemma {:induction false} ArgsCount(g: Lang, args: Args, room: int)
    ensures var vs := EvalArgs(g, args, room); vs.Some? ==> |vs.v| == CountArgs(args)
    decreases args
  {
    if args.Arg? { ArgsCount(g, args.rest, Less(g, room, Eval(g, args.e, room))); }
  }

  lemma {:induction false} ArgsLeave<S(!new)>(g: Lang, cs: seq<Value>, m: Mem<S>, args: Args, i: nat, st: S)
    requires Runs(g, cs, m) && From(cs, i, ConstsArgs(g, args)) && SmallArgs(args)
    ensures m.run(CodeArgs(g, args, i), st) == AtopAll(m, EvalArgs(g, args, m.room(st)), st)
    decreases args, 1
  {
    if args.Arg? {
      var x, y, v, s, vs := ArgSides(g, cs, m, args, i, st);
      JoinArgs(m, x, y, st, v, s, vs);
    }
  }

  /** The first argument and, above it, the others. */
  lemma {:induction false} ArgSides<S(!new)>(g: Lang, cs: seq<Value>, m: Mem<S>, args: Args, i: nat, st: S)
    returns (x: seq<Pcode>, y: seq<Pcode>, v: Option<Value>, s: S, vs: Option<seq<Value>>)
    requires Runs(g, cs, m) && From(cs, i, ConstsArgs(g, args)) && SmallArgs(args) && args.Arg?
    ensures Some(x + y) == Some(CodeArgs(g, args, i)) && Before(v, vs) == EvalArgs(g, args, m.room(st))
    ensures s == With(m, v, st) && m.run(x, st) == Atop(m, v, st) && m.run(y, s) == AtopAll(m, vs, s)
    decreases args, 0
  {
    x, y := Code(g, args.e, i), CodeArgs(g, args.rest, i + Loads(g, args.e));
    LoadsAll(g, args.e);
    FromParts(cs, i, Consts(g, args.e), ConstsArgs(g, args.rest));
    v := Eval(g, args.e, m.room(st));
    s := With(m, v, st);
    assert m.room(s) == Less(g, m.room(st), v);
    vs := EvalArgs(g, args.rest, m.room(s));
    Leaves(g, cs, m, args.e, i, st);
    ArgsLeave(g, cs, m, args.rest, i + Loads(g, args.e), s);
  }

  /** The same, with the room by name. */
  lemma LeavesIn<S(!new)>(g: Lang, cs: seq<Value>, m: Mem<S>, e: Expr, i: nat, st: S, room: int, v: Option<Value>)
    requires Runs(g, cs, m) && From(cs, i, Consts(g, e)) && Small(e) && room == m.room(st) && v == Eval(g, e, room)
    ensures m.run(Code(g, e, i), st) == Atop(m, v, st)
  {
    Leaves(g, cs, m, e, i, st);
  }
}
