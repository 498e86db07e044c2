/**
 * Expressions on the machine itself, with the stack and the constants as bytes (server/hb/int.c:
 * 106-140, 280-302, 452-595; server/hb/code.c:60-113).
 */
module ExprRun {
  import opened Options
  import opened Values
  import opened Expr
  import opened Pcode
  import opened ExprValue

  // ---- the machine ----

  /** The stack as bytes from its top down. A push fails when there is no room. */
  function Push(st: seq<byte>, v: Option<Value>, cap: nat): Option<seq<byte>> {
    if v.Some? && |Encode(v.v)| + |st| <= cap then Some(Encode(v.v) + st) else None
  }

  datatype Popped = Pop(v: Value, below: seq<byte>) | Underflow

  function PopStack(st: seq<byte>): Popped {
    if |st| < 2 || ValSize(st) > |st| || !Fits(Decode(st)) then Underflow else Pop(Decode(st), st[ValSize(st)..])
  }

  /** n values from the top, the deepest first. */
  function PopMany(st: seq<byte>, n: nat): Option<(seq<Value>, seq<byte>)>
    decreases n
  {
    if n == 0 then Some(([], st))
    else match PopStack(st)
      case Underflow => None
      case Pop(v, below) => match PopMany(below, n - 1) case None => None case Some(r) => Some((r.0 + [v], r.1))
  }

  /** Constant i, found by the walk of cb_data_offset. */
  function Constant(data: seq<byte>, i: int): Option<Value> {
    if i < 0 then None
    else
      var o := Offset(data, i);
      if o + 2 <= |data| && o + ValSize(data[o..]) <= |data|
          && Fits(Decode(data[o..])) then (var v: Value := Decode(data[o..]); Some(v)) else None
  }

  /** One operation. A retrieval pushes the name first, and a call the number of arguments. */
  function Exec(g: Lang, data: seq<byte>, cap: nat, i: Pcode, st: seq<byte>): Option<seq<byte>> {
    match i.opcode
    case PUSH => Push(st, Constant(data, i.opnd), cap)
    case NRETRV =>
      var name := Constant(data, i.opnd);
      if name.None? || Push(st, name, cap).None? then None else Push(st, g.lookup(name.v), cap)
    case DRETRV =>
      (match PopStack(st)
       case Underflow => None
       case Pop(a, below) => match PopStack(below) case Underflow => None case Pop(n, rest) => Push(rest,
           g.field(a, n), cap))
    case UOP => (match PopStack(st) case Underflow => None case Pop(v, below) => Push(below, g.uop(i.opnd, v), cap))
    case BOP =>
      (match PopStack(st)
       case Underflow => None
       case Pop(b, below) => match PopStack(below) case Underflow => None case Pop(a, rest) => Push(rest,
           g.bop(i.opnd, a, b), cap))
    case PUSH_N => if i.opnd < 0 then None else Push(st, Some(Count(i.opnd)), cap)
    case FCN => Called(g, Numbered(i.opnd), st, cap)
    case USRFCN =>
      var name := Constant(data, i.opnd);
      if name.None? then None else Called(g, Named(name.v), st, cap)
    case _ => None
  }

  /** The number on top of the stack, as push_int made it. */
  function IntOf(v: Value): nat { if v.Num? then FromLittle(v.raw) else 0 }

  function FromLittle(s: seq<byte>): (n: nat)
    decreases |s|
  {
    if s == [] then 0 else s[0] + 256 * FromLittle(s[1..])
  }

  /** A function pops the number of its arguments, and these, and pushes its result. */
  function Called(g: Lang, f: Callee, st: seq<byte>, cap: nat): Option<seq<byte>> {
    match PopStack(st)
    case Underflow => None
    case Pop(n, below) =>
      match PopMany(below, IntOf(n))
      case None => None
      case Some(r) => Push(r.1, Invoke(g, f, r.0), cap)
  }

  function Run(g: Lang, data: seq<byte>, cap: nat, code: seq<Pcode>, st: seq<byte>): Option<seq<byte>>
    decreases |code|
  {
    if code == [] then Some(st)
    else match Exec(g, data, cap, code[0], st) case None => None case Some(s) => Run(g, data, cap, code[1..], s)
  }

  // ---- single operations ----

  lemma PopPushed(v: Value, below: seq<byte>)
    ensures PopStack(Encode(v) + below) == Pop(v, below)
  {
    Decoded(v, below);
    assert (Encode(v) + below)[|Encode(v)|..] == below;
  }

  lemma ConstantFinds(data: seq<byte>, cs: seq<Value>, i: nat)
    requires Lies(data, 0, cs) && i < |cs|
    ensures Constant(data, i) == Some(cs[i])
  {
    OffsetFinds(data, cs, i);
  }

  /** A stack with a value on top. */
  function Over(v: Value, st: seq<byte>): seq<byte> { Encode(v) + st }

  /** The outcome of a run: the stack with the value on top. */
  function Onto(v: Option<Value>, st: seq<byte>): Option<seq<byte>> {
    if v.None? then None else Some(Over(v.v, st))
  }

  /** The room a value takes is the length of its bytes. */
  ghost predicate Sized(g: Lang) { forall v {:trigger g.size(v)} :: g.size(v) == |Encode(v)| }

  /** A push is of what there is room for. */
  lemma PushPut(g: Lang, st: seq<byte>, v: Option<Value>, cap: nat)
    requires Sized(g)
    ensures Push(st, v, cap) == Onto(Put(g, v, cap - |st|), st)
  {
  }

  lemma {:induction false} RunAppend(g: Lang, data: seq<byte>, cap: nat, a: seq<Pcode>, b: seq<Pcode>, st: seq<byte>)
    ensures Run(g, data, cap, a + b, st) ==
      (match Run(g, data, cap, a, st) case None => None case Some(s) => Run(g, data, cap, b, s))
    decreases |a|
  {
    if a == [] {
      assert a + b == b;
    } else {
      assert (a + b)[1..] == a[1..] + b;
      var s := Exec(g, data, cap, a[0], st);
      if s.Some? { RunAppend(g, data, cap, a[1..], b, s.v); }
    }
  }

  lemma RunOne(g: Lang, data: seq<byte>, cap: nat, i: Pcode, st: seq<byte>)
    ensures Run(g, data, cap, [i], st) == Exec(g, data, cap, i, st)
  {
    var s := Exec(g, data, cap, i, st);
    assert [i][1..] == [];
    if s.Some? { assert Run(g, data, cap, [], s.v) == s; }
  }

  lemma RunTwo(g: Lang, data: seq<byte>, cap: nat, i: Pcode, j: Pcode, st: seq<byte>)
    ensures Run(g, data, cap, [i, j], st) ==
      (match Exec(g, data, cap, i, st) case None => None case Some(s) => Exec(g, data, cap, j, s))
  {
    assert [i] + [j] == [i, j];
    RunAppend(g, data, cap, [i], [j], st);
    RunOne(g, data, cap, i, st);
    var s := Exec(g, data, cap, i, st);
    if s.Some? { RunOne(g, data, cap, j, s.v); }
  }

  lemma ExecUop(g: Lang, data: seq<byte>, cap: nat, t: int, v: Value, st: seq<byte>)
    requires Sized(g)
    ensures Exec(g, data, cap, Pcode(UOP, t), Encode(v) + st) == Onto(Put(g, g.uop(t, v), cap - |st|), st)
  {
    PopPushed(v, st);
    PushPut(g, st, g.uop(t, v), cap);
  }

  lemma ExecBop(g: Lang, data: seq<byte>, cap: nat, t: int, a: Value, b: Value, st: seq<byte>)
    requires Sized(g)
    ensures Exec(g, data, cap, Pcode(BOP, t), Encode(b) + (Encode(a) + st)) ==
      Onto(Put(g, g.bop(t, a, b), cap - |st|), st)
  {
    PopPushed(b, Encode(a) + st);
    PopPushed(a, st);
    PushPut(g, st, g.bop(t, a, b), cap);
  }

  lemma ExecPush(g: Lang, data: seq<byte>, cs: seq<Value>, cap: nat, i: nat, st: seq<byte>)
    requires Sized(g)
    requires Lies(data, 0, cs) && i < |cs|
    ensures Exec(g, data, cap, Pcode(PUSH, i), st) == Onto(Put(g, Some(cs[i]), cap - |st|), st)
  {
    ConstantFinds(data, cs, i);
    PushPut(g, st, Some(cs[i]), cap);
  }

  lemma ExecField(g: Lang, data: seq<byte>, cap: nat, a: Name, n: Name, st: seq<byte>)
    requires Sized(g)
    ensures Exec(g, data, cap, Pcode(DRETRV, NOOPND), Encode(a) + (Encode(n) + st)) ==
      Onto(Put(g, g.field(a, n), cap - |st|), st)
  {
    PopPushed(a, Encode(n) + st);
    PopPushed(n, st);
    PushPut(g, st, g.field(a, n), cap);
  }

  lemma ExecName(g: Lang, data: seq<byte>, cs: seq<Value>, cap: nat, n: Name, i: nat, st: seq<byte>)
    requires Sized(g)
    requires Lies(data, 0, cs) && i < |cs| && cs[i] == n
    ensures Exec(g, data, cap, Pcode(NRETRV, i), st) ==
      Onto(Looked(g, n, cap - |st|), st)
  {
    ConstantFinds(data, cs, i);
    PushPut(g, st, Some(n), cap);
    PushPut(g, st, g.lookup(n), cap);
  }

  lemma RunField(g: Lang, data: seq<byte>, cs: seq<Value>, cap: nat, a: Name, n: Name, i: nat, st: seq<byte>)
    requires Sized(g)
    requires Lies(data, 0, cs) && i + 1 < |cs| && cs[i] == a && cs[i + 1] == n
    ensures Run(g, data, cap, FieldCode(i), st) ==
      Onto(Fetched(g, a, n, cap - |st|), st)
  {
    var p, q, r := Pcode(PUSH, i + 1), Pcode(PUSH, i), Pcode(DRETRV, NOOPND);
    var s1 := Encode(n) + st;
    assert [p] + [q, r] == [p, q, r];
    RunAppend(g, data, cap, [p], [q, r], st);
    RunOne(g, data, cap, p, st);
    ExecPush(g, data, cs, cap, i + 1, st);
    RunTwo(g, data, cap, q, r, s1);
    ExecPush(g, data, cs, cap, i, s1);
    ExecField(g, data, cap, a, n, st);
  }

  // ---- calls ----

  /** The arguments on the stack, the last on top. */
  function Stacked(vs: seq<Value>, st: seq<byte>): seq<byte>
    decreases |vs|
  {
    if vs == [] then st else Stacked(vs[1..], Encode(vs[0]) + st)
  }

  lemma {:induction false} StackedLen(g: Lang, vs: seq<Value>, st: seq<byte>)
    requires Sized(g)
    ensures |Stacked(vs, st)| == Total(g, vs) + |st|
    decreases |vs|
  {
    if vs != [] { StackedLen(g, vs[1..], Encode(vs[0]) + st); }
  }

  lemma {:induction false} StackedEnd(vs: seq<Value>, v: Value, st: seq<byte>)
    ensures Stacked(vs + [v], st) == Encode(v) + Stacked(vs, st)
    decreases |vs|
  {
    if vs == [] {
      assert ([] + [v])[1..] == [];
      assert Stacked([], Encode(v) + st) == Encode(v) + st;
    } else {
      assert (vs + [v])[1..] == vs[1..] + [v];
      StackedEnd(vs[1..], v, Encode(vs[0]) + st);
    }
  }

  lemma {:induction false} PopsAll(vs: seq<Value>, st: seq<byte>)
    ensures PopMany(Stacked(vs, st), |vs|) == Some((vs, st))
    decreases |vs|
  {
    if vs != [] {
      var n := |vs| - 1;
      assert vs == vs[..n] + [vs[n]];
      StackedEnd(vs[..n], vs[n], st);
      PopPushed(vs[n], Stacked(vs[..n], st));
      PopsAll(vs[..n], st);
    }
  }

  function Power256(k: nat): nat { if k == 0 then 1 else 256 * Power256(k - 1) }

  lemma {:induction false} LittleBack(n: nat, k: nat)
    requires n < Power256(k)
    ensures FromLittle(Little(n, k)) == n
    decreases k
  {
    if k > 0 {
      LittleBack(n / 256, k - 1);
      assert ([n % 256] + Little(n / 256, k - 1))[1..] == Little(n / 256, k - 1);
    }
  }

  lemma CountBack(n: nat)
    requires n < 256
    ensures IntOf(Count(n)) == n
  {
    assert Power256(1) == 256;
    PowerGrows(1, SZ_LONG);
    LittleBack(n, SZ_LONG);
  }

  lemma {:induction false} PowerGrows(a: nat, b: nat)
    requires a <= b
    ensures 1 <= Power256(a) <= Power256(b)
    decreases b
  {
    if a < b { PowerGrows(a, b - 1); } else if a > 0 { PowerGrows(a - 1, a - 1); }
  }

  /** A call, once its arguments are on the stack. */
  lemma CallRuns(g: Lang, f: Callee, vs: seq<Value>, st: seq<byte>, cap: nat)
    requires Sized(g)
    requires |vs| < 256
    ensures Called(g, f, Encode(Count(|vs|)) + Stacked(vs, st), cap) == Onto(Put(g, Invoke(g, f, vs), cap - |st|), st)
  {
    PopPushed(Count(|vs|), Stacked(vs, st));
    CountBack(|vs|);
    PopsAll(vs, st);
    PushPut(g, st, Invoke(g, f, vs), cap);
  }

  /** PUSH_N and the call itself. */
  lemma RunCall(g: Lang, data: seq<byte>, cs: seq<Value>, cap: nat, n: Name, vs: seq<Value>, i: nat, st: seq<byte>)
    requires Sized(g)
    requires |vs| < 256 && (g.id(n) == -1 ==> Lies(data, 0, cs) && i < |cs| && cs[i] == n)
    ensures Run(g, data, cap, CallCode(g, n, |vs|, i), Stacked(vs, st)) == Onto(Apply(g, n, Some(vs), cap - |st|), st)
  {
    var s, count := Stacked(vs, st), Count(|vs|);
    var call := CallCode(g, n, |vs|, i)[1];
    RunTwo(g, data, cap, Pcode(PUSH_N, |vs|), call, s);
    StackedLen(g, vs, st);
    PushPut(g, s, Some(count), cap);
    ExecCall(g, data, cs, cap, n, i, |vs|, Encode(count) + s);
    CallRuns(g, CalleeOf(g, n), vs, st, cap);
  }

  lemma ExecCall(g: Lang, data: seq<byte>, cs: seq<Value>, cap: nat, n: Name, i: nat, count: nat, top: seq<byte>)
    requires g.id(n) == -1 ==> Lies(data, 0, cs) && i < |cs| && cs[i] == n
    ensures Exec(g, data, cap, CallCode(g, n, count, i)[1], top) == Called(g, CalleeOf(g, n), top, cap)
  {
    if g.id(n) == -1 { ConstantFinds(data, cs, i); }
  }

  // ---- the byte machine as the induction sees it ----

  function MemOf(g: Lang, data: seq<byte>, cap: nat): Mem<seq<byte>> {
    Mem((v: Value, st: seq<byte>) => Over(v, st), (st: seq<byte>) => cap - |st|,
        (code: seq<Pcode>, st: seq<byte>) => Run(g, data, cap, code, st))
  }

  lemma {:induction false} StackedPiled(g: Lang, data: seq<byte>, cap: nat, vs: seq<Value>, st: seq<byte>)
    ensures Piled(MemOf(g, data, cap), vs, st) == Stacked(vs, st)
    decreases |vs|
  {
    if vs != [] { StackedPiled(g, data, cap, vs[1..], Encode(vs[0]) + st); }
  }

  lemma MachineAppends(g: Lang, data: seq<byte>, cap: nat)
    ensures Appends(MemOf(g, data, cap))
  {
    var m := MemOf(g, data, cap);
    forall x, y, st: seq<byte> | Cut(x, y, st) ensures m.run(x + y, st) == Bound(m.run(x, st), m, y) {
      RunAppend(g, data, cap, x, y, st);
    }
  }

  lemma MachineLoads(g: Lang, data: seq<byte>, cs: seq<Value>, cap: nat)
    requires Lies(data, 0, cs) && Sized(g)
    ensures Loaded(g, cs, MemOf(g, data, cap))
  {
    var m := MemOf(g, data, cap);
    forall i: nat, st | i < |cs| ensures m.run([Pcode(PUSH, i)], st) == Atop(m, Put(g, Some(cs[i]), m.room(st)), st) {
      RunOne(g, data, cap, Pcode(PUSH, i), st);
      ExecPush(g, data, cs, cap, i, st);
    }
    forall i: nat, st | i < |cs| ensures m.run([Pcode(NRETRV, i)], st) == Atop(m, Looked(g, cs[i], m.room(st)), st) {
      RunOne(g, data, cap, Pcode(NRETRV, i), st);
      ExecName(g, data, cs, cap, cs[i], i, st);
    }
    forall i: nat,
        st | i + 1 < |cs| ensures m.run(FieldCode(i), st) == Atop(m, Fetched(g, cs[i], cs[i + 1], m.room(st)), st) {
      RunField(g, data, cs, cap, cs[i], cs[i + 1], i, st);
    }
  }

  lemma MachineOperates(g: Lang, data: seq<byte>, cap: nat)
    requires Sized(g)
    ensures Operates(g, MemOf(g, data, cap))
  {
    var m := MemOf(g, data, cap);
    forall t, v, st ensures m.run([Pcode(UOP, t)], m.over(v, st)) == Atop(m, Put(g, g.uop(t, v), m.room(st)), st) {
      RunOne(g, data, cap, Pcode(UOP, t), Over(v, st));
      ExecUop(g, data, cap, t, v, st);
    }
    forall t, a, b,
        st ensures m.run([Pcode(BOP, t)], m.over(b, m.over(a, st))) == Atop(m, Put(g, g.bop(t, a, b), m.room(st)), st) {
      RunOne(g, data, cap, Pcode(BOP, t), Over(b, Over(a, st)));
      ExecBop(g, data, cap, t, a, b, st);
    }
  }

  lemma MachineCalls(g: Lang, data: seq<byte>, cs: seq<Value>, cap: nat)
    requires Lies(data, 0, cs) && Sized(g)
    ensures MakesCalls(g, cs, MemOf(g, data, cap))
  {
    var m := MemOf(g, data, cap);
    forall n: Name, vs, i: nat, st | |vs| < 256 && (g.id(n) == -1 ==> i < |cs| && cs[i] == n)
      ensures m.run(CallCode(g, n, |vs|, i), Piled(m, vs, st)) == Atop(m, Apply(g, n, Some(vs), m.room(st)), st)
    {
      StackedPiled(g, data, cap, vs, st);
      RunCall(g, data, cs, cap, n, vs, i, st);
    }
  }

  lemma MachineShrinks(g: Lang, data: seq<byte>, cap: nat)
    requires Sized(g)
    ensures Shrinks(g, MemOf(g, data, cap))
  {
  }

  lemma MachineRuns(g: Lang, data: seq<byte>, cs: seq<Value>, cap: nat)
    requires Lies(data, 0, cs) && Sized(g)
    ensures Runs(g, cs, MemOf(g, data, cap))
  {
    MachineAppends(g, data, cap);
    MachineLoads(g, data, cs, cap);
    MachineOperates(g, data, cap);
    MachineCalls(g, data, cs, cap);
    MachineShrinks(g, data, cap);
    MachineRests(g, data, cap);
  }

  lemma MachineRests(g: Lang, data: seq<byte>, cap: nat)
    ensures forall s {:trigger MemOf(g, data, cap).run([], s)} :: MemOf(g, data, cap).run([], s) == Some(s)
  {
  }

  /** What MemOf stands for. */
  lemma Glue(g: Lang, data: seq<byte>, cap: nat, code: seq<Pcode>, v: Option<Value>, st: seq<byte>)
    requires MemOf(g, data, cap).run(code, st) == Atop(MemOf(g, data, cap), v, st)
    ensures Run(g, data, cap, code, st) == Onto(v, st)
  {
  }

  lemma RoomIs(g: Lang, data: seq<byte>, cap: nat, st: seq<byte>)
    ensures MemOf(g, data, cap).room(st) == cap - |st|
  {
  }

  lemma RunsAtop(g: Lang, data: seq<byte>, cs: seq<Value>, cap: nat, e: Expr, i: nat, code: seq<Pcode>, st: seq<byte>,
                 room: int, v: Option<Value>)
    requires Sized(g) && Lies(data, 0, cs) && From(cs, i, Consts(g, e)) && Small(e)
    requires room == cap - |st| && code == Code(g, e, i) && v == Eval(g, e, room)
    ensures Run(g, data, cap, code, st) == Onto(v, st)
  {
    MachineRuns(g, data, cs, cap);
    RoomIs(g, data, cap, st);
    LeavesIn(g, cs, MemOf(g, data, cap), e, i, st, room, v);
    Glue(g, data, cap, code, v, st);
  }

  /**
   * The code of an expression, run on any stack, leaves exactly one value more on it, the value
   * of the expression, and the stack below as it was; or it fails, exactly if the evaluation does.
   */
  lemma RunsTo(g: Lang, data: seq<byte>, cs: seq<Value>, cap: nat, e: Expr, i: nat, st: seq<byte>)
    requires Sized(g) && Lies(data, 0, cs) && From(cs, i, Consts(g, e)) && Small(e)
    ensures Run(g, data, cap, Code(g, e, i), st) == Onto(Eval(g, e, cap - |st|), st)
  {
    RunsAtop(g, data, cs, cap, e, i, Code(g, e, i), st, cap - |st|, Eval(g, e, cap - |st|));
  }
}
