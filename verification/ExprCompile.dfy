/**
 * The compiler of expressions: recursive descent over the tokens, which appends code and loads
 * constants as it goes (server/hb/parse.c:39-130, 296-458).
 */
module ExprCompile {
  import opened Options
  import opened Values
  import opened Expr
  import opened Pcode
  import opened ExprValue
  import opened ScopeCompile
  import ScopeClauses

  const DATA_LIMIT: nat := 256
  const SIZE_LIMIT: nat := 16384 - 128 - 4

  /** What the compiler has in hand: the tokens left, the code and the constants so far. */
  datatype St = St(toks: Toks, code: seq<Pcode>, cs: seq<Value>)

  /** The code and the constants of expressions, as far as the compiler needs to know them: piece by piece. */
  datatype RawSem = RawSem(
    g: Lang, code: (Expr, nat) -> seq<Pcode>, consts: Expr -> seq<Value>, codeArgs: (Args, nat) -> seq<Pcode>,
        constsArgs: Args -> seq<Value>)

  function Lead(g: Lang, n: Name): seq<Value> { if g.id(n) == -1 then [n] else [] }

  ghost predicate SingleLaws(m: RawSem) {
    (forall v, i: nat {:trigger m.code(Const(v), i)} :: m.code(Const(v), i) == [Pcode(PUSH, i)])
    && (forall v {:trigger m.consts(Const(v))} :: m.consts(Const(v)) == [v])
    && (forall n, i: nat {:trigger m.code(Var(n), i)} :: m.code(Var(n), i) == [Pcode(NRETRV, i)])
    && (forall n {:trigger m.consts(Var(n))} :: m.consts(Var(n)) == [n])
    && (forall a, n, i: nat {:trigger m.code(Field(a, n), i)} :: m.code(Field(a, n), i) == FieldCode(i))
    && (forall a, n {:trigger m.consts(Field(a, n))} :: m.consts(Field(a, n)) == [a, n])
  }

  ghost predicate UnLaws(m: RawSem) {
    (forall e, i: nat {:trigger m.code(Group(e), i)} :: m.code(Group(e), i) == m.code(e, i))
    && (forall e {:trigger m.consts(Group(e))} :: m.consts(Group(e)) == m.consts(e))
    && (forall op, e,
        i: nat {:trigger m.code(Un(op, e), i)} :: m.code(Un(op, e), i) == m.code(e, i) + [Pcode(UOP, UnCode(op))])
    && (forall op, e {:trigger m.consts(Un(op, e))} :: m.consts(Un(op, e)) == m.consts(e))
  }

  ghost predicate BinLaws(m: RawSem) {
    (forall op, l, r, i: nat {:trigger m.code(Bin(op, l, r), i)} ::
       m.code(Bin(op, l, r), i) == m.code(l, i) + m.code(r, i + |m.consts(l)|) + [Pcode(BOP, BinCode(op))])
    && (forall op, l, r {:trigger m.consts(Bin(op, l, r))} :: m.consts(Bin(op, l, r)) == m.consts(l) + m.consts(r))
  }

  ghost predicate FcnLaws(m: RawSem) {
    (forall n, args, i: nat {:trigger m.code(Fcn(n, args), i)} ::
       m.code(Fcn(n, args), i) == m.codeArgs(args, i + |Lead(m.g, n)|) + CallCode(m.g, n, CountArgs(args), i))
    && (forall n, args {:trigger m.consts(Fcn(n, args))} :: m.consts(Fcn(n, args)) == Lead(m.g, n) + m.constsArgs(args))
  }

  ghost predicate ArgLaws(m: RawSem) {
    (forall i: nat {:trigger m.codeArgs(NoArgs, i)} :: m.codeArgs(NoArgs, i) == []) && m.constsArgs(NoArgs) == []
    && (forall e, rest, i: nat {:trigger m.codeArgs(Arg(e, rest), i)} ::
          m.codeArgs(Arg(e, rest), i) == m.code(e, i) + m.codeArgs(rest, i + |m.consts(e)|))
    && (forall e,
        rest {:trigger m.constsArgs(Arg(e, rest))} :: m.constsArgs(Arg(e, rest)) == m.consts(e) + m.constsArgs(rest))
  }

  ghost predicate Laws(m: RawSem) { SingleLaws(m) && UnLaws(m) && BinLaws(m) && FcnLaws(m) && ArgLaws(m) }

  /** The code and the constants of ExprValue. */
  function Raw(g: Lang): RawSem {
    RawSem(g, (e: Expr, i: nat) => Code(g, e, i), (e: Expr) => Consts(g, e), (a: Args, i: nat) => CodeArgs(g, a, i),
        (a: Args) => ConstsArgs(g, a))
  }

  lemma RawSingle(g: Lang)
    ensures SingleLaws(Raw(g))
  {
  }

  lemma RawUn(g: Lang)
    ensures UnLaws(Raw(g))
  {
  }

  // Stated of options, so that the sequences are compared as wholes and not item by item.

  lemma RawCode(g: Lang, e: Expr, i: nat)
    ensures Raw(g).code(e, i) == Code(g, e, i) && Raw(g).consts(e) == Consts(g, e)
  {
  }

  lemma RawArgs(g: Lang, a: Args, i: nat)
    ensures Raw(g).codeArgs(a, i) == CodeArgs(g, a, i) && Raw(g).constsArgs(a) == ConstsArgs(g, a)
  {
  }

  lemma RawBinAt(g: Lang, op: BinOp, l: Expr, r: Expr, i: nat)
    ensures var m := Raw(g);
      Some(m.code(Bin(op, l, r), i)) == Some(m.code(l, i) + m.code(r, i + |m.consts(l)|) + [Pcode(BOP, BinCode(op))])
      && Some(m.consts(Bin(op, l, r))) == Some(m.consts(l) + m.consts(r))
  {
    RawCode(g, Bin(op, l, r), i);
    RawCode(g, l, i);
    RawCode(g, r, i + Loads(g, l));
    LoadsAll(g, l);
  }

  lemma RawBin(g: Lang)
    ensures BinLaws(Raw(g))
  {
    var m := Raw(g);
    forall op, l, r,
        i: nat ensures m.code(Bin(op, l, r), i) ==
        m.code(l, i) + m.code(r, i + |m.consts(l)|) + [Pcode(BOP, BinCode(op))] {
      RawBinAt(g, op, l, r, i);
    }
    forall op, l, r ensures m.consts(Bin(op, l, r)) == m.consts(l) + m.consts(r) { RawBinAt(g, op, l, r, 0); }
  }

  lemma RawFcnAt(g: Lang, n: Name, args: Args, i: nat)
    ensures var m := Raw(g);
      Some(m.code(Fcn(n, args), i)) == Some(m.codeArgs(args, i + |Lead(g, n)|) + CallCode(g, n, CountArgs(args), i))
      && Some(m.consts(Fcn(n, args))) == Some(Lead(g, n) + m.constsArgs(args))
  {
    RawCode(g, Fcn(n, args), i);
    RawArgs(g, args, i + |Lead(g, n)|);
  }

  lemma RawFcn(g: Lang)
    ensures FcnLaws(Raw(g))
  {
    var m := Raw(g);
    forall n, args,
        i: nat ensures m.code(Fcn(n, args), i) ==
        m.codeArgs(args, i + |Lead(g, n)|) + CallCode(g, n, CountArgs(args), i) {
      RawFcnAt(g, n, args, i);
    }
    forall n, args ensures m.consts(Fcn(n, args)) == Lead(g, n) + m.constsArgs(args) { RawFcnAt(g, n, args, 0); }
  }

  lemma RawArgAt(g: Lang, e: Expr, rest: Args, i: nat)
    ensures var m := Raw(g);
      Some(m.codeArgs(Arg(e, rest), i)) == Some(m.code(e, i) + m.codeArgs(rest, i + |m.consts(e)|))
  {
    ArgCode(g, e, rest, i);
    RawCode(g, e, i);
    RawArgs(g, rest, i + Loads(g, e));
    RawArgs(g, Arg(e, rest), i);
    LoadsAll(g, e);
  }

  lemma RawArgConsts(g: Lang, e: Expr, rest: Args)
    ensures var m := Raw(g); Some(m.constsArgs(Arg(e, rest))) == Some(m.consts(e) + m.constsArgs(rest))
  {
  }

  lemma RawArg(g: Lang)
    ensures ArgLaws(Raw(g))
  {
    var m := Raw(g);
    forall e, rest,
        i: nat ensures m.codeArgs(Arg(e, rest), i) ==
        m.code(e, i) + m.codeArgs(rest, i + |m.consts(e)|) { RawArgAt(g, e, rest, i); }
    forall e, rest ensures m.constsArgs(Arg(e, rest)) == m.consts(e) + m.constsArgs(rest) { RawArgConsts(g, e, rest); }
  }

  lemma RawIs(g: Lang)
    ensures Laws(Raw(g))
  {
    RawSingle(g);
    RawUn(g);
    RawBin(g);
    RawFcn(g);
    RawArg(g);
  }

  function SemOf(g: Lang): (m: Sem)
    ensures m.g == g
  {
    RawIs(g);
    Raw(g)
  }

  /** No functions, no names, no values. */
  const NO_LANG: Lang := Lang(n => 0, (t, a, b) => None, (t, v) => None, v => 0, n => None, (a, n) => None,
      (f, vs) => None, (n, vs) => None)

  type Sem = m: RawSem | Laws(m) ghost witness (RawIs(NO_LANG); Raw(NO_LANG))

  /** Whether more code and more constants fit. */
  predicate Roomy(s: St, code: seq<Pcode>, cs: seq<Value>) {
    |s.code| + |code| <= CODE_LIMIT && |s.cs| + |cs| <= DATA_LIMIT && (cs != [] ==> |EncodeAll(s.cs + cs)| < SIZE_LIMIT)
  }

  /** At most 128 operations and 256 constants, and these in less than 16252 bytes. */
  lemma RoomyIs(s: St, code: seq<Pcode>, cs: seq<Value>)
    ensures Roomy(s, code, cs) <==>
      |s.code| + |code| <= 128 && |s.cs| + |cs| <= 256 && (cs == [] || |EncodeAll(s.cs + cs)| < 16252)
  {
  }

  /** The state with these, and other tokens left. */
  function Grow(s: St, code: seq<Pcode>, cs: seq<Value>, rest: Toks): St { St(rest, s.code + code, s.cs + cs) }

  /** What does not fit does not fit with more behind it. */
  lemma RoomyLess(s: St, c: seq<Pcode>, d: seq<Value>, c': seq<Pcode>, d': seq<Value>)
    requires Roomy(s, c + c', d + d')
    ensures Roomy(s, c, d)
  {
    assert s.cs + (d + d') == (s.cs + d) + d';
    EncodeAppend(s.cs + d, d');
  }

  /** What does not fit after the first part does not fit as a whole. */
  lemma RoomyAfter(s: St, c: seq<Pcode>, d: seq<Value>, c': seq<Pcode>, d': seq<Value>, rest: Toks)
    requires Roomy(s, c + c', d + d')
    ensures Roomy(Grow(s, c, d, rest), c', d')
  {
    assert s.cs + (d + d') == (s.cs + d) + d';
  }

  lemma GrowTwice(s: St, c: seq<Pcode>, d: seq<Value>, c': seq<Pcode>, d': seq<Value>, rest: Toks, rest': Toks)
    ensures Grow(Grow(s, c, d, rest), c', d', rest') == Grow(s, c + c', d + d', rest')
  {
  }

  lemma EncodeOne(v: Value)
    ensures EncodeAll([v]) == Encode(v)
  {
    assert [v][1..] == [] && EncodeAll([]) == [];
  }

  /** The same two facts, as a failure to fit carries upwards. */
  lemma TooLongMore(s: St, c: seq<Pcode>, d: seq<Value>, c': seq<Pcode>, d': seq<Value>)
    requires !Roomy(s, c, d)
    ensures !Roomy(s, c + c', d + d')
  {
    if Roomy(s, c + c', d + d') { RoomyLess(s, c, d, c', d'); }
  }

  lemma TooLongAfter(s: St, c: seq<Pcode>, d: seq<Value>, c': seq<Pcode>, d': seq<Value>, rest: Toks)
    requires !Roomy(Grow(s, c, d, rest), c', d')
    ensures !Roomy(s, c + c', d + d')
  {
    if Roomy(s, c + c', d + d') { RoomyAfter(s, c, d, c', d', rest); }
  }

  /** Something that does not fit after a first part, with more behind it. */
  lemma TooLongBetween(s: St, s1: St, c: seq<Pcode>, d: seq<Value>, c1: seq<Pcode>, d1: seq<Value>, c2: seq<Pcode>,
                       d2: seq<Value>)
    requires s1.code == s.code + c && s1.cs == s.cs + d && !Roomy(s1, c1, d1)
    ensures !Roomy(s, c + c1 + c2, d + d1 + d2)
  {
    assert s1 == Grow(s, c, d, s1.toks);
    TooLongAfter(s, c, d, c1, d1, s1.toks);
    TooLongMore(s, c + c1, d + d1, c2, d2);
  }

  /** The loop of a level goes on from the code it has. */
  lemma {:induction false} LoopExtends(m: Sem, k: nat, e: Expr, ts: Toks, arity: Arity, i: nat)
    returns (c: seq<Pcode>, d: seq<Value>)
    requires k < FACTOR && Loop(k, e, ts, arity).Got?
    ensures var r := Loop(k, e, ts, arity); m.code(r.e, i) == m.code(e, i) + c && m.consts(r.e) == m.consts(e) + d
    decreases Len(ts)
  {
    c, d := [], [];
    if ts.Tk? && ts.t.Op? && Prec(ts.t.op) == k {
      var p := Parse(k + 1, ts.rest, arity);
      var b := Bin(ts.t.op, e, p.e);
      var x, y, t := m.code(e, i), m.code(p.e, i + |m.consts(e)|), [Pcode(BOP, BinCode(ts.t.op))];
      if k != REL { c, d := LoopExtends(m, k, b, p.rest, arity, i); }
      BinCodeIs(m, ts.t.op, e, p.e, i, x, m.consts(e), y, m.consts(p.e));
      ThreeParts(x, y, t, c);
      Assoc(m.consts(e), m.consts(p.e), d);
      c, d := y + t + c, m.consts(p.e) + d;
    }
  }

  lemma LoopTooLong(m: Sem, s: St, k: nat, e: Expr, ts: Toks, arity: Arity)
    requires k < FACTOR && !Roomy(s, m.code(e, |s.cs|), m.consts(e))
    ensures var r := Loop(k, e, ts, arity); r.Got? ==> !Roomy(s, m.code(r.e, |s.cs|), m.consts(r.e))
  {
    if Loop(k, e, ts, arity).Got? {
      var c, d := LoopExtends(m, k, e, ts, arity, |s.cs|);
      TooLongMore(s, m.code(e, |s.cs|), m.consts(e), c, d);
    }
  }

  lemma BinCodeIs(m: Sem, op: BinOp, e: Expr, x: Expr, i: nat, c: seq<Pcode>, d: seq<Value>, c1: seq<Pcode>,
                  d1: seq<Value>)
    requires c == m.code(e, i) && d == m.consts(e) && c1 == m.code(x, i + |d|) && d1 == m.consts(x)
    ensures m.code(Bin(op, e, x), i) == c + c1 + [Pcode(BOP, BinCode(op))]
      && m.consts(Bin(op, e, x)) == d + d1 == d + d1 + []
  {
  }

  lemma ThreeParts<T>(s: seq<T>, a: seq<T>, b: seq<T>, c: seq<T>)
    ensures s + a + b + c == s + (a + b + c)
  {
  }

  /** The second operand does not fit after the first. */
  lemma BinTooLong(m: Sem, s: St, s1: St, op: BinOp, e: Expr, x: Expr, c: seq<Pcode>, d: seq<Value>, c1: seq<Pcode>,
                   d1: seq<Value>)
    requires c == m.code(e, |s.cs|) && d == m.consts(e) && c1 == m.code(x, |s.cs| + |d|) && d1 == m.consts(x)
    requires s1.code == s.code + c && s1.cs == s.cs + d && !Roomy(s1, c1, d1)
    ensures var b := Bin(op, e, x); !Roomy(s, m.code(b, |s.cs|), m.consts(b))
  {
    BinCodeIs(m, op, e, x, |s.cs|, c, d, c1, d1);
    TooLongBetween(s, s1, c, d, c1, d1, [Pcode(BOP, BinCode(op))], []);
  }

  /** Both operands and the operation are there. */
  lemma BinGrows(m: Sem, s: St, s1: St, s2: St, s3: St, op: BinOp, e: Expr, x: Expr, c: seq<Pcode>, d: seq<Value>,
                 c1: seq<Pcode>, d1: seq<Value>)
    requires c == m.code(e, |s.cs|) && d == m.consts(e) && c1 == m.code(x, |s.cs| + |d|) && d1 == m.consts(x)
    requires s1.code == s.code + c && s1.cs == s.cs + d && s2.code == s1.code + c1 && s2.cs == s1.cs + d1
    requires s3.code == s2.code + [Pcode(BOP, BinCode(op))] && s3.cs == s2.cs + []
    ensures var b := Bin(op, e, x); s3 == Grow(s, m.code(b, |s.cs|), m.consts(b), s3.toks)
  {
    BinCodeIs(m, op, e, x, |s.cs|, c, d, c1, d1);
    ThreeParts(s.code, c, c1, [Pcode(BOP, BinCode(op))]);
    ThreeParts(s.cs, d, d1, []);
  }

  /** An operation does not fit after its operands. */
  lemma LastTooLong(s: St, c: seq<Pcode>, d: seq<Value>, i: seq<Pcode>, rest: Toks)
    requires !Roomy(Grow(s, c, d, rest), i, [])
    ensures !Roomy(s, c + i, d)
  {
    TooLongAfter(s, c, d, i, [], rest);
    assert d + [] == d;
  }

  datatype Result = Accepted | BAD_EXP | EXP_TOOLONG

  /** What a routine of the compiler makes of the parse it follows. */
  ghost predicate Follows(m: Sem, r: Result, s: St, s': St, p: Parsed) {
    match r
    case Accepted => p.Got? && s' == Grow(s, m.code(p.e, |s.cs|), m.consts(p.e), p.rest)
    case EXP_TOOLONG => p.Got? ==> !Roomy(s, m.code(p.e, |s.cs|), m.consts(p.e))
    case BAD_EXP => p.Bad?
  }

  class Compiler {
    const g: Lang
    ghost const m: Sem
    const arity: Arity
    const buf: CodeBuffer
    const pdata: array<byte>
    var nextdata: nat
    var toks: Toks
    ghost var consts: seq<Value>

    ghost predicate Valid()
      reads this, buf, buf.pcode, pdata
    {
      m.g == g && buf.Valid() && buf.pcode != pdata as object
      && pdata.Length == SIZE_LIMIT && nextdata == |consts| <= DATA_LIMIT
      && |EncodeAll(consts)| <= SIZE_LIMIT && pdata[..|EncodeAll(consts)|] == EncodeAll(consts)
    }

    ghost function View(): St
      requires Valid()
      reads this, buf, buf.pcode, pdata
    {
      St(toks, buf.Contents(), consts)
    }

    constructor (g: Lang, arity: Arity, toks: Toks)
      ensures Valid() && View() == St(toks, [], []) && this.g == g && this.arity == arity && m == SemOf(g)
      ensures fresh(buf) && fresh(buf.pcode) && fresh(pdata)
    {
      this.g, this.arity, this.toks, m := g, arity, toks, SemOf(g);
      buf := new CodeBuffer();
      pdata := new byte[SIZE_LIMIT](_ => 0);
      nextdata := 0;
      consts := [];
    }

    method Emit(op: Opcode, opnd: int) returns (r: Result)
      requires Valid()
      modifies buf`nextcode, buf.pcode
      ensures Valid() && r != BAD_EXP
      ensures r == if Roomy(old(View()), [Pcode(op, opnd)], []) then Accepted else EXP_TOOLONG
      ensures r == Accepted ==> View() == Grow(old(View()), [Pcode(op, opnd)], [], toks)
    {
      var st := buf.Codegen(Pcode(op, opnd));
      r := if st.Fine? then Accepted else EXP_TOOLONG;
    }

    lemma ConstsLie()
      requires Valid()
      ensures Lies(pdata[..], 0, consts)
    {
      var n := |EncodeAll(consts)|;
      AllLie(pdata[..], consts, n);
    }

    /** cb_data_offset over all constants loaded so far. */
    method CbDataOffset() returns (offset: nat)
      requires Valid()
      ensures offset == |EncodeAll(consts)|
    {
      ConstsLie();
      offset := WalkOver(pdata[..], nextdata, consts);
    }

    /** loadstring and its kin: v becomes the next constant. */
    method Load(v: Value) returns (r: Result, i: nat)
      requires Valid()
      modifies this`nextdata, this`consts, pdata
      ensures Valid() && r != BAD_EXP
      ensures r == if Roomy(old(View()), [], [v]) then Accepted else EXP_TOOLONG
      ensures r == Accepted ==> View() == Grow(old(View()), [], [v], toks) && i == |old(View()).cs|
    {
      i := nextdata;
      var offset := CbDataOffset();
      var bytes := Encode(v);
      EncodeAppend(consts, [v]);
      EncodeOne(v);
      if nextdata >= DATA_LIMIT || offset + |bytes| >= SIZE_LIMIT { return EXP_TOOLONG, i; }
      Write(offset, bytes);
      consts := consts + [v];
      nextdata := nextdata + 1;
      r := Accepted;
    }

    method Write(offset: nat, bytes: seq<byte>)
      requires offset + |bytes| <= pdata.Length
      modifies pdata
      ensures pdata[..offset + |bytes|] == old(pdata[..offset]) + bytes
    {
      var k := 0;
      while k < |bytes|
        invariant k <= |bytes| && pdata[..offset] == old(pdata[..offset]) && pdata[offset..offset + k] == bytes[..k]
      {
        pdata[offset + k] := bytes[k];
        k := k + 1;
      }
      assert bytes[..k] == bytes;
      assert pdata[..offset + k] == pdata[..offset] + pdata[offset..offset + k];
    }

    // ---- the routines, each against the parse it is ----

    /** term1, term, simple_expr, rel_expr1, rel_expr and expression, which differ in their operators and
        in that rel_expr1 takes one operator only; and factor. */
    method Level(k: nat) returns (r: Result)
      requires Valid() && k <= FACTOR
      modifies this`toks, this`nextdata, this`consts, pdata, buf`nextcode, buf.pcode
      ensures Valid() && Follows(m, r, old(View()), View(), Parse(k, old(toks), arity))
      decreases Len(toks), FACTOR - k, 1
    {
      if k == FACTOR {
        r := FactorRoutine();
        return;
      }
      ghost var s, ts, p := View(), toks, Parse(k + 1, toks, arity);
      r := Level(k + 1);
      if r != Accepted {
        if p.Got? { LoopTooLong(m, s, k, p.e, p.rest, arity); }
        return;
      }
      ghost var e := p.e;
      var more := true;
      while more && toks.Tk? && toks.t.Op? && Prec(toks.t.op) == k
        invariant Valid() && r == Accepted && Len(toks) < Len(ts)
        invariant View() == Grow(s, m.code(e, |s.cs|), m.consts(e), toks)
        invariant Parse(k, ts, arity) == if more then Loop(k, e, toks, arity) else Got(e, toks)
        decreases more, Len(toks)
      {
        r, e := Operand(k, s, ts, e);
        if r != Accepted { return; }
        more := k != REL;
      }
    }

    /** One round of the loop of a level: an operator and the operand behind it. */
    method Operand(k: nat, ghost s: St, ghost ts: Toks, ghost e: Expr) returns (r: Result, ghost b: Expr)
      requires Valid() && k < FACTOR && toks.Tk? && toks.t.Op? && Prec(toks.t.op) == k
      requires View() == Grow(s, m.code(e, |s.cs|), m.consts(e), toks) && Parse(k, ts, arity) == Loop(k, e, toks, arity)
      modifies this`toks, this`nextdata, this`consts, pdata, buf`nextcode, buf.pcode
      ensures Valid()
      ensures r != Accepted ==> Follows(m, r, s, View(), Parse(k, ts, arity))
      ensures r == Accepted ==> Len(toks) < old(Len(toks)) && View() == Grow(s, m.code(b, |s.cs|), m.consts(b), toks)
      ensures r == Accepted ==> Parse(k, ts, arity) == if k == REL then Got(b, toks) else Loop(k, b, toks, arity)
      decreases Len(toks), FACTOR - k, 0
    {
      var op := toks.t.op;
      toks := toks.rest;
      ghost var p, i := Parse(k + 1, toks, arity), |s.cs| + |m.consts(e)|;
      ghost var s1, c, d := View(), m.code(e, |s.cs|), m.consts(e);
      b := if p.Got? then Bin(op, e, p.e) else e;
      r := Level(k + 1);
      if r != Accepted {
        if r == EXP_TOOLONG && p.Got? { OperandFails(m, s, s1, k, op, e, p.e, p.rest, arity); }
        return;
      }
      ghost var s2 := View();
      r := Emit(BOP, BinCode(op));
      OperandFollows(m, r, s, s1, s2, View(), k, op, e, p.e, p.rest, arity);
    }

    method FactorRoutine() returns (r: Result)
      requires Valid()
      modifies this`toks, this`nextdata, this`consts, pdata, buf`nextcode, buf.pcode
      ensures Valid() && Follows(m, r, old(View()), View(), Factor(old(toks), arity))
      decreases Len(toks), 0, 0
    {
      match toks
      case Tk(Op(Plus), _) => r := SignRoutine(PlusOf);
      case Tk(Op(Minus), _) => r := SignRoutine(MinusOf);
      case Tk(NotT, _) => r := SignRoutine(NotOf);
      case Tk(Lit(v), rest) => r := ConstRoutine(v, rest);
      case Tk(LParen, rest) => r := GroupRoutine(rest);
      case Tk(Id(_), _) => r := NameRoutine();
      case _ => r := BAD_EXP;
    }

    /** A name: of a function, a table, or a field or variable. */
    method NameRoutine() returns (r: Result)
      requires Valid() && toks.Tk? && toks.t.Id?
      modifies this`toks, this`nextdata, this`consts, pdata, buf`nextcode, buf.pcode
      ensures Valid() && Follows(m, r, old(View()), View(), Factor(old(toks), arity))
      decreases Len(toks), 0, -1
    {
      match toks
      case Tk(Id(n), Tk(LParen, rest)) =>
        assert Len(toks) == 2 + Len(rest);
        r := CallRoutine(n, rest);
      case Tk(Id(a), Tk(Arrow, Tk(Id(n), rest))) => r := FieldRoutine(a, n, rest);
      case Tk(Id(_), Tk(Arrow, _)) => r := BAD_EXP;
      case Tk(Id(_), Tk(LBrkt, _)) => r := BAD_EXP;
      case Tk(Id(n), rest) => r := VarRoutine(n, rest);
    }

    /** An expression in parentheses. */
    method GroupRoutine(rest: Toks) returns (r: Result)
      requires Valid()
      modifies this`toks, this`nextdata, this`consts, pdata, buf`nextcode, buf.pcode
      ensures Valid() && Follows(m, r, old(View()), View(), Grouped(Parse(0, rest, arity)))
      decreases Len(rest), FACTOR, 3
    {
      toks := rest;
      r := Level(0);
      if r != Accepted { return; }
      if !toks.Tk? || !toks.t.RParen? { return BAD_EXP; }
      toks := toks.rest;
    }

    /** A sign or NOT. */
    method SignRoutine(op: UnOp) returns (r: Result)
      requires Valid() && toks.Tk?
      modifies this`toks, this`nextdata, this`consts, pdata, buf`nextcode, buf.pcode
      ensures Valid() && Follows(m, r, old(View()), View(), Signed(op, Factor(old(toks).rest, arity)))
      decreases Len(toks), 0, -1
    {
      ghost var s, p := View(), Factor(toks.rest, arity);
      toks := toks.rest;
      r := FactorRoutine();
      if r != Accepted {
        if p.Got? && r == EXP_TOOLONG {
          TooLongMore(s, m.code(p.e, |s.cs|), m.consts(p.e), [Pcode(UOP, UnCode(op))], []);
          assert m.consts(p.e) + [] == m.consts(p.e);
        }
        return;
      }
      r := Emit(UOP, UnCode(op));
      if r != Accepted { LastTooLong(s, m.code(p.e, |s.cs|), m.consts(p.e), [Pcode(UOP, UnCode(op))], p.rest); }
    }

    /** A constant, or a name to be retrieved: load it and generate one operation on it. */
    method LoadAnd(opcode: Opcode, v: Value, rest: Toks) returns (r: Result)
      requires Valid()
      modifies this`toks, this`nextdata, this`consts, pdata, buf`nextcode, buf.pcode
      ensures var s := old(View()); var c := [Pcode(opcode, |s.cs|)];
        Valid() && r != BAD_EXP && (r == Accepted ==> View() == Grow(s, c, [v], rest))
            && (r == EXP_TOOLONG ==> !Roomy(s, c, [v]))
    {
      ghost var s := View();
      var i;
      r, i := Load(v);
      if r != Accepted {
        TooLongMore(s, [], [v], [Pcode(opcode, i)], []);
        return;
      }
      r := Emit(opcode, i);
      if r != Accepted { LastTooLong(s, [], [v], [Pcode(opcode, i)], toks); }
      toks := rest;
    }

    method ConstRoutine(v: Value, rest: Toks) returns (r: Result)
      requires Valid()
      modifies this`toks, this`nextdata, this`consts, pdata, buf`nextcode, buf.pcode
      ensures Valid() && Follows(m, r, old(View()), View(), Got(Const(v), rest))
    {
      r := LoadAnd(PUSH, v, rest);
    }

    method VarRoutine(n: Name, rest: Toks) returns (r: Result)
      requires Valid()
      modifies this`toks, this`nextdata, this`consts, pdata, buf`nextcode, buf.pcode
      ensures Valid() && Follows(m, r, old(View()), View(), Got(Var(n), rest))
    {
      r := LoadAnd(NRETRV, n, rest);
    }

    /** Operations one after another. */
    method EmitAll(code: seq<Pcode>) returns (r: Result)
      requires Valid()
      modifies buf`nextcode, buf.pcode
      ensures Valid() && r == (if Roomy(old(View()), code, []) then Accepted else EXP_TOOLONG)
      ensures r == Accepted ==> View() == Grow(old(View()), code, [], toks)
    {
      var st := buf.CodegenAll(code);
      r := if st.Fine? then Accepted else EXP_TOOLONG;
    }

    /** A field of another table. */
    method FieldRoutine(a: Name, n: Name, rest: Toks) returns (r: Result)
      requires Valid()
      modifies this`toks, this`nextdata, this`consts, pdata, buf`nextcode, buf.pcode
      ensures Valid() && Follows(m, r, old(View()), View(), Got(Field(a, n), rest))
    {
      ghost var s, c := View(), FieldCode(nextdata);
      assert [a] + [n] == [a, n];
      var i, j;
      r, i := Load(a);
      if r != Accepted {
        TooLongMore(s, [], [a], c, [n]);
        return;
      }
      r, j := Load(n);
      if r != Accepted {
        TooLongAfter(s, [], [a], [], [n], toks);
        TooLongMore(s, [], [a, n], c, []);
        return;
      }
      r := EmitAll([Pcode(PUSH, j), Pcode(PUSH, i), Pcode(DRETRV, NOOPND)]);
      if r != Accepted { LastTooLong(s, [], [a, n], c, toks); }
      toks := rest;
    }

    /** A call: the name of an unknown function is loaded before the arguments. */
    method CallRoutine(n: Name, rest: Toks) returns (r: Result)
      requires Valid() && Len(rest) < Len(toks)
      modifies this`toks, this`nextdata, this`consts, pdata, buf`nextcode, buf.pcode
      ensures Valid() && Follows(m, r, old(View()), View(), Call(n, Arguments(n, 0, rest, arity)))
      decreases Len(rest), FACTOR, 4
    {
      ghost var s := View();
      ghost var p := Arguments(n, 0, rest, arity);
      var i := nextdata;
      if g.id(n) == -1 {
        r, i := Load(n);
        if r != Accepted {
          if p.GotArgs? { LeadTooLong(m, s, n, p.args); }
          return;
        }
      }
      toks := rest;
      r := CallArguments(n, i, s);
    }

    /** The arguments and the call, once the name is loaded if it has to be. */
    method CallArguments(n: Name, i: nat, ghost s: St) returns (r: Result)
      requires Valid() && i == |s.cs| && View() == Grow(s, [], Lead(g, n), toks)
      modifies this`toks, this`nextdata, this`consts, pdata, buf`nextcode, buf.pcode
      ensures Valid() && Follows(m, r, s, View(), Call(n, Arguments(n, 0, old(toks), arity)))
      decreases Len(toks), FACTOR, 3
    {
      ghost var s1, p := View(), Arguments(n, 0, toks, arity);
      var count;
      r, count := ArgumentsRoutine(n, 0);
      ghost var s2 := View();
      if r != Accepted {
        ArgsFail(m, r, s, s1, s2, n, p);
        return;
      }
      r := EmitAll(CallCode(g, n, count, i));
      CallFollows(m, r, s, s1, s2, View(), n, p);
    }

    /** The loop over the arguments, up to and with the closing parenthesis. */
    method ArgumentsRoutine(n: Name, k: nat) returns (r: Result, count: nat)
      requires Valid()
      modifies this`toks, this`nextdata, this`consts, pdata, buf`nextcode, buf.pcode
      ensures Valid() && FollowsArgs(m, r, old(View()), View(), Arguments(n, k, old(toks), arity))
      ensures r == Accepted ==> count == k + CountArgs(Arguments(n, k, old(toks), arity).args)
      decreases Len(toks), FACTOR, 2
    {
      count := k;
      if k == 0 && toks.Tk? && toks.t.RParen? {
        if !arity(n, 0, Final) { return BAD_EXP, 0; }
        toks := toks.rest;
        return Accepted, 0;
      }
      ghost var s, p := View(), Parse(0, toks, arity);
      ghost var whole := Arguments(n, k, toks, arity);
      assert p.Got? ==> whole == After(n, k, p.e, p.rest, arity);
      r := Level(0);
      if r != Accepted {
        if whole.GotArgs? { FirstTooLong(m, s, p.e, whole.args.rest); }
        return;
      }
      r, count := AfterArgument(n, k, s, p.e);
    }

    /** What follows an argument: another one, or the end of them. */
    method AfterArgument(n: Name, k: nat, ghost s: St, ghost e: Expr) returns (r: Result, count: nat)
      requires Valid() && View() == Grow(s, m.code(e, |s.cs|), m.consts(e), toks)
      modifies this`toks, this`nextdata, this`consts, pdata, buf`nextcode, buf.pcode
      ensures Valid() && FollowsArgs(m, r, s, View(), After(n, k, e, old(toks), arity))
      ensures r == Accepted ==> count == k + CountArgs(After(n, k, e, old(toks), arity).args)
      decreases Len(toks), FACTOR, 1
    {
      count := k + 1;
      if !arity(n, count, Partial) || toks.End? { return BAD_EXP, count; }
      if toks.t.RParen? {
        if !arity(n, count, Final) { return BAD_EXP, count; }
        LastArgument(s, e, toks.rest);
        return Accepted, count;
      }
      if !toks.t.Comma? { return BAD_EXP, count; }
      r, count := MoreArguments(n, count, s, e, toks.rest);
    }

    /** The closing parenthesis. */
    method LastArgument(ghost s: St, ghost e: Expr, rest: Toks)
      requires Valid() && View() == Grow(s, m.code(e, |s.cs|), m.consts(e), toks)
      modifies this`toks
      ensures Valid() && FollowsArgs(m, Accepted, s, View(), GotArgs(Arg(e, NoArgs), rest))
    {
      ghost var s1 := View();
      toks := rest;
      ArgFollows(m, Accepted, s, s1, View(), e, GotArgs(NoArgs, rest));
    }

    /** The arguments behind a comma. */
    method MoreArguments(n: Name, k: nat, ghost s: St, ghost e: Expr, rest: Toks) returns (r: Result, count: nat)
      requires Valid() && View() == Grow(s, m.code(e, |s.cs|), m.consts(e), toks)
      modifies this`toks, this`nextdata, this`consts, pdata, buf`nextcode, buf.pcode
      ensures Valid() && FollowsArgs(m, r, s, View(), Prefixed(e, Arguments(n, k, rest, arity)))
      ensures r == Accepted ==> count == k + CountArgs(Arguments(n, k, rest, arity).args)
      decreases Len(rest), FACTOR, 3
    {
      ghost var s1, q := View(), Arguments(n, k, rest, arity);
      toks := rest;
      r, count := ArgumentsRoutine(n, k);
      ArgFollows(m, r, s, s1, View(), e, q);
    }
  }

  /** One more argument in front of the others. */
  function Prefixed(e: Expr, q: ParsedArgs): ParsedArgs {
    match q case BadArgs => BadArgs case GotArgs(args, more) => GotArgs(Arg(e, args), more)
  }

  lemma ArgFollows(m: Sem, r: Result, s: St, s1: St, s2: St, e: Expr, q: ParsedArgs)
    requires FollowsArgs(m, r, s1, s2, q)
    requires s1.code == s.code + m.code(e, |s.cs|) && s1.cs == s.cs + m.consts(e)
    ensures FollowsArgs(m, r, s, s2, Prefixed(e, q))
  {
    if q.GotArgs? {
      var c, d, c1, d1 := m.code(e, |s.cs|), m.consts(e), m.codeArgs(q.args, |s1.cs|), m.constsArgs(q.args);
      if r == EXP_TOOLONG { RestTooLong(m, s, s1, e, q.args, c, d, c1, d1); }
      if r == Accepted { ArgGrows(m, s, s1, s2, e, q.args, c, d, c1, d1); }
    }
  }

  /** The arguments once the n-th has been read. */
  function After(name: Name, n: nat, e: Expr, rest: Toks, arity: Arity): ParsedArgs {
    if !arity(name, n + 1, Partial) || rest.End? then BadArgs
    else if rest.t.RParen? then (if arity(name, n + 1, Final) then GotArgs(Arg(e, NoArgs), rest.rest) else BadArgs)
    else if !rest.t.Comma? then BadArgs
    else Prefixed(e, Arguments(name, n + 1, rest.rest, arity))
  }

  function Grouped(p: Parsed): Parsed {
    match p case Got(e, Tk(RParen, more)) => Got(Group(e), more) case _ => Bad
  }

  /** A known or unknown function with its arguments. */
  function Call(n: Name,
                p: ParsedArgs): Parsed { match p case BadArgs => Bad case GotArgs(args, rest) => Got(Fcn(n, args),
                rest) }

  ghost predicate FollowsArgs(m: Sem, r: Result, s: St, s': St, p: ParsedArgs) {
    match r
    case Accepted => p.GotArgs? && s' == Grow(s, m.codeArgs(p.args, |s.cs|), m.constsArgs(p.args), p.rest)
    case EXP_TOOLONG => p.GotArgs? ==> !Roomy(s, m.codeArgs(p.args, |s.cs|), m.constsArgs(p.args))
    case BAD_EXP => p.BadArgs?
  }

  lemma OperandFails(m: Sem, s: St, s1: St, k: nat, op: BinOp, e: Expr, x: Expr, rest: Toks, arity: Arity)
    requires k < FACTOR && s1 == Grow(s, m.code(e, |s.cs|), m.consts(e), s1.toks)
      && !Roomy(s1, m.code(x, |s1.cs|), m.consts(x))
    ensures var b := Bin(op, e, x); !Roomy(s, m.code(b, |s.cs|), m.consts(b))
    ensures var l := Loop(k, Bin(op, e, x), rest, arity); l.Got? ==> !Roomy(s, m.code(l.e, |s.cs|), m.consts(l.e))
  {
    BinTooLong(m, s, s1, op, e, x, m.code(e, |s.cs|), m.consts(e), m.code(x, |s1.cs|), m.consts(x));
    LoopTooLong(m, s, k, Bin(op, e, x), rest, arity);
  }

  /** What the operation at the end of a round makes of it. */
  lemma OperandFollows(m: Sem, r: Result, s: St, s1: St, s2: St, s3: St, k: nat, op: BinOp, e: Expr, x: Expr,
                       rest: Toks, arity: Arity)
    requires k < FACTOR && s1 == Grow(s, m.code(e, |s.cs|), m.consts(e), s1.toks)
      && s2 == Grow(s1, m.code(x, |s1.cs|), m.consts(x), rest)
    requires r == (if Roomy(s2, [Pcode(BOP, BinCode(op))], []) then Accepted else EXP_TOOLONG)
    requires r == Accepted ==> s3 == Grow(s2, [Pcode(BOP, BinCode(op))], [], rest)
    ensures var b := Bin(op, e, x); r == Accepted ==> s3 == Grow(s, m.code(b, |s.cs|), m.consts(b), rest)
    ensures var b := Bin(op, e, x); r != Accepted ==> !Roomy(s, m.code(b, |s.cs|), m.consts(b))
    ensures var l := Loop(k, Bin(op, e, x), rest, arity);
      r != Accepted && l.Got? ==> !Roomy(s, m.code(l.e, |s.cs|), m.consts(l.e))
  {
    var c, d, c1, d1 := m.code(e, |s.cs|), m.consts(e), m.code(x, |s1.cs|), m.consts(x);
    if r == Accepted {
      BinGrows(m, s, s1, s2, s3, op, e, x, c, d, c1, d1);
    } else {
      GrowTwice(s, c, d, c1, d1, s1.toks, rest);
      LastTooLong(s, c + c1, d + d1, [Pcode(BOP, BinCode(op))], rest);
      LoopTooLong(m, s, k, Bin(op, e, x), rest, arity);
    }
  }

  lemma FirstTooLong(m: Sem, s: St, e: Expr, rest: Args)
    requires !Roomy(s, m.code(e, |s.cs|), m.consts(e))
    ensures var args := Arg(e, rest); !Roomy(s, m.codeArgs(args, |s.cs|), m.constsArgs(args))
  {
    TooLongMore(s, m.code(e, |s.cs|), m.consts(e), m.codeArgs(rest, |s.cs| + |m.consts(e)|), m.constsArgs(rest));
  }

  lemma RestTooLong(m: Sem, s: St, s1: St, e: Expr, rest: Args, c: seq<Pcode>, d: seq<Value>, c1: seq<Pcode>,
                    d1: seq<Value>)
    requires c == m.code(e, |s.cs|) && d == m.consts(e) && c1 == m.codeArgs(rest, |s.cs| + |d|)
      && d1 == m.constsArgs(rest)
    requires s1.code == s.code + c && s1.cs == s.cs + d && !Roomy(s1, c1, d1)
    ensures var args := Arg(e, rest); !Roomy(s, m.codeArgs(args, |s.cs|), m.constsArgs(args))
  {
    assert s1 == Grow(s, c, d, s1.toks);
    TooLongAfter(s, c, d, c1, d1, s1.toks);
  }

  lemma ArgGrows(m: Sem, s: St, s1: St, s2: St, e: Expr, rest: Args, c: seq<Pcode>, d: seq<Value>, c1: seq<Pcode>,
                 d1: seq<Value>)
    requires c == m.code(e, |s.cs|) && d == m.consts(e) && c1 == m.codeArgs(rest, |s.cs| + |d|)
      && d1 == m.constsArgs(rest)
    requires s1.code == s.code + c && s1.cs == s.cs + d && s2.code == s1.code + c1 && s2.cs == s1.cs + d1
    ensures var args := Arg(e, rest); s2 == Grow(s, m.codeArgs(args, |s.cs|), m.constsArgs(args), s2.toks)
  {
    assert s.code + c + c1 == s.code + (c + c1) && s.cs + d + d1 == s.cs + (d + d1);
  }

  lemma CallGrows(m: Sem, s: St, s1: St, s2: St, s3: St, n: Name, args: Args, lead: seq<Value>, c: seq<Pcode>,
                  d: seq<Value>, call: seq<Pcode>)
    requires lead == Lead(m.g, n) && c == m.codeArgs(args, |s.cs| + |lead|) && d == m.constsArgs(args)
    requires call == CallCode(m.g, n, CountArgs(args), |s.cs|)
    requires s1.code == s.code && s1.cs == s.cs + lead && s2.code == s1.code + c && s2.cs == s1.cs + d
    requires s3.code == s2.code + call && s3.cs == s2.cs
    ensures s3 == Grow(s, m.code(Fcn(n, args), |s.cs|), m.consts(Fcn(n, args)), s3.toks)
  {
    Assoc(s.code, c, call);
    Assoc(s.cs, lead, d);
  }

  lemma Assoc<T>(a: seq<T>, b: seq<T>, c: seq<T>)
    ensures a + b + c == a + (b + c)
  {
  }

  lemma ArgsFail(m: Sem, r: Result, s: St, s1: St, s2: St, n: Name, p: ParsedArgs)
    requires FollowsArgs(m, r, s1, s2, p) && r != Accepted && s1 == Grow(s, [], Lead(m.g, n), s1.toks)
    ensures Follows(m, r, s, s2, Call(n, p))
  {
    if p.GotArgs? && r == EXP_TOOLONG { ArgsTooLong(m, s, s1, n, p.args); }
  }

  lemma CallFollows(m: Sem, r: Result, s: St, s1: St, s2: St, s3: St, n: Name, p: ParsedArgs)
    requires FollowsArgs(m, Accepted, s1, s2, p) && s1 == Grow(s, [], Lead(m.g, n), s1.toks)
    requires var call := CallCode(m.g, n, CountArgs(p.args), |s.cs|);
      r == (if Roomy(s2, call, []) then Accepted else EXP_TOOLONG)
          && (r == Accepted ==> s3 == Grow(s2, call, [], s2.toks))
    ensures Follows(m, r, s, s3, Call(n, p))
  {
    if r != Accepted {
      CallTooLong(m, s, s1, n, p.args, p.rest);
    } else {
      CallGrows(m, s, s1, s2, s3, n, p.args, Lead(m.g, n), m.codeArgs(p.args, |s1.cs|), m.constsArgs(p.args),
          CallCode(m.g, n, CountArgs(p.args), |s.cs|));
    }
  }

  lemma LeadTooLong(m: Sem, s: St, n: Name, args: Args)
    requires !Roomy(s, [], Lead(m.g, n))
    ensures !Roomy(s, m.code(Fcn(n, args), |s.cs|), m.consts(Fcn(n, args)))
  {
    TooLongMore(s, [], Lead(m.g, n), m.code(Fcn(n, args), |s.cs|), m.constsArgs(args));
    assert [] + m.code(Fcn(n, args), |s.cs|) == m.code(Fcn(n, args), |s.cs|);
  }

  lemma ArgsTooLong(m: Sem, s: St, s1: St, n: Name, args: Args)
    requires s1 == Grow(s, [], Lead(m.g, n), s1.toks) && !Roomy(s1, m.codeArgs(args, |s1.cs|), m.constsArgs(args))
    ensures !Roomy(s, m.code(Fcn(n, args), |s.cs|), m.consts(Fcn(n, args)))
  {
    var c, d := m.codeArgs(args, |s1.cs|), m.constsArgs(args);
    TooLongAfter(s, [], Lead(m.g, n), c, d, s1.toks);
    TooLongMore(s, [] + c, Lead(m.g, n) + d, CallCode(m.g, n, CountArgs(args), |s.cs|), []);
    assert [] + c == c && Lead(m.g, n) + d + [] == Lead(m.g, n) + d;
  }

  lemma CallTooLong(m: Sem, s: St, s1: St, n: Name, args: Args, rest: Toks)
    requires s1 == Grow(s, [], Lead(m.g, n), s1.toks)
    requires !Roomy(Grow(s1, m.codeArgs(args, |s1.cs|), m.constsArgs(args), rest),
      CallCode(m.g, n, CountArgs(args), |s.cs|), [])
    ensures !Roomy(s, m.code(Fcn(n, args), |s.cs|), m.consts(Fcn(n, args)))
  {
    var c, d := m.codeArgs(args, |s1.cs|), m.constsArgs(args);
    GrowTwice(s, [], Lead(m.g, n), c, d, s1.toks, rest);
    assert [] + c == c;
    LastTooLong(s, c, Lead(m.g, n) + d, CallCode(m.g, n, CountArgs(args), |s.cs|), rest);
  }

  lemma AllLie(m: seq<byte>, vs: seq<Value>, n: nat)
    requires n <= |m| && m[..n] == EncodeAll(vs)
    ensures Lies(m, 0, vs)
  {
    var e, tail := EncodeAll(vs), m[n..];
    assert [] + e + tail == m;
    EncodedLies([], vs, tail);
  }

  method StepOver(m: seq<byte>, at: nat, ghost vs: seq<Value>, ghost i: nat) returns (next: nat)
    requires i < |vs| && Lies(m, at, vs[i..]) && at == |EncodeAll(vs[..i])|
    ensures Lies(m, next, vs[i + 1..]) && next == |EncodeAll(vs[..i + 1])|
  {
    NextLies(m, at, vs, i);
    var size := SizeAt(m, at, vs[i]);
    next := at + size;
  }

  method SizeAt(m: seq<byte>, at: nat, ghost v: Value) returns (size: nat)
    requires LiesOne(m, at, v)
    ensures size == |Encode(v)|
  {
    LiesSize(m, at, v);
    size := ValSize(m[at..]);
  }

  /** Step over all the values that lie in m. */
  method WalkOver(m: seq<byte>, n: nat, ghost vs: seq<Value>) returns (offset: nat)
    requires Lies(m, 0, vs) && n == |vs|
    ensures offset == |EncodeAll(vs)|
  {
    offset := 0;
    var i := 0;
    assert vs[0..] == vs;
    while i < n
      invariant i <= n && offset == |EncodeAll(vs[..i])| && Lies(m, offset, vs[i..])
    {
      offset := StepOver(m, offset, vs, i);
      i := i + 1;
    }
    assert vs[..n] == vs;
  }

  /** The walk over the constants goes on behind the i-th. */
  lemma NextLies(m: seq<byte>, at: nat, vs: seq<Value>, i: nat)
    requires i < |vs| && Lies(m, at, vs[i..]) && at == |EncodeAll(vs[..i])|
    ensures LiesOne(m, at, vs[i]) && Lies(m, at + |Encode(vs[i])|, vs[i + 1..])
      && at + |Encode(vs[i])| == |EncodeAll(vs[..i + 1])|
  {
    assert vs[i..][0] == vs[i] && vs[i..][1..] == vs[i + 1..];
    EncodeLast(vs, i);
  }

  lemma EncodeLast(vs: seq<Value>, i: nat)
    requires i < |vs|
    ensures |EncodeAll(vs[..i + 1])| == |EncodeAll(vs[..i])| + |Encode(vs[i])|
  {
    assert vs[..i + 1] == vs[..i] + [vs[i]];
    EncodeAppend(vs[..i], [vs[i]]);
    EncodeOne(vs[i]);
  }
}
