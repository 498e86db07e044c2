/**
 * The grammar of expressions with its six kinds of operators written out (server/hb/parse.c:296-470),
 * and what it makes of tokens: which operators bind tighter, which go together to the left, and that
 * comparisons do not go together at all.
 */
module Grammar {
  import opened Options
  import opened Values
  import opened Expr
  import opened ExprValue

  // ---- the six levels ----

  /** expression: OR between the next. */
  predicate IsExpression(e: Expr, arity: Arity)
    decreases e, 6
  {
    IsConjunction(e, arity) || (e.Bin? && e.bop == OrOp && IsExpression(e.l, arity) && IsConjunction(e.r, arity))
  }

  /** rel_expr: AND between the next. */
  predicate IsConjunction(e: Expr, arity: Arity)
    decreases e, 5
  {
    IsComparison(e, arity) || (e.Bin? && e.bop == AndOp && IsConjunction(e.l, arity) && IsComparison(e.r, arity))
  }

  /** rel_expr1: at most one comparison. */
  predicate IsComparison(e: Expr, arity: Arity)
    decreases e, 4
  {
    IsSum(e, arity) || (e.Bin? && e.bop.RelOp? && IsSum(e.l, arity) && IsSum(e.r, arity))
  }

  /** simple_expr: plus and minus. */
  predicate IsSum(e: Expr, arity: Arity)
    decreases e, 3
  {
    IsTerm(e, arity)
    || (e.Bin? && (e.bop == Plus || e.bop == Minus) && IsSum(e.l, arity) && IsTerm(e.r, arity))
  }

  /** term: times and divided by. */
  predicate IsTerm(e: Expr, arity: Arity)
    decreases e, 2
  {
    IsPower(e, arity) || (e.Bin? && (e.bop == Mult || e.bop == Div) && IsTerm(e.l, arity) && IsPower(e.r, arity))
  }

  /** term1: powers. */
  predicate IsPower(e: Expr, arity: Arity)
    decreases e, 1
  {
    IsFactor(e, arity) || (e.Bin? && e.bop == Power && IsPower(e.l, arity) && IsFactor(e.r, arity))
  }

  /** factor: what signs and NOT apply to. */
  predicate IsFactor(e: Expr, arity: Arity)
    decreases e, 0
  {
    match e
    case Bin(_, _, _) => false
    case Un(_, x) => IsFactor(x, arity)
    case Group(x) => IsExpression(x, arity)
    case Fcn(name, args) => AreArgs(name, args, 0, arity)
    case _ => true
  }

  predicate AreArgs(name: Name, args: Args, n: nat, arity: Arity)
    decreases args
  {
    match args
    case NoArgs => arity(name, n, Final)
    case Arg(e, rest) => IsExpression(e, arity) && arity(name, n + 1, Partial) && AreArgs(name, rest, n + 1, arity)
  }

  /** The expressions of each level, as the parser has them. */
  ghost predicate Agrees(e: Expr, arity: Arity) {
    && (IsExpression(e, arity) <==> Fit(e, arity))
    && (IsConjunction(e, arity) <==> Fit(e, arity) && Level(e) >= 1)
    && (IsComparison(e, arity) <==> Fit(e, arity) && Level(e) >= 2)
    && (IsSum(e, arity) <==> Fit(e, arity) && Level(e) >= 3)
    && (IsTerm(e, arity) <==> Fit(e, arity) && Level(e) >= 4)
    && (IsPower(e, arity) <==> Fit(e, arity) && Level(e) >= 5)
    && (IsFactor(e, arity) <==> Fit(e, arity) && Level(e) >= 6)
  }

  lemma {:induction false} GrammarIs(e: Expr, arity: Arity)
    ensures Agrees(e, arity)
    decreases e
  {
    match e {
      case Group(x) => GrammarIs(x, arity);
      case Un(_, x) => GrammarIs(x, arity);
      case Fcn(name, args) => ArgumentsAre(name, args, 0, arity);
      case Bin(_, l, r) =>
        GrammarIs(l, arity);
        GrammarIs(r, arity);
      case _ =>
    }
    assert IsFactor(e, arity) <==> Fit(e, arity) && Level(e) >= 6;
    assert IsPower(e, arity) <==> Fit(e, arity) && Level(e) >= 5;
    assert IsTerm(e, arity) <==> Fit(e, arity) && Level(e) >= 4;
    assert IsSum(e, arity) <==> Fit(e, arity) && Level(e) >= 3;
    assert IsComparison(e, arity) <==> Fit(e, arity) && Level(e) >= 2;
    assert IsConjunction(e, arity) <==> Fit(e, arity) && Level(e) >= 1;
  }

  lemma {:induction false} ArgumentsAre(name: Name, args: Args, n: nat, arity: Arity)
    ensures AreArgs(name, args, n, arity) <==> FitArgs(name, args, n, arity)
    decreases args
  {
    if args.Arg? {
      GrammarIs(args.e, arity);
      ArgumentsAre(name, args.rest, n + 1, arity);
    }
  }

  // ---- what the parser makes of tokens ----

  /** Nothing that could go on with an expression. */
  predicate Ended(rest: Toks) {
    rest.Tk? ==> !rest.t.Op? && !rest.t.LParen? && !rest.t.Arrow? && !rest.t.LBrkt?
  }

  /** What is parsed is an expression of the grammar, with the tokens that it is written with; and every
      one that is written there is found. */
  lemma ParsesGrammar(ts: Toks, arity: Arity)
    ensures var p := Parse(0, ts, arity);
      p.Got? ==> IsExpression(p.e, arity) && Show(p.e, p.rest) == ts
    ensures forall e, rest :: IsExpression(e, arity) && Ended(rest) && Show(e, rest) == ts ==>
      Parse(0, ts, arity) == Got(e, rest)
  {
    var p := Parse(0, ts, arity);
    if p.Got? {
      ParseShows(0, ts, arity);
      GrammarIs(p.e, arity);
    }
    forall e, rest | IsExpression(e, arity) && Ended(rest) && Show(e, rest) == ts
      ensures Parse(0, ts, arity) == Got(e, rest)
    {
      GrammarIs(e, arity);
      ParseFinds(0, e, rest, arity);
    }
  }

  /** The first operator binds less than the second. */
  predicate Looser(p: BinOp, q: BinOp) {
    match p
    case OrOp => q != OrOp
    case AndOp => q.RelOp? || q == Plus || q == Minus || q == Mult || q == Div || q == Power
    case RelOp(_) => q == Plus || q == Minus || q == Mult || q == Div || q == Power
    case Plus => q == Mult || q == Div || q == Power
    case Minus => q == Mult || q == Div || q == Power
    case Mult => q == Power
    case Div => q == Power
    case Power => false
  }

  /** The operators go together to the left. */
  predicate Together(p: BinOp, q: BinOp) {
    match p
    case OrOp => q == OrOp
    case AndOp => q == AndOp
    case RelOp(_) => false
    case Plus => q == Plus || q == Minus
    case Minus => q == Plus || q == Minus
    case Mult => q == Mult || q == Div
    case Div => q == Mult || q == Div
    case Power => q == Power
  }

  /** The tokens a p b q c, and then others. */
  function Three(a: Expr, p: BinOp, b: Expr, q: BinOp, c: Expr, rest: Toks): Toks {
    Show(a, Tk(Op(p), Show(b, Tk(Op(q), Show(c, rest)))))
  }

  ghost predicate Factors(a: Expr, b: Expr, c: Expr, arity: Arity) {
    IsFactor(a, arity) && IsFactor(b, arity) && IsFactor(c, arity)
  }

  /** The operator that binds tighter takes its operands first, whichever comes first. */
  lemma TighterFirst(a: Expr, p: BinOp, b: Expr, q: BinOp, c: Expr, rest: Toks, arity: Arity)
    requires Factors(a, b, c, arity) && Ended(rest) && Looser(p, q)
    ensures Parse(0, Three(a, p, b, q, c, rest), arity) == Got(Bin(p, a, Bin(q, b, c)), rest)
    ensures Parse(0, Three(a, q, b, p, c, rest), arity) == Got(Bin(p, Bin(q, a, b), c), rest)
  {
    GrammarIs(a, arity);
    GrammarIs(b, arity);
    GrammarIs(c, arity);
    ParseFinds(0, Bin(p, a, Bin(q, b, c)), rest, arity);
    ParseFinds(0, Bin(p, Bin(q, a, b), c), rest, arity);
  }

  /** Of two that bind alike the first takes its operands first. */
  lemma LeftFirst(a: Expr, p: BinOp, b: Expr, q: BinOp, c: Expr, rest: Toks, arity: Arity)
    requires Factors(a, b, c, arity) && Ended(rest) && Together(p, q)
    ensures Parse(0, Three(a, p, b, q, c, rest), arity) == Got(Bin(q, Bin(p, a, b), c), rest)
  {
    GrammarIs(a, arity);
    GrammarIs(b, arity);
    GrammarIs(c, arity);
    ParseFinds(0, Bin(q, Bin(p, a, b), c), rest, arity);
  }

  /** A second comparison is not taken: the expression ends before it, and in parentheses it is an
      error. */
  lemma OneComparison(a: Expr, p: nat, b: Expr, q: nat, c: Expr, rest: Toks, arity: Arity)
    requires Factors(a, b, c, arity)
    ensures var ts := Three(a, RelOp(p), b, RelOp(q), c, rest);
      && Parse(0, ts, arity) == Got(Bin(RelOp(p), a, b), Tk(Op(RelOp(q)), Show(c, rest)))
      && Parse(0, Tk(LParen, ts), arity) == Bad
  {
    var more := Tk(Op(RelOp(q)), Show(c, rest));
    var ab := Bin(RelOp(p), a, b);
    var ts := Three(a, RelOp(p), b, RelOp(q), c, rest);
    GrammarIs(a, arity);
    GrammarIs(b, arity);
    LevelFinds(2, ab, more, arity);
    assert Show(ab, more) == ts;
    UpFrom(2, ts, ab, more, arity);
    InParentheses(ts, arity);
  }

  /** A level below finds the same when no operator of its own follows. */
  lemma UpFrom(k: nat, ts: Toks, e: Expr, rest: Toks, arity: Arity)
    requires k == 2 && Parse(2, ts, arity) == Got(e, rest) && rest.Tk? && rest.t.Op? && rest.t.op.RelOp?
    ensures Parse(0, ts, arity) == Got(e, rest)
  {
    assert Loop(1, e, rest, arity) == Got(e, rest) && Loop(0, e, rest, arity) == Got(e, rest);
    assert Parse(1, ts, arity) == Got(e, rest);
  }

  /** Parentheses have to close where the expression inside ends. */
  lemma InParentheses(ts: Toks, arity: Arity)
    requires var p := Parse(0, ts, arity); p.Bad? || p.rest.End? || !p.rest.t.RParen?
    ensures Parse(0, Tk(LParen, ts), arity) == Bad
  {
    var all := Tk(LParen, ts);
    assert Factor(all, arity) == Bad;
    assert Parse(6, all, arity) == Bad && Parse(5, all, arity) == Bad && Parse(4, all, arity) == Bad;
    assert Parse(3, all, arity) == Bad && Parse(2, all, arity) == Bad && Parse(1, all, arity) == Bad;
  }

  /** Signs and NOT bind tighter than every operator. */
  lemma SignsFirst(u: UnOp, a: Expr, p: BinOp, b: Expr, rest: Toks, arity: Arity)
    requires IsFactor(a, arity) && IsFactor(b, arity) && Ended(rest)
    ensures var t := match u case PlusOf => Op(Plus) case MinusOf => Op(Minus) case NotOf => NotT;
      Parse(0, Tk(t, Show(a, Tk(Op(p), Show(b, rest)))), arity) == Got(Bin(p, Un(u, a), b), rest)
  {
    GrammarIs(a, arity);
    GrammarIs(b, arity);
    ParseFinds(0, Bin(p, Un(u, a), b), rest, arity);
  }

  // ---- what it comes to ----

  /** The value of an operator is what the operation with its token's number makes of the values of
      its operands (include/hb.h:221-242). */
  lemma Operations(g: Lang, op: BinOp, l: Expr, r: Expr, room: int)
    ensures var x := Eval(g, l, room); var y := if x.Some? then Eval(g, r, room - g.size(x.v)) else None;
      var t := match op
        case AndOp => 0x0011 case OrOp => 0x0012 case RelOp(code) => 0x0021 + code
        case Plus => 0x0031 case Minus => 0x0032 case Mult => 0x0041 case Div => 0x0042 case Power => 0x0050;
      var v := if y.Some? then g.bop(t, x.v, y.v) else None;
      Eval(g, Bin(op, l, r), room) == if v.Some? && g.size(v.v) <= room then v else None
  {
  }

  lemma Signs(g: Lang, op: UnOp, e: Expr, room: int)
    ensures var x := Eval(g, e, room);
      var t := match op case NotOf => 0x0013 case PlusOf => 0x0031 case MinusOf => 0x0032;
      var v := if x.Some? then g.uop(t, x.v) else None;
      Eval(g, Un(op, e), room) == if v.Some? && g.size(v.v) <= room then v else None
  {
  }

  /** The value of a name or a constant, of a field, and of what stands in parentheses; each has to have room
      on the stack. */
  lemma Operands(g: Lang, v: Value, n: Name, a: Name, x: Expr, room: int)
    requires g.size(v) <= room && g.size(n) + g.size(a) <= room && g.size(n) <= room
    ensures Eval(g, Const(v), room) == Some(v) && Eval(g, Group(x), room) == Eval(g, x, room)
    ensures Eval(g, Var(n), room) == var o := g.lookup(n); if o.Some? && g.size(o.v) <= room then o else None
    ensures Eval(g, Field(a, n), room) == var o := g.field(a, n); if o.Some? && g.size(o.v) <= room then o else None
  {
  }

  /** A function gets its arguments in the order in which they are written: a known one by its number, a
      user's own by its name. */
  lemma Calls(g: Lang, n: Name, x: Expr, y: Expr, room: int)
    requires Eval(g, x, room).Some?
    requires var a := Eval(g, x, room).v; Eval(g, y, room - g.size(a)).Some?
    requires var a := Eval(g, x, room).v; var b := Eval(g, y, room - g.size(a)).v;
      g.size(a) + g.size(b) + g.size(Num([2, 0, 0, 0, 0, 0, 0, 0], 0)) <= room
    ensures var a := Eval(g, x, room).v; var b := Eval(g, y, room - g.size(a)).v;
      var o := if g.id(n) == -1 then g.usr(n, [a, b]) else g.fcn(g.id(n), [a, b]);
      Eval(g, Fcn(n, Arg(x, Arg(y, NoArgs))), room) == if o.Some? && g.size(o.v) <= room then o else None
  {
    var a := Eval(g, x, room).v;
    var b := Eval(g, y, room - g.size(a)).v;
    var one := EvalArgs(g, Arg(y, NoArgs), room - g.size(a));
    assert EvalArgs(g, NoArgs, room - g.size(a) - g.size(b)) == Some([]);
    assert one == Some([b] + []) && [b] + [] == [b];
    assert EvalArgs(g, Arg(x, Arg(y, NoArgs)), room) == Some([a] + [b]) && [a] + [b] == [a, b];
    TwoSizes(g, a, b);
    TwoIs();
  }

  lemma TwoSizes(g: Lang, a: Value, b: Value)
    ensures Total(g, [a, b]) == g.size(a) + g.size(b)
  {
    assert [a, b][1..] == [b] && [b][1..] == [];
    assert Total(g, [b]) == g.size(b) + Total(g, []);
  }

  lemma TwoIs()
    ensures Count(2) == Num([2, 0, 0, 0, 0, 0, 0, 0], 0)
  {
    assert Little(0, 0) == [];
    assert Little(0, 1) == [0];
    assert Little(0, 2) == [0, 0];
    assert Little(0, 3) == [0, 0, 0];
    assert Little(0, 4) == [0, 0, 0, 0];
    assert Little(0, 5) == [0, 0, 0, 0, 0];
    assert Little(0, 6) == [0, 0, 0, 0, 0, 0];
    assert Little(0, 7) == [0, 0, 0, 0, 0, 0, 0];
    assert Little(2, 8) == [2] + Little(0, 7);
  }
}
