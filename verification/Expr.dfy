/**
 * Expressions and their grammar (server/hb/parse.c:296-470): six levels of binary operators by
 * recursive descent, each but the comparison repeated to the left.
 */
module Expr {
  import opened Options
  import opened Values

  /** A name, as loadstring makes a string value of it. */
  type Name = Value

  datatype BinOp = OrOp | AndOp | RelOp(code: nat) | Plus | Minus | Mult | Div | Power
  datatype UnOp = PlusOf | MinusOf | NotOf

  datatype Expr =
    | Const(v: Value)
    | Var(name: Name)
    | Field(alias: Name, name: Name)
    | Fcn(name: Name, args: Args)
    | Group(e: Expr)
    | Un(op: UnOp, e: Expr)
    | Bin(bop: BinOp, l: Expr, r: Expr)

  datatype Args = NoArgs | Arg(e: Expr, rest: Args)

  datatype Tok =
    | Lit(v: Value) | Id(name: Name) | Op(op: BinOp) | NotT
    | LParen | RParen | Comma | Arrow | LBrkt | OtherT

  /** The tokens that are left of a command. */
  datatype Toks = End | Tk(t: Tok, rest: Toks)

  function Len(ts: Toks): nat { if ts.End? then 0 else 1 + Len(ts.rest) }

  const FACTOR: nat := 6

  /** OR binds least, the power operator most. */
  function Prec(op: BinOp): (p: nat)
    ensures p < FACTOR
  {
    match op
    case OrOp => 0
    case AndOp => 1
    case RelOp(_) => 2
    case Plus => 3
    case Minus => 3
    case Mult => 4
    case Div => 4
    case Power => 5
  }

  const REL: nat := 2

  function Level(e: Expr): nat { if e.Bin? then Prec(e.bop) else FACTOR }

  function CountArgs(args: Args): nat { if args.NoArgs? then 0 else 1 + CountArgs(args.rest) }

  /**
   * Fit to be written without more parentheses: operators associate to the left, comparisons do
   * not associate at all, and what a sign or NOT applies to is a factor. `arity` says how many
   * arguments a function may have so far, and finally.
   */
  predicate Fit(e: Expr, arity: Arity)
    decreases e
  {
    match e
    case Group(x) => Fit(x, arity)
    case Un(_, x) => Level(x) == FACTOR && Fit(x, arity)
    case Bin(op, l, r) =>
      Level(r) > Prec(op) && (if Prec(op) == REL then Level(l) > REL else Level(l) >= Prec(op)) && Fit(l, arity)
          && Fit(r, arity)
    case Fcn(name, args) => FitArgs(name, args, 0, arity)
    case _ => true
  }

  /** parm_chk, after each argument and at the end. */
  datatype Check = Partial | Final
  type Arity = (Name, nat, Check) -> bool

  predicate FitArgs(name: Name, args: Args, n: nat, arity: Arity)
    decreases args
  {
    match args
    case NoArgs => arity(name, n, Final)
    case Arg(e, rest) => Fit(e, arity) && arity(name, n + 1, Partial) && FitArgs(name, rest, n + 1, arity)
  }

  function UnTok(op: UnOp): Tok {
    match op case PlusOf => Op(Plus) case MinusOf => Op(Minus) case NotOf => NotT
  }

  /** The tokens of e, in front of those that follow it. */
  function Show(e: Expr, rest: Toks): Toks
    decreases e
  {
    match e
    case Const(v) => Tk(Lit(v), rest)
    case Var(n) => Tk(Id(n), rest)
    case Field(a, n) => Tk(Id(a), Tk(Arrow, Tk(Id(n), rest)))
    case Fcn(n, args) => Tk(Id(n), Tk(LParen, ShowArgs(args, true, Tk(RParen, rest))))
    case Group(x) => Tk(LParen, Show(x, Tk(RParen, rest)))
    case Un(op, x) => Tk(UnTok(op), Show(x, rest))
    case Bin(op, l, r) => Show(l, Tk(Op(op), Show(r, rest)))
  }

  function ShowArgs(args: Args, first: bool, rest: Toks): Toks
    decreases args
  {
    match args
    case NoArgs => rest
    case Arg(e, more) => var ts := Show(e, ShowArgs(more, false, rest)); if first then ts else Tk(Comma, ts)
  }

  // ---- recursive descent ----

  datatype Parsed = Got(e: Expr, rest: Toks) | Bad
  datatype ParsedArgs = GotArgs(args: Args, rest: Toks) | BadArgs

  /** factor, and for k below it the routine of that level: term1, term, simple_expr, rel_expr1,
      rel_expr, expression. */
  function Parse(k: nat, ts: Toks, arity: Arity): (r: Parsed)
    requires k <= FACTOR
    ensures r.Got? ==> Len(r.rest) < Len(ts)
    decreases Len(ts), FACTOR - k, 1
  {
    if k == FACTOR then Factor(ts, arity)
    else match Parse(k + 1, ts, arity)
      case Bad => Bad
      case Got(e, rest) => Loop(k, e, rest, arity)
  }

  /** The loop of a level. */
  function Loop(k: nat, e: Expr, ts: Toks, arity: Arity): (r: Parsed)
    requires k < FACTOR
    ensures r.Got? ==> Len(r.rest) <= Len(ts)
    decreases Len(ts), FACTOR - k, 0
  {
    if ts.Tk? && ts.t.Op? && Prec(ts.t.op) == k then
      match Parse(k + 1, ts.rest, arity)
      case Bad => Bad
      case Got(x, rest) =>
        if k == REL then Got(Bin(ts.t.op, e, x), rest) else Loop(k, Bin(ts.t.op, e, x), rest, arity)
    else Got(e, ts)
  }

  function Signed(op: UnOp, p: Parsed): Parsed { match p case Bad => Bad case Got(e, rest) => Got(Un(op, e), rest) }

  function Factor(ts: Toks, arity: Arity): (r: Parsed)
    ensures r.Got? ==> Len(r.rest) < Len(ts)
    decreases Len(ts), 0, 0
  {
    match ts
    case Tk(Op(Plus), rest) => Signed(PlusOf, Factor(rest, arity))
    case Tk(Op(Minus), rest) => Signed(MinusOf, Factor(rest, arity))
    case Tk(NotT, rest) => Signed(NotOf, Factor(rest, arity))
    case Tk(Lit(v), rest) => Got(Const(v), rest)
    case Tk(LParen, rest) =>
      (match Parse(0, rest, arity)
       case Got(e, Tk(RParen, more)) => Got(Group(e), more)
       case _ => Bad)
    case Tk(Id(n), Tk(LParen, rest)) =>
      assert Len(ts.rest) == 1 + Len(rest);
      (match Arguments(n, 0, rest, arity)
       case GotArgs(args, more) => Got(Fcn(n, args), more)
       case BadArgs => Bad)
    case Tk(Id(a), Tk(Arrow, Tk(Id(n), rest))) => Got(Field(a, n), rest)
    case Tk(Id(a), Tk(Arrow, _)) => Bad
    case Tk(Id(n), Tk(LBrkt, _)) => Bad
    case Tk(Id(n), rest) => Got(Var(n), rest)
    case _ => Bad
  }

  /** The arguments of a function from the n-th on, up to and with the closing parenthesis. */
  function Arguments(name: Name, n: nat, ts: Toks, arity: Arity): (r: ParsedArgs)
    ensures r.GotArgs? ==> Len(r.rest) < Len(ts)
    decreases Len(ts), FACTOR, 2
  {
    if n == 0 && ts.Tk? && ts.t.RParen? then (if arity(name, 0, Final) then GotArgs(NoArgs, ts.rest) else BadArgs)
    else match Parse(0, ts, arity)
      case Bad => BadArgs
      case Got(e, rest) =>
        if !arity(name, n + 1, Partial) || rest.End? then BadArgs
        else if rest.t.RParen? then (if arity(name, n + 1, Final) then GotArgs(Arg(e, NoArgs), rest.rest) else BadArgs)
        else if !rest.t.Comma? then BadArgs
        else match Arguments(name, n + 1, rest.rest, arity)
          case BadArgs => BadArgs
          case GotArgs(args, more) => GotArgs(Arg(e, args), more)
  }

  // ---- what is parsed is what was written ----

  lemma {:induction false} ParseShows(k: nat, ts: Toks, arity: Arity)
    requires k <= FACTOR && Parse(k, ts, arity).Got?
    ensures var r := Parse(k, ts, arity); Show(r.e, r.rest) == ts && Fit(r.e, arity) && Level(r.e) >= k
    decreases Len(ts), FACTOR - k, 1
  {
    if k == FACTOR {
      FactorShows(ts, arity);
    } else {
      var p := Parse(k + 1, ts, arity);
      ParseShows(k + 1, ts, arity);
      LoopShows(k, p.e, p.rest, arity);
    }
  }

  lemma {:induction false} LoopShows(k: nat, e: Expr, ts: Toks, arity: Arity)
    requires k < FACTOR && Fit(e, arity) && (if k == REL then Level(e) > k else Level(e) >= k)
      && Loop(k, e, ts, arity).Got?
    ensures var r := Loop(k, e, ts, arity); Show(r.e, r.rest) == Show(e, ts) && Fit(r.e, arity) && Level(r.e) >= k
    decreases Len(ts), FACTOR - k, 0
  {
    if ts.Tk? && ts.t.Op? && Prec(ts.t.op) == k {
      var p := Parse(k + 1, ts.rest, arity);
      ParseShows(k + 1, ts.rest, arity);
      var b := Bin(ts.t.op, e, p.e);
      assert Show(b, p.rest) == Show(e, ts);
      if k != REL { LoopShows(k, b, p.rest, arity); }
    }
  }

  lemma {:induction false} FactorShows(ts: Toks, arity: Arity)
    requires Factor(ts, arity).Got?
    ensures var r := Factor(ts, arity); Show(r.e, r.rest) == ts && Fit(r.e, arity) && Level(r.e) == FACTOR
    decreases Len(ts), 0, 0
  {
    match ts
    case Tk(Op(Plus), rest) => FactorShows(rest, arity);
    case Tk(Op(Minus), rest) => FactorShows(rest, arity);
    case Tk(NotT, rest) => FactorShows(rest, arity);
    case Tk(LParen, rest) => ParseShows(0, rest, arity);
    case Tk(Id(n), Tk(LParen, rest)) =>
      assert Len(ts.rest) == 1 + Len(rest);
      ArgumentsShow(n, 0, rest, arity);
    case _ =>
  }

  lemma {:induction false} ArgumentsShow(name: Name, n: nat, ts: Toks, arity: Arity)
    requires Arguments(name, n, ts, arity).GotArgs?
    ensures var r := Arguments(name, n, ts, arity);
      ShowArgs(r.args, true, Tk(RParen, r.rest)) == ts && FitArgs(name, r.args, n, arity) && (n > 0 ==> r.args.Arg?)
    decreases Len(ts), FACTOR, 2
  {
    if !(n == 0 && ts.Tk? && ts.t.RParen?) {
      var p := Parse(0, ts, arity);
      ParseShows(0, ts, arity);
      if p.rest.t.Comma? { ArgumentsShow(name, n + 1, p.rest.rest, arity); }
    }
  }

  // ---- what is written is what is parsed ----

  /** What may follow an expression of level k: no operator that would go on with it, and nothing
      that makes a function or an array of a name at its end. */
  predicate Stops(k: nat, rest: Toks) {
    rest.Tk? ==> !(rest.t.Op? && Prec(rest.t.op) >= k) && !rest.t.LParen? && !rest.t.Arrow? && !rest.t.LBrkt?
  }

  lemma {:induction false} ParseFinds(k: nat, e: Expr, rest: Toks, arity: Arity)
    requires k <= FACTOR && Fit(e, arity) && Level(e) >= k && Stops(k, rest)
    ensures Parse(k, Show(e, rest), arity) == Got(e, rest)
    decreases e, FACTOR - k, 1
  {
    if k == FACTOR { FactorFinds(e, rest, arity); } else { LevelFinds(k, e, rest, arity); }
  }

  /** Up to the loop of its level, where what follows decides how it goes on. */
  lemma {:induction false} LevelFinds(k: nat, e: Expr, rest: Toks, arity: Arity)
    requires k < FACTOR && Fit(e, arity) && Level(e) >= k && Stops(k + 1, rest)
    ensures Parse(k, Show(e, rest), arity) == if k == REL
      && Level(e) == REL then Got(e, rest) else Loop(k, e, rest, arity)
    decreases e, FACTOR - k, 0
  {
    if Level(e) > k {
      ParseFinds(k + 1, e, rest, arity);
    } else {
      BinFinds(k, e, rest, arity);
    }
  }

  lemma {:induction false} BinFinds(k: nat, e: Expr, rest: Toks, arity: Arity)
    requires k < FACTOR && Fit(e, arity) && Level(e) == k && Stops(k + 1, rest)
    ensures Parse(k, Show(e, rest), arity) == if k == REL then Got(e, rest) else Loop(k, e, rest, arity)
    decreases e, 0, 0
  {
    var Bin(op, l, r) := e;
    var ts := Tk(Op(op), Show(r, rest));
    LevelFinds(k, l, ts, arity);
    ParseFinds(k + 1, r, rest, arity);
    assert Show(e, rest) == Show(l, ts);
    assert Loop(k, l, ts, arity) == if k == REL then Got(e, rest) else Loop(k, e, rest, arity);
  }

  lemma {:induction false} FactorFinds(e: Expr, rest: Toks, arity: Arity)
    requires Fit(e, arity) && Level(e) == FACTOR && Stops(FACTOR, rest)
    ensures Factor(Show(e, rest), arity) == Got(e, rest)
    decreases e, 0, 0
  {
    match e
    case Group(x) => ParseFinds(0, x, Tk(RParen, rest), arity);
    case Un(op, x) => FactorFinds(x, rest, arity);
    case Fcn(n, args) => ArgumentsFind(n, args, 0, rest, arity);
    case _ =>
  }

  lemma {:induction false} ArgumentsFind(name: Name, args: Args, n: nat, rest: Toks, arity: Arity)
    requires FitArgs(name, args, n, arity) && (n > 0 ==> args.Arg?)
    ensures Arguments(name, n, ShowArgs(args, true, Tk(RParen, rest)), arity) == GotArgs(args, rest)
    decreases args, 0, 0
  {
    if args.Arg? {
      var after := ShowArgs(args.rest, false, Tk(RParen, rest));
      ParseFinds(0, args.e, after, arity);
      StartsWell(args.e, after);
      if args.rest.Arg? { ArgumentsFind(name, args.rest, n + 1, rest, arity); }
    }
  }

  /** No expression begins with a closing parenthesis. */
  lemma {:induction false} StartsWell(e: Expr, rest: Toks)
    ensures Show(e, rest).Tk? && !Show(e, rest).t.RParen?
    decreases e
  {
    if e.Bin? { StartsWell(e.l, Tk(Op(e.bop), Show(e.r, rest))); }
  }

  /** The grammar is unambiguous: tokens that read as one expression read as no other. */
  lemma Unambiguous(e: Expr, rest: Toks, e': Expr, rest': Toks, arity: Arity)
    requires Fit(e, arity) && Fit(e', arity) && Stops(0, rest) && Stops(0, rest') && Show(e, rest) == Show(e', rest')
    ensures e == e' && rest == rest'
  {
    ParseFinds(0, e, rest, arity);
    ParseFinds(0, e', rest', arity);
  }
}
