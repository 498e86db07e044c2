/** Expressions the whole way: tokens that are accepted are compiled to code that leaves their value. */
module ExprWhole {
  import opened Options
  import opened Values
  import opened Expr
  import opened Pcode
  import opened ExprValue
  import opened Grammar
  import ExprRun
  import ExprCompile

  /** An expression whose code fits has few enough arguments in every call. */
  lemma {:induction false} FewArguments(g: Lang, e: Expr, i: nat)
    requires |Code(g, e, i)| < 256
    ensures Small(e) && |Code(g, e, i)| >= 1
    decreases e, 1
  {
    match e
    case Fcn(n, args) => FewInArgs(g, args, if g.id(n) == -1 then i + 1 else i);
    case Group(x) => FewArguments(g, x, i);
    case Un(_, x) => FewArguments(g, x, i);
    case Bin(_, l, r) =>
      FewArguments(g, l, i);
      FewArguments(g, r, i + Loads(g, l));
    case _ =>
  }

  lemma {:induction false} FewInArgs(g: Lang, args: Args, i: nat)
    requires |CodeArgs(g, args, i)| < 256
    ensures SmallArgs(args) && CountArgs(args) <= |CodeArgs(g, args, i)|
    decreases args, 0
  {
    if args.Arg? {
      FewArguments(g, args.e, i);
      FewInArgs(g, args.rest, i + Loads(g, args.e));
    }
  }

  /** The code of an expression has no jumps, so it may stand in a subroutine that is called. */
  lemma {:induction false} CodeStraight(g: Lang, e: Expr, i: nat)
    ensures Straight(Code(g, e, i))
    decreases e, 1
  {
    match e
    case Fcn(n, args) => ArgsStraight(g, args, if g.id(n) == -1 then i + 1 else i);
    case Group(x) => CodeStraight(g, x, i);
    case Un(_, x) => CodeStraight(g, x, i);
    case Bin(_, l, r) =>
      CodeStraight(g, l, i);
      CodeStraight(g, r, i + Loads(g, l));
    case _ =>
  }

  lemma {:induction false} ArgsStraight(g: Lang, args: Args, i: nat)
    ensures Straight(CodeArgs(g, args, i))
    decreases args, 0
  {
    if args.Arg? {
      CodeStraight(g, args.e, i);
      ArgsStraight(g, args.rest, i + Loads(g, args.e));
    }
  }

  /** Whatever is on the stack, and however much room there is above it, the code leaves the value of e. */
  ghost predicate Computes(g: Lang, data: seq<byte>, code: seq<Pcode>, e: Expr) {
    forall cap: nat, st :: ExprRun.Run(g, data, cap, code, st) == ExprRun.Onto(Eval(g, e, cap - |st|), st)
  }

  lemma CodeComputes(g: Lang, data: seq<byte>, cs: seq<Value>, e: Expr)
    requires ExprRun.Sized(g) && Lies(data, 0, cs) && cs == Consts(g, e) && |Code(g, e, 0)| <= CODE_LIMIT
    ensures Computes(g, data, Code(g, e, 0), e)
  {
    FewArguments(g, e, 0);
    assert cs[0..|cs|] == cs;
    forall cap: nat,
        st ensures ExprRun.Run(g, data, cap, Code(g, e, 0), st) == ExprRun.Onto(Eval(g, e, cap - |st|), st) {
      ExprRun.RunsTo(g, data, cs, cap, e, 0, st);
    }
  }

  /** The tokens begin with e, written as the grammar has it. */
  ghost predicate Reads(toks: Toks, arity: Arity, e: Expr, rest: Toks) {
    IsExpression(e, arity) && Show(e, rest) == toks
  }

  /**
   * Compile an expression from the start of a command. The tokens taken are those of one
   * expression of the grammar, and the code leaves its value. It is refused only if the tokens do not
   * begin with an expression, or if its code or its constants do not fit.
   */
  method CompileExpression(g: Lang, arity: Arity, toks: Toks)
    returns (r: ExprCompile.Result, c: ExprCompile.Compiler, ghost e: Expr)
    requires ExprRun.Sized(g)
    ensures c.Valid()
    ensures r == ExprCompile.Accepted ==> Reads(toks, arity, e, c.toks) && Computes(g, c.pdata[..], c.View().code, e)
    ensures r == ExprCompile.BAD_EXP ==> forall x, rest :: Ended(rest) ==> !Reads(toks, arity, x, rest)
    ensures r == ExprCompile.EXP_TOOLONG ==> forall x, rest :: Ended(rest) && Reads(toks, arity, x, rest) ==>
              !ExprCompile.Roomy(ExprCompile.St(toks, [], []), Code(g, x, 0), Consts(g, x))
  {
    c := new ExprCompile.Compiler(g, arity, toks);
    r := c.Level(0);
    ghost var p := Parse(0, toks, arity);
    e := if p.Got? then p.e else Const(NullNum);
    ParsesGrammar(toks, arity);
    if r == ExprCompile.Accepted {
      c.ConstsLie();
      Accepts(g, arity, toks, p, c.pdata[..], c.View());
    }
  }

  lemma Accepts(g: Lang, arity: Arity, toks: Toks, p: Parsed, data: seq<byte>, s: ExprCompile.St)
    requires ExprRun.Sized(g) && p.Got? && Lies(data, 0, s.cs) && |s.code| <= CODE_LIMIT
    requires s == ExprCompile.Grow(ExprCompile.St(toks, [], []), Code(g, p.e, 0), Consts(g, p.e), p.rest)
    ensures Computes(g, data, s.code, p.e)
  {
    assert s.code == Code(g, p.e, 0) && s.cs == Consts(g, p.e);
    CodeComputes(g, data, s.cs, p.e);
  }
}
