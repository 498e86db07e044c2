/**
 * Which lines of a page template are accepted (client/cgi/db3w.c:385-449), told from the levels that are
 * open; and that a template which is read to its end with every level closed is a nested one, however
 * its conditions turned out and its loops went round.
 */
module TemplateNesting {
  import opened Options
  import opened Control
  import opened Lines
  import opened Holes
  import opened Nesting
  import opened Template

  // ---- one line ----

  /** The error of a line inside of the open levels, the innermost on top. */
  function Verdict(nest: Stack<Lv>, l: Tag): Status {
    var top := if nest.Push? then Some(nest.top.kind) else None;
    match l
    case Text(_) => Fine
    case WhileT(_) => if Len(nest) == 15 then TOOMANY else Fine
    case IfT(_) => if Len(nest) == 15 then TOOMANY else Fine
    case BeginCaseT => if Len(nest) == 15 then TOOMANY else Fine
    case EndWhileT => if top == Some(KWhile) then Fine else Status.UNBAL_ENDWHILE
    case ElseT => if top == Some(KIf) then Fine else Status.MISSING_IF
    case EndIfT => if top == Some(KIf) || top == Some(KElse) then Fine else Status.UNBAL_ENDIF
    case CaseT(_) => if top == Some(KCase) then Fine else Status.MISSING_CASE
    case OtherwiseT => if top == Some(KCase) then Fine else Status.MISSING_CASE
    case EndCaseT => if top == Some(KCase) || top == Some(KOther) then Fine else Status.UNBAL_ENDCASE
  }

  /** Every line, in every state that lines lead to: the error that the open levels give rise to. */
  lemma LineJudged(m: State, l: Tag, truth: seq<Blk> -> bool)
    requires Tracked(m) && m.err == Fine
    ensures Process(m, l, truth).err == Verdict(m.nest, l)
  {
    LineTracked(m, l, truth);
  }

  // ---- a whole template ----

  /** The tag as a line of a procedure. */
  function LineOf(l: Tag): Line {
    match l
    case Text(t) => Line.Plain(t)
    case WhileT(c) => DoWhile(c)
    case EndWhileT => EndDo
    case IfT(c) => IfLn(c)
    case ElseT => ElseLn
    case EndIfT => EndIf
    case BeginCaseT => DoCase
    case CaseT(c) => CaseLn(c)
    case OtherwiseT => OtherwiseLn
    case EndCaseT => EndCase
  }

  function LinesOf(ls: seq<Tag>): (r: seq<Line>)
    ensures |r| == |ls|
    decreases |ls|
  {
    if ls == [] then [] else [LineOf(ls[0])] + LinesOf(ls[1..])
  }

  predicate Like(lv: Lv, l: Level) {
    match lv.kind
    case KIf => l == IfL
    case KElse => l == ElseL
    case KWhile => l == WhileL
    case KCase => l.CaseL?
    case KOther => l.OtherL?
  }

  predicate Alike(nest: Stack<Lv>, open: Stack<Level>)
    decreases nest
  {
    if nest.Empty? || open.Empty? then nest.Empty? && open.Empty?
    else Like(nest.top, open.top) && Alike(nest.below, open.below)
  }

  /** The levels open before line p, by the lines alone, are those of the stack. */
  predicate Stands(ls: seq<Tag>, p: int, nest: Stack<Lv>) {
    0 <= p <= |ls| && OpenAt(ls, p).Some? && Alike(nest, OpenAt(ls, p).v)
  }

  function OpenAt(ls: seq<Tag>, p: nat): Option<Stack<Level>>
    requires p <= |ls|
  {
    if p == 0 then Some(Empty)
    else
      var w, l := OpenAt(ls, p - 1), LineOf(ls[p - 1]);
      if w.Some? && Suits(w.v, l) then Some(NestAfter(w.v, l)) else None
  }

  /** And the levels around each open level are those before the line that it started at. */
  predicate Started(ls: seq<Tag>, nest: Stack<Lv>, starts: Stack<int>)
    decreases nest
  {
    nest.Push? ==> starts.Push? && Stands(ls, starts.top, nest.below) && Started(ls, nest.below, starts.below)
  }

  predicate Placed(ls: seq<Tag>, m: State) {
    Tracked(m) && (m.err == Fine ==> Stands(ls, m.pos, m.nest) && Started(ls, m.nest, m.starts))
  }

  lemma {:induction false} OpenIs(ls: seq<Tag>, p: nat)
    requires p <= |ls|
    ensures OpenAt(ls, p) == Walk(Empty, LinesOf(ls[..p]))
    decreases p
  {
    if p > 0 {
      var l := LineOf(ls[p - 1]);
      OpenIs(ls, p - 1);
      assert ls[..p] == ls[..p - 1] + [ls[p - 1]];
      LinesApart(ls[..p - 1], [ls[p - 1]]);
      LinesOne(ls[p - 1]);
      WalkAppend(Empty, LinesOf(ls[..p - 1]), [l]);
      var w := OpenAt(ls, p - 1);
      if w.Some? {
        WalkCons(w.v, l, []);
        assert [l] + [] == [l];
      }
    }
  }

  lemma LinePlaced(ls: seq<Tag>, m: State, truth: seq<Blk> -> bool)
    requires Placed(ls, m) && m.err == Fine && m.pos < |ls|
    ensures Placed(ls, Process(m, ls[m.pos], truth))
  {
    var n := Process(m, ls[m.pos], truth);
    LineTracked(m, ls[m.pos], truth);
    if n.err == Fine {
      match ls[m.pos]
      case Text(_) =>
      case WhileT(_) => OpenPlaced(ls, m, n);
      case IfT(_) => OpenPlaced(ls, m, n);
      case BeginCaseT => OpenPlaced(ls, m, n);
      case ElseT => ChangePlaced(ls, m, n);
      case CaseT(_) => ChangePlaced(ls, m, n);
      case OtherwiseT => ChangePlaced(ls, m, n);
      case EndWhileT => ShutPlaced(ls, m, n);
      case EndIfT => ShutPlaced(ls, m, n);
      case EndCaseT => ShutPlaced(ls, m, n);
    }
  }

  /** A level of the kind that the line opens. */
  lemma OpenPlaced(ls: seq<Tag>, m: State, n: State)
    requires 0 <= m.pos < |ls| && Stands(ls, m.pos, m.nest) && Started(ls, m.nest, m.starts) && n.pos == m.pos + 1
    requires n.nest.Push? && n.nest.below == m.nest
    requires n.nest.top.kind == if ls[m.pos].WhileT? then KWhile else if ls[m.pos].IfT? then KIf else KCase
    requires ls[m.pos].WhileT? || ls[m.pos].IfT? || ls[m.pos].BeginCaseT?
    requires n.starts == Push(m.pos, m.starts)
    ensures Stands(ls, n.pos, n.nest) && Started(ls, n.nest, n.starts)
  {
  }

  lemma ChangePlaced(ls: seq<Tag>, m: State, n: State)
    requires 0 <= m.pos < |ls| && Stands(ls, m.pos, m.nest) && Started(ls, m.nest, m.starts) && n.pos == m.pos + 1
    requires m.nest.Push? && n.nest.Push? && n.nest.below == m.nest.below && n.starts == m.starts
    requires if ls[m.pos].ElseT? then m.nest.top.kind == KIf && n.nest.top.kind == KElse
      else m.nest.top.kind == KCase && n.nest.top.kind == if ls[m.pos].CaseT? then KCase else KOther
    requires ls[m.pos].ElseT? || ls[m.pos].CaseT? || ls[m.pos].OtherwiseT?
    ensures Stands(ls, n.pos, n.nest) && Started(ls, n.nest, n.starts)
  {
  }

  /** The level goes, and the next line is the one behind it or, in a loop, the one it started at. */
  lemma ShutPlaced(ls: seq<Tag>, m: State, n: State)
    requires 0 <= m.pos < |ls| && Stands(ls, m.pos, m.nest) && Started(ls, m.nest, m.starts)
    requires m.nest.Push? && n.nest == m.nest.below && m.starts.Push? && n.starts == m.starts.below
    requires match ls[m.pos]
      case EndWhileT => m.nest.top.kind == KWhile
      case EndIfT => m.nest.top.kind == KIf || m.nest.top.kind == KElse
      case EndCaseT => m.nest.top.kind == KCase || m.nest.top.kind == KOther
      case _ => false
    requires n.pos == m.pos + 1 || n.pos == m.starts.top
    ensures Stands(ls, n.pos, n.nest) && Started(ls, n.nest, n.starts)
  {
  }

  lemma {:induction false} RunPlaced(ls: seq<Tag>, truth: seq<Blk> -> bool, m: State, k: nat)
    requires Placed(ls, m)
    ensures Placed(ls, Template.Steps(ls, truth, m, k))
    decreases k
  {
    if k > 0 {
      if m.err == Fine && 0 <= m.pos < |ls| { LinePlaced(ls, m, truth); }
      RunPlaced(ls, truth, Next(ls, truth, m), k - 1);
    }
  }

  // ---- templates and the lines of procedures ----

  lemma {:induction false} LinesApart(a: seq<Tag>, b: seq<Tag>)
    ensures Some(LinesOf(a + b)) == Some(LinesOf(a) + LinesOf(b))
    decreases |a|
  {
    if a == [] {
      assert a + b == b && [] + LinesOf(b) == LinesOf(b);
    } else {
      assert (a + b)[1..] == a[1..] + b;
      LinesApart(a[1..], b);
      assert [LineOf(a[0])] + (LinesOf(a[1..]) + LinesOf(b)) == [LineOf(a[0])] + LinesOf(a[1..]) + LinesOf(b);
    }
  }

  lemma LinesThree(x: Tag, a: seq<Tag>, b: seq<Tag>)
    ensures Some(LinesOf([x] + a + b)) == Some([LineOf(x)] + (LinesOf(a) + LinesOf(b)))
  {
    assert ([x] + a + b)[1..] == a + b;
    LinesApart(a, b);
  }

  lemma LinesOne(x: Tag)
    ensures Some(LinesOf([x])) == Some([LineOf(x)])
  {
    assert [x][1..] == [] && [LineOf(x)] + [] == [LineOf(x)];
  }

  /** The body reads the same both ways. */
  lemma {:induction false} SameB(b: Block)
    requires Template.Plain(b)
    ensures IfsB(b) && Some(LinesOf(LinesT(b))) == Some(LinesB(b))
    decreases b
  {
    if b.Then? {
      LinesApart(LinesTS(b.s), LinesT(b.rest));
      SameS(b.s);
      SameB(b.rest);
    }
  }

  lemma {:induction false} SameS(s: Stmt)
    requires PlainS(s)
    ensures IfsS(s) && Some(LinesOf(LinesTS(s))) == Some(LinesS(s))
    decreases s, 1
  {
    match s
    case Do(c) => LinesOne(Text(c));
    case While(_, _) => SameWhile(s);
    case Choose(true, _, _) => SameCase(s);
    case Choose(false, _, _) => SameIf(s);
  }

  lemma {:induction false} SameWhile(s: Stmt)
    requires s.While? && PlainS(s)
    ensures IfsS(s) && Some(LinesOf(LinesTS(s))) == Some(LinesS(s))
    decreases s, 0
  {
    LinesThree(WhileT(s.c), LinesT(s.body), [EndWhileT]);
    LinesOne(EndWhileT);
    SameB(s.body);
  }

  lemma {:induction false} SameCase(s: Stmt)
    requires s.Choose? && s.isCase && PlainS(s)
    ensures IfsS(s) && Some(LinesOf(LinesTS(s))) == Some(LinesS(s))
    decreases s, 0
  {
    LinesThree(BeginCaseT, LinesT(s.pre), LinesTA(true, s.arms));
    SameB(s.pre);
    SameA(true, s.arms);
  }

  lemma {:induction false} SameIf(s: Stmt)
    requires s.Choose? && !s.isCase && PlainS(s)
    ensures IfsS(s) && Some(LinesOf(LinesTS(s))) == Some(LinesS(s))
    decreases s, 0
  {
    var a := s.arms;
    IfParts(s);
    IfPlain(s);
    LinesThree(IfT(a.c), LinesT(a.body), LinesTA(false, a.rest));
    SameB(a.body);
    SameA(false, a.rest);
  }

  lemma {:induction false} SameA(isCase: bool, arms: Arms)
    requires PlainA(arms) && (isCase || !arms.Arm?)
    ensures IfsA(arms) && Some(LinesOf(LinesTA(isCase, arms))) == Some(LinesA(isCase, arms))
    decreases arms
  {
    var e := if isCase then EndCaseT else EndIfT;
    LinesOne(e);
    match arms
    case End =>
    case Otherwise(body) =>
      LinesThree(if isCase then OtherwiseT else ElseT, LinesT(body), [e]);
      SameB(body);
    case Arm(c, body, rest) =>
      LinesThree(CaseT(c), LinesT(body), LinesTA(isCase, rest));
      SameB(body);
      SameA(isCase, rest);
  }

  /** Lines that templates have. */
  predicate AllTags(ls: seq<Line>)
    decreases |ls|
  {
    ls == []
    || (!ls[0].ExitLn? && !ls[0].LoopLn? && !ls[0].ElseIf? && !ls[0].ReturnLn? && !ls[0].ReturnValLn? && !ls[0].CallLn?
        && AllTags(ls[1..]))
  }

  lemma {:induction false} TagsApart(a: seq<Line>, b: seq<Line>)
    ensures AllTags(a + b) <==> AllTags(a) && AllTags(b)
    decreases |a|
  {
    if a == [] {
      assert a + b == b;
    } else {
      assert (a + b)[1..] == a[1..] + b;
      TagsApart(a[1..], b);
    }
  }

  lemma TagsCons(l: Line, a: seq<Line>, b: seq<Line>)
    requires AllTags([l] + (a + b))
    ensures AllTags([l]) && AllTags(a) && AllTags(b)
  {
    TagsApart([l], a + b);
    TagsApart(a, b);
  }

  lemma {:induction false} TagsOf(ls: seq<Tag>)
    ensures AllTags(LinesOf(ls))
    decreases |ls|
  {
    if ls != [] { TagsOf(ls[1..]); }
  }

  /** A body with such lines only is one that a template may have. */
  lemma {:induction false} PlainB(b: Block)
    requires IfsB(b) && AllTags(LinesB(b))
    ensures Template.Plain(b)
    decreases b
  {
    if b.Then? {
      TagsApart(LinesS(b.s), LinesB(b.rest));
      PlainStmt(b.s);
      PlainB(b.rest);
    }
  }

  lemma {:induction false} PlainStmt(s: Stmt)
    requires IfsS(s) && AllTags(LinesS(s))
    ensures PlainS(s)
    decreases s
  {
    if s.While? {
      TagsCons(DoWhile(s.c), LinesB(s.body), [EndDo]);
      PlainB(s.body);
    } else if s.Choose? && s.isCase {
      TagsCons(DoCase, LinesB(s.pre), LinesA(true, s.arms));
      PlainB(s.pre);
      PlainArms(true, s.arms);
    } else if s.Choose? {
      TagsCons(IfLn(s.arms.c), LinesB(s.arms.body), LinesA(false, s.arms.rest));
      PlainB(s.arms.body);
      PlainArms(false, s.arms.rest);
      assert Template.Plain(Nil);
    }
  }

  lemma {:induction false} PlainArms(isCase: bool, arms: Arms)
    requires IfsA(arms) && AllTags(LinesA(isCase, arms))
    ensures PlainA(arms) && (isCase || !arms.Arm?)
    decreases arms
  {
    match arms
    case End =>
    case Otherwise(body) =>
      TagsCons(ElseOf(isCase), LinesB(body), [EndOf(isCase)]);
      PlainB(body);
    case Arm(c, body, rest) =>
      TagsCons(if isCase then CaseLn(c) else ElseIf(c), LinesB(body), LinesA(isCase, rest));
      PlainB(body);
      PlainArms(isCase, rest);
  }

  lemma {:induction false} LinesTell(a: seq<Tag>, b: seq<Tag>)
    requires LinesOf(a) == LinesOf(b)
    ensures a == b
    decreases |a|
  {
    if a != [] {
      assert LinesOf(a)[0] == LinesOf(b)[0] && LinesOf(a)[1..] == LinesOf(b)[1..];
      LinesTell(a[1..], b[1..]);
      assert a == [a[0]] + a[1..] && b == [b[0]] + b[1..];
    }
  }

  /**
   * Whatever the lines and the conditions: a template that has been read to its end without an error,
   * and with no level open, is one of nested tags.
   */
  lemma ReadToTheEnd(ls: seq<Tag>, truth: seq<Blk> -> bool, k: nat) returns (b: Block)
    requires var n := Template.Steps(ls, truth, FRESH, k); n.err == Fine && n.pos == |ls| && n.nest == Empty
    ensures Template.Plain(b) && ls == LinesT(b)
  {
    RunPlaced(ls, truth, FRESH, k);
    OpenIs(ls, |ls|);
    assert ls[..|ls|] == ls;
    WalkIff(LinesOf(ls));
    b :| IfsB(b) && LinesOf(ls) == LinesB(b);
    TagsOf(ls);
    PlainB(b);
    SameB(b);
    LinesTell(ls, LinesT(b));
  }
}
