/**
 * Commands with scope clauses, from the clauses to the records they act on.
 */
module ScopeCommands {
  import opened Pcode
  import opened ScopeRun
  import opened ScopeCode
  import opened ScopeClauses
  import opened ScopeMeaning
  import opened Options

  /** The count is given as a whole number, or not at all. */
  predicate Counts<D>(env: Env<D>, n: int) { n == 0xff || env.constant(n) >= 0 }

  /**
   * Where the loop begins: NEXT and PREV count from the record that is current, without them
   * the walk begins at the top.
   */
  function Start<D>(env: Env<D>, items: seq<Item>, c: Ctx<D>): (r: Ctx<D>)
    requires Counts(env, CountOf(items).0)
    ensures r.total == HowMany(env, items) && r.count == 0 && r.dir == Whither(items) && r.next == -1 && r.d == c.d
    ensures From(env, r.d, r.pos, Whither(items)) == Whole(env, items, c)
  {
    var (n, dir) := CountOf(items);
    StartIs(env, items, c);
    var c := Scoped(env, c, n, dir);
    if HasNext(items) then c else c.(pos := Settle(env, c.d, 0, 1))
  }

  lemma StartIs<D>(env: Env<D>, items: seq<Item>, c: Ctx<D>)
    ensures var (n, dir) := CountOf(items);
      && dir == Whither(items) && HasNext(items) == CountClause(items).Some?
      && (if n == 0xff then env.maxrecs else env.constant(n)) == HowMany(env, items)
      && (if HasNext(items) then From(env, c.d, c.pos, dir) else From(env, c.d, Settle(env, c.d, 0, 1), 1)) ==
            Whole(env, items, c)
  {
    CountIs(items);
    WalkIs(env, c.d, c.pos, Whither(items));
    SettledIs(env, c.d, 0, 1);
  }

  lemma {:induction false} CountIs(items: seq<Item>)
    ensures HasNext(items) == CountClause(items).Some?
    ensures CountOf(items) == match CountClause(items)
      case None => (0xff, 1) case Some(it) => (it.k, if it.back then -1 else 1)
    decreases |items|
  {
    if items != [] && !items[0].Next? { CountIs(items[1..]); }
  }

  /** A run that does what is asked is one that does what the clauses say. */
  lemma Written<D(!new)>(j: Job<D>, items: seq<Item>, c: Ctx<D>, e: Ctx<D>)
    requires Counts(j.env, CountOf(items).0) && j.dir == CountOf(items).1 && AsAsked(j, Start(j.env, items, c), e)
    ensures AsWritten(j, items, c, e)
  {
    var start := Start(j.env, items, c);
    StartIs(j.env, items, c);
    FromStart(j, start, Whole(j.env, items, c), HowMany(j.env, items), items, c, e);
  }

  lemma FromStart<D(!new)>(j: Job<D>, start: Ctx<D>, walk: seq<int>, n: nat, items: seq<Item>, c: Ctx<D>, e: Ctx<D>)
    requires walk == Whole(j.env, items, c) && n == HowMany(j.env, items) && AsAsked(j, start, e)
    requires start.total == n && start.count == 0 && start.d == c.d && From(j.env, start.d, start.pos, j.dir) == walk
    ensures AsWritten(j, items, c, e)
  {
    SpanIs(j, walk, n, c.d);
    assert ChosenFirst(j, walk, n, c.d, |TakeWhile(j.While, c.d, Take(walk, n))|);
  }

  /** What the clauses and the action of a command mean, for j. */
  ghost predicate Means<D(!new)>(j: Job<D>, items: seq<Item>, act: seq<Pcode>) {
    (forall it :: it in items ==> PlainItem(it))
    && Straight(WhileOf(items)) && CondIs(j.env, WhileOf(items), j.While)
    && Straight(ForOf(items)) && CondIs(j.env, ForOf(items), j.For)
    && Straight(act) && ActIs(j, act)
    && j.dir == CountOf(items).1 && Counts(j.env, CountOf(items).0)
  }

  /** Code that follows the command does not matter to its loop. */
  lemma LoopMore(code: seq<Pcode>, more: seq<Pcode>, o: int, end: int, dir: Dir, b: Bodies)
    requires LoopAt(code, o, end, dir, b)
    ensures LoopAt(code + more, o, end, dir, b)
  {
    var x := code + more;
    SubMore(code, more, code[o + 2].opnd, b.w);
    SubMore(code, more, code[o + 5].opnd, b.f);
    if code[o + 7].opcode.CALL? { SubMore(code, more, code[o + 7].opnd, b.act); }
    assert forall i | o <= i < o + 10 :: x[i] == code[i];
  }

  lemma SubMore(code: seq<Pcode>, more: seq<Pcode>, a: int, body: seq<Pcode>)
    requires SubAt(code, a, body)
    ensures SubAt(code + more, a, body)
  {
    assert (code + more)[a..a + |body|] == code[a..a + |body|];
  }

  lemma Enters<D>(env: Env<D>, code: seq<Pcode>, o: nat, n: int, dir: Dir, go: int, calls: Calls, c: Ctx<D>)
    requires o + 2 <= |code| && code[o] == Pcode(if dir == 1 then SCOPE_F else SCOPE_B, n)
    requires code[o + 1] == Pcode(GO_, go) && (go == 1 || go == 5) && Counts(env, n)
    ensures var c1 := Scoped(env, c, n, dir);
      Reaches(env, code, Run(o, calls, c),
          Run(o + 2, calls, if go == 1 then c1.(pos := Settle(env, c1.d, 0, 1)) else c1))
  {
    var c1 := Scoped(env, c, n, dir);
    Once(env, code, Run(o, calls, c));
    Last(env, code, Run(o, calls, c), Run(o + 1, calls, c1),
         Run(o + 2, calls, if go == 1 then c1.(pos := Settle(env, c1.d, 0, 1)) else c1));
  }

  /** The compiled command f, run from its loop, as ScopeRun has it. */
  lemma Linked<D(!new)>(f: Form, items: seq<Item>, more: seq<Pcode>, j: Job<D>, calls: Calls, c: Ctx<D>)
    requires Sound(f) && !f.st.next && !f.st.for_ && !f.st.while_ && f.h.skip == 1 && Compile(f, items).Ok?
    requires AddAll(f, items).v.st.fields && Means(j, items, Compile(f, items).v.b.act)
    requires j.o == |f.pre| && j.end == |Code(Compile(f, items).v)|
    ensures var code := Code(Compile(f, items).v) + more;
      Reaches(j.env, code, Run(j.o, calls, c), Run(j.o + 2, calls, Start(j.env, items, c)))
      && Edges(j, Runs(j.env, code)) && Transitive(Runs(j.env, code))
  {
    var g := Compile(f, items).v;
    var code := Code(g) + more;
    AddAllSound(f, items);
    CloseStands(AddAll(f, items).v);
    CompilePlan(f, items);
    LoopMore(Code(g), more, j.o, j.end, j.dir, g.b);
    var (n, dir) := CountOf(items);
    Enters(j.env, code, j.o, n, dir, g.h.go, calls, c);
    EdgesHold(j, code, g.b);
    RunsTransitive(j.env, code);
  }

  /** A run that ends, having acted on what was asked for. */
  ghost predicate ActsAsAsked<D(!new)>(j: Job<D>, code: seq<Pcode>, pc: int, calls: Calls, c: Ctx<D>, start: Ctx<D>) {
    exists e :: Reaches(j.env, code, Run(pc, calls, c), Run(j.end, calls, e)) && AsAsked(j, start, e)
  }

  /** One that has done what the clauses say. */
  ghost predicate ActsAsWritten<D(!new)>(j: Job<D>, code: seq<Pcode>, pc: int, calls: Calls, c: Ctx<D>,
                                         items: seq<Item>) {
    exists e :: Reaches(j.env, code, Run(pc, calls, c), Run(j.end, calls, e)) && AsWritten(j, items, c, e)
  }

  lemma WrittenRun<D(!new)>(j: Job<D>, code: seq<Pcode>, pc: int, calls: Calls, c: Ctx<D>, items: seq<Item>)
    requires Counts(j.env, CountOf(items).0) && j.dir == CountOf(items).1
    requires ActsAsAsked(j, code, pc, calls, c, Start(j.env, items, c))
    ensures ActsAsWritten(j, code, pc, calls, c, items)
  {
    var start := Start(j.env, items, c);
    var e :| Reaches(j.env, code, Run(pc, calls, c), Run(j.end, calls, e)) && AsAsked(j, start, e);
    Written(j, items, c, e);
  }

  lemma LoopActs<D(!new)>(j: Job<D>, code: seq<Pcode>, calls: Calls, c: Ctx<D>, start: Ctx<D>)
    requires Reaches(j.env, code, Run(j.o, calls, c), Run(j.o + 2, calls, start))
    requires Edges(j, Runs(j.env, code)) && Transitive(Runs(j.env, code))
    requires Local(j) && !j.fetch && start.next == NOREC
    ensures ActsAsAsked(j, code, j.o, calls, c, start)
  {
    LoopRuns(j, Runs(j.env, code), calls, start);
    FinalIs(j, start);
    assert Runs(j.env, code)(Run(j.o + 2, calls, start), Run(j.end, calls, Final(j, start)));
    Then(j.env, code, Run(j.o, calls, c), Run(j.o + 2, calls, start), Run(j.end, calls, Final(j, start)));
  }

  /**
   * A command with one operation and any clauses in any order acts on exactly the records its
   * clauses choose, in the order of the walk, and then leaves its loop.
   */
  lemma CommandActs<D(!new)>(pre: seq<Pcode>, act: Pcode, items: seq<Item>, j: Job<D>, calls: Calls, c: Ctx<D>)
    requires Compile(OneForm(pre, act), items).Ok? && Inline(act)
    requires Means(j, items, [act]) && Local(j) && !j.fetch
    requires j.o == |pre| && j.end == |Code(Compile(OneForm(pre, act), items).v)|
    ensures ActsAsWritten(j, Code(Compile(OneForm(pre, act), items).v), |pre|, calls, c, items)
  {
    var f := OneForm(pre, act);
    FieldsGiven(f, items);
    FieldsPlan(f, items);
    Linked(f, items, [], j, calls, c);
    assert Code(Compile(f, items).v) + [] == Code(Compile(f, items).v);
    LoopActs(j, Code(Compile(f, items).v), calls, c, Start(j.env, items, c));
    WrittenRun(j, Code(Compile(f, items).v), |pre|, calls, c, items);
  }

  lemma {:induction false} FieldsGiven(f: Form, items: seq<Item>)
    requires AddAll(f, items).Ok? && f.st.fields
    ensures AddAll(f, items).v.st.fields
    decreases |items|
  {
    if items != [] { FieldsGiven(Add(f, items[0]).v, items[1..]); }
  }

  // ---- updates ----

  /** The form of an update and the body of its list of fields. */
  function UpdateForm(lead: Lead): Form {
    if lead.FieldsFirst? then FieldsForm(lead.body) else ClausesForm()
  }

  function UpdateBody(lead: Lead, items: seq<Item>): seq<Pcode> {
    if lead.FieldsFirst? then lead.body else FieldsOf(items, [])
  }

  lemma UpdateSound(lead: Lead)
    requires lead.FieldsFirst? ==> Straight(lead.body)
    ensures Sound(UpdateForm(lead))
  {
    if lead.FieldsFirst? {
      var f := UpdateForm(lead);
      assert Code(f)[1..1 + |lead.body|] == lead.body;
    }
  }

  /** An update begins by jumping over its list of fields, when that comes first. */
  lemma UpdateEnters<D>(env: Env<D>, lead: Lead, code: seq<Pcode>, calls: Calls, c: Ctx<D>)
    requires |UpdateForm(lead).pre| < |code| && code[..|UpdateForm(lead).pre|] == UpdateForm(lead).pre
    ensures Reaches(env, code, Run(0, calls, c), Run(|UpdateForm(lead).pre|, calls, c))
  {
    if lead.FieldsFirst? {
      assert code[0] == UpdateForm(lead).pre[0];
      Once(env, code, Run(0, calls, c));
    } else {
      Still(env, code, Run(0, calls, c));
    }
  }

  /** An update with clauses, compiled: j is its loop. */
  ghost predicate Update<D(!new)>(j: Job<D>, lead: Lead, items: seq<Item>) {
    items != [] && Replace(lead, items).Ok?
    && j.o == |UpdateForm(lead).pre| && j.end == |Replace(lead, items).v| - 1
    && (lead.FieldsFirst? ==> Straight(lead.body)) && Means(j, items, UpdateBody(lead, items))
  }

  /** What an update compiles to. */
  lemma UpdateCode(lead: Lead, items: seq<Item>)
    requires items != [] && Replace(lead, items).Ok? && (lead.FieldsFirst? ==> Straight(lead.body))
    ensures var f := UpdateForm(lead);
      Sound(f) && Compile(f, items).Ok? && AddAll(f, items).v.st.fields && !f.st.next && !f.st.for_ && !f.st.while_
          && f.h.skip == 1
      && Replace(lead, items).v == Code(Compile(f, items).v) + [Pcode(PUTREC, 1)]
      && Compile(f, items).v.b.act == UpdateBody(lead, items)
  {
    UpdateSound(lead);
    FieldsPlan(UpdateForm(lead), items);
  }

  lemma UpdateLinked<D(!new)>(j: Job<D>, lead: Lead, items: seq<Item>, calls: Calls, c: Ctx<D>)
    requires Update(j, lead, items)
    ensures var code := Replace(lead, items).v;
      Reaches(j.env, code, Run(0, calls, c), Run(j.o, calls, c))
      && Reaches(j.env, code, Run(j.o, calls, c), Run(j.o + 2, calls, Start(j.env, items, c)))
      && Edges(j, Runs(j.env, code)) && Transitive(Runs(j.env, code))
  {
    UpdateCode(lead, items);
    Linked(UpdateForm(lead), items, [Pcode(PUTREC, 1)], j, calls, c);
    UpdatePre(lead, items);
    UpdateEnters(j.env, lead, Replace(lead, items).v, calls, c);
  }

  lemma UpdatePre(lead: Lead, items: seq<Item>)
    requires items != [] && Replace(lead, items).Ok? && (lead.FieldsFirst? ==> Straight(lead.body))
    ensures var f, code := UpdateForm(lead), Replace(lead, items).v; |f.pre| + 10 < |code| && code[..|f.pre|] == f.pre
  {
    var f := UpdateForm(lead);
    UpdateCode(lead, items);
    PreKept(f, items);
    assert Code(Compile(f, items).v)[..|f.pre|] == f.pre;
  }

  lemma {:induction false} PreKept(f: Form, items: seq<Item>)
    requires AddAll(f, items).Ok?
    ensures AddAll(f, items).v.pre == f.pre
    decreases |items|
  {
    if items != [] { PreKept(Add(f, items[0]).v, items[1..]); }
  }

  /** An update that fetches nothing ahead acts on exactly the records its clauses choose. */
  lemma UpdateActs<D(!new)>(j: Job<D>, lead: Lead, items: seq<Item>, calls: Calls, c: Ctx<D>)
    requires Update(j, lead, items) && Local(j) && !j.fetch
    ensures ActsAsWritten(j, Replace(lead, items).v, 0, calls, c, items)
  {
    var code, start := Replace(lead, items).v, Start(j.env, items, c);
    UpdateLinked(j, lead, items, calls, c);
    LoopActs(j, code, calls, c, start);
    var e :| Reaches(j.env, code, Run(j.o, calls, c), Run(j.end, calls, e)) && AsAsked(j, start, e);
    Then(j.env, code, Run(0, calls, c), Run(j.o, calls, c), Run(j.end, calls, e));
    WrittenRun(j, code, 0, calls, c, items);
  }

  // ---- updates under an active index ----

  /** The records such an update acts on, and those its clauses choose. */
  function ActedOn<D>(j: Job<D>, start: Ctx<D>): seq<int> { Gets(j, start.d, Span(j, start.d, start.pos, start.total)) }

  function Asked<D>(j: Job<D>, start: Ctx<D>): seq<int> { Chosen(j, start.d, start.pos, start.total) }

  /** A run that comes to a state it does not leave. */
  ghost predicate Hangs<D>(env: Env<D>, code: seq<Pcode>, m: Mach<D>, m': Mach<D>) {
    Reaches(env, code, m, m') && Tick(env, code, m') == m'
  }

  /** How an update runs that fetches the next entry ahead. */
  ghost predicate ActsAhead<D(!new)>(j: Job<D>, code: seq<Pcode>, calls: Calls, c: Ctx<D>, start: Ctx<D>) {
    exists e: Ctx<D> :: e.d == DoneAt(j.Act, start.d, ActedOn(j, start))
      && if Frees(j, start.d, ActedOn(j, start)) then Reaches(j.env, code, Run(0, calls, c), Run(j.end, calls, e))
         else Hangs(j.env, code, Run(0, calls, c), Run(j.o + 8, calls, e))
  }

  /**
   * An update under an active index acts on ActedOn, in order, and then leaves its loop, or, when
   * the place after the last record acted on is hidden, stays at that place for ever.
   */
  lemma UpdateAhead<D(!new)>(j: Job<D>, lead: Lead, items: seq<Item>, calls: Calls, c: Ctx<D>)
    requires Update(j, lead, items) && Local(j) && j.fetch && j.env.indexed
    ensures ActsAhead(j, Replace(lead, items).v, calls, c, Start(j.env, items, c))
  {
    var code, start := Replace(lead, items).v, Start(j.env, items, c);
    var (ends, e) := Fetched(j, start);
    var top := Run(j.o + 2, calls, start);
    var m := if ends then Run(j.end, calls, e) else Run(j.o + 8, calls, e);
    UpdateLinked(j, lead, items, calls, c);
    FetchedRuns(j, Runs(j.env, code), calls, start);
    FetchedIs(j, start);
    assert Runs(j.env, code)(top, m);
    Then(j.env, code, Run(0, calls, c), Run(j.o, calls, c), top);
    Then(j.env, code, Run(0, calls, c), top, m);
    if !ends { SkipAt(j, lead, items, calls, e); }
  }

  lemma SkipAt<D(!new)>(j: Job<D>, lead: Lead, items: seq<Item>, calls: Calls, c: Ctx<D>)
    requires Update(j, lead, items)
    ensures Tick(j.env, Replace(lead, items).v, Run(j.o + 8, calls, c)) == Skip(j.env, j.o + 8, calls, c, j.dir)
  {
    SkipCode(lead, items, j.dir);
  }

  /** The place of the skip in the code of an update. */
  lemma SkipCode(lead: Lead, items: seq<Item>, dir: Dir)
    requires items != [] && Replace(lead, items).Ok? && (lead.FieldsFirst? ==> Straight(lead.body))
    requires dir == CountOf(items).1 && forall it :: it in items ==> PlainItem(it)
    ensures var code, p := Replace(lead, items).v, |UpdateForm(lead).pre| + 8;
      p < |code| && code[p] == Pcode(SKIP_, SkipOpnd(dir))
  {
    var f := UpdateForm(lead);
    UpdateCode(lead, items);
    CompilePlan(f, items);
    AddAllSound(f, items);
    CloseStands(AddAll(f, items).v);
  }

  /**
   * Such an update does what was asked, and comes to its end, exactly if the records chosen
   * stand next to one another in the index and the place after the last of them is not hidden.
   */
  lemma AheadIff<D>(j: Job<D>, start: Ctx<D>)
    ensures ActedOn(j, start) == Asked(j, start) && Frees(j, start.d, ActedOn(j, start))
      <==> Abreast(j, Asked(j, start)) && Frees(j, start.d, Asked(j, start))
  {
    SpanOrdered(j, start.d, start.pos, start.total);
    GetsChosen(j, start.d, Span(j, start.d, start.pos, start.total));
  }
}
