/** Two updates under an active index that do not do what was asked. */
module ScopeWitness {
  import opened Pcode
  import opened ScopeRun
  import opened ScopeCode
  import opened ScopeClauses
  import opened ScopeCommands

  /** The stack, and the records updated. */
  datatype Marks = Marks(stack: seq<int>, done: seq<int>)

  const ASK: Pcode := Pcode(NRETRV, 0)
  const REPL: Pcode := Pcode(OTHER(0x18), 0)

  /** REPLACE a field of three records FOR a field that is false at `bad`, with `hid` hidden. */
  function Table(hid: int, bad: int): Env<Marks> {
    Env(3, (p: int, d: Marks) => p == hid, true, 1000, i => -1,
        (i: Pcode, p: int, d: Marks) =>
          if i == ASK then d.(stack := [if p == bad then 0 else 1] + d.stack)
              else if i == REPL then d.(done := d.done + [p]) else d,
        (d: Marks) => if d.stack == [] then (0, d) else (d.stack[0], d.(stack := d.stack[1..])),
        (b: bool, d: Marks) => d.(stack := [if b then 1 else 0] + d.stack))
  }

  const LIST: seq<Pcode> := [Pcode(GO_, 3), REPL]
  const CLAUSES: seq<Item> := [For([ASK])]

  function Command(hid: int, bad: int): Job<Marks> {
    Job(Table(hid, bad), 4, 18, 1, (p: int, d: Marks) => 1, (p: int, d: Marks) => if p == bad then 0 else 1,
        (p: int, d: Marks) => d.(done := d.done + [p]), true)
  }

  lemma One(env: Env<Marks>, c: Ctx<Marks>, i: Pcode)
    requires Inline(i)
    ensures Straight([i]) && DoAll(env, c, [i]) == Do(env, c, i)
  {
    assert DoAll(env, Do(env, c, i), []) == Do(env, c, i);
  }

  lemma TwoOps(env: Env<Marks>, c: Ctx<Marks>)
    ensures Straight(LIST) && DoAll(env, c, LIST) == Do(env, Do(env, c, LIST[0]), LIST[1])
  {
    One(env, Do(env, c, LIST[0]), LIST[1]);
    assert LIST[1..] == [LIST[1]];
  }

  lemma AskMeans(hid: int, bad: int)
    ensures Straight([ASK]) && CondIs(Table(hid, bad), [ASK], Command(hid, bad).For)
  {
    forall c: Ctx<Marks> ensures Asks(Table(hid, bad), [ASK], Command(hid, bad).For, c) {
      One(Table(hid, bad), c, ASK);
      var v := if c.pos == bad then 0 else 1;
      assert ([v] + c.d.stack)[1..] == c.d.stack;
    }
  }

  lemma AlwaysMeans(hid: int, bad: int)
    ensures Straight(ALWAYS) && CondIs(Table(hid, bad), ALWAYS, Command(hid, bad).While)
  {
    forall c: Ctx<Marks> ensures Asks(Table(hid, bad), ALWAYS, Command(hid, bad).While, c) {
      One(Table(hid, bad), c, ALWAYS[0]);
      assert ([1] + c.d.stack)[1..] == c.d.stack;
    }
  }

  lemma ListMeans(hid: int, bad: int)
    ensures Straight(LIST) && ActIs(Command(hid, bad), LIST)
  {
    forall c: Ctx<Marks> ensures Acts(Command(hid, bad), LIST, c) { TwoOps(Table(hid, bad), c); }
  }

  lemma IsUpdate(hid: int, bad: int)
    ensures Update(Command(hid, bad), FieldsFirst(LIST), CLAUSES) && Local(Command(hid, bad))
  {
    var f := FieldsForm(LIST);
    AskMeans(hid, bad);
    AlwaysMeans(hid, bad);
    ListMeans(hid, bad);
    assert CLAUSES[1..] == [];
    var g := Add(f, CLAUSES[0]).v;
    assert |Code(f)| == 14 && |Code(g)| == 16;
    assert AddAll(f, CLAUSES) == AddAll(g, []) == Ok(g);
  }

  /**
   * FOR is false at the second of three records: the first is updated, the loop then spins at
   * the second until the count is used up, and the third, which satisfies FOR, is not updated.
   */
  lemma EarlyEnd(c: Ctx<Marks>)
    ensures var j := Command(NOREC, 1); var start := Start(j.env, CLAUSES, c);
      Update(j, FieldsFirst(LIST), CLAUSES) && Asked(j, start) == [0, 2] && ActedOn(j, start) == [0]
      && exists e :: Reaches(j.env, Replace(FieldsFirst(LIST), CLAUSES).v, Run(0, Top, c), Run(j.end, Top, e))
          && e.d.done == c.d.done + [0]
  {
    var j := Command(NOREC, 1);
    var start := Start(j.env, CLAUSES, c);
    IsUpdate(NOREC, 1);
    StartAt(NOREC, 1, c);
    Walk3(j, start);
    UpdateAhead(j, FieldsFirst(LIST), CLAUSES, Top, c);
    assert DoneAt(j.Act, start.d, [0]) == j.Act(0, start.d);
  }

  /**
   * The second of the three records is hidden: the first is updated and the loop stays at the
   * second for ever.
   */
  lemma EndlessSkip(c: Ctx<Marks>)
    ensures var j := Command(1, NOREC); var start := Start(j.env, CLAUSES, c);
      Update(j, FieldsFirst(LIST), CLAUSES) && Asked(j, start) == [0, 2] && ActedOn(j, start) == [0]
      && exists e :: Hangs(j.env, Replace(FieldsFirst(LIST), CLAUSES).v, Run(0, Top, c), Run(j.o + 8, Top, e))
          && e.d.done == c.d.done + [0]
  {
    var j := Command(1, NOREC);
    var start := Start(j.env, CLAUSES, c);
    IsUpdate(1, NOREC);
    StartAt(1, NOREC, c);
    Walk2(j, start);
    UpdateAhead(j, FieldsFirst(LIST), CLAUSES, Top, c);
    assert DoneAt(j.Act, start.d, [0]) == j.Act(0, start.d);
  }

  lemma StartAt(hid: int, bad: int, c: Ctx<Marks>)
    requires hid != 0
    ensures Counts(Table(hid, bad), CountOf(CLAUSES).0)
    ensures Start(Table(hid, bad), CLAUSES, c) == c.(pos := 0, total := 1000, count := 0, dir := 1, next := NOREC)
  {
    assert CLAUSES[1..] == [];
    assert CountOf(CLAUSES) == CountOf(CLAUSES[1..]);
    assert CountOf([]) == (0xff, 1);
    assert !HasNext(CLAUSES[1..]);
    assert Settle(Table(hid, bad), c.d, 0, 1) == 0;
  }

  lemma Walk3(j: Job<Marks>, c: Ctx<Marks>)
    requires j == Command(NOREC, 1) && c.pos == 0 && c.total == 1000
    ensures Asked(j, c) == [0, 2] && ActedOn(j, c) == [0]
  {
    assert Seen(j.env, c.d, 3, 1) == [];
    assert Seen(j.env, c.d, 2, 1) == [2];
    assert Seen(j.env, c.d, 1, 1) == [1, 2];
    var s := [0, 1, 2];
    assert From(j.env, c.d, 0, 1) == s;
    All3(j, c.d, 1, 2);
    assert s[1..] == [1, 2] && s[1..][1..] == [2] && [2][1..] == [];
    assert Filter(j.For, c.d, [2]) == [2];
    assert Filter(j.For, c.d, [1, 2]) == [2];
    assert Burst(j, c.d, [1, 2]) == [];
  }

  lemma Walk2(j: Job<Marks>, c: Ctx<Marks>)
    requires j == Command(1, NOREC) && c.pos == 0 && c.total == 1000
    ensures Asked(j, c) == [0, 2] && ActedOn(j, c) == [0] && !Frees(j, c.d, ActedOn(j, c))
  {
    assert Seen(j.env, c.d, 3, 1) == [];
    assert Seen(j.env, c.d, 2, 1) == [2];
    assert Seen(j.env, c.d, 1, 1) == [2];
    var s := [0, 2];
    assert From(j.env, c.d, 0, 1) == s;
    assert s[1..] == [2] && [2][1..] == [];
    assert TakeWhile(j.While, c.d, [2]) == [2];
    assert TakeWhile(j.While, c.d, s) == s;
    assert Filter(j.For, c.d, [2]) == [2];
    assert Burst(j, c.d, s) == [0];
  }

  lemma All3(j: Job<Marks>, d: Marks, a: int, b: int)
    requires forall p :: j.While(p, d) == 1
    ensures TakeWhile(j.While, d, [0, a, b]) == [0, a, b]
  {
    assert [0, a, b][1..] == [a, b] && [a, b][1..] == [b] && [b][1..] == [];
    assert TakeWhile(j.While, d, [b]) == [b];
    assert TakeWhile(j.While, d, [a, b]) == [a, b];
  }
}
