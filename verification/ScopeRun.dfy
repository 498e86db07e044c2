/**
 * What the loop of a command with scope clauses does when it runs (server/hb/code.c over the
 * code laid down by server/hb/proc2.c).
 */
module ScopeRun {
  import opened Pcode

  /**
   * A command whose loop is from o on and is left at `end`: the values its conditions have at a
   * record and the change its action makes there. An update fetches the next index entry ahead.
   */
  datatype Job<!D> = Job(
    env: Env<D>, o: int, end: int, dir: Dir,
    While: (int, D) -> int, For: (int, D) -> int, Act: (int, D) -> D, fetch: bool)

  type Goes<!D> = (Mach<D>, Mach<D>) -> bool

  function Ahead<D>(j: Job<D>, c: Ctx<D>): int {
    var q := Beside(j.env, c.pos, c.dir);
    if j.fetch && j.env.indexed && c.total > 0 then (if Off(j.env, q) then NOREC else q) else c.next
  }

  function Acted<D>(j: Job<D>, c: Ctx<D>): Ctx<D> { c.(d := j.Act(c.pos, c.d), next := Ahead(j, c)) }

  /** Where each part of the loop leads. */
  function AfterWhile<D>(j: Job<D>, calls: Calls, c: Ctx<D>): Mach<D> {
    Run(if j.While(c.pos, c.d) != 0 then j.o + 4 else j.end, calls, c)
  }

  function AfterEof<D>(j: Job<D>, calls: Calls, c: Ctx<D>): Mach<D> {
    if Off(j.env, c.pos) || c.count >= c.total then Run(j.end, calls, c.(total := 0)) else Run(j.o + 5, calls, c)
  }

  function AfterFor<D>(j: Job<D>, calls: Calls, c: Ctx<D>): Mach<D> {
    Run(if j.For(c.pos, c.d) != 0 then j.o + 7 else j.o + 8, calls, c)
  }

  function AfterAct<D>(j: Job<D>, calls: Calls, c: Ctx<D>): Mach<D> { Run(j.o + 8, calls, Acted(j, c)) }

  function AfterSkip<D>(j: Job<D>, calls: Calls, c: Ctx<D>): Mach<D> { Skip(j.env, j.o + 8, calls, c, j.dir) }

  function AfterJump<D>(j: Job<D>, calls: Calls, c: Ctx<D>): Mach<D> { Run(j.o + 2, calls, c) }

  ghost predicate Edges<D(!new)>(j: Job<D>, goes: Goes<D>) {
    (forall calls,
        c: Ctx<D> {:trigger AfterWhile(j, calls, c)} :: goes(Run(j.o + 2, calls, c), AfterWhile(j, calls, c)))
    && (forall calls, c: Ctx<D> {:trigger AfterEof(j, calls, c)} :: goes(Run(j.o + 4, calls, c), AfterEof(j, calls, c)))
    && (forall calls, c: Ctx<D> {:trigger AfterFor(j, calls, c)} :: goes(Run(j.o + 5, calls, c), AfterFor(j, calls, c)))
    && (forall calls, c: Ctx<D> {:trigger AfterAct(j, calls, c)} :: goes(Run(j.o + 7, calls, c), AfterAct(j, calls, c)))
    && (forall calls,
        c: Ctx<D> {:trigger AfterSkip(j, calls, c)} :: goes(Run(j.o + 8, calls, c), AfterSkip(j, calls, c)))
    && (forall calls,
        c: Ctx<D> {:trigger AfterJump(j, calls, c)} :: goes(Run(j.o + 9, calls, c), AfterJump(j, calls, c)))
  }

  ghost predicate Transitive<D(!new)>(goes: Goes<D>) {
    forall a, b, c :: goes(a, b) && goes(b, c) ==> goes(a, c)
  }

  /** The action at one record leaves what is shown of the others, and the conditions there, as they were. */
  ghost predicate Local<D(!new)>(j: Job<D>) {
    forall p, q, d :: q != p ==>
      j.env.hidden(q, j.Act(p, d)) == j.env.hidden(q, d) && j.While(q, j.Act(p, d)) == j.While(q, d)
      && j.For(q, j.Act(p, d)) == j.For(q, d)
  }

  // ---- the records chosen ----

  /** The records shown from p on, in walking order. */
  function Seen<D>(env: Env<D>, d: D, p: int, dir: Dir): seq<int>
    decreases Left(env, p, dir)
  {
    if Off(env, p) then []
    else (if env.hidden(p, d) then [] else [p]) + Seen(env, d, Beside(env, p, dir), dir)
  }

  /** A walk that starts at p starts there even if p is hidden. */
  function From<D>(env: Env<D>, d: D, p: int, dir: Dir): seq<int> {
    if Off(env, p) then [] else [p] + Seen(env, d, Beside(env, p, dir), dir)
  }

  function Take(s: seq<int>, n: int): seq<int> { if n <= 0 then [] else if n < |s| then s[..n] else s }

  function TakeWhile<D>(W: (int, D) -> int, d: D, s: seq<int>): seq<int>
    decreases |s|
  {
    if s == [] || W(s[0], d) == 0 then [] else [s[0]] + TakeWhile(W, d, s[1..])
  }

  function Filter<D>(F: (int, D) -> int, d: D, s: seq<int>): seq<int>
    decreases |s|
  {
    if s == [] then [] else (if F(s[0], d) != 0 then [s[0]] else []) + Filter(F, d, s[1..])
  }

  function DoneAt<D>(A: (int, D) -> D, d: D, s: seq<int>): D
    decreases |s|
  {
    if s == [] then d else DoneAt(A, A(s[0], d), s[1..])
  }

  /** The records a command goes over, with n more to go. */
  function Span<D>(j: Job<D>, d: D, p: int, n: int): seq<int> {
    TakeWhile(j.While, d, Take(From(j.env, d, p, j.dir), n))
  }

  function Chosen<D>(j: Job<D>, d: D, p: int, n: int): seq<int> { Filter(j.For, d, Span(j, d, p, n)) }

  // ---- one round ----

  predicate Stops<D>(j: Job<D>, c: Ctx<D>) { j.While(c.pos, c.d) == 0 || Off(j.env, c.pos) || c.count >= c.total }

  function Stopped<D>(j: Job<D>, c: Ctx<D>): Ctx<D> { if j.While(c.pos, c.d) == 0 then c else c.(total := 0) }

  lemma Head<D(!new)>(j: Job<D>, goes: Goes<D>, calls: Calls, c: Ctx<D>)
    requires Edges(j, goes) && Transitive(goes)
    ensures goes(Run(j.o + 2, calls, c), if Stops(j, c) then Run(j.end, calls, Stopped(j, c))
      else Run(j.o + 5, calls, c))
  {
    var m := AfterWhile(j, calls, c);
    if j.While(c.pos, c.d) != 0 { var m' := AfterEof(j, calls, c); }
  }

  function Touched<D>(j: Job<D>, c: Ctx<D>): Ctx<D> { if j.For(c.pos, c.d) != 0 then Acted(j, c) else c }

  lemma Middle<D(!new)>(j: Job<D>, goes: Goes<D>, calls: Calls, c: Ctx<D>)
    requires Edges(j, goes) && Transitive(goes)
    ensures goes(Run(j.o + 5, calls, c), Run(j.o + 8, calls, Touched(j, c)))
  {
    var m := AfterFor(j, calls, c);
    if j.For(c.pos, c.d) != 0 { var m' := AfterAct(j, calls, c); }
  }

  function Moved<D>(j: Job<D>, c: Ctx<D>): Ctx<D> {
    c.(pos := Settle(j.env, c.d, Beside(j.env, c.pos, j.dir), j.dir), count := c.count + 1)
  }

  /** Without a record fetched ahead the skip passes over the hidden ones. */
  lemma {:induction false} SkipRuns<D(!new)>(j: Job<D>, goes: Goes<D>, calls: Calls, c: Ctx<D>)
    requires Edges(j, goes) && Transitive(goes) && (c.next == NOREC || !j.env.indexed) && 0 < c.total
    ensures goes(Run(j.o + 8, calls, c), Run(j.o + 2, calls, Moved(j, c)))
    decreases Left(j.env, Beside(j.env, c.pos, j.dir), j.dir)
  {
    var p := Beside(j.env, c.pos, j.dir);
    var m := AfterSkip(j, calls, c);
    if !Off(j.env, p) && j.env.hidden(p, c.d) {
      SkipRuns(j, goes, calls, c.(pos := p));
    } else {
      assert m == Run(j.o + 9, calls, Moved(j, c)) && goes(m, AfterJump(j, calls, Moved(j, c)));
    }
  }

  // ---- the whole loop ----

  /** Where the loop leaves the table, when the action fetches nothing ahead. */
  function Final<D>(j: Job<D>, c: Ctx<D>): Ctx<D>
    decreases Left(j.env, c.pos, j.dir)
  {
    if Stops(j, c) then Stopped(j, c)
    else
      var c' := Moved(j, Touched(j, c));
      Nearer(j.env, Touched(j, c).d, c.pos, j.dir);
      Final(j, c')
  }

  /** A move along the walk gets nearer to its end. */
  lemma {:induction false} Nearer<D>(env: Env<D>, d: D, p: int, dir: Dir)
    requires !Off(env, p)
    ensures Left(env, Settle(env, d, Beside(env, p, dir), dir), dir) < Left(env, p, dir)
    decreases Left(env, p, dir)
  {
    var q := Beside(env, p, dir);
    if !Off(env, q) && env.hidden(q, d) { Nearer(env, d, q, dir); }
  }

  lemma {:induction false} LoopRuns<D(!new)>(j: Job<D>, goes: Goes<D>, calls: Calls, c: Ctx<D>)
    requires Edges(j, goes) && Transitive(goes) && !j.fetch && c.next == NOREC
    ensures goes(Run(j.o + 2, calls, c), Run(j.end, calls, Final(j, c)))
    decreases Left(j.env, c.pos, j.dir)
  {
    Head(j, goes, calls, c);
    if !Stops(j, c) {
      var c1 := Touched(j, c);
      Middle(j, goes, calls, c);
      SkipRuns(j, goes, calls, c1);
      Nearer(j.env, c1.d, c.pos, j.dir);
      LoopRuns(j, goes, calls, Moved(j, c1));
    }
  }

  /** d' differs from d at no more than what is at p. */
  ghost predicate Agree<D>(j: Job<D>, p: int, d: D, d': D) {
    forall q {:trigger j.env.hidden(q, d')} {:trigger j.While(q, d')} {:trigger j.For(q, d')} :: q != p ==>
      j.env.hidden(q, d') == j.env.hidden(q, d) && j.While(q, d') == j.While(q, d) && j.For(q, d') == j.For(q, d)
  }

  lemma {:induction false} SeenAgree<D>(j: Job<D>, p: int, d: D, d': D, q: int)
    requires Agree(j, p, d, d') && (if j.dir == 1 then p < q else q < p)
    ensures Seen(j.env, d', q, j.dir) == Seen(j.env, d, q, j.dir)
    ensures p !in Seen(j.env, d, q, j.dir)
    decreases Left(j.env, q, j.dir)
  {
    if !Off(j.env, q) { SeenAgree(j, p, d, d', Beside(j.env, q, j.dir)); }
  }

  lemma {:induction false} ChosenAgree<D>(j: Job<D>, p: int, d: D, d': D, s: seq<int>)
    requires Agree(j, p, d, d') && p !in s
    ensures TakeWhile(j.While, d', s) == TakeWhile(j.While, d, s) && p !in TakeWhile(j.While, d, s)
    ensures Filter(j.For, d', s) == Filter(j.For, d, s)
    decreases |s|
  {
    if s != [] {
      var q := s[0];
      assert q in s && q != p;
      assert j.While(q, d') == j.While(q, d) && j.For(q, d') == j.For(q, d);
      ChosenAgree(j, p, d, d', s[1..]);
    }
  }

  lemma {:induction false} SettleSeen<D>(env: Env<D>, d: D, p: int, dir: Dir)
    ensures From(env, d, Settle(env, d, p, dir), dir) == Seen(env, d, p, dir)
    decreases Left(env, p, dir)
  {
    if !Off(env, p) && env.hidden(p, d) { SettleSeen(env, d, Beside(env, p, dir), dir); }
  }

  lemma TakeOne(p: int, s: seq<int>, n: int)
    requires n > 0
    ensures Take([p] + s, n) == [p] + Take(s, n - 1)
  {
  }

  /** One round takes the first record off those still to come. */
  lemma ChosenStep<D(!new)>(j: Job<D>, c: Ctx<D>)
    requires Local(j) && !Stops(j, c)
    ensures var c' := Moved(j, Touched(j, c)); var n := c.total - c.count;
      Span(j, c.d, c.pos, n) == [c.pos] + Span(j, c'.d, c'.pos, n - 1)
      && From(j.env, c.d, c.pos, j.dir) == [c.pos] + From(j.env, c'.d, c'.pos, j.dir)
      && Chosen(j, c.d, c.pos, n) == (if j.For(c.pos, c.d) != 0 then [c.pos] else []) + Chosen(j, c'.d, c'.pos, n - 1)
  {
    var p, d, d', n := c.pos, c.d, Touched(j, c).d, c.total - c.count;
    var q := Beside(j.env, p, j.dir);
    var s := Seen(j.env, d, q, j.dir);
    assert Agree(j, p, d, d');
    SeenAgree(j, p, d, d', q);
    SettleSeen(j.env, d', q, j.dir);
    TakeOne(p, s, n);
    var t := Take(s, n - 1);
    ChosenAgree(j, p, d, d', t);
    ChosenAgree(j, p, d, d', TakeWhile(j.While, d, t));
    assert ([p] + t)[1..] == t;
    var u := TakeWhile(j.While, d, t);
    assert ([p] + u)[1..] == u;
  }

  /**
   * What the loop should do: act on exactly the records chosen, in order: those that satisfy FOR
   * among the longest stretch satisfying WHILE of the first n shown. It stops at the record
   * after that stretch, and leaves the scope set only when it was WHILE that stopped it.
   */
  ghost predicate AsAsked<D>(j: Job<D>, c: Ctx<D>, e: Ctx<D>) {
    var n := c.total - c.count;
    e.d == DoneAt(j.Act, c.d, Chosen(j, c.d, c.pos, n))
    && StopsAt(j, From(j.env, c.d, c.pos, j.dir), |Span(j, c.d, c.pos, n)|, e.pos)
    && e.total == if j.While(e.pos, e.d) == 0 then c.total else 0
  }

  lemma {:induction false} FinalIs<D(!new)>(j: Job<D>, c: Ctx<D>)
    requires Local(j)
    ensures AsAsked(j, c, Final(j, c))
    decreases Left(j.env, c.pos, j.dir)
  {
    if Stops(j, c) {
      SpanStops(j, c);
    } else {
      Nearer(j.env, Touched(j, c).d, c.pos, j.dir);
      FinalIs(j, Moved(j, Touched(j, c)));
      AskedStep(j, c, Final(j, c));
    }
  }

  lemma AskedStep<D(!new)>(j: Job<D>, c: Ctx<D>, e: Ctx<D>)
    requires Local(j) && !Stops(j, c) && AsAsked(j, Moved(j, Touched(j, c)), e)
    ensures AsAsked(j, c, e)
  {
    var c' := Moved(j, Touched(j, c));
    ChosenStep(j, c);
    DoneStep(j, c, Chosen(j, c'.d, c'.pos, c'.total - c'.count));
  }

  lemma DoneStep<D>(j: Job<D>, c: Ctx<D>, rest: seq<int>)
    ensures DoneAt(j.Act, c.d, (if j.For(c.pos, c.d) != 0 then [c.pos] else []) + rest) ==
      DoneAt(j.Act, Touched(j, c).d, rest)
  {
    assert ([c.pos] + rest)[1..] == rest && [] + rest == rest;
  }

  ghost predicate StopsAt<D>(j: Job<D>, walk: seq<int>, m: nat, p: int) {
    if m < |walk| then p == walk[m] else Off(j.env, p)
  }

  lemma SpanStops<D>(j: Job<D>, c: Ctx<D>)
    requires Stops(j, c)
    ensures Span(j, c.d, c.pos, c.total - c.count) == []
  {
    var t := Take(From(j.env, c.d, c.pos, j.dir), c.total - c.count);
    assert t != [] ==> t[0] == c.pos;
  }

  // ---- updates under an active index, which fetch the next entry ahead ----

  /**
   * Where such a loop goes: to its end, or to a record that is hidden and at which it stays for
   * ever. next() goes to the entry fetched ahead, and only an action fetches another: at a
   * record fetched ahead that fails FOR the loop spins until the count is used up.
   */
  function Fetched<D>(j: Job<D>, c: Ctx<D>): (bool, Ctx<D>)
    decreases Left(j.env, c.pos, j.dir)
  {
    var d' := Touched(j, c).d;
    var q := Beside(j.env, c.pos, j.dir);
    if Stops(j, c) then (true, Stopped(j, c))
    else if j.For(c.pos, c.d) == 0 && c.next != NOREC then (true, c.(count := c.total, total := 0))
    else if j.For(c.pos, c.d) != 0 && !Off(j.env, q) && j.env.hidden(q, d') then (false, Touched(j, c).(pos := q))
    else
      Nearer(j.env, d', c.pos, j.dir);
      Fetched(j, Moved(j, Touched(j, c)))
  }

  /** Between rounds either nothing has been fetched ahead, or the record the loop is at has. */
  predicate Ready<D>(j: Job<D>, c: Ctx<D>) {
    j.fetch && j.env.indexed && c.dir == j.dir
    && (c.next == NOREC || (c.next == c.pos && !Off(j.env, c.pos) && !j.env.hidden(c.pos, c.d)))
  }

  /** The number of rounds left to spin is counted down by the scope. */
  lemma {:induction false} Spins<D(!new)>(j: Job<D>, goes: Goes<D>, calls: Calls, c: Ctx<D>)
    requires Edges(j, goes) && Transitive(goes) && Ready(j, c) && c.next != NOREC && !Stops(j, c)
      && j.For(c.pos, c.d) == 0
    ensures goes(Run(j.o + 2, calls, c), Run(j.end, calls, c.(count := c.total, total := 0)))
    decreases c.total - c.count
  {
    Head(j, goes, calls, c);
    Middle(j, goes, calls, c);
    var c' := c.(count := c.count + 1);
    var m := AfterSkip(j, calls, c);
    assert m == Run(j.o + 9, calls, c') && goes(m, AfterJump(j, calls, c'));
    if Stops(j, c') { Head(j, goes, calls, c'); } else { Spins(j, goes, calls, c'); }
  }

  /** After an action the skip goes to the record next to it, whatever that is. */
  lemma FetchedSkip<D(!new)>(j: Job<D>, goes: Goes<D>, calls: Calls, c: Ctx<D>)
    requires Edges(j, goes) && Transitive(goes) && Ready(j, c) && !Stops(j, c) && j.For(c.pos, c.d) != 0
    ensures var c1 := Touched(j, c); var q := Beside(j.env, c.pos, j.dir);
      if !Off(j.env, q) && j.env.hidden(q, c1.d)
      then goes(Run(j.o + 8, calls, c1), Run(j.o + 8, calls, c1.(pos := q)))
      else goes(Run(j.o + 8, calls, c1), Run(j.o + 2, calls, Moved(j, c1))) && Ready(j, Moved(j, c1))
  {
    var c1 := Touched(j, c);
    var m := AfterSkip(j, calls, c1);
    if m.pc == j.o + 9 { assert m == Run(j.o + 9, calls, Moved(j, c1)) && goes(m, AfterJump(j, calls, Moved(j, c1))); }
  }

  lemma Chain<D(!new)>(goes: Goes<D>, a: Mach<D>, b: Mach<D>, c: Mach<D>)
    requires Transitive(goes) && goes(a, b) && goes(b, c)
    ensures goes(a, c)
  {
  }

  ghost predicate Goal<D>(j: Job<D>, goes: Goes<D>, calls: Calls, c: Ctx<D>, end: (bool, Ctx<D>)) {
    goes(Run(j.o + 2, calls, c), if end.0 then Run(j.end, calls, end.1) else Run(j.o + 8, calls, end.1))
    && (end.0 || Skip(j.env, j.o + 8, calls, end.1, j.dir) == Run(j.o + 8, calls, end.1))
  }

  /** A round that goes on, and then the rest. */
  lemma FetchedNext<D(!new)>(j: Job<D>, goes: Goes<D>, calls: Calls, c: Ctx<D>)
    requires Transitive(goes) && !Stops(j, c) && (j.For(c.pos, c.d) != 0 || c.next == NOREC)
    requires var q := Beside(j.env, c.pos, j.dir);
      j.For(c.pos, c.d) == 0 || Off(j.env, q) || !j.env.hidden(q, Touched(j, c).d)
    requires goes(Run(j.o + 2, calls, c), Run(j.o + 8, calls, Touched(j, c)))
    requires goes(Run(j.o + 8, calls, Touched(j, c)), Run(j.o + 2, calls, Moved(j, Touched(j, c))))
    requires var c' := Moved(j, Touched(j, c)); Goal(j, goes, calls, c', Fetched(j, c'))
    ensures Goal(j, goes, calls, c, Fetched(j, c))
  {
    var c1 := Touched(j, c);
    var c' := Moved(j, c1);
    var (ends, e) := Fetched(j, c');
    var top, here := Run(j.o + 2, calls, c), Run(j.o + 2, calls, c');
    assert Fetched(j, c) == (ends, e);
    Chain(goes, top, Run(j.o + 8, calls, c1), here);
    Chain(goes, top, here, if ends then Run(j.end, calls, e) else Run(j.o + 8, calls, e));
  }

  lemma {:induction false} FetchedRuns<D(!new)>(j: Job<D>, goes: Goes<D>, calls: Calls, c: Ctx<D>)
    requires Edges(j, goes) && Transitive(goes) && Ready(j, c)
    ensures Goal(j, goes, calls, c, Fetched(j, c))
    decreases Left(j.env, c.pos, j.dir)
  {
    Head(j, goes, calls, c);
    if !Stops(j, c) {
      var c1 := Touched(j, c);
      Middle(j, goes, calls, c);
      Chain(goes, Run(j.o + 2, calls, c), Run(j.o + 5, calls, c), Run(j.o + 8, calls, c1));
      Nearer(j.env, c1.d, c.pos, j.dir);
      if j.For(c.pos, c.d) != 0 {
        var q := Beside(j.env, c.pos, j.dir);
        FetchedSkip(j, goes, calls, c);
        if !Off(j.env, q) && j.env.hidden(q, c1.d) {
          assert Fetched(j, c) == (false, c1.(pos := q));
        } else {
          FetchedRuns(j, goes, calls, Moved(j, c1));
          FetchedNext(j, goes, calls, c);
        }
      } else if c.next == NOREC {
        assert c1 == c;
        SkipRuns(j, goes, calls, c);
        FetchedRuns(j, goes, calls, Moved(j, c));
        FetchedNext(j, goes, calls, c);
      } else {
        Spins(j, goes, calls, c);
      }
    }
  }

  // ---- which records such a loop acts on ----

  /** From a record fetched ahead: as long as the next record of the span is the next place of the
      order and satisfies FOR. */
  function Burst<D>(j: Job<D>, d: D, s: seq<int>): seq<int>
    decreases |s|
  {
    if s == [] || j.For(s[0], d) == 0 then []
    else [s[0]] + (if |s| > 1 && s[1] == Beside(j.env, s[0], j.dir) then Burst(j, d, s[1..]) else [])
  }

  /** From a start with nothing fetched ahead: the records before the first that satisfies FOR are passed over. */
  function Gets<D>(j: Job<D>, d: D, s: seq<int>): seq<int>
    decreases |s|
  {
    if s == [] then [] else if j.For(s[0], d) == 0 then Gets(j, d, s[1..]) else Burst(j, d, s)
  }

  function Got<D>(j: Job<D>, c: Ctx<D>): seq<int> {
    var s := Span(j, c.d, c.pos, c.total - c.count);
    if c.next == NOREC then Gets(j, c.d, s) else Burst(j, c.d, s)
  }

  /** The loop ends unless the place after the last record acted on is hidden. */
  predicate Frees<D>(j: Job<D>, d: D, got: seq<int>) {
    got == [] || var q := Beside(j.env, got[|got| - 1], j.dir); Off(j.env, q) || !j.env.hidden(q, d)
  }

  lemma {:induction false} GotAgree<D>(j: Job<D>, p: int, d: D, d': D, s: seq<int>)
    requires Agree(j, p, d, d') && p !in s
    ensures Burst(j, d', s) == Burst(j, d, s) && Gets(j, d', s) == Gets(j, d, s)
    decreases |s|
  {
    if s != [] {
      var q := s[0];
      assert q in s && q != p;
      assert j.For(q, d') == j.For(q, d);
      GotAgree(j, p, d, d', s[1..]);
    }
  }

  /** Every record of s is on the table, and beyond p. */
  ghost predicate Beyond<D>(j: Job<D>, p: int, s: seq<int>) {
    forall i :: 0 <= i < |s| ==> !Off(j.env, s[i]) && (if j.dir == 1 then p < s[i] else s[i] < p)
  }

  lemma {:induction false} SeenBeyond<D>(j: Job<D>, p: int, d: D, q: int)
    requires if j.dir == 1 then p < q else q < p
    ensures Beyond(j, p, Seen(j.env, d, q, j.dir))
    decreases Left(j.env, q, j.dir)
  {
    if !Off(j.env, q) { SeenBeyond(j, p, d, Beside(j.env, q, j.dir)); }
  }

  lemma {:induction false} SpanBeyond<D>(j: Job<D>, p: int, d: D, s: seq<int>)
    requires Beyond(j, p, s)
    ensures Beyond(j, p, TakeWhile(j.While, d, s)) && Beyond(j, p, Filter(j.For, d, s)) && Beyond(j, p, Gets(j, d, s))
      && Beyond(j, p, Burst(j, d, s))
    decreases |s|
  {
    if s != [] { SpanBeyond(j, p, d, s[1..]); }
  }

  /** What is still to come after a round at c is beyond the record of that round. */
  lemma NextBeyond<D(!new)>(j: Job<D>, c: Ctx<D>)
    requires !Off(j.env, c.pos)
    ensures var c' := Moved(j, Touched(j, c)); Beyond(j, c.pos, Span(j, c'.d, c'.pos, c'.total - c'.count))
  {
    var d', q := Touched(j, c).d, Beside(j.env, c.pos, j.dir);
    var c' := Moved(j, Touched(j, c));
    var seen := Seen(j.env, d', q, j.dir);
    SettleSeen(j.env, d', q, j.dir);
    SeenBeyond(j, c.pos, d', q);
    TakeBeyond(j, c.pos, seen, c'.total - c'.count);
    SpanBeyond(j, c.pos, d', Take(seen, c'.total - c'.count));
  }

  lemma TakeBeyond<D>(j: Job<D>, p: int, s: seq<int>, n: int)
    requires Beyond(j, p, s)
    ensures Beyond(j, p, Take(s, n))
  {
  }

  /** The first record of what is still to come, if any, is the one the loop is at. */
  lemma SpanHead<D>(j: Job<D>, d: D, p: int, n: int)
    ensures Span(j, d, p, n) != [] ==> Span(j, d, p, n)[0] == p
  {
    var t := Take(From(j.env, d, p, j.dir), n);
    assert t != [] ==> t[0] == p;
  }

  /**
   * What such a loop does, ending or not: it acts on the records of Got, in order, and it ends
   * exactly if the place after the last of them is not hidden.
   */
  lemma {:induction false} FetchedIs<D(!new)>(j: Job<D>, c: Ctx<D>)
    requires Local(j) && Ready(j, c)
    ensures Fetched(j, c).1.d == DoneAt(j.Act, c.d, Got(j, c))
    ensures Fetched(j, c).0 == Frees(j, c.d, Got(j, c))
    decreases Left(j.env, c.pos, j.dir)
  {
    if Stops(j, c) {
      SpanStops(j, c);
    } else {
      ChosenStep(j, c);
      if j.For(c.pos, c.d) != 0 { FetchedActs(j, c); } else { FetchedPasses(j, c); }
    }
  }

  lemma {:induction false} FetchedPasses<D(!new)>(j: Job<D>, c: Ctx<D>)
    requires Local(j) && Ready(j, c) && !Stops(j, c) && j.For(c.pos, c.d) == 0
    ensures Fetched(j, c).1.d == DoneAt(j.Act, c.d, Got(j, c))
    ensures Fetched(j, c).0 == Frees(j, c.d, Got(j, c))
    decreases Left(j.env, c.pos, j.dir), 0
  {
    var c' := Moved(j, c);
    var s := Span(j, c'.d, c'.pos, c'.total - c'.count);
    ChosenStep(j, c);
    assert ([c.pos] + s)[1..] == s;
    if c.next == NOREC {
      Nearer(j.env, c.d, c.pos, j.dir);
      FetchedIs(j, c');
    }
  }

  lemma {:induction false} FetchedActs<D(!new)>(j: Job<D>, c: Ctx<D>)
    requires Local(j) && Ready(j, c) && !Stops(j, c) && j.For(c.pos, c.d) != 0
    ensures Fetched(j, c).1.d == DoneAt(j.Act, c.d, Got(j, c))
    ensures Fetched(j, c).0 == Frees(j, c.d, Got(j, c))
    decreases Left(j.env, c.pos, j.dir), 1
  {
    var d', q := Touched(j, c).d, Beside(j.env, c.pos, j.dir);
    if !Off(j.env, q) && j.env.hidden(q, d') { FetchedEnds(j, c); } else { FetchedGoesOn(j, c); }
  }

  lemma FetchedEnds<D(!new)>(j: Job<D>, c: Ctx<D>)
    requires Local(j) && Ready(j, c) && !Stops(j, c) && j.For(c.pos, c.d) != 0
    requires var q := Beside(j.env, c.pos, j.dir); !Off(j.env, q) && j.env.hidden(q, Touched(j, c).d)
    ensures Fetched(j, c).1.d == DoneAt(j.Act, c.d, Got(j, c))
    ensures Fetched(j, c).0 == Frees(j, c.d, Got(j, c))
  {
    var d', q := Touched(j, c).d, Beside(j.env, c.pos, j.dir);
    var c' := Moved(j, Touched(j, c));
    var s := Span(j, c'.d, c'.pos, c'.total - c'.count);
    ChosenStep(j, c);
    SpanHead(j, c'.d, c'.pos, c'.total - c'.count);
    SettleBeyond(j.env, d', q, j.dir);
    GotStops(j, c, d', s);
  }

  lemma {:induction false} FetchedGoesOn<D(!new)>(j: Job<D>, c: Ctx<D>)
    requires Local(j) && Ready(j, c) && !Stops(j, c) && j.For(c.pos, c.d) != 0
    requires var q := Beside(j.env, c.pos, j.dir); Off(j.env, q) || !j.env.hidden(q, Touched(j, c).d)
    ensures Fetched(j, c).1.d == DoneAt(j.Act, c.d, Got(j, c))
    ensures Fetched(j, c).0 == Frees(j, c.d, Got(j, c))
    decreases Left(j.env, c.pos, j.dir), 0
  {
    var c' := Moved(j, Touched(j, c));
    Nearer(j.env, Touched(j, c).d, c.pos, j.dir);
    GotOn(j, c);
    FetchedIs(j, c');
  }

  lemma GotOn<D(!new)>(j: Job<D>, c: Ctx<D>)
    requires Local(j) && Ready(j, c) && !Stops(j, c) && j.For(c.pos, c.d) != 0
    requires var q := Beside(j.env, c.pos, j.dir); Off(j.env, q) || !j.env.hidden(q, Touched(j, c).d)
    ensures var c' := Moved(j, Touched(j, c));
      Ready(j, c') && DoneAt(j.Act, c.d, Got(j, c)) == DoneAt(j.Act, c'.d, Got(j, c'))
      && Frees(j, c.d, Got(j, c)) == Frees(j, c'.d, Got(j, c'))
  {
    var d', q := Touched(j, c).d, Beside(j.env, c.pos, j.dir);
    var c' := Moved(j, Touched(j, c));
    var s := Span(j, c'.d, c'.pos, c'.total - c'.count);
    SettleBeyond(j.env, d', q, j.dir);
    SpanHead(j, c'.d, c'.pos, c'.total - c'.count);
    NextBeyond(j, c);
    GotNext(j, c, d', s);
    FreesNext(j, c, d', Burst(j, d', s));
    ChosenStep(j, c);
  }

  lemma GotStops<D(!new)>(j: Job<D>, c: Ctx<D>, d': D, s: seq<int>)
    requires d' == j.Act(c.pos, c.d) && j.For(c.pos, c.d) != 0
    requires s != [] ==> s[0] != Beside(j.env, c.pos, j.dir)
    ensures Burst(j, c.d, [c.pos] + s) == [c.pos] && Gets(j, c.d, [c.pos] + s) == [c.pos]
    ensures DoneAt(j.Act, c.d, [c.pos]) == d'
  {
    assert DoneAt(j.Act, d', []) == d';
  }

  lemma FreesNext<D(!new)>(j: Job<D>, c: Ctx<D>, d': D, b: seq<int>)
    requires Agree(j, c.pos, c.d, d') && Beyond(j, c.pos, b)
    requires b == [] ==> var q := Beside(j.env, c.pos, j.dir); Off(j.env, q) || !j.env.hidden(q, d')
    requires !Off(j.env, c.pos)
    ensures Frees(j, c.d, [c.pos] + b) == Frees(j, d', b)
  {
    var last := ([c.pos] + b)[|b|];
    assert b != [] ==> last == b[|b| - 1];
  }

  /** A place that is hidden is not where the walk settles. */
  lemma {:induction false} SettleBeyond<D>(env: Env<D>, d: D, p: int, dir: Dir)
    ensures var q := Settle(env, d, p, dir); Off(env, q) || !env.hidden(q, d)
    ensures Off(env, p) || !env.hidden(p, d) ==> Settle(env, d, p, dir) == p
    decreases Left(env, p, dir)
  {
    if !Off(env, p) && env.hidden(p, d) { SettleBeyond(env, d, Beside(env, p, dir), dir); }
  }

  lemma GotNext<D(!new)>(j: Job<D>, c: Ctx<D>, d': D, s: seq<int>)
    requires Agree(j, c.pos, c.d, d') && Beyond(j, c.pos, s) && d' == j.Act(c.pos, c.d) && j.For(c.pos, c.d) != 0
    requires s != [] ==> s[0] == Beside(j.env, c.pos, j.dir)
    ensures Burst(j, c.d, [c.pos] + s) == [c.pos] + Burst(j, d', s)
      && Gets(j, c.d, [c.pos] + s) == [c.pos] + Burst(j, d', s)
    ensures Beyond(j, c.pos, Burst(j, d', s)) && (s == [] ==> Gets(j, d', s) == Burst(j, d', s))
    ensures DoneAt(j.Act, c.d, [c.pos] + Burst(j, d', s)) == DoneAt(j.Act, d', Burst(j, d', s))
  {
    assert c.pos !in s;
    SpanBeyond(j, c.pos, d', s);
    GotAgree(j, c.pos, c.d, d', s);
    assert ([c.pos] + s)[1..] == s;
    var b := Burst(j, d', s);
    assert ([c.pos] + b)[1..] == b;
  }

  // ---- when that is what was asked for ----

  /** The records stand next to one another in the order of the walk. */
  predicate Abreast<D>(j: Job<D>, s: seq<int>)
    decreases |s|
  {
    |s| < 2 || (s[1] == Beside(j.env, s[0], j.dir) && Abreast(j, s[1..]))
  }

  ghost predicate Ordered<D>(j: Job<D>, s: seq<int>)
    decreases |s|
  {
    s == [] || (!Off(j.env, s[0]) && Beyond(j, s[0], s[1..]) && Ordered(j, s[1..]))
  }

  lemma {:induction false} SeenOrdered<D>(j: Job<D>, d: D, p: int)
    ensures Ordered(j, Seen(j.env, d, p, j.dir))
    decreases Left(j.env, p, j.dir)
  {
    if !Off(j.env, p) {
      var q := Beside(j.env, p, j.dir);
      var t := Seen(j.env, d, q, j.dir);
      SeenOrdered(j, d, q);
      SeenBeyond(j, p, d, q);
      assert ([p] + t)[1..] == t;
      assert Seen(j.env, d, p, j.dir) == if j.env.hidden(p, d) then t else [p] + t;
    }
  }

  lemma {:induction false} TakeOrdered<D>(j: Job<D>, s: seq<int>, n: int)
    requires Ordered(j, s)
    ensures Ordered(j, Take(s, n))
    decreases |s|
  {
    if s != [] && n > 0 {
      TakeBeyond(j, s[0], s[1..], n - 1);
      TakeOrdered(j, s[1..], n - 1);
      TakeOne(s[0], s[1..], n);
      assert s == [s[0]] + s[1..] && ([s[0]] + Take(s[1..], n - 1))[1..] == Take(s[1..], n - 1);
    }
  }

  lemma {:induction false} WhileOrdered<D>(j: Job<D>, d: D, s: seq<int>)
    requires Ordered(j, s)
    ensures Ordered(j, TakeWhile(j.While, d, s))
    decreases |s|
  {
    if s != [] && j.While(s[0], d) != 0 {
      SpanBeyond(j, s[0], d, s[1..]);
      WhileOrdered(j, d, s[1..]);
      var t := TakeWhile(j.While, d, s[1..]);
      assert ([s[0]] + t)[1..] == t;
    }
  }

  lemma SpanOrdered<D>(j: Job<D>, d: D, p: int, n: int)
    ensures Ordered(j, Span(j, d, p, n))
  {
    if !Off(j.env, p) {
      var q := Beside(j.env, p, j.dir);
      SeenOrdered(j, d, q);
      SeenBeyond(j, p, d, q);
      assert ([p] + Seen(j.env, d, q, j.dir))[1..] == Seen(j.env, d, q, j.dir);
    }
    TakeOrdered(j, From(j.env, d, p, j.dir), n);
    WhileOrdered(j, d, Take(From(j.env, d, p, j.dir), n));
  }

  lemma {:induction false} BurstChosen<D>(j: Job<D>, d: D, s: seq<int>)
    requires Ordered(j, s) && s != [] && j.For(s[0], d) != 0
    ensures Burst(j, d, s) == Filter(j.For, d, s) <==> Abreast(j, Filter(j.For, d, s))
    decreases |s|
  {
    var t := s[1..];
    var rest := Filter(j.For, d, t);
    SpanBeyond(j, s[0], d, t);
    assert ([s[0]] + rest)[1..] == rest;
    if t != [] && t[0] == Beside(j.env, s[0], j.dir) && j.For(t[0], d) != 0 {
      BurstChosen(j, d, t);
      assert rest[0] == t[0];
    } else if rest != [] {
      RestBeyond(j, d, t);
      assert rest[0] != Beside(j.env, s[0], j.dir);
      assert |Filter(j.For, d, s)| > 1;
      assert Burst(j, d, s) == [s[0]];
    }
  }

  /** What is chosen of a list is its first record or beyond it. */
  lemma RestBeyond<D>(j: Job<D>, d: D, t: seq<int>)
    requires Ordered(j, t) && t != []
    ensures var rest := Filter(j.For, d, t);
      rest == [] || rest[0] == t[0] || (if j.dir == 1 then t[0] < rest[0] else rest[0] < t[0])
    ensures j.For(t[0], d) == 0 ==> Beyond(j, t[0], Filter(j.For, d, t))
  {
    SpanBeyond(j, t[0], d, t[1..]);
  }

  /**
   * An update under an active index acts on the records its clauses choose exactly if these
   * stand next to one another in the index.
   */
  lemma {:induction false} GetsChosen<D>(j: Job<D>, d: D, s: seq<int>)
    requires Ordered(j, s)
    ensures Gets(j, d, s) == Filter(j.For, d, s) <==> Abreast(j, Filter(j.For, d, s))
    decreases |s|
  {
    if s != [] {
      if j.For(s[0], d) == 0 {
        GetsChosen(j, d, s[1..]);
        assert Filter(j.For, d, s) == Filter(j.For, d, s[1..]);
      } else {
        BurstChosen(j, d, s);
      }
    }
  }
}
