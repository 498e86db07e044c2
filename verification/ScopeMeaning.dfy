/**
 * What the clauses of a command ask for, told from the clauses and the table: the records in the order
 * of the walk, how many of them, as long as WHILE holds, and of these the ones FOR holds for.
 */
module ScopeMeaning {
  import opened Options
  import opened Pcode
  import opened ScopeRun
  import opened ScopeClauses

  // ---- the records of a walk ----

  /** The places of the order from p on: p, p + 1, ... to the end, or p, p - 1, ... to the top. */
  function Places(size: nat, p: int, dir: Dir): seq<int> {
    if p < 0 || size <= p then [] else if dir == 1 then seq(size - p, i => p + i) else seq(p + 1, i => p - i)
  }

  /** Those of the records that are shown. */
  function Shown<D>(env: Env<D>, d: D, s: seq<int>): seq<int>
    decreases |s|
  {
    if s == [] then [] else (if env.hidden(s[0], d) then [] else [s[0]]) + Shown(env, d, s[1..])
  }

  lemma PlacesStep(size: nat, p: int, dir: Dir)
    requires 0 <= p < size
    ensures Places(size, p, dir) == [p] + Places(size, if dir == 1 then p + 1 else p - 1, dir)
  {
  }

  lemma {:induction false} SeenIs<D>(env: Env<D>, d: D, p: int, dir: Dir)
    ensures Seen(env, d, p, dir) == Shown(env, d, Places(env.size, p, dir))
    decreases Left(env, p, dir)
  {
    if !Off(env, p) {
      SeenIs(env, d, Beside(env, p, dir), dir);
      PlacesStep(env.size, p, dir);
    }
  }

  /** A walk starts at its record, hidden or not, and goes on with those that are shown. */
  lemma WalkIs<D>(env: Env<D>, d: D, p: int, dir: Dir)
    ensures From(env, d, p, dir) ==
      if p < 0 || env.size <= p then []
      else [p] + Shown(env, d, Places(env.size, if dir == 1 then p + 1 else p - 1, dir))
  {
    if !Off(env, p) { SeenIs(env, d, Beside(env, p, dir), dir); }
  }

  /** A walk from the first place that is shown is one over those that are shown from there on. */
  lemma {:induction false} SettledIs<D>(env: Env<D>, d: D, p: int, dir: Dir)
    ensures From(env, d, Settle(env, d, p, dir), dir) == Shown(env, d, Places(env.size, p, dir))
    decreases Left(env, p, dir)
  {
    SettleSeen(env, d, p, dir);
    SeenIs(env, d, p, dir);
  }

  // ---- the functions that choose ----

  /** The first n, or all if there are not so many. */
  lemma TakeIs(s: seq<int>, n: nat)
    ensures Take(s, n) == s[..if n < |s| then n else |s|]
  {
  }

  /** How many of the first hold W. */
  lemma {:induction false} TakeWhileIs<D>(W: (int, D) -> int, d: D, s: seq<int>)
    ensures var m := |TakeWhile(W, d, s)|;
      m <= |s| && TakeWhile(W, d, s) == s[..m] && (forall i :: 0 <= i < m ==> W(s[i], d) != 0)
      && (m < |s| ==> W(s[m], d) == 0)
    decreases |s|
  {
    if s != [] && W(s[0], d) != 0 {
      TakeWhileIs(W, d, s[1..]);
      var m := |TakeWhile(W, d, s[1..])|;
      assert s[1..][..m] == s[1..m + 1];
      assert forall i :: 0 < i < |s| ==> s[i] == s[1..][i - 1];
      assert s[..m + 1] == [s[0]] + s[1..m + 1];
    }
  }

  /** One record is chosen if F holds for it; of two lists the chosen ones follow each other. */
  lemma {:induction false} FilterIs<D>(F: (int, D) -> int, d: D, p: int, s: seq<int>, t: seq<int>)
    ensures Filter(F, d, [p]) == (if F(p, d) != 0 then [p] else [])
    ensures Filter(F, d, s + t) == Filter(F, d, s) + Filter(F, d, t)
    decreases |s|
  {
    if s == [] {
      assert s + t == t;
    } else {
      assert (s + t)[1..] == s[1..] + t;
      FilterIs(F, d, p, s[1..], t);
    }
  }

  /** The action is done at one record after the other. */
  lemma {:induction false} DoneIs<D>(A: (int, D) -> D, d: D, s: seq<int>, p: int)
    ensures DoneAt(A, d, []) == d && DoneAt(A, d, s + [p]) == A(p, DoneAt(A, d, s))
    decreases |s|
  {
    if s == [] {
      assert s + [p] == [p] && [p][1..] == [];
    } else {
      assert (s + [p])[1..] == s[1..] + [p];
      DoneIs(A, A(s[0], d), s[1..], p);
    }
  }

  // ---- what is asked for ----

  /** The first NEXT or PREV clause. */
  function CountClause(items: seq<Item>): (r: Option<Item>)
    ensures r.Some? ==> r.v.Next? && r.v in items
    decreases |items|
  {
    if items == [] then None else if items[0].Next? then Some(items[0]) else CountClause(items[1..])
  }

  /** As many records as the clause says; all of them without one. The number of its constant is one
      byte in the code, where 0xff stands for no constant. */
  function HowMany<D>(env: Env<D>, items: seq<Item>): int {
    match CountClause(items)
    case None => env.maxrecs
    case Some(it) => if it.k == 0xff then env.maxrecs else env.constant(it.k)
  }

  function Whither(items: seq<Item>): Dir {
    match CountClause(items) case None => 1 case Some(it) => if it.back then -1 else 1
  }

  /** With NEXT or PREV from the current record on, whether it is shown or not; without, from the top. */
  function Whole<D>(env: Env<D>, items: seq<Item>, c: Ctx<D>): seq<int> {
    if CountClause(items).None? then Shown(env, c.d, Places(env.size, 0, 1))
    else if c.pos < 0 || env.size <= c.pos then []
    else
      var dir := Whither(items);
      [c.pos] + Shown(env, c.d, Places(env.size, if dir == 1 then c.pos + 1 else c.pos - 1, dir))
  }

  /**
   * In e the action has been done, in order, at those that FOR holds for of the first m records of the
   * walk, where m is as many as were asked for, or up to the first that WHILE does not hold for, or
   * all there are. The table is at the record behind them, and the scope is still set only if it was
   * WHILE that ended the command.
   */
  ghost predicate AsWritten<D(!new)>(j: Job<D>, items: seq<Item>, c: Ctx<D>, e: Ctx<D>) {
    var walk, n := Whole(j.env, items, c), HowMany(j.env, items);
    exists m: nat :: ChosenFirst(j, walk, n, c.d, m)
      && e.d == DoneAt(j.Act, c.d, Filter(j.For, c.d, walk[..m]))
      && (if m < |walk| then e.pos == walk[m] else e.pos < 0 || j.env.size <= e.pos)
      && e.total == if j.While(e.pos, e.d) == 0 then n else 0
  }

  ghost predicate ChosenFirst<D(!new)>(j: Job<D>, walk: seq<int>, n: int, d: D, m: nat) {
    && m <= |walk| && (m <= n || m == 0) && (forall i :: 0 <= i < m ==> j.While(walk[i], d) != 0)
    && (m == |walk| || n <= m || j.While(walk[m], d) == 0)
  }

  /** The first of the first. */
  lemma SpanIs<D(!new)>(j: Job<D>, walk: seq<int>, n: int, d: D)
    requires 0 <= n
    ensures var s := TakeWhile(j.While, d, Take(walk, n));
      ChosenFirst(j, walk, n, d, |s|) && s == walk[..|s|]
  {
    var t := Take(walk, n);
    TakeIs(walk, n);
    TakeWhileIs(j.While, d, t);
    var m := |TakeWhile(j.While, d, t)|;
    assert t[..m] == walk[..m];
  }

  // ---- an update that fetches the next entry ahead ----

  ghost predicate OnTable<D>(env: Env<D>, s: seq<int>) { forall i :: 0 <= i < |s| ==> 0 <= s[i] < env.size }

  /** From a record fetched ahead: those up to the first that FOR fails at or that is not the very next. */
  lemma {:induction false} BurstIs<D>(j: Job<D>, d: D, s: seq<int>)
    requires OnTable(j.env, s)
    ensures var n := |Burst(j, d, s)|;
      && n <= |s| && Burst(j, d, s) == s[..n] && (forall i :: 0 <= i < n ==> j.For(s[i], d) != 0)
      && (forall i :: 0 < i < n ==> s[i] == s[i - 1] + j.dir)
      && (n < |s| ==> j.For(s[n], d) == 0 || (n > 0 && s[n] != s[n - 1] + j.dir))
    decreases |s|
  {
    if s != [] && j.For(s[0], d) != 0 {
      var t := s[1..];
      assert forall i :: 0 <= i < |t| ==> t[i] == s[i + 1];
      BurstIs(j, d, t);
      var m := |Burst(j, d, t)|;
      if t != [] && t[0] == s[0] + j.dir {
        assert [s[0]] + t[..m] == s[..m + 1];
      } else {
        assert [s[0]] + [] == s[..1];
      }
    }
  }

  /** From a start with nothing fetched ahead: the first records that FOR fails at are passed over. */
  lemma {:induction false} GetsIs<D>(j: Job<D>, d: D, s: seq<int>) returns (a: nat)
    ensures a <= |s| && Gets(j, d, s) == Burst(j, d, s[a..]) && (forall i :: 0 <= i < a ==> j.For(s[i], d) == 0)
    ensures a < |s| ==> j.For(s[a], d) != 0
    decreases |s|
  {
    a := 0;
    if s != [] && j.For(s[0], d) == 0 {
      a := GetsIs(j, d, s[1..]);
      assert s[1..][a..] == s[a + 1..];
      assert forall i :: 0 < i < |s| ==> s[i] == s[1..][i - 1];
      a := a + 1;
    } else {
      assert s[0..] == s;
    }
  }

  /** Next to one another; and where such a loop comes to after the last record. */
  lemma {:induction false} AbreastIs<D>(j: Job<D>, s: seq<int>)
    requires OnTable(j.env, s)
    ensures Abreast(j, s) <==> forall i :: 0 < i < |s| ==> s[i] == s[i - 1] + j.dir
    decreases |s|
  {
    if |s| >= 2 {
      var t := s[1..];
      assert forall i :: 0 <= i < |t| ==> t[i] == s[i + 1];
      AbreastIs(j, t);
      if Abreast(j, s) {
        forall i | 0 < i < |s| ensures s[i] == s[i - 1] + j.dir {
          if i > 1 { assert t[i - 1] == t[i - 2] + j.dir; }
        }
      }
    }
  }

  lemma FreesIs<D>(j: Job<D>, d: D, s: seq<int>)
    requires OnTable(j.env, s)
    ensures Frees(j, d, s) <==>
      s == [] || var q := s[|s| - 1] + j.dir; q < 0 || j.env.size <= q || !j.env.hidden(q, d)
  {
  }

  // ---- which clauses those are, and the error of those that are refused ----

  /** The first clause of its kind is the one that counts; a condition not given holds always. */
  lemma {:induction false} ClausesAre(items: seq<Item>, i: nat)
    requires i < |items| && forall j :: 0 <= j < i ==> KindOf(items[j]) != KindOf(items[i])
    ensures items[i].For? ==> ForOf(items) == items[i].body
    ensures items[i].While? ==> WhileOf(items) == items[i].body
    ensures items[i].Next? ==> CountClause(items) == Some(items[i])
    decreases i
  {
    if i > 0 {
      assert items[1..][i - 1] == items[i];
      assert forall j :: 0 <= j < i - 1 ==> items[1..][j] == items[j + 1];
      ClausesAre(items[1..], i - 1);
    }
  }

  lemma {:induction false} ClausesMissing(items: seq<Item>)
    ensures (forall it :: it in items ==> !it.For?) ==> ForOf(items) == [Pcode(PUSH_TF, 1)]
    ensures (forall it :: it in items ==> !it.While?) ==> WhileOf(items) == [Pcode(PUSH_TF, 1)]
    ensures (forall it :: it in items ==> !it.Next?) ==> CountClause(items) == None
    decreases |items|
  {
    if items != [] {
      ClausesMissing(items[1..]);
      assert items[0] in items && forall it :: it in items[1..] ==> it in items;
    }
  }

  /** What is wrong with a clause behind others, whose kinds are given, with so much code so far. */
  function Fault(given: set<Kind>, size: nat, it: Item): Option<Err> {
    if it.Junk? || (it.Fields? && FIELDS in given) then Some(ILL_SYNTAX)
    else if KindOf(it) in given then Some(EXCESS_SYNTAX)
    else if it.Next? && !it.isInt then Some(INVALID_VALUE)
    else if (it.For? || it.While? || it.Fields?) && size + |it.body| + 1 > 128 then Some(EXP_TOOLONG)
    else None
  }

  /** The fault of the first clause that has one. */
  function FirstFault(given: set<Kind>, size: nat, items: seq<Item>): Option<Err>
    decreases |items|
  {
    if items == [] then None
    else
      var e := Fault(given, size, items[0]);
      if e.Some? then e else FirstFault(given + {KindOf(items[0])}, size + Size(items[0]), items[1..])
  }

  ghost predicate GivenAre(f: Form, given: set<Kind>) {
    forall k :: k != JUNK ==> (k in given <==> Given(f, k) == 1)
  }

  lemma {:induction false} FaultIs(f: Form, items: seq<Item>, given: set<Kind>)
    requires |Code(f)| <= 128 && GivenAre(f, given)
    ensures match AddAll(f, items)
      case Bad(e) => FirstFault(given, |Code(f)|, items) == Some(e)
      case Ok(_) => FirstFault(given, |Code(f)|, items) == None
    decreases |items|
  {
    if items != [] {
      AddFault(f, items[0], given);
      if Add(f, items[0]).Ok? {
        AddIff(f, items[0]);
        FaultIs(Add(f, items[0]).v, items[1..], given + {KindOf(items[0])});
      }
    }
  }

  lemma AddFault(f: Form, it: Item, given: set<Kind>)
    requires |Code(f)| <= 128 && GivenAre(f, given)
    ensures match Add(f, it)
      case Bad(e) => Fault(given, |Code(f)|, it) == Some(e)
      case Ok(_) => Fault(given, |Code(f)|, it) == None
  {
    assert Given(f, KindOf(it)) == 1 || KindOf(it) !in given;
  }
}
