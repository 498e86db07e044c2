/** The external merge sort: sorted runs on one temporary file, merged pairwise from
    file to file through two windows that are refilled and padded at the end of the file. */
module ExternalSort {
  import opened Options
  import opened Entries
  import opened Sorting

  // --------------------------------------------------------------- what it means

  function Keys(s: seq<Ent>): (t: seq<Item>)
    ensures |t| == |s| && forall i {:trigger t[i]} :: 0 <= i < |s| ==> t[i] == Key(s[i])
  {
    seq(|s|, i requires 0 <= i < |s| => Key(s[i]))
  }

  function Cut(s: seq<Ent>, n: nat): nat { if n <= |s| then n else |s| }
  /** The part of `s` from `a` up to `b`, as far as there is one. */
  function Part(s: seq<Ent>, a: nat, b: nat): seq<Ent> requires a <= b { s[Cut(s, a)..Cut(s, b)] }
  function After(s: seq<Ent>, a: nat): seq<Ent> { s[Cut(s, a)..] }

  function Merge2(a: seq<Ent>, b: seq<Ent>, unique: bool): (r: seq<Ent>)
    ensures |r| == |a| + |b|
    decreases |a| + |b|
  {
    if a == [] then b
    else if b == [] then a
    else if Lt(b[0], a[0], unique) then [b[0]] + Merge2(a, b[1..], unique)
    else [a[0]] + Merge2(a[1..], b, unique)
  }

  /** One pass over the file: neighbouring runs of `n` become runs of `2 * n`. */
  function Pass(f: seq<Ent>, n: nat, unique: bool): (r: seq<Ent>)
    requires n > 0
    ensures |r| == |f|
    decreases |f|
  {
    if f == [] then [] else Merge2(Part(f, 0, n), Part(f, n, 2 * n), unique) + Pass(After(f, 2 * n), n, unique)
  }

  function MergeAll(f: seq<Ent>, n: nat, unique: bool): (r: seq<Ent>)
    requires n > 0
    ensures |r| == |f|
    decreases if n < |f| then |f| - n else 0
  {
    if n >= |f| then f else MergeAll(Pass(f, n, unique), 2 * n, unique)
  }

  /** Every stretch of `n` entries, counted from the start, is in order. */
  ghost predicate Runs(f: seq<Ent>, n: nat, unique: bool)
    requires n > 0
    decreases |f|
  {
    f == [] || (Ordered(Part(f, 0, n), unique) && Runs(After(f, n), n, unique))
  }

  lemma {:induction false} Merge2Is(a: seq<Ent>, b: seq<Ent>, unique: bool)
    requires Ordered(a, unique) && Ordered(b, unique)
    ensures Ordered(Merge2(a, b, unique), unique) && multiset(Merge2(a, b, unique)) == multiset(a) + multiset(b)
    decreases |a| + |b|
  {
    if a != [] && b != [] {
      if Lt(b[0], a[0], unique) {
        Merge2Is(a, b[1..], unique);
        MergeFront(b, a, Merge2(a, b[1..], unique), unique);
      } else {
        Merge2Is(a[1..], b, unique);
        MergeFront(a, b, Merge2(a[1..], b, unique), unique);
      }
    }
  }

  /** The head of a run that comes first, in front of the merge of what is left. */
  lemma MergeFront(a: seq<Ent>, b: seq<Ent>, m: seq<Ent>, unique: bool)
    requires Ordered(a, unique) && Ordered(b, unique) && a != [] && b != [] && !Lt(b[0], a[0], unique)
    requires Ordered(m, unique) && multiset(m) == multiset(a[1..]) + multiset(b)
    ensures Ordered([a[0]] + m, unique) && multiset([a[0]] + m) == multiset(a) + multiset(b)
  {
    HeadLeast(a, b, unique);
    FrontMerged(a[0], a[1..], b, m, unique);
    assert a == [a[0]] + a[1..];
  }

  /** The head `x` of a run in front of the merge `m` of what follows it and the other run. */
  lemma FrontMerged(x: Ent, tail: seq<Ent>, other: seq<Ent>, m: seq<Ent>, unique: bool)
    requires Ordered(m, unique) && multiset(m) == multiset(tail) + multiset(other)
    requires NoneBefore(tail, x, unique) && NoneBefore(other, x, unique)
    ensures Ordered([x] + m, unique) && multiset([x] + m) == multiset([x] + tail) + multiset(other)
  {
    FrontIs(x, tail, other, m, unique);
  }

  ghost predicate NoneBefore(s: seq<Ent>, x: Ent, unique: bool) {
    forall i {:trigger s[i]} :: 0 <= i < |s| ==> !Lt(s[i], x, unique)
  }

  lemma HeadLeast(a: seq<Ent>, b: seq<Ent>, unique: bool)
    requires Ordered(a, unique) && Ordered(b, unique) && a != [] && b != [] && !Lt(b[0], a[0], unique)
    ensures Ordered(a[1..], unique) && NoneBefore(a[1..], a[0], unique) && NoneBefore(b, a[0], unique)
  {
    forall i {:trigger b[i]} | 0 <= i < |b| ensures !Lt(b[i], a[0], unique) {
      if i > 0 { assert !Lt(b[i], b[0], unique); }
    }
    forall i {:trigger a[1..][i]} | 0 <= i < |a| - 1 ensures !Lt(a[1..][i], a[0],
        unique) { assert a[1..][i] == a[i + 1]; }
  }

  /** An entry that nothing of either run precedes may stand in front of their merge. */
  lemma FrontIs(x: Ent, a: seq<Ent>, b: seq<Ent>, m: seq<Ent>, unique: bool)
    requires Ordered(m, unique) && multiset(m) == multiset(a) + multiset(b)
    requires NoneBefore(a, x, unique) && NoneBefore(b, x, unique)
    ensures Ordered([x] + m, unique)
  {
    var r := [x] + m;
    forall j {:trigger r[j]} | 1 <= j < |r| ensures !Lt(r[j], x, unique) {
      assert r[j] == m[j - 1] && m[j - 1] in multiset(m);
      assert m[j - 1] in multiset(a) || m[j - 1] in multiset(b);
      assert m[j - 1] in a || m[j - 1] in b;
    }
    forall i, j {:trigger r[i], r[j]} | 0 <= i < j < |r| ensures !Lt(r[j], r[i], unique) {
      if i > 0 { assert r[i] == m[i - 1] && r[j] == m[j - 1]; }
    }
  }

  lemma {:induction false} PassIs(f: seq<Ent>, n: nat, unique: bool)
    requires n > 0 && Runs(f, n, unique)
    ensures Runs(Pass(f, n, unique), 2 * n, unique) && multiset(Pass(f, n, unique)) == multiset(f)
    decreases |f|
  {
    if f != [] {
      var a, b, rest := Part(f, 0, n), Part(f, n, 2 * n), After(f, 2 * n);
      RunsTwo(f, n, unique);
      Merge2Is(a, b, unique);
      PassIs(rest, n, unique);
      RunsJoin(Merge2(a, b, unique), Pass(rest, n, unique), 2 * n, unique);
    }
  }

  lemma Parts(f: seq<Ent>, n: nat)
    ensures f == Part(f, 0, n) + Part(f, n, 2 * n) + After(f, 2 * n)
    ensures Part(After(f, n), 0, n) == Part(f, n, 2 * n) && After(After(f, n), n) == After(f, 2 * n)
  {
  }

  lemma RunsTwo(f: seq<Ent>, n: nat, unique: bool)
    requires n > 0 && Runs(f, n, unique) && f != []
    ensures Ordered(Part(f, 0, n), unique) && Ordered(Part(f, n, 2 * n), unique) && Runs(After(f, 2 * n), n, unique)
    ensures f == Part(f, 0, n) + Part(f, n, 2 * n) + After(f, 2 * n)
    ensures |Part(f, 0, n)| + |Part(f, n, 2 * n)| == 2 * n || After(f, 2 * n) == []
  {
    Parts(f, n);
  }

  lemma RunsJoin(m: seq<Ent>, p: seq<Ent>, n: nat, unique: bool)
    requires n > 0 && Ordered(m, unique) && Runs(p, n, unique) && |m| <= n && (|m| == n || p == [])
    ensures Runs(m + p, n, unique)
  {
    var f := m + p;
    if f != [] { assert Part(f, 0, n) == m && After(f, n) == p; }
  }

  /** The merge passes turn sorted runs into one sorted sequence of the same entries. */
  lemma {:induction false} MergeAllIs(f: seq<Ent>, n: nat, unique: bool)
    requires n > 0 && Runs(f, n, unique)
    ensures Ordered(MergeAll(f, n, unique), unique) && multiset(MergeAll(f, n, unique)) == multiset(f)
    decreases if n < |f| then |f| - n else 0
  {
    if n >= |f| {
      if f != [] { assert Part(f, 0, n) == f; }
    } else {
      PassIs(f, n, unique);
      MergeAllIs(Pass(f, n, unique), 2 * n, unique);
    }
  }

  /** The entries of the records with a key, in record order. */
  function NonNull(rows: Rows): seq<Ent> {
    if rows == [] then []
    else
      var n := |rows|;
      NonNull(rows[..n - 1]) + match rows[n - 1] case None => [] case Some(k) => [Ent(k, n)]
  }

  lemma {:induction false} NonNullFrom(rows: Rows, e: Ent)
    ensures e in NonNull(rows) <==> Sorting.From(e, rows)
    ensures multiset(NonNull(rows))[e] <= 1
    decreases |rows|
  {
    if rows != [] {
      var n := |rows|;
      NonNullFrom(rows[..n - 1], e);
      assert e.recno == n ==> e !in NonNull(rows[..n - 1]);
    }
  }

  // ------------------------------------------------------------------- one merge pass

  /** What a read at item `i` of the file gives: the item, or padding behind the end. */
  function ItemAt(f: seq<Ent>, i: nat): Item { if i < |f| then Key(f[i]) else Pad }

  /** One side of the merge: the start of its run (of its next run, once `fill` says that
      the run is used up), the position of its window, the next item in it, the items taken. */
  datatype Side = Side(pos: nat, tpos: nat, ip: nat, titms: nat, fill: bool)

  ghost predicate Window(w: seq<Item>, f: seq<Ent>, tpos: nat) {
    forall k {:trigger w[k]} :: 0 <= k < |w| ==> w[k] == ItemAt(f, tpos + k)
  }

  ghost predicate SideOk(s: Side, w: seq<Item>, f: seq<Ent>, n: nat) {
    s.fill || (s.ip < |w| && s.tpos + s.ip == s.pos + s.titms && s.titms < n && Window(w, f, s.tpos))
  }

  /** What is left of its run. */
  function Left(s: Side, f: seq<Ent>, n: nat): seq<Ent> {
    if s.fill || s.titms > n then [] else Part(f, s.pos + s.titms, s.pos + n)
  }

  /** A pass over `f` in progress: both sides, the start `c` of the next pair of runs, what was written. */
  datatype PassState = PassState(s1: Side, s2: Side, f: seq<Ent>, n: nat, c: nat, out: seq<Ent>, unique: bool)

  predicate Placed(m: PassState) {
    && (if m.s1.fill then m.s1.pos == m.c else m.s1.pos + 2 * m.n == m.c)
    && (if m.s2.fill then m.s2.pos == m.c + m.n
        || (m.s2.pos + m.n == m.c && m.s2.pos >= |m.f|) else m.s2.pos + m.n == m.c)
  }

  /** What both sides and the later runs will still give. */
  ghost function Yield(m: PassState): seq<Ent>
    requires m.n > 0
  {
    Merge2(Left(m.s1, m.f, m.n), Left(m.s2, m.f, m.n), m.unique) + PassFrom(m.f, m.c, m.n, m.unique)
  }

  /** The pass over what comes after item `c`. */
  function PassFrom(f: seq<Ent>, c: nat, n: nat, unique: bool): seq<Ent>
    requires n > 0
  {
    Pass(After(f, c), n, unique)
  }

  /** Together with what was written it is the result of the pass. */
  ghost predicate Gives(m: PassState) {
    m.n > 0 && Placed(m) && Pass(m.f, m.n, m.unique) == m.out + Yield(m)
  }

  /** Moreover both runs are used up only at the end of the file. */
  ghost predicate Midway(m: PassState) {
    Gives(m) && (m.s1.fill && m.s2.fill ==> m.c >= |m.f|)
  }

  const NO_PASS: PassState := PassState(Side(0, 0, 0, 0, true), Side(1, 0, 0, 0, true), [], 1, 0, [], false)
  type Giving = m: PassState | Gives(m) ghost witness NO_PASS
  type Mid = m: PassState | Midway(m) ghost witness NO_PASS

  lemma AddAssoc(a: seq<Ent>, e: Ent, m: seq<Ent>, p: seq<Ent>)
    ensures a + (([e] + m) + p) == (a + [e]) + (m + p)
  {
  }

  lemma Turn(m: Mid, t1: Side, t2: Side, e: Ent)
    requires Turned(m, t1, t2, e)
    ensures Gives(m.(s1 := t1, s2 := t2, out := m.out + [e]))
  {
    AddAssoc(m.out, e, Merge2(Left(t1, m.f, m.n), Left(t2, m.f, m.n), m.unique), Pass(After(m.f, m.c), m.n, m.unique));
  }

  /** One side moved on by the entry `e`, the next one of the merge. */
  ghost predicate Turned(m: PassState, t1: Side, t2: Side, e: Ent) {
    && Merge2(Left(m.s1, m.f, m.n), Left(m.s2, m.f, m.n), m.unique) ==
        [e] + Merge2(Left(t1, m.f, m.n), Left(t2, m.f, m.n), m.unique)
    && ((t2 == m.s2 && !m.s1.fill && t1.pos == if t1.fill then m.s1.pos + 2 * m.n else m.s1.pos)
        || (t1 == m.s1 && !m.s2.fill && t2.pos == if t2.fill then m.s2.pos + 2 * m.n else m.s2.pos))
  }

  lemma TurnLeft(m: PassState, t1: Side, e: Ent)
    requires var a, b := Left(m.s1, m.f, m.n), Left(m.s2, m.f, m.n);
      a != [] && e == a[0] && (b == [] || !Lt(b[0], a[0], m.unique)) && Left(t1, m.f, m.n) == a[1..]
    requires !m.s1.fill && t1.pos == if t1.fill then m.s1.pos + 2 * m.n else m.s1.pos
    ensures Turned(m, t1, m.s2, e)
  {
    MergeStep(Left(m.s1, m.f, m.n), Left(m.s2, m.f, m.n), m.unique);
  }

  lemma TurnRight(m: PassState, t2: Side, e: Ent)
    requires var a, b := Left(m.s1, m.f, m.n), Left(m.s2, m.f, m.n);
      b != [] && e == b[0] && (a == [] || Lt(b[0], a[0], m.unique)) && Left(t2, m.f, m.n) == b[1..]
    requires !m.s2.fill && t2.pos == if t2.fill then m.s2.pos + 2 * m.n else m.s2.pos
    ensures Turned(m, m.s1, t2, e)
  {
    MergeStep(Left(m.s1, m.f, m.n), Left(m.s2, m.f, m.n), m.unique);
  }

  /** A side at the start of its next run, if there is one. */
  function Restart(t: Side, size: nat): Side {
    if t.pos < size then Side(t.pos, t.pos, 0, 0, false) else t
  }

  function NextPair(m: PassState): PassState {
    m.(s1 := Restart(m.s1, |m.f|), s2 := Restart(m.s2, |m.f|), c := m.c + 2 * m.n)
  }

  lemma PartAfter(f: seq<Ent>, c: nat, a: nat, b: nat)
    requires a <= b
    ensures Part(After(f, c), a, b) == Part(f, c + a, c + b) && After(After(f, c), a) == After(f, c + a)
  {
    if c + a <= |f| {
      assert After(f, c)[a..] == f[c + a..];
    }
  }

  lemma AfterParts(f: seq<Ent>, n: nat, c: nat)
    ensures var t := After(f, c);
      Part(t, 0, n) == Part(f, c, c + n) && Part(t, n, 2 * n) == Part(f, c + n, c + 2 * n)
          && After(t, 2 * n) == After(f, c + 2 * n)
  {
    PartAfter(f, c, 0, n);
    PartAfter(f, c, n, 2 * n);
    PartAfter(f, c, 2 * n, 2 * n);
  }

  /** Both sides go on to the next pair; the second run of it may be missing. */
  lemma YieldNext(m: PassState)
    requires m.n > 0 && Placed(m) && m.s1.fill && m.s2.fill && m.s1.pos < |m.f|
    ensures Placed(NextPair(m)) && Yield(NextPair(m)) == Yield(m)
  {
    LeftNext(m);
    YieldFirst(NextPair(m), m.f, m.n, m.c, m.unique);
    YieldUsed(m);
  }

  /** Two whole runs at `c`, and what comes after them, give the pass from `c` on. */
  lemma YieldFirst(m: PassState, f: seq<Ent>, n: nat, c: nat, unique: bool)
    requires n > 0 && c < |f| && m.f == f && m.n == n && m.c == c + 2 * n && m.unique == unique
    requires Left(m.s1, f, n) == Part(f, c, c + n) && Left(m.s2, f, n) == Part(f, c + n, c + 2 * n)
    ensures Yield(m) == PassFrom(f, c, n, unique)
  {
    YieldAt(f, n, c, unique);
  }

  lemma YieldUsed(m: PassState)
    requires m.n > 0 && m.s1.fill && m.s2.fill
    ensures Yield(m) == PassFrom(m.f, m.c, m.n, m.unique)
  {
    var p := Pass(After(m.f, m.c), m.n, m.unique);
    assert Merge2([], [], m.unique) == [] && [] + p == p;
  }

  lemma YieldAt(f: seq<Ent>, n: nat, c: nat, unique: bool)
    requires n > 0 && c < |f|
    ensures PassFrom(f, c, n, unique)
      == Merge2(Part(f, c, c + n), Part(f, c + n, c + 2 * n), unique) + PassFrom(f, c + 2 * n, n, unique)
  {
    AfterParts(f, n, c);
  }

  lemma LeftNext(m: PassState)
    requires m.n > 0 && Placed(m) && m.s1.fill && m.s2.fill && m.s1.pos < |m.f|
    ensures Placed(NextPair(m))
    ensures Left(NextPair(m).s1, m.f, m.n) == Part(m.f, m.c, m.c + m.n)
    ensures Left(NextPair(m).s2, m.f, m.n) == Part(m.f, m.c + m.n, m.c + 2 * m.n)
  {
  }

  lemma Paired(m: Giving)
    requires m.s1.fill && m.s2.fill && m.s1.pos < |m.f|
    ensures Midway(NextPair(m))
  {
    YieldNext(m);
  }

  /** The pass starts with the first pair of runs. */
  function FirstPair(f: seq<Ent>, n: nat, unique: bool): PassState {
    PassState(Side(0, 0, 0, 0, false), Side(n, n, 0, 0, false), f, n, 2 * n, [], unique)
  }

  lemma FirstIs(f: seq<Ent>, n: nat, unique: bool)
    requires n > 0 && f != []
    ensures Midway(FirstPair(f, n, unique))
  {
    var m := FirstPair(f, n, unique);
    assert After(f, 0) == f && Left(m.s1, f, n) == Part(f, 0, n) && Left(m.s2, f, n) == Part(f, n, 2 * n);
    YieldFirst(m, f, n, 0, unique);
    assert [] + Yield(m) == Yield(m);
  }

  lemma Head(s: Side, w: seq<Item>, f: seq<Ent>, n: nat)
    requires SideOk(s, w, f, n) && !s.fill
    ensures w[s.ip] == ItemAt(f, s.pos + s.titms)
    ensures Left(s, f, n) == [] <==> s.pos + s.titms >= |f|
    ensures Left(s, f, n) != [] ==> Key(Left(s, f, n)[0]) == w[s.ip]
  {
  }

  /** As long as something is left to write, one of the two sides has it. */
  lemma SomeLeft(m: Mid, w1: seq<Item>, w2: seq<Item>)
    requires SideOk(m.s1, w1, m.f, m.n) && SideOk(m.s2, w2, m.f, m.n) && |m.out| < |m.f|
    ensures Left(m.s1, m.f, m.n) != [] || Left(m.s2, m.f, m.n) != []
    ensures !m.s1.fill && Left(m.s1, m.f, m.n) == [] ==> Left(m.s2, m.f, m.n) == []
    ensures !(m.s1.fill && m.s2.fill)
  {
    if !m.s1.fill { Head(m.s1, w1, m.f, m.n); }
    if !m.s2.fill { Head(m.s2, w2, m.f, m.n); }
  }

  lemma MergeStep(a: seq<Ent>, b: seq<Ent>, unique: bool)
    ensures a != [] && (b == [] || !Lt(b[0], a[0], unique)) ==>
      Merge2(a, b, unique) == [a[0]] + Merge2(a[1..], b, unique)
    ensures b != [] && (a == [] || Lt(b[0], a[0], unique)) ==>
      Merge2(a, b, unique) == [b[0]] + Merge2(a, b[1..], unique)
  {
    if a != [] { assert a == [a[0]] + a[1..]; }
    if b != [] { assert b == [b[0]] + b[1..]; }
  }

  /** Which of the two sides the next item is taken from. */
  function Which(s1: Side, s2: Side, w1: seq<Item>, w2: seq<Item>, unique: bool): bool
    requires !s1.fill && !s2.fill ==> s1.ip < |w1| && s2.ip < |w2|
  {
    if s1.fill then true else if s2.fill then false else Qcomp(w1[s1.ip], w2[s2.ip], unique) > 0
  }

  /** The side chosen by fill flags and comparison is the one the merge takes from. */
  lemma Chosen(m: Mid, w1: seq<Item>, w2: seq<Item>, rows: Rows)
    requires SideOk(m.s1, w1, m.f, m.n) && SideOk(m.s2, w2, m.f, m.n) && |m.out| < |m.f|
    requires AllFrom(m.f, rows) && |rows| <= TWO31
    ensures var a, b := Left(m.s1, m.f, m.n), Left(m.s2, m.f, m.n);
      if Which(m.s1, m.s2, w1, w2, m.unique)
      then !m.s2.fill && b != [] && Key(b[0]) == w2[m.s2.ip] && (a == [] || Lt(b[0], a[0], m.unique))
      else !m.s1.fill && a != [] && Key(a[0]) == w1[m.s1.ip] && (b == [] || !Lt(b[0], a[0], m.unique))
  {
    SomeLeft(m, w1, w2);
    if !m.s1.fill { Head(m.s1, w1, m.f, m.n); }
    if !m.s2.fill { Head(m.s2, w2, m.f, m.n); }
    if !m.s1.fill && !m.s2.fill { ChosenBoth(m.s1, m.s2, w1, w2, m.f, m.n, m.unique, rows); }
  }

  lemma ChosenBoth(s1: Side, s2: Side, w1: seq<Item>, w2: seq<Item>, f: seq<Ent>, n: nat, unique: bool, rows: Rows)
    requires n > 0 && !s1.fill && !s2.fill && SideOk(s1, w1, f, n) && SideOk(s2, w2, f, n) && AllFrom(f, rows)
      && |rows| <= TWO31
    requires Left(s1, f, n) != []
    ensures var a, b := Left(s1, f, n), Left(s2, f, n);
      Qcomp(w1[s1.ip], w2[s2.ip], unique) > 0 <==> b != [] && Lt(b[0], a[0], unique)
  {
    Head(s1, w1, f, n);
    Head(s2, w2, f, n);
    var a, b := Left(s1, f, n), Left(s2, f, n);
    assert a[0] == f[s1.pos + s1.titms];
    if b != [] {
      assert b[0] == f[s2.pos + s2.titms];
      QcompSign(a[0], b[0], unique, rows);
    }
  }

  /** A write into a file at an item position. */
  function Overwrite(f: seq<Item>, pos: nat, d: seq<Item>): seq<Item>
    requires pos <= |f|
  {
    f[..pos] + d + (if pos + |d| < |f| then f[pos + |d|..] else [])
  }

  class Sorter {
    const nkeys: nat
    const unique: bool
    const kbuf: array<Item>
    const kbuf1: array<Item>
    const kbuf2: array<Item>
    const keyptrs: array<Ent>
    var tempvf: seq<seq<Item>>             // the two temporary files
    var r: nat                             // next free item of kbuf
    var tpos: nat                          // where kbuf will be written

    ghost predicate Valid()
      reads this
    {
      && 0 < nkeys && kbuf.Length == nkeys && kbuf1.Length == nkeys && kbuf2.Length == nkeys && keyptrs.Length == nkeys
      && kbuf != kbuf1 && kbuf != kbuf2 && kbuf1 != kbuf2 && |tempvf| == 2
    }

    constructor (nkeys: nat, unique: bool)
      requires nkeys > 0
      ensures Valid() && this.nkeys == nkeys && this.unique == unique && tempvf == [[], []]
      ensures fresh(kbuf) && fresh(kbuf1) && fresh(kbuf2) && fresh(keyptrs)
    {
      this.nkeys, this.unique := nkeys, unique;
      kbuf := new Item[nkeys](_ => Pad);
      kbuf1 := new Item[nkeys](_ => Pad);
      kbuf2 := new Item[nkeys](_ => Pad);
      keyptrs := new Ent[nkeys](_ => Ent(0, 0));
      tempvf, r, tpos := [[], []], 0, 0;
    }

    /** Read a window at item `pos`; behind the end of the file it is padded. */
    method FillBuf(from: nat, buf: array<Item>, pos: nat, ghost f: seq<Ent>)
      requires Valid() && from < 2 && tempvf[from] == Keys(f)
      modifies buf
      ensures Window(buf[..], f, pos)
    {
      forall k | 0 <= k < buf.Length {
        buf[k] := if pos + k < |tempvf[from]| then tempvf[from][pos + k] else Pad;
      }
    }

    /** Take the next item of one side; read on when the window is used up, and
        note when the run is. */
    method Advance(s: Side, from: nat, buf: array<Item>, n: nat, ghost f: seq<Ent>) returns (s': Side)
      requires Valid() && from < 2 && tempvf[from] == Keys(f) && buf.Length == nkeys
      requires !s.fill && SideOk(s, buf[..], f, n) && Left(s, f, n) != []
      modifies buf
      ensures SideOk(s', buf[..], f, n) && Left(s', f, n) == Left(s, f, n)[1..]
      ensures s'.pos == if s'.fill then s.pos + 2 * n else s.pos
    {
      s' := s.(titms := s.titms + 1, ip := s.ip + 1);
      if s'.titms == n {
        s' := s'.(pos := s.pos + 2 * n, fill := true);
      } else if s'.ip >= nkeys {
        s' := s'.(tpos := s.tpos + nkeys, ip := 0);
        FillBuf(from, buf, s'.tpos, f);
      }
    }

    /** The items written: those in the file, and those still in the buffer. */
    ghost predicate Written(to: nat, out: seq<Ent>)
      reads this, kbuf
    {
      Valid() && to < 2 && r <= nkeys && tpos <= |tempvf[to]| && tempvf[to][..tpos] + kbuf[..r] == Keys(out)
    }

    /** Copy an item to the buffer. */
    method Store(it: Item, to: nat, ghost e: Ent, ghost out: seq<Ent>)
      requires Written(to, out) && r < nkeys && it == Key(e)
      modifies kbuf, this`r
      ensures Written(to, out + [e]) && r == old(r) + 1
    {
      ghost var was := kbuf[..r];
      kbuf[r] := it;
      assert kbuf[..r + 1] == was + [it];
      assert Keys(out + [e]) == Keys(out) + [it];
      r := r + 1;
    }

    /** Write the buffer when it is full, or at the end. */
    method Flush(to: nat, ghost out: seq<Ent>)
      requires Written(to, out)
      modifies this`tempvf, this`r, this`tpos
      ensures Written(to, out) && r == 0 && tpos == |out| && tempvf[1 - to] == old(tempvf[1 - to])
      ensures tempvf[to][..|out|] == Keys(out) && (|tempvf[to]| == |old(tempvf[to])| || |tempvf[to]| == |out|)
    {
      ghost var t := tempvf[to][..tpos];
      tempvf := tempvf[to := Overwrite(tempvf[to], tpos, kbuf[..r])];
      assert tempvf[to][..tpos + r] == t + kbuf[..r];
      tpos, r := tpos + r, 0;
      assert kbuf[..0] == [];
    }

    method FlushFull(to: nat, ghost out: seq<Ent>, ghost size: nat)
      requires Written(to, out) && |tempvf[to]| <= size && |out| <= size
      modifies this`tempvf, this`r, this`tpos
      ensures Written(to, out) && r < nkeys && |tempvf[to]| <= size && tempvf[1 - to] == old(tempvf[1 - to])
    {
      if r >= nkeys { Flush(to, out); }
    }

    /** Files and buffers between two items of a pass. */
    ghost predicate Passing(from: nat, m: PassState)
      reads this, kbuf, kbuf1, kbuf2
    {
      && Valid() && m.unique == unique && from < 2 && tempvf[from] == Keys(m.f) && |tempvf[1 - from]| <= |m.f|
      && SideOk(m.s1, kbuf1[..], m.f, m.n) && SideOk(m.s2, kbuf2[..], m.f, m.n)
      && Written(1 - from, m.out) && r < nkeys && |m.out| <= |m.f|
    }

    /** Take the smaller of the two next items, and move on on its side. */
    method TakeNext(from: nat, s1: Side, s2: Side, n: nat, ghost m: Mid, ghost rows: Rows)
      returns (t1: Side, t2: Side, ghost e: Ent)
      requires Passing(from, m) && s1 == m.s1 && s2 == m.s2 && n == m.n && |m.out| < |m.f|
      requires AllFrom(m.f, rows) && |rows| <= TWO31
      modifies kbuf, kbuf1, kbuf2, this`r
      ensures Written(1 - from, m.out + [e])
      ensures SideOk(t1, kbuf1[..], m.f, n) && SideOk(t2, kbuf2[..], m.f, n) && Turned(m, t1, t2, e)
    {
      SomeLeft(m, kbuf1[..], kbuf2[..]);
      Chosen(m, kbuf1[..], kbuf2[..], rows);
      t1, t2 := s1, s2;
      var which := if s1.fill then true else if s2.fill then false else Qcomp(kbuf1[s1.ip], kbuf2[s2.ip], unique) > 0;
      assert which == Which(s1, s2, kbuf1[..], kbuf2[..], unique);
      if !which {
        t1, e := TakeLeft(from, s1, n, m);
      } else {
        t2, e := TakeRight(from, s2, n, m);
      }
    }

    method TakeLeft(from: nat, s: Side, n: nat, ghost m: Mid) returns (t: Side, ghost e: Ent)
      requires Passing(from, m) && s == m.s1 && n == m.n && !s.fill
      requires var a, b := Left(s, m.f, n), Left(m.s2, m.f, n);
        a != [] && Key(a[0]) == kbuf1[s.ip] && (b == [] || !Lt(b[0], a[0], unique))
      modifies kbuf, kbuf1, this`r
      ensures Written(1 - from, m.out + [e]) && SideOk(t, kbuf1[..], m.f, n) && Turned(m, t, m.s2, e)
    {
      e := Left(s, m.f, n)[0];
      Store(kbuf1[s.ip], 1 - from, e, m.out);
      t := Advance(s, from, kbuf1, n, m.f);
      TurnLeft(m, t, e);
    }

    method TakeRight(from: nat, s: Side, n: nat, ghost m: Mid) returns (t: Side, ghost e: Ent)
      requires Passing(from, m) && s == m.s2 && n == m.n && !s.fill
      requires var a, b := Left(m.s1, m.f, n), Left(s, m.f, n);
        b != [] && Key(b[0]) == kbuf2[s.ip] && (a == [] || Lt(b[0], a[0], unique))
      modifies kbuf, kbuf2, this`r
      ensures Written(1 - from, m.out + [e]) && SideOk(t, kbuf2[..], m.f, n) && Turned(m, m.s1, t, e)
    {
      e := Left(s, m.f, n)[0];
      Store(kbuf2[s.ip], 1 - from, e, m.out);
      t := Advance(s, from, kbuf2, n, m.f);
      TurnRight(m, t, e);
    }

    /** When both runs are used up, go on to the next two, as far as there are any. */
    method NextRuns(from: nat, t1: Side, t2: Side, n: nat, ghost m: Giving) returns (u1: Side, u2: Side, ghost m': Mid)
      requires Valid() && from < 2 && tempvf[from] == Keys(m.f) && t1 == m.s1 && t2 == m.s2 && n == m.n
      requires SideOk(t1, kbuf1[..], m.f, n) && SideOk(t2, kbuf2[..], m.f, n)
      modifies kbuf1, kbuf2
      ensures SideOk(u1, kbuf1[..], m.f, n) && SideOk(u2, kbuf2[..], m.f, n)
      ensures m'.s1 == u1 && m'.s2 == u2 && m'.f == m.f && m'.n == n && m'.out == m.out && m'.unique == m.unique
    {
      u1, u2 := t1, t2;
      if t1.fill && t2.fill && t1.pos < |tempvf[from]| {
        Paired(m);
        m' := NextPair(m);
        u1 := Refill(t1, from, kbuf1, n, m.f);
        u2 := Refill(t2, from, kbuf2, n, m.f);
      } else {
        m' := m;
      }
    }

    method Refill(t: Side, from: nat, buf: array<Item>, n: nat, ghost f: seq<Ent>) returns (u: Side)
      requires Valid() && from < 2 && tempvf[from] == Keys(f) && buf.Length == nkeys && n > 0 && t.fill
      modifies buf
      ensures u == Restart(t, |f|) && SideOk(u, buf[..], f, n)
    {
      u := t;
      if t.pos < |tempvf[from]| {
        u := Side(t.pos, t.pos, 0, 0, false);
        FillBuf(from, buf, t.pos, f);
      }
    }

    /** One item of a pass. */
    method MergeOne(from: nat, s1: Side, s2: Side, n: nat, ghost m: Mid, ghost rows: Rows)
      returns (u1: Side, u2: Side, ghost m': Mid)
      requires Passing(from, m) && s1 == m.s1 && s2 == m.s2 && n == m.n && |m.out| < |m.f|
      requires AllFrom(m.f, rows) && |rows| <= TWO31
      modifies kbuf, kbuf1, kbuf2, this`tempvf, this`r, this`tpos
      ensures Passing(from, m') && m'.s1 == u1 && m'.s2 == u2 && m'.f == m.f && m'.n == n && |m'.out| == |m.out| + 1
      ensures tempvf[from] == old(tempvf[from])
    {
      var t1, t2;
      ghost var e;
      t1, t2, e := TakeNext(from, s1, s2, n, m, rows);
      FlushFull(1 - from, m.out + [e], |m.f|);
      Turn(m, t1, t2, e);
      u1, u2, m' := NextRuns(from, t1, t2, n, m.(s1 := t1, s2 := t2, out := m.out + [e]));
    }

    /** One pass from one file to the other. */
    method MergePass(n: nat, from: nat, count: nat, ghost f: seq<Ent>, ghost rows: Rows)
      requires Valid() && 0 < n && from < 2 && tempvf[from] == Keys(f) && count == |f| > 0 && |tempvf[1 - from]| <= |f|
      requires AllFrom(f, rows) && |rows| <= TWO31
      modifies kbuf, kbuf1, kbuf2, this`tempvf, this`r, this`tpos
      ensures Valid() && tempvf[from] == old(tempvf[from]) && tempvf[1 - from] == Keys(Pass(f, n, unique))
    {
      var s1, s2, titms := Side(0, 0, 0, 0, false), Side(n, n, 0, 0, false), 0;
      FirstIs(f, n, unique);
      ghost var m: Mid := FirstPair(f, n, unique);
      FirstWindows(n, from, f);
      while titms < count
        invariant titms == |m.out| && m.f == f && m.n == n && s1 == m.s1 && s2 == m.s2 && Passing(from, m)
        invariant tempvf[from] == old(tempvf[from])
      {
        s1, s2, m := MergeOne(from, s1, s2, n, m, rows);
        titms := titms + 1;
      }
      FinishPass(from, m);
    }

    method FinishPass(from: nat, ghost m: Mid)
      requires Passing(from, m) && |m.out| == |m.f|
      modifies this`tempvf, this`r, this`tpos
      ensures Valid() && tempvf[from] == old(tempvf[from]) && tempvf[1 - from] == Keys(Pass(m.f, m.n, unique))
    {
      Flush(1 - from, m.out);
      AllOut(m);
      assert tempvf[1 - from] == tempvf[1 - from][..|m.out|];
    }

    method FirstWindows(n: nat, from: nat, ghost f: seq<Ent>)
      requires Valid() && 0 < n && from < 2 && tempvf[from] == Keys(f) && |tempvf[1 - from]| <= |f|
      modifies kbuf1, kbuf2, this`r, this`tpos
      ensures Passing(from, FirstPair(f, n, unique))
    {
      r, tpos := 0, 0;
      assert Keys([]) == [] && kbuf[..0] == [];
      FillBuf(from, kbuf1, 0, f);
      FillBuf(from, kbuf2, n, f);
    }

    /** Passes back and forth until one run is left; tells the file that holds it. */
    method Merge(n: nat, from: nat, count: nat, ghost f: seq<Ent>, ghost rows: Rows) returns (which: nat)
      requires Valid() && from < 2 && tempvf[from] == Keys(f) && count == |f| && |tempvf[1 - from]| <= |f|
      requires Mergeable(f, n, unique, rows)
      modifies kbuf, kbuf1, kbuf2, this`tempvf, this`r, this`tpos
      ensures Valid() && which < 2 && tempvf[which] == Keys(MergeAll(f, n, unique))
      decreases if n < count then count - n else 0
    {
      if n >= count {
        FillBuf(from, kbuf1, 0, f);
        which := from;
      } else {
        var to := 1 - from;
        MergePass(n, from, count, f, rows);
        NextPass(f, n, unique, rows);
        which := Merge(n * 2, to, count, Pass(f, n, unique), rows);
      }
    }

    /** Sort the first `nitms` items of the buffer and append them to the first file. */
    method QsortRun(nitms: nat, segment: nat, ghost pend: seq<Ent>, ghost s: seq<Ent>, ghost rows: Rows)
      returns (ghost t: seq<Ent>)
      requires Valid() && 0 < nitms <= nkeys && kbuf[..nitms] == Keys(pend) && AllFrom(pend, rows) && |rows| <= TWO31
      requires tempvf[0] == Keys(s) && |s| == segment * nkeys
      modifies keyptrs, this`tempvf
      ensures Valid() && tempvf == [Keys(s + t), old(tempvf[1])]
      ensures Ordered(t, unique) && multiset(t) == multiset(pend)
      ensures Same(pend, 0, |pend|, unique) ==> Came(pend, t, 0, |pend|)
    {
      SetPointers(nitms, pend);
      ghost var a := keyptrs[..];
      QsortRange(keyptrs, 0, nitms, unique, rows);
      SortedRun(a, keyptrs[..], pend, unique);
      FirstOfRun(a, keyptrs[..], pend, unique);
      t := keyptrs[..nitms];
      WriteRun(nitms, segment, s);
    }

    method SetPointers(nitms: nat, ghost pend: seq<Ent>)
      requires Valid() && nitms <= nkeys && kbuf[..nitms] == Keys(pend)
      modifies keyptrs
      ensures keyptrs[..][0..nitms] == pend
    {
      var i := 0;
      while i < nitms
        invariant i <= nitms && keyptrs[..i] == pend[..i]
      {
        assert kbuf[..nitms][i] == Keys(pend)[i];
        keyptrs[i] := kbuf[i].e;
        i := i + 1;
      }
      assert pend[..nitms] == pend;
    }

    method WriteRun(nitms: nat, segment: nat, ghost s: seq<Ent>)
      requires Valid() && nitms <= nkeys && tempvf[0] == Keys(s) && |s| == segment * nkeys
      modifies this`tempvf
      ensures Valid() && tempvf == [Keys(s + keyptrs[..nitms]), old(tempvf[1])]
    {
      ghost var t := keyptrs[..nitms];
      var offset, i := segment * nkeys, 0;
      assert s + t[..0] == s;
      while i < nitms
        invariant i <= nitms && Valid() && offset == |s| + i && tempvf == [Keys(s + t[..i]), old(tempvf[1])]
      {
        ghost var f := s + t[..i];
        assert Overwrite(Keys(f), offset, [Key(keyptrs[i])]) == Keys(f + [t[i]]);
        assert s + t[..i + 1] == f + [t[i]];
        tempvf := tempvf[0 := Overwrite(tempvf[0], offset, [Key(keyptrs[i])])];
        offset := offset + 1;
        i := i + 1;
      }
      assert t[..nitms] == t;
    }

    /** The buffer and the first file while records are read. */
    ghost predicate Reading(l: LoadState, nkey: nat, segment: nat)
      reads this, kbuf
    {
      && Valid() && l.nkeys == nkeys && l.unique == unique && nkey == |l.pend| <= nkeys && |l.s| == segment * nkeys
      && kbuf[..nkey] == Keys(l.pend) && tempvf == [Keys(l.s), []]
    }

    /** Put the key of the next record into the buffer. */
    method LoadKey(key: int, n: nat, nkey: nat, ghost segment: nat, ghost l: Loading) returns (ghost l': Loading)
      requires n == l.n < |l.rows| && l.rows[n] == Some(key) && Reading(l, nkey, segment) && nkey < nkeys && Single(l)
      modifies kbuf
      ensures Reading(l', nkey + 1, segment) && l'.rows == l.rows && l'.n == n + 1 && l'.s == l.s && Single(l')
    {
      LoadStep(l);
      SingleNext(l, segment);
      l' := NextLoad(l);
      ghost var was := kbuf[..nkey];
      kbuf[nkey] := Key(Ent(key, n + 1));
      assert kbuf[..nkey + 1] == was + [Key(Ent(key, n + 1))] == Keys(l'.pend);
    }

    /** The buffer as one more run. */
    method FullRun(nkey: nat, segment: nat, ghost l: Loading) returns (ghost l': Loading)
      requires Reading(l, nkey, segment) && nkey > 0 && |l.rows| <= TWO31 && Single(l)
      modifies keyptrs, this`tempvf
      ensures Single(l') && Valid() && tempvf == [Keys(l'.s), []] && l'.pend == [] && |l'.s| == |l.s| + nkey
      ensures l'.rows == l.rows && l'.n == l.n && l'.nkeys == nkeys && l'.unique == unique
      ensures nkey == nkeys ==> Reading(l', 0, segment + 1)
    {
      ghost var t := QsortRun(nkey, segment, l.pend, l.s, l.rows);
      RunAdded(l, t, segment);
      SingleRun(l, t);
      l' := l.(s := l.s + t, pend := []);
      assert kbuf[..0] == Keys([]) && (segment + 1) * nkeys == segment * nkeys + nkeys;
    }

    /** The key of one record; a full buffer is sorted and written. */
    method ReadKey(key: int, n: nat, nkey: nat, segment: nat, ghost l: Loading)
      returns (nkey': nat, segment': nat, ghost l': Loading)
      requires n == l.n < |l.rows| <= TWO31 && l.rows[n] == Some(key) && Reading(l, nkey, segment) && nkey < nkeys
      requires Single(l)
      modifies kbuf, keyptrs, this`tempvf
      ensures Single(l') && Reading(l', nkey', segment') && nkey' < nkeys && |l'.s| + nkey' == |l.s| + nkey + 1
      ensures l'.rows == l.rows && l'.n == n + 1
    {
      l' := LoadKey(key, n, nkey, segment, l);
      nkey', segment' := nkey + 1, segment;
      if nkey' == nkeys {
        l' := FullRun(nkey', segment, l');
        segment', nkey' := segment + 1, 0;
      }
    }

    /** All keys, as sorted runs on the first file. */
    method ReadKeys(rows: Rows) returns (count: nat, ghost l: Loading)
      requires Valid() && tempvf == [[], []] && |rows| <= TWO31
      modifies kbuf, keyptrs, this`tempvf
      ensures Valid() && tempvf == [Keys(l.s), []] && count == |l.s|
      ensures l.rows == rows && l.n == |rows| && l.pend == [] && l.nkeys == nkeys && l.unique == unique && Single(l)
    {
      var n: nat, nkey: nat, segment: nat := 0, 0, 0;
      assert rows[..0] == [];
      count, l := 0, LoadState([], [], rows, 0, nkeys, unique);
      assert kbuf[..0] == Keys([]);
      while n < |rows|
        invariant n <= |rows| && l.rows == rows && l.n == n && Reading(l, nkey, segment) && nkey < nkeys
        invariant count == |l.s| + nkey && Single(l)
      {
        match rows[n] {
          case None =>
            LoadStep(l);
            SingleNext(l, segment);
            l := NextLoad(l);
          case Some(key) =>
            nkey, segment, l := ReadKey(key, n, nkey, segment, l);
            count := count + 1;
        }
        n := n + 1;
      }
      if nkey > 0 { l := FullRun(nkey, segment, l); }
    }

    /** The keys of all records, NULL keys left out, sorted on the file that is returned. */
    method VSort(rows: Rows) returns (which: nat, ghost sorted: seq<Ent>)
      requires Valid() && tempvf == [[], []] && |rows| <= TWO31
      modifies this, kbuf, kbuf1, kbuf2, keyptrs
      ensures Valid() && which < 2 && tempvf[which] == Keys(sorted)
      ensures Ordered(sorted, unique) && multiset(sorted) == multiset(NonNull(rows))
      ensures var all := NonNull(rows);
        0 < |all| <= nkeys && Same(all, 0, |all|, unique) ==> Came(all, sorted, 0, |all|)
    {
      var count;
      ghost var l: Loading;
      count, l := ReadKeys(rows);
      sorted := MergeAll(l.s, nkeys, unique);
      AllLoaded(l, sorted);
      assert l.rows[..l.n] == rows;
      which := Merge(nkeys, 0, count, l.s, rows);
    }
  }

  datatype LoadState = LoadState(s: seq<Ent>, pend: seq<Ent>, rows: Rows, n: nat, nkeys: nat, unique: bool)

  /** The runs `s` written and the entries `pend` in the buffer are those of the first `n` records. */
  ghost predicate Loaded(l: LoadState) {
    && l.n <= |l.rows| && l.nkeys > 0 && Runs(l.s, l.nkeys, l.unique) && AllFrom(l.pend, l.rows)
    && multiset(l.s) + multiset(l.pend) == multiset(NonNull(l.rows[..l.n]))
  }

  type Loading = l: LoadState | Loaded(l) ghost witness LoadState([], [], [], 0, 1, false)

  /** Keys that fit in the buffer are in it, in the order of the records, or make a single run. Its
      first entry is known if they are all the same. */
  ghost predicate Single(l: LoadState) {
    l.n <= |l.rows|
    && var all := NonNull(l.rows[..l.n]);
       (|all| <= l.nkeys ==>
         if l.s == [] then l.pend == all
         else l.pend == [] && |l.s| == |all| && (Same(all, 0, |all|, l.unique) ==> Came(all, l.s, 0, |all|)))
  }

  lemma SingleNext(l: LoadState, segment: nat)
    requires l.n < |l.rows| && Single(l) && 0 < l.nkeys && |l.s| == segment * l.nkeys
    ensures Single(NextLoad(l))
  {
    NonNullStep(l.rows, l.n);
    if segment > 0 { assert |l.s| >= l.nkeys by { assert segment * l.nkeys == (segment - 1) * l.nkeys + l.nkeys; } }
  }

  lemma SingleRun(l: LoadState, t: seq<Ent>)
    requires Single(l) && l.pend != [] && |t| == |l.pend|
    requires Same(l.pend, 0, |l.pend|, l.unique) ==> Came(l.pend, t, 0, |l.pend|)
    ensures Single(l.(s := l.s + t, pend := []))
  {
    if l.s == [] { assert l.s + t == t; }
  }

  function NextLoad(l: LoadState): LoadState
    requires l.n < |l.rows|
  {
    match l.rows[l.n]
    case None => l.(n := l.n + 1)
    case Some(k) => l.(n := l.n + 1, pend := l.pend + [Ent(k, l.n + 1)])
  }

  lemma LoadStep(l: Loading)
    requires l.n < |l.rows|
    ensures Loaded(NextLoad(l))
  {
    NonNullStep(l.rows, l.n);
    if l.rows[l.n].Some? {
      var e := Ent(l.rows[l.n].v, l.n + 1);
      AddPending(l.s, l.pend, e, NonNull(l.rows[..l.n]));
      FromAdd(l.pend, e, l.rows);
    }
  }

  lemma AddPending(s: seq<Ent>, pend: seq<Ent>, e: Ent, all: seq<Ent>)
    requires multiset(s) + multiset(pend) == multiset(all)
    ensures multiset(s) + multiset(pend + [e]) == multiset(all + [e])
  {
  }

  lemma FromAdd(s: seq<Ent>, e: Ent, rows: Rows)
    requires AllFrom(s, rows) && Sorting.From(e, rows)
    ensures AllFrom(s + [e], rows)
  {
  }

  lemma NonNullStep(rows: Rows, n: nat)
    requires n < |rows|
    ensures var was, now := NonNull(rows[..n]), NonNull(rows[..n + 1]);
      now == if rows[n].None? then was else was + [Ent(rows[n].v, n + 1)]
  {
    assert rows[..n + 1][..n] == rows[..n];
    if rows[n].None? { assert NonNull(rows[..n]) + [] == NonNull(rows[..n]); }
  }

  /** A full buffer, or the last one, becomes one more run. */
  lemma RunAdded(l: Loading, t: seq<Ent>, segment: nat)
    requires |l.s| == segment * l.nkeys && |l.pend| <= l.nkeys && Ordered(t, l.unique)
      && multiset(t) == multiset(l.pend)
    ensures |t| == |l.pend| && Loaded(l.(s := l.s + t, pend := []))
  {
    assert |multiset(t)| == |multiset(l.pend)|;
    AppendRun(l.s, t, l.nkeys, segment, l.unique);
  }

  lemma {:induction false} AppendRun(s: seq<Ent>, t: seq<Ent>, n: nat, k: nat, unique: bool)
    requires n > 0 && Runs(s, n, unique) && |s| == k * n && |t| <= n && Ordered(t, unique)
    ensures Runs(s + t, n, unique)
    decreases k
  {
    if k == 0 {
      assert s + t == t;
      RunsJoin(t, [], n, unique);
      assert t + [] == t;
    } else {
      assert |s| >= n by { assert k * n == (k - 1) * n + n; }
      AppendRun(After(s, n), t, n, k - 1, unique);
      assert s + t == Part(s, 0, n) + (After(s, n) + t);
      FullJoin(Part(s, 0, n), After(s, n) + t, n, unique);
    }
  }

  lemma FullJoin(m: seq<Ent>, p: seq<Ent>, n: nat, unique: bool)
    requires n > 0 && Ordered(m, unique) && Runs(p, n, unique) && |m| == n
    ensures Runs(m + p, n, unique)
  {
    RunsJoin(m, p, n, unique);
  }

  lemma AllLoaded(l: Loading, sorted: seq<Ent>)
    requires l.pend == [] && l.n == |l.rows| && sorted == MergeAll(l.s, l.nkeys, l.unique)
    ensures AllFrom(l.s, l.rows) && Runs(l.s, l.nkeys, l.unique)
    ensures Ordered(sorted, l.unique) && multiset(sorted) == multiset(NonNull(l.rows))
  {
    assert l.rows[..l.n] == l.rows;
    assert multiset(l.s) + multiset([]) == multiset(l.s);
    MembersFrom(l.s, l.rows);
    MergeAllIs(l.s, l.nkeys, l.unique);
  }

  lemma MembersFrom(s: seq<Ent>, rows: Rows)
    requires multiset(s) == multiset(NonNull(rows))
    ensures AllFrom(s, rows)
  {
    forall i {:trigger s[i]} | 0 <= i < |s| ensures Sorting.From(s[i], rows) {
      assert s[i] in multiset(s);
      assert s[i] in NonNull(rows);
      NonNullFrom(rows, s[i]);
    }
  }

  lemma SortedRun(a: seq<Ent>, b: seq<Ent>, pend: seq<Ent>, unique: bool)
    requires |pend| <= |a| == |b| && Perm(a, b, 0, |pend|) && a[0..|pend|] == pend && InOrder(b, 0, |pend|, unique)
    ensures Ordered(b[..|pend|], unique) && multiset(b[..|pend|]) == multiset(pend)
  {
    assert b[0..|pend|] == b[..|pend|];
  }

  lemma FirstOfRun(a: seq<Ent>, b: seq<Ent>, pend: seq<Ent>, unique: bool)
    requires 0 < |pend| <= |a| == |b| && a[0..|pend|] == pend
    requires Same(a, 0, |pend|, unique) ==> Came(a, b, 0, |pend|)
    ensures Same(pend, 0, |pend|, unique) ==> Came(pend, b[..|pend|], 0, |pend|)
  {
    assert forall i :: 0 <= i < |pend| ==> pend[i] == a[i];
  }

  lemma AllOut(m: Mid)
    requires |m.out| == |m.f|
    ensures m.out == Pass(m.f, m.n, m.unique)
  {
  }

  /** Sorted runs of entries of the table. */
  ghost predicate Mergeable(f: seq<Ent>, n: nat, unique: bool, rows: Rows) {
    n > 0 && AllFrom(f, rows) && |rows| <= TWO31 && Runs(f, n, unique)
  }

  lemma NextPass(f: seq<Ent>, n: nat, unique: bool, rows: Rows)
    requires Mergeable(f, n, unique, rows) && n < |f|
    ensures Mergeable(Pass(f, n, unique), n * 2, unique, rows)
      && MergeAll(f, n, unique) == MergeAll(Pass(f, n, unique), n * 2, unique)
  {
    PassIs(f, n, unique);
    SameAllFrom(f, Pass(f, n, unique), rows);
  }

  lemma SameAllFrom(s: seq<Ent>, t: seq<Ent>, rows: Rows)
    requires AllFrom(s, rows) && multiset(t) == multiset(s)
    ensures AllFrom(t, rows)
  {
    forall i {:trigger t[i]} | 0 <= i < |t| ensures Sorting.From(t[i], rows) {
      assert t[i] in multiset(t);
      assert t[i] in s;
    }
  }
}